/** Outbound IAC escaping (src/telnetutil.js) and the inbound collapse that
    the engine applies to flushed data.

    TELNET reserves the byte 0xFF (IAC, "interpret as command"); a data byte
    with that value is sent as the pair 0xFF 0xFF (RFC 854, "TELNET COMMAND
    STRUCTURE"). */
module TelnetUtil {
  import opened Bytes

  /** The reserved escape byte. */
  const IAC: byte := 0xFF

  /** Number of IAC bytes in `b`. */
  function CountIac(b: seq<byte>): nat
  {
    if |b| == 0 then 0 else (if b[0] == IAC then 1 else 0) + CountIac(b[1..])
  }

  /** The wire form of one data byte. */
  function Dup(x: byte): seq<byte>
  {
    if x == IAC then [IAC, IAC] else [x]
  }

  /** Reference definition of escaping: every byte replaced by its wire form,
      in order. */
  function Escape(b: seq<byte>): (r: seq<byte>)
    ensures |r| == |b| + CountIac(b)
  {
    if |b| == 0 then [] else Dup(b[0]) + Escape(b[1..])
  }

  /** Stand-in for `unescapeSendData`, which the engine calls but which the
      utility module does not define: each 0xFF 0xFF pair becomes one 0xFF,
      every other byte (a lone 0xFF included) is copied. */
  function Collapse(s: seq<byte>): (r: seq<byte>)
    ensures |r| <= |s|
    ensures CountIac(s) == 0 ==> r == s
  {
    if |s| == 0 then []
    else if |s| >= 2 && s[0] == IAC && s[1] == IAC then [IAC] + Collapse(s[2..])
    else [s[0]] + Collapse(s[1..])
  }

  /** `s` parses as a sequence of wire forms: every IAC is immediately
      followed by a second IAC that it pairs with. */
  predicate WellEscaped(s: seq<byte>)
  {
    if |s| == 0 then true
    else if s[0] != IAC then WellEscaped(s[1..])
    else |s| >= 2 && s[1] == IAC && WellEscaped(s[2..])
  }

  /** Length of the run of IAC bytes at the front of `s`. */
  function IacRun(s: seq<byte>): nat
  {
    if |s| > 0 && s[0] == IAC then 1 + IacRun(s[1..]) else 0
  }

  /** Every maximal run of IAC bytes in `s` has even length. */
  predicate EvenIacRuns(s: seq<byte>)
  {
    forall i :: 0 <= i < |s| && s[i] == IAC && (i == 0 || s[i - 1] != IAC) ==> IacRun(s[i..]) % 2 == 0
  }

  lemma {:induction false} CountIacConcat(a: seq<byte>, b: seq<byte>)
    ensures CountIac(a + b) == CountIac(a) + CountIac(b)
    decreases |a|
  {
    if |a| == 0 {
      assert a + b == b;
    } else {
      assert (a + b)[1..] == a[1..] + b;
      CountIacConcat(a[1..], b);
    }
  }

  /** Escaping distributes over concatenation. */
  lemma {:induction false} EscapeConcat(a: seq<byte>, b: seq<byte>)
    ensures Escape(a + b) == Escape(a) + Escape(b)
    decreases |a|
  {
    if |a| == 0 {
      assert a + b == b;
    } else {
      assert (a + b)[0] == a[0] && (a + b)[1..] == a[1..] + b;
      EscapeConcat(a[1..], b);
      assert Escape(a + b) == Dup(a[0]) + (Escape(a[1..]) + Escape(b));
    }
  }

  /** A buffer without IAC is its own escaped form. */
  lemma {:induction false} EscapeWithoutIac(b: seq<byte>)
    requires CountIac(b) == 0
    ensures Escape(b) == b
    decreases |b|
  {
    if |b| > 0 {
      EscapeWithoutIac(b[1..]);
      assert b == [b[0]] + b[1..];
    }
  }

  /** Position of input byte `k` in the escaped output: every earlier IAC
      shifts it by one. Byte `k` appears there, and an IAC is followed by its
      duplicate. */
  lemma EscapePlacement(b: seq<byte>, k: nat)
    requires k < |b|
    ensures k + CountIac(b[..k]) + |Dup(b[k])| <= |Escape(b)|
    ensures Escape(b)[k + CountIac(b[..k])] == b[k]
    ensures b[k] == IAC ==> Escape(b)[k + CountIac(b[..k]) + 1] == IAC
  {
    assert b == b[..k] + ([b[k]] + b[k + 1..]);
    EscapeConcat(b[..k], [b[k]] + b[k + 1..]);
    EscapeConcat([b[k]], b[k + 1..]);
    assert Escape([b[k]]) == Dup(b[k]);
  }

  /** The escaped form is well escaped. */
  lemma {:induction false} EscapeIsWellEscaped(b: seq<byte>)
    ensures WellEscaped(Escape(b))
    decreases |b|
  {
    if |b| > 0 {
      EscapeIsWellEscaped(b[1..]);
      var s := Escape(b);
      if b[0] == IAC {
        assert s[2..] == Escape(b[1..]);
      } else {
        assert s[1..] == Escape(b[1..]);
      }
    }
  }

  lemma {:induction false} WellEscapedFrontRunEven(s: seq<byte>)
    requires WellEscaped(s)
    ensures IacRun(s) % 2 == 0
    decreases |s|
  {
    if |s| > 0 && s[0] == IAC {
      WellEscapedFrontRunEven(s[2..]);
      assert s[1..][1..] == s[2..];
    }
  }

  /** The maximal IAC run starting at position `i` of a well-escaped
      sequence is even. */
  lemma {:induction false} WellEscapedRunEvenAt(s: seq<byte>, i: nat)
    requires WellEscaped(s)
    requires i < |s| && s[i] == IAC && (i == 0 || s[i - 1] != IAC)
    ensures IacRun(s[i..]) % 2 == 0
    decreases |s|
  {
    if i == 0 {
      assert s[i..] == s;
      WellEscapedFrontRunEven(s);
    } else if s[0] != IAC {
      var t := s[1..];
      assert t[i - 1..] == s[i..];
      WellEscapedRunEvenAt(t, i - 1);
    } else {
      var t := s[2..];
      assert t[i - 2..] == s[i..];
      WellEscapedRunEvenAt(t, i - 2);
    }
  }

  /** In a well-escaped sequence every maximal IAC run is even. */
  lemma WellEscapedRunsEven(s: seq<byte>)
    requires WellEscaped(s)
    ensures EvenIacRuns(s)
  {
    forall i | 0 <= i < |s| && s[i] == IAC && (i == 0 || s[i - 1] != IAC)
      ensures IacRun(s[i..]) % 2 == 0
    {
      WellEscapedRunEvenAt(s, i);
    }
  }

  /** The escaped output never holds an odd-length maximal run of IAC. */
  lemma EscapeRunsEven(b: seq<byte>)
    ensures EvenIacRuns(Escape(b))
  {
    EscapeIsWellEscaped(b);
    WellEscapedRunsEven(Escape(b));
  }

  /** Round trip: collapsing undoes escaping, for every buffer. */
  lemma {:induction false} CollapseEscape(b: seq<byte>)
    ensures Collapse(Escape(b)) == b
    decreases |b|
  {
    if |b| > 0 {
      CollapseEscape(b[1..]);
      var s := Escape(b);
      if b[0] == IAC {
        assert s[2..] == Escape(b[1..]);
      } else {
        assert s[1..] == Escape(b[1..]);
      }
      assert b == [b[0]] + b[1..];
    }
  }

  /** Converse round trip: on well-escaped input, escaping undoes collapsing. */
  lemma {:induction false} EscapeCollapse(s: seq<byte>)
    requires WellEscaped(s)
    ensures Escape(Collapse(s)) == s
    decreases |s|
  {
    if |s| > 0 {
      if s[0] == IAC {
        EscapeCollapse(s[2..]);
        assert Collapse(s) == [IAC] + Collapse(s[2..]);
        assert s == [IAC, IAC] + s[2..];
      } else {
        EscapeCollapse(s[1..]);
        assert Collapse(s) == [s[0]] + Collapse(s[1..]);
        assert s == [s[0]] + s[1..];
      }
    }
  }

  /** One more input byte adds its wire form to the escaped prefix, and the
      escaped prefix never outgrows the escaped whole. */
  lemma EscapePrefixStep(b: seq<byte>, i: nat)
    requires i < |b|
    ensures Escape(b[..i + 1]) == Escape(b[..i]) + Dup(b[i])
    ensures CountIac(b[..i + 1]) == CountIac(b[..i]) + |Dup(b[i])| - 1
    ensures i + 1 + CountIac(b[..i + 1]) <= |b| + CountIac(b)
  {
    assert b[..i + 1] == b[..i] + [b[i]];
    assert b == b[..i + 1] + b[i + 1..];
    CountIacConcat(b[..i], [b[i]]);
    CountIacConcat(b[..i + 1], b[i + 1..]);
    EscapeConcat(b[..i], [b[i]]);
    assert Escape([b[i]]) == Dup(b[i]);
  }

  /** `escapeSendData`: a counting pass, then (only when some IAC was seen)
      a copying pass into a fresh buffer that writes each IAC twice. Total
      on every buffer; a buffer without IAC is returned as is (which is
      `Escape` of it, by `EscapeWithoutIac`). */
  method EscapeSendData(buffer: seq<byte>) returns (r: seq<byte>)
    ensures r == Escape(buffer)
  {
    var numFF := 0;
    var i := 0;
    while i < |buffer|
      invariant 0 <= i <= |buffer|
      invariant numFF == CountIac(buffer[..i])
    {
      assert buffer[..i + 1] == buffer[..i] + [buffer[i]];
      CountIacConcat(buffer[..i], [buffer[i]]);
      if buffer[i] == IAC {
        numFF := numFF + 1;
      }
      i := i + 1;
    }
    assert buffer[..i] == buffer;

    if numFF == 0 {
      EscapeWithoutIac(buffer);
      return buffer;
    }

    var newBuf := new byte[|buffer| + numFF];
    var index := 0;
    i := 0;
    while i < |buffer|
      invariant 0 <= i <= |buffer|
      invariant index == i + CountIac(buffer[..i])
      invariant newBuf.Length == |buffer| + numFF && numFF == CountIac(buffer)
      invariant index <= newBuf.Length
      invariant newBuf[..index] == Escape(buffer[..i])
    {
      EscapePrefixStep(buffer, i);
      ghost var written := newBuf[..index];
      if buffer[i] == IAC {
        newBuf[index] := IAC;
        index := index + 1;
      }
      newBuf[index] := buffer[i];
      index := index + 1;
      assert newBuf[..index] == written + Dup(buffer[i]);
      i := i + 1;
    }
    assert buffer[..i] == buffer;
    r := newBuf[..];
  }
}
