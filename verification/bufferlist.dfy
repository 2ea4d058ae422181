/** `BufferList` (src/bufferlist.js): an ordered list of byte chunks that is
    read as though the chunks were one concatenated buffer. */
module Buffers {
  import opened Bytes
  import opened Outcomes

  datatype BufferList = BufferList(chunks: seq<seq<byte>>)

  /** `get` was asked for a position outside the logical buffer. */
  datatype IndexError = IndexOutOfRange(index: int)

  /** The concatenation of the chunks, in order. */
  function Flatten(cs: seq<seq<byte>>): seq<byte>
  {
    if |cs| == 0 then [] else cs[0] + Flatten(cs[1..])
  }

  /** The logical buffer a list presents. */
  function Contents(bl: BufferList): seq<byte>
  {
    Flatten(bl.chunks)
  }

  lemma {:induction false} FlattenConcat(a: seq<seq<byte>>, b: seq<seq<byte>>)
    ensures Flatten(a + b) == Flatten(a) + Flatten(b)
    decreases |a|
  {
    if |a| == 0 {
      assert a + b == b;
    } else {
      assert (a + b)[1..] == a[1..] + b;
      FlattenConcat(a[1..], b);
    }
  }

  /** `new BufferList()`. */
  function New(): (bl: BufferList)
    ensures Contents(bl) == []
  {
    BufferList([])
  }

  /** The reduction behind the `length` getter: the running sum of the chunk
      lengths. */
  function SumLengths(cs: seq<seq<byte>>): (n: nat)
    ensures n == |Flatten(cs)|
  {
    if |cs| == 0 then 0 else |cs[0]| + SumLengths(cs[1..])
  }

  /** `length`: the number of bytes in the logical buffer. */
  function Length(bl: BufferList): (n: nat)
    ensures n == |Contents(bl)|
  {
    SumLengths(bl.chunks)
  }

  /** `push(c)`: `c` follows the existing content; nothing before it moves. */
  function Push(bl: BufferList, c: seq<byte>): (r: BufferList)
    ensures Contents(r) == Contents(bl) + c
    ensures Length(r) == Length(bl) + |c|
  {
    FlattenConcat(bl.chunks, [c]);
    assert Flatten([c]) == c + Flatten([]);
    BufferList(bl.chunks + [c])
  }

  /** `clear()`: the list presents an empty buffer afterwards. */
  function Clear(bl: BufferList): (r: BufferList)
    ensures Length(r) == 0
    ensures Contents(r) == []
  {
    BufferList([])
  }

  /** Pushing an empty chunk changes nothing `length`, `get` or `getBuffer`
      can observe. */
  lemma PushEmptyUnobservable(bl: BufferList)
    ensures Contents(Push(bl, [])) == Contents(bl)
    ensures Length(Push(bl, [])) == Length(bl)
  {
  }

  /** Clearing twice is clearing once. */
  lemma ClearIdempotent(bl: BufferList)
    ensures Clear(Clear(bl)) == Clear(bl)
    ensures Contents(Clear(Clear(bl))) == []
  {
  }

  /** `get(index)`: walks the chunks, subtracting each skipped chunk's length
      from the index. Fails exactly when the index lies outside the logical
      buffer, and otherwise returns the byte the concatenation holds there. */
  method Get(bl: BufferList, index: int) returns (r: Result<byte, IndexError>)
    ensures r.Fail? <==> index < 0 || index >= Length(bl)
    ensures 0 <= index < Length(bl) ==> r == Ok(Contents(bl)[index])
  {
    if index < 0 {
      return Fail(IndexOutOfRange(index));
    }
    var rest := index;
    var i := 0;
    assert bl.chunks[0..] == bl.chunks;
    while i < |bl.chunks|
      invariant 0 <= i <= |bl.chunks|
      invariant 0 <= rest
      invariant index < Length(bl) <==> rest < |Flatten(bl.chunks[i..])|
      invariant index < Length(bl) ==> Contents(bl)[index] == Flatten(bl.chunks[i..])[rest]
    {
      var buf := bl.chunks[i];
      assert bl.chunks[i..][1..] == bl.chunks[i + 1..];
      if rest < |buf| {
        return Ok(buf[rest]);
      }
      rest := rest - |buf|;
      i := i + 1;
    }
    return Fail(IndexOutOfRange(index));
  }

  /** `getBuffer()`: copies the chunks one after another into a single
      buffer of `length` bytes. */
  method GetBuffer(bl: BufferList) returns (r: seq<byte>)
    ensures r == Contents(bl)
    ensures |r| == Length(bl)
  {
    r := [];
    var i := 0;
    assert bl.chunks[0..] == bl.chunks;
    while i < |bl.chunks|
      invariant 0 <= i <= |bl.chunks|
      invariant r + Flatten(bl.chunks[i..]) == Contents(bl)
    {
      assert bl.chunks[i..][1..] == bl.chunks[i + 1..];
      r := r + bl.chunks[i];
      i := i + 1;
    }
  }

  /** Stand-in for `pop(n)`, which the engine calls but the list does not
      define: removes the last `n` bytes of the logical buffer, walking from
      the last chunk toward the front; a chunk it only partly removes is
      replaced by its shortened prefix, and interior chunks are untouched. */
  function PopTail(bl: BufferList, n: nat): (r: BufferList)
    requires n <= Length(bl)
    ensures Contents(r) == Contents(bl)[..Length(bl) - n]
    ensures Length(r) == Length(bl) - n
    decreases |bl.chunks|
  {
    if n == 0 then bl
    else
      var cs := bl.chunks;
      var front := cs[..|cs| - 1];
      var last := cs[|cs| - 1];
      assert cs == front + [last];
      FlattenConcat(front, [last]);
      assert Flatten([last]) == last + Flatten([]);
      if n < |last| then
        var shortened := last[..|last| - n];
        FlattenConcat(front, [shortened]);
        assert Flatten([shortened]) == shortened + Flatten([]);
        BufferList(front + [shortened])
      else
        PopTail(BufferList(front), n - |last|)
  }
}
