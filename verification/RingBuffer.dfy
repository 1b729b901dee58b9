/** The circular byte buffer between the receiver thread and a notification dispatcher. */
module RingBuffers {
  import opened Bytes

  function Min(a: nat, b: nat): nat {
    if a <= b then a else b
  }

  /** The index n places after position p in an array of the given size. */
  function Advance(size: nat, p: nat, n: nat): (q: nat)
    requires p < size && n <= size
    ensures q < size && q == if p + n < size then p + n else p + n - size
  {
    Wrap(size, p + n);
    (p + n) % size
  }

  lemma Wrap(size: nat, x: nat)
    requires x < 2 * size
    ensures x % size == if x < size then x else x - size
  {
    if x >= size {
      DivUnique(x, size, 1, x - size);
    }
  }

  /** One array cell stays unused, so that write == read means empty. */
  function FreeBytes(size: nat, write: nat, read: nat): (n: nat)
    requires write < size && read < size
    ensures n < size && (n == size - 1 <==> write == read)
    ensures Advance(size, write, n + 1) == read
  {
    if write < read then read - write - 1 else size - 1 - (write - read)
  }

  function AvailableBytes(size: nat, write: nat, read: nat): (n: nat)
    requires write < size && read < size
    ensures FreeBytes(size, write, read) + n == size - 1
    ensures Advance(size, read, n) == write
  {
    size - FreeBytes(size, write, read) - 1
  }

  /** The longest run of free cells that starts at write and does not pass the end of the array. */
  function ContiguousFree(size: nat, write: nat, read: nat): (n: nat)
    requires write < size && read < size
    ensures n == Min(FreeBytes(size, write, read), size - write)
    ensures n > 0 <==> FreeBytes(size, write, read) > 0
  {
    if write < read then read - write - 1 else size - write - (if read == 0 then 1 else 0)
  }

  /** The n cells that start at index start and wrap around the end of d. */
  function Window(d: seq<byte>, start: nat, n: nat): (w: seq<byte>)
    requires start < |d| && n <= |d|
    ensures |w| == n
    ensures forall i :: 0 <= i < n ==> w[i] == d[if start + i < |d| then start + i else start + i - |d|]
  {
    if start + n <= |d| then d[start..start + n] else d[start..] + d[..start + n - |d|]
  }

  /** What the buffer holds, oldest byte first. */
  function Held(d: seq<byte>, write: nat, read: nat): (h: seq<byte>)
    requires write < |d| && read < |d|
    ensures |h| == AvailableBytes(|d|, write, read)
  {
    Window(d, read, AvailableBytes(|d|, write, read))
  }

  lemma WindowSplit(d: seq<byte>, start: nat, m: nat, n: nat)
    requires start < |d| && m + n <= |d|
    ensures Window(d, start, m + n) == Window(d, start, m) + Window(d, Advance(|d|, start, m), n)
  {
    var a, b, w := Window(d, start, m), Window(d, Advance(|d|, start, m), n), Window(d, start, m + n);
    forall i | 0 <= i < m + n
      ensures (a + b)[i] == w[i]
    {
      if i >= m {
        assert (a + b)[i] == b[i - m];
      }
    }
  }

  /** Publishing n free cells appends them; nothing already held is lost. */
  lemma PublishAppends(d: seq<byte>, write: nat, read: nat, n: nat)
    requires write < |d| && read < |d| && n <= FreeBytes(|d|, write, read)
    ensures Held(d, Advance(|d|, write, n), read) == Held(d, write, read) + Window(d, write, n)
  {
    var m := AvailableBytes(|d|, write, read);
    assert AvailableBytes(|d|, Advance(|d|, write, n), read) == m + n;
    WindowSplit(d, read, m, n);
  }

  /** Releasing n held cells drops the oldest n bytes. */
  lemma ReleaseDrops(d: seq<byte>, write: nat, read: nat, n: nat)
    requires write < |d| && read < |d| && n <= AvailableBytes(|d|, write, read)
    ensures Held(d, write, Advance(|d|, read, n)) == Held(d, write, read)[n..]
    ensures Window(d, read, n) == Held(d, write, read)[..n]
  {
    var m := AvailableBytes(|d|, write, read);
    assert AvailableBytes(|d|, write, Advance(|d|, read, n)) == m - n;
    WindowSplit(d, read, n, m - n);
  }

  /** Storing into free cells only: what is held does not change. */
  lemma StoreBehindHeld(d: seq<byte>, d': seq<byte>, write: nat, read: nat, lo: nat, hi: nat)
    requires |d'| == |d| && write < |d| && read < |d|
    requires write <= lo <= hi <= write + ContiguousFree(|d|, write, read)
    requires d'[..lo] == d[..lo] && d'[hi..] == d[hi..]
    ensures Held(d', write, read) == Held(d, write, read)
  {
    forall i | 0 <= i < |d| && !(lo <= i < hi)
      ensures d'[i] == d[i]
    {
      if i < lo {
        assert d'[i] == d'[..lo][i];
      } else {
        assert d'[i] == d'[hi..][i - hi];
      }
    }
  }

  class RingBuffer {
    const data: array<byte>
    var write: nat
    var read: nat

    ghost predicate Valid()
      reads this
    {
      write < data.Length && read < data.Length
    }

    /** The bytes written and not yet read, oldest first. */
    ghost function Contents(): (s: seq<byte>)
      requires Valid()
      reads this, data
      ensures |s| == AvailableBytes(data.Length, write, read)
    {
      Held(data[..], write, read)
    }

    constructor (N: nat)
      ensures Valid() && fresh(data)
      ensures Contents() == [] && data.Length == N + 1
    {
      data := new byte[N + 1];
      write, read := 0, 0;
    }

    function BytesFree(): (n: nat)
      requires Valid()
      reads this, data
      ensures n + |Contents()| == data.Length - 1
    {
      FreeBytes(data.Length, write, read)
    }

    function BytesAvailable(): (n: nat)
      requires Valid()
      reads this, data
      ensures n == |Contents()|
    {
      AvailableBytes(data.Length, write, read)
    }

    function WriteChunk(): (n: nat)
      requires Valid()
      reads this, data
      ensures n <= BytesFree() && (n > 0 <==> BytesFree() > 0)
      ensures n == Min(FreeBytes(data.Length, write, read), data.Length - write)
    {
      ContiguousFree(data.Length, write, read)
    }

    /** Publishes n bytes that were stored from write onwards. The precondition is the assertion in the code. */
    method Write(n: nat)
      requires Valid() && n <= BytesFree()
      modifies this`write
      ensures Valid()
      ensures Contents() == old(Contents()) + Window(data[..], old(write), n)
      ensures write == Advance(data.Length, old(write), n)
    {
      PublishAppends(data[..], write, read, n);
      write := Advance(data.Length, write, n);
    }

    /** Skips n bytes. The precondition is the assertion in the code. */
    method Read(n: nat)
      requires Valid() && n <= BytesAvailable()
      modifies this`read
      ensures Valid() && Contents() == old(Contents())[n..]
    {
      ReleaseDrops(data[..], write, read, n);
      read := Advance(data.Length, read, n);
    }

    /** Takes a little-endian integer of the given number of bytes from the front. */
    method ReadFromLittleEndian(width: nat) returns (result: nat)
      requires Valid() && width <= BytesAvailable()
      modifies this`read
      ensures Valid() && Contents() == old(Contents())[width..]
      ensures result == FromLE(old(Contents())[..width])
    {
      result := 0;
      ghost var was := Contents();
      hide FromLE, RingBuffer.Contents, RingBuffer.Valid, RingBuffer.BytesAvailable;
      for i := 0 to width
        invariant Valid() && Contents() == was[i..]
        invariant result == FromLE(was[..i])
      {
        var b := TakeByte();
        assert was[i..][0] == was[i] && b == was[i];
        FromLESnoc(was[..i], was[i]);
        assert was[..i + 1] == was[..i] + [was[i]];
        result := result + b * Pow256(i);
        assert was[i..][1..] == was[i + 1..];
      }
    }

    method TakeByte() returns (b: byte)
      requires Valid() && Contents() != []
      modifies this`read
      ensures Valid() && [b] + Contents() == old(Contents())
    {
      ghost var was := Contents();
      ReleaseDrops(data[..], write, read, 1);
      b := data[read];
      assert b == Window(data[..], read, 1)[0] == was[..1][0];
      hide Window, AvailableBytes;
      read := Advance(data.Length, read, 1);
      assert was == was[..1] + was[1..];
    }
  }
}
