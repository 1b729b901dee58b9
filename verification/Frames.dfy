/** The buffer in which AMS frames are built back to front and taken apart front to back. */
module Frames {
  import opened Bytes

  class Frame {
    var data: array<byte>
    var pos: nat
    var size: nat
    var originalSize: nat

    ghost predicate Valid()
      reads this
    {
      pos <= size <= data.Length && originalSize == data.Length
    }

    /** The bytes of the frame. */
    ghost function Contents(): (s: seq<byte>)
      requires Valid()
      reads this, data
      ensures |s| == size - pos
    {
      data[pos..size]
    }

    /** An empty frame with room for length bytes in front. */
    constructor (length: nat)
      ensures Valid() && fresh(data) && data.Length == length
      ensures Contents() == [] && pos == length
    {
      data := new byte[length];
      pos, size, originalSize := length, length, length;
    }

    /** A frame that starts out with the given bytes. */
    constructor Of(bytes: seq<byte>)
      ensures Valid() && fresh(data) && data.Length == |bytes|
      ensures Contents() == bytes && pos == 0
    {
      data := new byte[|bytes|](i requires 0 <= i < |bytes| => bytes[i]);
      pos, size, originalSize := 0, |bytes|, |bytes|;
    }

    function Capacity(): nat
      reads this
    {
      size
    }

    function Size(): (n: nat)
      requires Valid()
      reads this, data
      ensures n == |Contents()|
    {
      size - pos
    }

    /** Puts bytes in front. When they do not fit before pos, everything moves to a larger buffer. */
    method Prepend(bytes: seq<byte>)
      requires Valid()
      modifies this, data
      ensures Valid() && Contents() == bytes + old(Contents())
      ensures |bytes| <= old(pos) ==> data == old(data) && size == old(size) && pos == old(pos) - |bytes|
      ensures |bytes| > old(pos) ==> fresh(data) && pos == old(pos) && data.Length == size == old(size) + |bytes|
    {
      ghost var rest := Contents();
      if |bytes| > pos {
        Grow(|bytes|);
      } else {
        pos := pos - |bytes|;
      }
      ghost var before := data[..];
      assert before[pos + |bytes|..size] == rest;
      CopyTo(data, pos, bytes);
      Overwritten(before, pos, bytes, size);
      assert data[..][pos..size] == data[pos..size];
    }

    static lemma Overwritten(before: seq<byte>, pos: nat, bytes: seq<byte>, size: nat)
      requires pos + |bytes| <= size <= |before|
      ensures (before[..pos] + bytes + before[pos + |bytes|..])[pos..size] == bytes + before[pos + |bytes|..size]
    {
    }

    /** A buffer with n more bytes, which lie free in front of the old contents. */
    method Grow(n: nat)
      requires Valid()
      modifies this
      ensures Valid() && fresh(data) && data.Length == size == old(size) + n && pos == old(pos)
      ensures data[pos + n..] == old(Contents())
    {
      var newData: array<byte> := new byte[n + size];
      CopyTo(newData, pos + n, data[pos..size]);
      size := size + n;
      data := newData;
      originalSize := size;
    }

    /** Drops numBytes from the front, or everything when there are fewer. */
    method Remove(numBytes: nat)
      requires Valid()
      modifies this`pos
      ensures Valid()
      ensures Contents() == if numBytes <= |old(Contents())| then old(Contents())[numBytes..] else []
    {
      pos := if pos + numBytes < size then pos + numBytes else size;
    }

    method Clear()
      requires Valid()
      modifies this`pos
      ensures Valid() && Contents() == []
    {
      Remove(Size());
    }

    /** Turns the first newSize bytes of the raw buffer into the frame. */
    method Limit(newSize: nat)
      requires Valid()
      modifies this`pos, this`size
      ensures Valid() && pos == 0 && size == if old(size) <= newSize then old(size) else newSize
      ensures Contents() == data[..size]
    {
      size := if size <= newSize then size else newSize;
      pos := 0;
    }

    /** Makes room for newSize bytes and empties the frame; without memory it keeps the old buffer. */
    method Reset(newSize: nat, memory: bool)
      requires Valid()
      modifies this
      ensures Valid() && Contents() == [] && size == data.Length
      ensures newSize > old(data.Length) && memory ==> fresh(data) && data.Length == newSize
      ensures newSize <= old(data.Length) || !memory ==> data == old(data)
    {
      if newSize > originalSize && memory {
        data := new byte[newSize];
        originalSize := newSize;
      }
      size := originalSize;
      pos := size;
    }

    /** Takes a little-endian number of the given width off the front. The code compares the width with the capacity,
        not with what is left of the frame, so it may read bytes behind the frame. None when it reads behind its buffer,
        which is where the model stops. */
    method PopLetoh(width: nat) returns (v: Option<nat>)
      requires Valid()
      modifies this`pos
      ensures Valid() && v == Popped(data[..], old(pos), size, width)
      ensures pos == if v.Some? then Beyond(old(pos), width, size) else old(pos)
      ensures v.Some? ==> Contents() == if width <= |old(Contents())| then old(Contents())[width..] else []
      ensures width <= |old(Contents())| ==> v == Some(FromLE(old(Contents())[..width]))
    {
      var value := 0;
      if width <= Capacity() {
        if pos + width > data.Length {
          return None;
        }
        assert width <= Size() ==> data[pos..pos + width] == Contents()[..width];
        assert data[pos..pos + width] == data[..][pos..pos + width];
        value := FromLE(data[pos..pos + width]);
      }
      Remove(width);
      v := Some(value);
    }

    /** What a datagram read does to the frame: the received bytes become its content. */
    method Receive(datagram: seq<byte>)
      requires Valid() && |datagram| <= size
      modifies this`pos, this`size, data
      ensures Valid() && Contents() == datagram && data == old(data)
      ensures datagram != [] ==> size == |datagram|
      ensures datagram == [] ==> size == old(size)
    {
      CopyTo(data, 0, datagram);
      if |datagram| > 0 {
        Limit(|datagram|);
      } else {
        Clear();
      }
    }
  }

  // ---- Numbers from short frames ---------------------------------------------------------------

  /** Dropping n bytes at position i of a frame that ends at size. */
  function Beyond(i: nat, n: nat, size: nat): (k: nat)
    requires i <= size
    ensures i <= k <= size
  {
    if i + n < size then i + n else size
  }

  /** What popping a number of the given width yields, for a frame that is raw[pos..size]; None when the bytes are not
      even in the buffer. */
  function Popped(raw: seq<byte>, pos: nat, size: nat, width: nat): Option<nat> {
    if width > size then Some(0)
    else if pos + width <= |raw| then Some(FromLE(raw[pos..pos + width]))
    else None
  }

  /** A frame that is too short yields the documented default, whatever lies behind it, iff the capacity is too small as
      well. */
  lemma ShortPopIsDefaultIff(pos: nat, size: nat, length: nat, width: nat)
    requires pos <= size <= length && size - pos < width
    ensures (forall raw: seq<byte> :: |raw| == length ==> Popped(raw, pos, size, width) == Some(0)) <==> width > size
  {
    if width <= size {
      var raw := seq<byte>(length, _ => 1);
      assert pos + width <= length ==> raw[pos..pos + width][0] == 1;
      assert Popped(raw, pos, size, width) != Some(0);
    }
  }

  // ---- Headers on top of each other ------------------------------------------------------------

  /** The content after prepending all of hs, the first one first. */
  function Stacked(hs: seq<seq<byte>>, base: seq<byte>): seq<byte> {
    if hs == [] then base else Stacked(hs[1..], hs[0] + base)
  }

  /** Taking off parts of the given sizes: the parts, and what is left. */
  function Unstack(sizes: seq<nat>, s: seq<byte>): (seq<seq<byte>>, seq<byte>) {
    if sizes == [] then ([], s)
    else
      var n := if sizes[0] <= |s| then sizes[0] else |s|;
      var (parts, rest) := Unstack(sizes[1..], s[n..]);
      ([s[..n]] + parts, rest)
  }

  function Reverse<T>(s: seq<T>): (r: seq<T>)
    ensures |r| == |s|
    ensures forall i :: 0 <= i < |s| ==> r[i] == s[|s| - 1 - i]
  {
    if s == [] then [] else Reverse(s[1..]) + [s[0]]
  }

  function Sizes(hs: seq<seq<byte>>): (r: seq<nat>)
    ensures |r| == |hs|
    ensures forall i :: 0 <= i < |hs| ==> r[i] == |hs[i]|
  {
    if hs == [] then [] else [|hs[0]|] + Sizes(hs[1..])
  }

  lemma {:induction false} StackedSnoc(hs: seq<seq<byte>>, h: seq<byte>, base: seq<byte>)
    ensures Stacked(hs + [h], base) == h + Stacked(hs, base)
  {
    if hs == [] {
      assert hs + [h] == [h];
      assert Stacked([h], base) == Stacked([h][1..], h + base);
    } else {
      assert (hs + [h])[1..] == hs[1..] + [h];
      StackedSnoc(hs[1..], h, hs[0] + base);
    }
  }

  /** Headers come off in the reverse of the order in which they were put on, each with its own bytes. */
  lemma {:induction false} UnstackStacked(hs: seq<seq<byte>>, base: seq<byte>)
    ensures Unstack(Reverse(Sizes(hs)), Stacked(hs, base)) == (Reverse(hs), base)
    decreases |hs|
  {
    if hs != [] {
      var init, last := hs[..|hs| - 1], hs[|hs| - 1];
      assert hs == init + [last];
      StackedSnoc(init, last, base);
      UnstackStacked(init, base);
      var sizes := Reverse(Sizes(hs));
      assert sizes[0] == |last| && sizes[1..] == Reverse(Sizes(init));
      var s := Stacked(hs, base);
      assert s[..|last|] == last && s[|last|..] == Stacked(init, base);
      assert Reverse(hs) == [last] + Reverse(init);
    }
  }
}
