/** Bytes and the little-endian integers of the AMS wire format. */
module Bytes {

  type byte = x: int | 0 <= x < 256
  type uint16 = x: int | 0 <= x < 0x1_0000
  type uint32 = x: int | 0 <= x < 0x1_0000_0000
  type uint64 = x: int | 0 <= x < 0x1_0000_0000_0000_0000

  datatype Option<+T> = None | Some(value: T)

  function Pow256(n: nat): (p: nat)
    ensures p >= 1
  {
    if n == 0 then 1 else 256 * Pow256(n - 1)
  }

  /** Byte i of v, that is v >> 8i cut to eight bits. */
  function Digit(v: nat, i: nat): byte {
    v / Pow256(i) % 256
  }

  /** The n low-order bytes of v, least significant first. */
  function LE(v: nat, n: nat): (b: seq<byte>)
    ensures |b| == n
  {
    seq<byte>(n, i requires 0 <= i => Digit(v, i))
  }

  lemma LEAt(v: nat, n: nat, i: nat)
    requires i < n
    ensures LE(v, n)[i] == Digit(v, i)
  {
  }

  lemma LETail(v: nat, n: nat)
    ensures LE(v, n + 1) == [v % 256] + LE(v / 256, n)
  {
    forall i: nat | i < n
      ensures Digit(v, i + 1) == Digit(v / 256, i)
    {
      DivDiv(v, Pow256(i));
    }
    assert Digit(v, 0) == v % 256;
  }

  /** The number whose little-endian digits are b. */
  function FromLE(b: seq<byte>): (v: nat)
    ensures v < Pow256(|b|)
  {
    if b == [] then 0 else b[0] + 256 * FromLE(b[1..])
  }

  lemma Pow256Values()
    ensures Pow256(1) == 0x100 && Pow256(2) == 0x1_0000 && Pow256(4) == 0x1_0000_0000
    ensures Pow256(8) == 0x1_0000_0000_0000_0000
  {
    assert Pow256(3) == 256 * Pow256(2);
    assert Pow256(5) == 256 * Pow256(4);
    assert Pow256(6) == 256 * Pow256(5);
    assert Pow256(7) == 256 * Pow256(6);
  }

  /** Decoding an encoded number gives it back, cut to the encoded width. */
  lemma {:induction false} FromLEofLE(v: nat, n: nat)
    requires v < Pow256(n)
    ensures FromLE(LE(v, n)) == v
    decreases n
  {
    if n > 0 {
      LETail(v, n - 1);
      FromLEofLE(v / 256, n - 1);
    }
  }

  /** Encoding a decoded number gives the same bytes back. */
  lemma {:induction false} LEofFromLE(b: seq<byte>)
    ensures LE(FromLE(b), |b|) == b
  {
    if b != [] {
      LEofFromLE(b[1..]);
      LETail(FromLE(b), |b| - 1);
      assert FromLE(b) % 256 == b[0] && FromLE(b) / 256 == FromLE(b[1..]);
    }
  }

  lemma DivDiv(v: nat, p: nat)
    requires p >= 1
    ensures v / 256 / p == v / (256 * p)
  {
    var q := v / 256 / p;
    var r := v / 256 % p;
    assert v == 256 * (p * q + r) + v % 256;
    assert v == (256 * p) * q + (256 * r + v % 256);
    assert 256 * r + v % 256 < 256 * p;
    DivUnique(v, 256 * p, q, 256 * r + v % 256);
  }

  lemma MulAway(m: int, d: int)
    requires m >= 0
    ensures d >= 1 ==> m * d >= m
    ensures d <= -1 ==> m * d <= -m
  {
  }

  lemma DivUnique(v: nat, m: nat, q: nat, r: nat)
    requires m >= 1 && r < m && v == m * q + r
    ensures v / m == q && v % m == r
  {
    var d := v / m - q;
    assert m * (v / m) + v % m == v;
    assert m * d == r - v % m;
    MulAway(m, d);
  }

  /** Appending one more significant digit adds it at weight 256^i, as a left shift by 8i does. */
  lemma {:induction false} FromLESnoc(b: seq<byte>, d: byte)
    ensures FromLE(b + [d]) == FromLE(b) + d * Pow256(|b|)
  {
    if b == [] {
      assert FromLE([d]) == d + 256 * FromLE([]);
      assert [] + [d] == [d];
    } else {
      var p := Pow256(|b| - 1);
      FromLESnoc(b[1..], d);
      assert (b + [d])[1..] == b[1..] + [d];
      TimesAround(d, p);
    }
  }

  lemma TimesAround(d: nat, p: nat)
    ensures 256 * (d * p) == d * (256 * p)
  {
  }

  /** b carries x at position i. */
  predicate At(b: seq<byte>, i: nat, x: seq<byte>) {
    i + |x| <= |b| && b[i..i + |x|] == x
  }

  lemma AtConcat(b: seq<byte>, i: nat, x: seq<byte>, y: seq<byte>)
    ensures At(b, i, x + y) <==> At(b, i, x) && At(b, i + |x|, y)
  {
    if i + |x| + |y| <= |b| {
      var m := i + |x|;
      assert b[i..m + |y|] == b[i..m] + b[m..m + |y|];
      assert (x + y)[..|x|] == x && (x + y)[|x|..] == y;
      assert (b[i..m] + b[m..m + |y|])[..|x|] == b[i..m];
    }
  }

  lemma AtConcat3(b: seq<byte>, i: nat, x: seq<byte>, y: seq<byte>, z: seq<byte>)
    ensures At(b, i, x + y + z) <==> At(b, i, x) && At(b, i + |x|, y) && At(b, i + |x| + |y|, z)
  {
    AtConcat(b, i, x + y, z);
    AtConcat(b, i, x, y);
  }

  /** A number carried at position i is read back. */
  lemma NumberAt(b: seq<byte>, i: nat, v: nat, n: nat)
    requires v < Pow256(n) && At(b, i, LE(v, n))
    ensures FromLE(b[i..i + n]) == v
  {
    hide FromLE, LE, Pow256;
    FromLEofLE(v, n);
  }

  /** The 16-bit or 32-bit number at position i. */
  function Field(b: seq<byte>, i: nat, n: nat): (v: nat)
    requires i + n <= |b| && (n == 2 || n == 4)
    ensures v < if n == 2 then 0x1_0000 else 0x1_0000_0000
  {
    Pow256Values();
    FromLE(b[i..i + n])
  }

  lemma FieldAt(b: seq<byte>, i: nat, v: nat, n: nat)
    requires (n == 2 && v < 0x1_0000) || (n == 4 && v < 0x1_0000_0000)
    requires At(b, i, LE(v, n))
    ensures Field(b, i, n) == v
  {
    Pow256Values();
    NumberAt(b, i, v, n);
  }

  /** b with x in place of what was at position i. */
  function Spliced(b: seq<byte>, i: nat, x: seq<byte>): (r: seq<byte>)
    requires i + |x| <= |b|
    ensures |r| == |b|
  {
    b[..i] + x + b[i + |x|..]
  }

  lemma SplicedTwice(b: seq<byte>, i: nat, x: seq<byte>, y: seq<byte>)
    requires i + |x| + |y| <= |b|
    ensures Spliced(Spliced(b, i, x), i + |x|, y) == Spliced(b, i, x + y)
  {
  }

  /** memcpy into an array. */
  method CopyTo(a: array<byte>, at: nat, bytes: seq<byte>)
    requires at + |bytes| <= a.Length
    modifies a
    ensures a[..] == old(a[..at]) + bytes + old(a[at + |bytes|..])
  {
    forall i | 0 <= i < |bytes| {
      a[at + i] := bytes[i];
    }
  }
}
