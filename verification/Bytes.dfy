/** Byte strings: padding, and big-endian numbers of a fixed width. */
module Bytes {
  import opened Arith

  type byte = bv8
  type Data = seq<byte>

  function Zeros(n: nat): (z: Data)
    ensures |z| == n && forall i :: 0 <= i < n ==> z[i] == 0
  {
    seq(n, i => 0)
  }

  /** The data followed by zeros up to the given size. */
  function Pad(data: Data, size: nat): (p: Data)
    requires |data| <= size
    ensures |p| == size
  {
    data + Zeros(size - |data|)
  }

  lemma PadAt(data: Data, size: nat, i: nat)
    requires |data| <= size && i < size
    ensures Pad(data, size)[i] == if i < |data| then data[i] else 0
  {
  }

  lemma SliceOfSlice(s: Data, i: nat, j: nat, k: nat, l: nat)
    requires i <= j <= |s| && k <= l <= j - i
    ensures s[i..j][k..l] == s[i + k..i + l]
  {
    forall x | 0 <= x < l - k ensures s[i..j][k..l][x] == s[i + k..i + l][x] {
      assert s[i..j][k..l][x] == s[i..j][k + x] == s[i + k + x];
    }
  }

  function ToByte(v: nat): byte
    requires v < 256
  {
    v as bv8
  }

  function FromByte(b: byte): (v: nat)
    ensures v < 256
  {
    b as nat
  }

  lemma NibbleRoundTrip(v: nat)
    requires v < 16
    ensures v as bv8 < 16 && (v as bv8) as nat == v
  {
  }

  lemma JoinNibbles(h: byte, l: byte)
    requires h < 16 && l < 16
    ensures ((h << 4) | l) as nat == 16 * (h as nat) + (l as nat)
  {
  }

  lemma OnlyByteOf(b: byte, v: nat)
    requires b as nat == v && v < 256
    ensures v as bv8 == b
  {
  }

  lemma ByteRoundTrip(v: nat)
    requires v < 256
    ensures FromByte(ToByte(v)) == v
  {
    var h, l := v / 16, v % 16;
    NibbleRoundTrip(h);
    NibbleRoundTrip(l);
    JoinNibbles(h as bv8, l as bv8);
    OnlyByteOf(((h as bv8) << 4) | (l as bv8), v);
  }

  lemma ByteInjective(b: byte)
    ensures ToByte(FromByte(b)) == b
  {
  }

  // ---------------------------------------------------------------- digits

  function Pow256(n: nat): (p: nat)
    ensures p > 0
  {
    if n == 0 then 1 else 256 * Pow256(n - 1)
  }

  type Digit = d: nat | d < 256

  /** The low n digits of v to the base 256, most significant first. */
  function Digits(v: nat, n: nat): (d: seq<Digit>)
    ensures |d| == n
  {
    if n == 0 then [] else Digits(v / 256, n - 1) + [v % 256]
  }

  function Value(d: seq<Digit>): (v: nat)
    ensures v < Pow256(|d|)
  {
    if d == [] then 0
    else
      var hi := Value(d[..|d| - 1]);
      assert hi * 256 + 255 < Pow256(|d|);
      hi * 256 + d[|d| - 1]
  }

  lemma {:induction false} ValueOfDigits(v: nat, n: nat)
    requires v < Pow256(n)
    ensures Value(Digits(v, n)) == v
  {
    if n > 0 {
      ValueOfDigits(v / 256, n - 1);
      var d := Digits(v, n);
      assert d[..n - 1] == Digits(v / 256, n - 1) && d[n - 1] == v % 256;
    }
  }

  lemma {:induction false} DigitsOfValue(d: seq<Digit>)
    ensures Digits(Value(d), |d|) == d
  {
    if d != [] {
      var front, last := d[..|d| - 1], d[|d| - 1];
      DigitsOfValue(front);
      assert Value(d) / 256 == Value(front) && Value(d) % 256 == last;
      assert d == front + [last];
    }
  }

  // ---------------------------------------------------------------- digits as bytes

  function ToBytes(d: seq<Digit>): (b: Data)
    ensures |b| == |d|
  {
    if d == [] then [] else ToBytes(d[..|d| - 1]) + [ToByte(d[|d| - 1])]
  }

  function FromBytes(b: Data): (d: seq<Digit>)
    ensures |d| == |b|
  {
    if b == [] then [] else FromBytes(b[..|b| - 1]) + [FromByte(b[|b| - 1])]
  }

  lemma {:induction false} FromToBytes(d: seq<Digit>)
    ensures FromBytes(ToBytes(d)) == d
  {
    if d != [] {
      var front, last := d[..|d| - 1], d[|d| - 1];
      FromToBytes(front);
      ByteRoundTrip(last);
      FromBytesAppend(ToBytes(front), ToByte(last));
      assert d == front + [last];
    }
  }

  lemma FromBytesAppend(b: Data, x: byte)
    ensures FromBytes(b + [x]) == FromBytes(b) + [FromByte(x)]
  {
    assert (b + [x])[..|b|] == b;
  }

  lemma {:induction false} ToFromBytes(b: Data)
    ensures ToBytes(FromBytes(b)) == b
  {
    if b != [] {
      var front, last := b[..|b| - 1], b[|b| - 1];
      ToFromBytes(front);
      ByteInjective(last);
      ToBytesAppend(FromBytes(front), FromByte(last));
      assert b == front + [last];
    }
  }

  lemma ToBytesAppend(d: seq<Digit>, x: Digit)
    ensures ToBytes(d + [x]) == ToBytes(d) + [ToByte(x)]
  {
    assert (d + [x])[..|d|] == d;
  }

  // ---------------------------------------------------------------- numbers

  /** The low n bytes of v, most significant first. */
  function BigEndian(v: nat, n: nat): (b: Data)
    ensures |b| == n
  {
    if n == 0 then [] else BigEndian(v / 256, n - 1) + [ToByte(v % 256)]
  }

  function Number(b: Data): (v: nat)
    ensures v < Pow256(|b|)
  {
    if b == [] then 0
    else
      var hi := Number(b[..|b| - 1]);
      assert hi * 256 + 255 < Pow256(|b|);
      hi * 256 + FromByte(b[|b| - 1])
  }

  lemma {:induction false} BigEndianIsDigits(v: nat, n: nat)
    ensures BigEndian(v, n) == ToBytes(Digits(v, n))
  {
    if n > 0 {
      BigEndianIsDigits(v / 256, n - 1);
      ToBytesAppend(Digits(v / 256, n - 1), v % 256);
    }
  }

  lemma {:induction false} NumberIsValue(b: Data)
    ensures Number(b) == Value(FromBytes(b))
  {
    if b != [] {
      var n, d := |b| - 1, FromBytes(b);
      NumberIsValue(b[..n]);
      assert d[..n] == FromBytes(b[..n]) && d[n] == FromByte(b[n]);
    }
  }

  lemma BigEndianRoundTrip(v: nat, n: nat)
    requires v < Pow256(n)
    ensures Number(BigEndian(v, n)) == v
  {
    BigEndianIsDigits(v, n);
    NumberIsValue(BigEndian(v, n));
    FromToBytes(Digits(v, n));
    ValueOfDigits(v, n);
  }

  lemma NumberRoundTrip(b: Data)
    ensures BigEndian(Number(b), |b|) == b
  {
    NumberIsValue(b);
    BigEndianIsDigits(Number(b), |b|);
    DigitsOfValue(FromBytes(b));
    ToFromBytes(b);
  }

  /** Byte i is the digit of the power 256^(n - 1 - i). */
  lemma {:induction false} BigEndianAt(v: nat, n: nat, i: nat)
    requires i < n
    ensures BigEndian(v, n)[i] == ToByte(v / Pow256(n - 1 - i) % 256)
    decreases n
  {
    if i < n - 1 {
      BigEndianAt(v / 256, n - 1, i);
      DivDiv(v, 256, Pow256(n - 2 - i));
    }
  }
}
