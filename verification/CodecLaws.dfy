/** What encoder and decoder promise together. */
module CodecLaws {
  import opened Arith
  import opened Bytes
  import opened BlobCodec
  import opened BlobEncoder

  const BLS_MODULUS: nat := 0x73eda753299d7d483339d80809a1d80553bda402fffe5bfeffffffff00000001

  lemma FirstByteClear(d: Data)
    requires |d| <= MAX_BLOB_DATA_SIZE
    ensures Masked(Encoded(d)) == Encoded(d)
  {
    EncodedElementClear(d, 0);
    SameJoin(Encoded(d)[0], 0);
  }

  // ---------------------------------------------------------------- the format

  /** Byte i of what is encoded: a version byte, the length in three bytes, the data, zeros. */
  function StreamByte(d: Data, i: nat): byte
    requires |d| < 0x100_0000
  {
    if i == 0 then 0
    else if i == 1 then ToByte(|d| / 0x1_0000)
    else if i == 2 then ToByte(|d| / 0x100 % 0x100)
    else if i == 3 then ToByte(|d| % 0x100)
    else if i < 4 + |d| then d[i - 4]
    else 0
  }

  lemma StreamAt(d: Data, i: nat)
    requires |d| <= MAX_BLOB_DATA_SIZE && i < STREAM_SIZE
    ensures Stream(d)[i] == StreamByte(d, i)
  {
    LengthBytes(|d|);
    var head := Header(|d|);
    assert head == [0, ToByte(|d| / 0x1_0000), ToByte(|d| / 0x100 % 0x100), ToByte(|d| % 0x100)];
  }

  lemma EncodedAt(d: Data, r: nat, k: nat)
    requires |d| <= MAX_BLOB_DATA_SIZE && r < ROUNDS && k < 128
    ensures 127 * r + 126 < STREAM_SIZE && 128 * r + 127 < BLOB_SIZE
    ensures Encoded(d)[128 * r + k] == EncodeRound(Part(Stream(d), r, 127))[k]
  {
    EncodedPart(Stream(d), ROUNDS, r);
    assert Part(Encoded(d), r, 128)[k] == Encoded(d)[r * 128 + k];
  }

  lemma PartAt(d: Data, r: nat, j: nat)
    requires |d| <= MAX_BLOB_DATA_SIZE && r < ROUNDS && j < 127
    ensures (r + 1) * 127 <= STREAM_SIZE && Part(Stream(d), r, 127)[j] == StreamByte(d, 127 * r + j)
  {
    MulMonotone(r + 1, ROUNDS, 127);
    assert Part(Stream(d), r, 127)[j] == Stream(d)[r * 127 + j];
    StreamAt(d, 127 * r + j);
  }

  /** Which bits of three bytes go where. */
  lemma TopBits(x: byte, y: byte, z: byte)
    ensures TopA(x) == x & 0x3F && TopC(z) == z & 0x3F
    ensures TopB(x, y) & 0x0F == y & 0x0F && TopB(x, y) >> 4 == x >> 6
    ensures TopD(y, z) & 0x0F == y >> 4 && TopD(y, z) >> 4 == z >> 6
  {
  }

  /**
   The top bytes of round r: the low six bits of byte 31, the low half of byte 63 under the high two bits of byte 31,
   the low six bits of byte 95, and the high half of byte 63 under the high two bits of byte 95.
   */
  lemma TopsFormat(d: Data, r: nat)
    requires |d| <= MAX_BLOB_DATA_SIZE && r < ROUNDS
    ensures 128 * r + 127 < BLOB_SIZE
    ensures var b := Encoded(d);
            var x, y, z := StreamByte(d, 127 * r + 31), StreamByte(d, 127 * r + 63), StreamByte(d, 127 * r + 95);
            && b[128 * r] == x & 0x3F
            && b[128 * r + 32] & 0x0F == y & 0x0F && b[128 * r + 32] >> 4 == x >> 6
            && b[128 * r + 64] == z & 0x3F
            && b[128 * r + 96] & 0x0F == y >> 4 && b[128 * r + 96] >> 4 == z >> 6
  {
    EncodedTops(d, r);
    TopBits(StreamByte(d, 127 * r + 31), StreamByte(d, 127 * r + 63), StreamByte(d, 127 * r + 95));
  }

  lemma EncodedTops(d: Data, r: nat)
    requires |d| <= MAX_BLOB_DATA_SIZE && r < ROUNDS
    ensures 128 * r + 127 < BLOB_SIZE
    ensures var b := Encoded(d);
            var x, y, z := StreamByte(d, 127 * r + 31), StreamByte(d, 127 * r + 63), StreamByte(d, 127 * r + 95);
            && b[128 * r] == TopA(x) && b[128 * r + 32] == TopB(x, y)
            && b[128 * r + 64] == TopC(z) && b[128 * r + 96] == TopD(y, z)
  {
    PartAt(d, r, 31);
    PartAt(d, r, 63);
    PartAt(d, r, 95);
    var c := Part(Stream(d), r, 127);
    EncodedAt(d, r, 0);
    EncodedByte(c, 0);
    EncodedAt(d, r, 32);
    EncodedByte(c, 32);
    EncodedAt(d, r, 64);
    EncodedByte(c, 64);
    EncodedAt(d, r, 96);
    EncodedByte(c, 96);
  }

  /** Every other byte of the blob is a byte of what is encoded. */
  lemma RestFormat(d: Data, r: nat, k: nat)
    requires |d| <= MAX_BLOB_DATA_SIZE && r < ROUNDS && k < 128 && k % 32 != 0
    ensures 128 * r + 127 < BLOB_SIZE && Encoded(d)[128 * r + k] == StreamByte(d, 127 * r + k - 1)
  {
    EncodedAt(d, r, k);
    PartAt(d, r, k - 1);
    OtherByte(Part(Stream(d), r, 127), k);
  }

  lemma OtherByte(c: Data, k: nat)
    requires |c| == 127 && k < 128 && k % 32 != 0
    ensures EncodeRound(c)[k] == c[k - 1]
  {
    EncodedByte(c, k);
  }

  // ---------------------------------------------------------------- what is refused

  /** The length as the three bytes give it. */
  function LengthOf(b: Data): nat
    requires |b| == BLOB_SIZE
  {
    FromByte(b[2]) * 0x1_0000 + FromByte(b[3]) * 0x100 + FromByte(b[4])
  }

  lemma LengthFieldIs(b: Data)
    requires |b| == BLOB_SIZE
    ensures LengthField(b) == LengthOf(b)
  {
    var f := b[2..5];
    assert f[..2] == [b[2], b[3]] && f[..2][..1] == [b[2]] && f[..2][..1][..0] == [];
    assert Number([b[2]]) == FromByte(b[2]);
    assert Number([b[2], b[3]]) == FromByte(b[2]) * 256 + FromByte(b[3]);
    assert Number(f) == Number(f[..2]) * 256 + FromByte(b[4]);
  }

  /** The rounds that hold version, length and data; the first is always looked at. */
  predicate Needs(len: nat, rounds: nat) {
    rounds >= 1 && 4 + len <= 127 * rounds && (rounds > 1 ==> 127 * (rounds - 1) < 4 + len)
  }

  lemma RoundsNeeded(len: nat, rounds: nat)
    requires Needs(len, rounds)
    ensures RoundsFor(len) == rounds
  {
  }

  /** Which error is returned, and exactly when: they are looked for in this order. */
  lemma DecodeErrors(b: Data, rounds: nat)
    requires |b| == BLOB_SIZE && Needs(LengthOf(b), rounds)
    ensures var len, r := LengthOf(b), ToDataResult(b);
            if b[1] != 0 then r == Err(InvalidEncodingVersion)
            else if len > 130044 then r == Err(InvalidLength)
            else if exists fe: nat :: 1 <= fe < 4 * rounds && fe < 4096 && b[32 * fe] & 0xC0 != 0
            then r == Err(InvalidFieldElement)
            else if exists i: nat :: 4 + len <= i < 127 * rounds && i < STREAM_SIZE && DecodeRounds(b, ROUNDS)[i] != 0
            then r == Err(ExtraneousDataFieldElement)
            else if exists i: nat :: 128 * rounds <= i < BLOB_SIZE && b[i] != 0 then r == Err(ExtraneousData)
            else r.Ok?
  {
    LengthFieldIs(b);
    RoundsNeeded(LengthOf(b), rounds);
    var len := LengthOf(b);
    if len <= 130044 {
      RoundsForBounds(len);
      ClearExactly(b, rounds);
      ZeroExactly(DecodeRounds(b, ROUNDS), 127 * rounds, 4 + len);
    }
  }

  lemma ClearExactly(b: Data, rounds: nat)
    requires |b| == BLOB_SIZE && rounds <= ROUNDS
    ensures ElementsClear(b, rounds) <==> !exists fe: nat :: 1 <= fe < 4 * rounds && fe < 4096 && b[32 * fe] & 0xC0 != 0
  {
  }

  lemma ZeroExactly(s: Data, end: nat, from: nat)
    requires |s| == STREAM_SIZE && end <= STREAM_SIZE
    ensures ZeroFrom(s[..end], from) <==> !exists i: nat :: from <= i < end && i < STREAM_SIZE && s[i] != 0
  {
    if exists i: nat :: from <= i < end && i < STREAM_SIZE && s[i] != 0 {
      var i: nat :| from <= i < end && i < STREAM_SIZE && s[i] != 0;
      assert s[..end][i] == s[i];
    }
  }

  // ---------------------------------------------------------------- round trips

  /** Whatever is encoded is decoded again. */
  lemma RoundTrip(d: Data)
    requires |d| <= MAX_BLOB_DATA_SIZE
    ensures ToDataResult(Encoded(d)) == Ok(d)
  {
    FirstByteClear(d);
    DecodeEncoded(Encoded(d), d);
  }

  /** A blob that is accepted is the encoding of its data exactly if the top bits of byte 0 are clear. */
  lemma AcceptedIsCanonical(b: Data, d: Data)
    requires |b| == BLOB_SIZE && ToDataResult(b) == Ok(d)
    ensures |d| <= MAX_BLOB_DATA_SIZE && (Encoded(d) == b <==> SixBits(b[0]))
  {
    EncodeDecoded(b, d);
    SameJoin(b[0], 0);
  }

  /** A blob that is accepted although no data is encoded as it. */
  lemma FirstElementUnchecked()
    ensures var b := Zeros(BLOB_SIZE)[0 := 0x40];
            ToDataResult(b) == Ok([]) && forall d: Data :: |d| <= MAX_BLOB_DATA_SIZE ==> Encoded(d) != b
  {
    var b := Zeros(BLOB_SIZE)[0 := 0x40];
    ZeroStream();
    assert Masked(b) == Zeros(BLOB_SIZE);
    DecodeEncoded(b, []);
    forall d: Data | |d| <= MAX_BLOB_DATA_SIZE ensures Encoded(d) != b {
      FirstByteClear(d);
      assert Masked(b)[0] != b[0];
    }
  }

  lemma ZeroStream()
    ensures Encoded([]) == Zeros(BLOB_SIZE)
  {
    var s := Stream([]);
    assert BigEndian(0, 1) == [0] && BigEndian(0, 2) == [0, 0] && BigEndian(0, 3) == [0, 0, 0];
    assert ZeroFrom(s, 0);
    ZeroRoundsAtEnd(s, 0, ROUNDS);
  }

  lemma {:induction false} NumberBound(b: Data)
    requires |b| >= 1
    ensures Number(b) < (FromByte(b[0]) + 1) * Pow256(|b| - 1)
  {
    var n := |b| - 1;
    if n > 0 {
      NumberBound(b[..n]);
      var p, q := FromByte(b[0]) + 1, Pow256(n - 1);
      assert b[..n][0] == b[0];
      Scale(Number(b[..n]), p, q, FromByte(b[n]));
    } else {
      assert b[..n] == [];
    }
  }

  lemma Scale(v: nat, p: nat, q: nat, c: nat)
    requires v < p * q && c < 256
    ensures v * 256 + c < p * (256 * q)
  {
    assert p * (256 * q) == 256 * (p * q);
  }

  lemma {:induction false} PowAdd(a: nat, b: nat)
    ensures Pow256(a + b) == Pow256(a) * Pow256(b)
  {
    if a > 0 {
      PowAdd(a - 1, b);
      MulAssoc(256, Pow256(a - 1), Pow256(b));
    }
  }

  lemma BelowModulus()
    ensures 64 * Pow256(31) < BLS_MODULUS
  {
    assert Pow256(4) == 0x1_0000_0000;
    PowAdd(4, 4);
    PowAdd(8, 8);
    PowAdd(4, 3);
    PowAdd(8, 7);
    PowAdd(16, 15);
  }

  lemma ClearIsBelowModulus(e: Data)
    requires |e| == 32 && SixBits(e[0])
    ensures Number(e) < BLS_MODULUS
  {
    SixBitsValue(e[0]);
    NumberBound(e);
    var p := Pow256(|e| - 1);
    MulMonotone(FromByte(e[0]) + 1, 64, p);
    BelowModulus();
  }

  /** Every field element of an encoding is a number below the modulus. */
  lemma ElementBelowModulus(d: Data, fe: nat)
    requires |d| <= MAX_BLOB_DATA_SIZE && fe < 4096
    ensures Number(Encoded(d)[32 * fe..32 * fe + 32]) < BLS_MODULUS
  {
    var b := Encoded(d);
    EncodedElementClear(d, fe);
    assert b[32 * fe..32 * fe + 32][0] == b[32 * fe];
    ClearIsBelowModulus(b[32 * fe..32 * fe + 32]);
  }

  lemma SixBitsValue(v: byte)
    requires SixBits(v)
    ensures FromByte(v) < 64
  {
    assert v < 64;
  }
}
