/**
 The blob encoding: 127 bytes of input in four 32-byte field elements. Three of the bytes are split into 6-bit
 pieces that go into the top bytes of the elements, whose two highest bits stay clear.

 Input and output are related through a stream: version byte, 3-byte length, data, zeros. Round r of the encoder
 turns bytes [127r, 127r+127) of the stream into bytes [128r, 128r+128) of the blob.
 */
module BlobCodec {
  import opened Arith
  import opened Bytes

  const BLOB_SIZE: nat := 4096 * 32
  const MAX_BLOB_DATA_SIZE: nat := (4 * 31 + 3) * 1024 - 4
  const ENCODING_VERSION: byte := 0
  const ROUNDS: nat := 1024
  const STREAM_SIZE: nat := 127 * 1024

  datatype Error =
    | InputTooLarge
    | InvalidEncodingVersion
    | InvalidLength
    | InvalidFieldElement
    | ExtraneousDataFieldElement
    | ExtraneousData

  datatype Result = Ok(data: Data) | Err(error: Error)

  // ---------------------------------------------------------------- the bits of one round

  function TopA(x: byte): byte { x & 0x3F }

  function TopB(x: byte, y: byte): byte { (y & 0x0F) | ((x & 0xC0) >> 2) }

  function TopC(z: byte): byte { z & 0x3F }

  function TopD(y: byte, z: byte): byte { ((z & 0xC0) >> 2) | ((y & 0xF0) >> 4) }

  function JoinX(a: byte, b: byte): byte { (a & 0x3F) | ((b & 0x30) << 2) }

  function JoinY(b: byte, d: byte): byte { (b & 0x0F) | ((d & 0x0F) << 4) }

  function JoinZ(c: byte, d: byte): byte { (c & 0x3F) | ((d & 0x30) << 2) }

  /** Six bits: a legal top byte. */
  predicate SixBits(v: byte) { v & 0xC0 == 0 }

  lemma SplitThenJoin(x: byte, y: byte, z: byte)
    ensures SixBits(TopA(x)) && SixBits(TopB(x, y)) && SixBits(TopC(z)) && SixBits(TopD(y, z))
    ensures JoinX(TopA(x), TopB(x, y)) == x
    ensures JoinY(TopB(x, y), TopD(y, z)) == y
    ensures JoinZ(TopC(z), TopD(y, z)) == z
  {
  }

  lemma JoinThenSplit(a: byte, b: byte, c: byte, d: byte)
    requires SixBits(a) && SixBits(b) && SixBits(c) && SixBits(d)
    ensures var x, y, z := JoinX(a, b), JoinY(b, d), JoinZ(c, d);
            TopA(x) == a && TopB(x, y) == b && TopC(z) == c && TopD(y, z) == d
  {
  }

  // ---------------------------------------------------------------- one round

  function EncodeRound(c: Data): (b: Data)
    requires |c| == 127
    ensures |b| == 128
  {
    [TopA(c[31])] + c[0..31] + [TopB(c[31], c[63])] + c[32..63] + [TopC(c[95])] + c[64..95]
    + [TopD(c[63], c[95])] + c[96..127]
  }

  function DecodeRound(b: Data): (c: Data)
    requires |b| == 128
    ensures |c| == 127
  {
    b[1..32] + [JoinX(b[0], b[32])] + b[33..64] + [JoinY(b[32], b[96])] + b[65..96] + [JoinZ(b[64], b[96])] + b[97..128]
  }

  predicate TopsClear(b: Data)
    requires |b| == 128
  {
    SixBits(b[0]) && SixBits(b[32]) && SixBits(b[64]) && SixBits(b[96])
  }

  /** Byte m of what is decoded from a round. */
  function RoundByte(p: Data, m: nat): byte
    requires |p| == 128 && m < 127
  {
    if m == 31 then JoinX(p[0], p[32]) else if m == 63 then JoinY(p[32], p[96])
    else if m == 95 then JoinZ(p[64], p[96]) else p[1 + m]
  }

  lemma DecodedByte(p: Data, m: nat)
    requires |p| == 128 && m < 127
    ensures DecodeRound(p)[m] == RoundByte(p, m)
  {
  }

  /** Byte k of what a round is encoded as. */
  lemma EncodedByte(c: Data, k: nat)
    requires |c| == 127 && k < 128
    ensures EncodeRound(c)[k] ==
            if k == 0 then TopA(c[31]) else if k == 32 then TopB(c[31], c[63]) else if k == 64 then TopC(c[95])
            else if k == 96 then TopD(c[63], c[95]) else c[k - 1]
  {
  }

  lemma RoundTripRound(c: Data)
    requires |c| == 127
    ensures TopsClear(EncodeRound(c)) && DecodeRound(EncodeRound(c)) == c
  {
    SplitThenJoin(c[31], c[63], c[95]);
    var b := EncodeRound(c);
    EncodedByte(c, 0);
    EncodedByte(c, 32);
    EncodedByte(c, 64);
    EncodedByte(c, 96);
    var d := DecodeRound(b);
    forall m | 0 <= m < 127 ensures d[m] == c[m] {
      DecodedByte(b, m);
      EncodedByte(c, 1 + m);
    }
  }

  lemma CanonicalRound(b: Data)
    requires |b| == 128 && TopsClear(b)
    ensures EncodeRound(DecodeRound(b)) == b
  {
    JoinThenSplit(b[0], b[32], b[64], b[96]);
    var c := DecodeRound(b);
    DecodedByte(b, 31);
    DecodedByte(b, 63);
    DecodedByte(b, 95);
    var e := EncodeRound(c);
    forall k | 0 <= k < 128 ensures e[k] == b[k] {
      EncodedByte(c, k);
      if k != 0 && k != 32 && k != 64 && k != 96 { DecodedByte(b, k - 1); }
    }
  }

  lemma ZeroRound()
    ensures EncodeRound(Zeros(127)) == Zeros(128) && DecodeRound(Zeros(128)) == Zeros(127)
  {
  }

  // ---------------------------------------------------------------- all rounds

  /** Part r of the data cut into parts of k bytes. */
  function Part(s: Data, r: nat, k: nat): (p: Data)
    requires (r + 1) * k <= |s|
    ensures |p| == k
  {
    assert (r + 1) * k == r * k + k;
    s[r * k..r * k + k]
  }

  function EncodeRounds(s: Data, n: nat): (b: Data)
    requires |s| == n * 127
    ensures |b| == n * 128
  {
    if n == 0 then []
    else
      assert n * 127 == (n - 1) * 127 + 127;
      EncodeRounds(s[..(n - 1) * 127], n - 1) + EncodeRound(s[(n - 1) * 127..])
  }

  function DecodeRounds(b: Data, n: nat): (s: Data)
    requires |b| == n * 128
    ensures |s| == n * 127
  {
    if n == 0 then []
    else
      assert n * 128 == (n - 1) * 128 + 128;
      DecodeRounds(b[..(n - 1) * 128], n - 1) + DecodeRound(b[(n - 1) * 128..])
  }

  lemma {:induction false} EncodedPart(s: Data, n: nat, r: nat)
    requires |s| == n * 127 && r < n
    ensures (r + 1) * 127 <= |s| && (r + 1) * 128 <= n * 128
    ensures Part(EncodeRounds(s, n), r, 128) == EncodeRound(Part(s, r, 127))
  {
    MulMonotone(r + 1, n, 127);
    MulMonotone(r + 1, n, 128);
    var m, b := n - 1, EncodeRounds(s, n);
    assert b[..m * 128] == EncodeRounds(s[..m * 127], m);
    if r < m {
      MulMonotone(r + 1, m, 127);
      MulMonotone(r + 1, m, 128);
      EncodedPart(s[..m * 127], m, r);
      assert Part(b, r, 128) == Part(b[..m * 128], r, 128);
      assert Part(s, r, 127) == Part(s[..m * 127], r, 127);
    } else {
      assert Part(s, r, 127) == s[m * 127..] && Part(b, r, 128) == b[m * 128..];
    }
  }

  lemma {:induction false} DecodedPart(b: Data, n: nat, r: nat)
    requires |b| == n * 128 && r < n
    ensures (r + 1) * 128 <= |b| && (r + 1) * 127 <= n * 127
    ensures Part(DecodeRounds(b, n), r, 127) == DecodeRound(Part(b, r, 128))
  {
    MulMonotone(r + 1, n, 127);
    MulMonotone(r + 1, n, 128);
    var m, s := n - 1, DecodeRounds(b, n);
    assert s[..m * 127] == DecodeRounds(b[..m * 128], m);
    if r < m {
      MulMonotone(r + 1, m, 127);
      MulMonotone(r + 1, m, 128);
      DecodedPart(b[..m * 128], m, r);
      assert Part(s, r, 127) == Part(s[..m * 127], r, 127);
      assert Part(b, r, 128) == Part(b[..m * 128], r, 128);
    } else {
      assert Part(b, r, 128) == b[m * 128..] && Part(s, r, 127) == s[m * 127..];
    }
  }

  /** Data of the same length with the same parts is the same data. */
  lemma SameParts(a: Data, b: Data, n: nat, k: nat)
    requires k > 0 && |a| == |b| == n * k
    requires forall r :: 0 <= r < n ==> (r + 1) * k <= n * k && Part(a, r, k) == Part(b, r, k)
    ensures a == b
  {
    forall i | 0 <= i < n * k ensures a[i] == b[i] {
      var r, j := i / k, i % k;
      assert i == r * k + j;
      if r >= n { MulMonotone(n, r, k); assert false; }
      assert Part(a, r, k)[j] == a[i] && Part(b, r, k)[j] == b[i];
    }
  }

  lemma {:induction false} RoundTripRounds(s: Data, n: nat)
    requires |s| == n * 127
    ensures DecodeRounds(EncodeRounds(s, n), n) == s
  {
    if n > 0 {
      var m := n - 1;
      var b := EncodeRounds(s, n);
      RoundTripRounds(s[..m * 127], m);
      RoundTripRound(s[m * 127..]);
      assert b[..m * 128] == EncodeRounds(s[..m * 127], m) && b[m * 128..] == EncodeRound(s[m * 127..]);
    }
  }

  /** The zeros at the end of a stream become zeros at the end of the blob. */
  lemma ZeroParts(s: Data, n: nat, r: nat)
    requires |s| == n * 127 && r < n
    requires (r + 1) * 127 <= n * 127 && Part(s, r, 127) == Zeros(127)
    ensures (r + 1) * 128 <= n * 128 && Part(EncodeRounds(s, n), r, 128) == Zeros(128)
  {
    EncodedPart(s, n, r);
    ZeroRound();
  }

  // ---------------------------------------------------------------- the stream

  function Header(len: nat): (h: Data)
    ensures |h| == 4
  {
    [ENCODING_VERSION] + BigEndian(len, 3)
  }

  function Stream(data: Data): (s: Data)
    requires |data| <= MAX_BLOB_DATA_SIZE
    ensures |s| == STREAM_SIZE
  {
    Pad(Header(|data|) + data, STREAM_SIZE)
  }

  /** The blob the encoder makes of the data. */
  function Encoded(data: Data): (b: Data)
    requires |data| <= MAX_BLOB_DATA_SIZE
    ensures |b| == BLOB_SIZE
  {
    EncodeRounds(Stream(data), ROUNDS)
  }

  // ---------------------------------------------------------------- what the decoder accepts

  /** Parts with clear top bits are encoded exactly as they were decoded. */
  lemma CanonicalRounds(b: Data, n: nat)
    requires |b| == n * 128
    requires forall r :: 0 <= r < n ==> (r + 1) * 128 <= n * 128 && TopsClear(Part(b, r, 128))
    ensures EncodeRounds(DecodeRounds(b, n), n) == b
  {
    var s := DecodeRounds(b, n);
    forall r | 0 <= r < n ensures (r + 1) * 128 <= n * 128 && Part(EncodeRounds(s, n), r, 128) == Part(b, r, 128) {
      EncodedPart(s, n, r);
      DecodedPart(b, n, r);
      CanonicalRound(Part(b, r, 128));
    }
    SameParts(EncodeRounds(s, n), b, n, 128);
  }

  function Masked(b: Data): (m: Data)
    requires |b| == BLOB_SIZE
    ensures |m| == BLOB_SIZE
  {
    b[0 := b[0] & 0x3F]
  }

  /** The decoder never looks at the two highest bits of byte 0. */
  lemma MaskedDecodesAlike(b: Data)
    requires |b| == BLOB_SIZE
    ensures DecodeRounds(Masked(b), ROUNDS) == DecodeRounds(b, ROUNDS)
  {
    var m := Masked(b);
    forall r | 0 <= r < ROUNDS
      ensures (r + 1) * 127 <= ROUNDS * 127
      ensures Part(DecodeRounds(m, ROUNDS), r, 127) == Part(DecodeRounds(b, ROUNDS), r, 127)
    {
      DecodedPart(m, ROUNDS, r);
      DecodedPart(b, ROUNDS, r);
      if r == 0 {
        var p, q := Part(m, 0, 128), Part(b, 0, 128);
        assert p == q[0 := q[0] & 0x3F];
        SameJoin(q[0], q[32]);
        assert DecodeRound(p) == DecodeRound(q);
      } else {
        assert Part(m, r, 128) == Part(b, r, 128);
      }
    }
    SameParts(DecodeRounds(m, ROUNDS), DecodeRounds(b, ROUNDS), ROUNDS, 127);
  }

  lemma SameJoin(a: byte, b: byte)
    ensures JoinX(a & 0x3F, b) == JoinX(a, b) && SixBits(a & 0x3F)
    ensures SixBits(a) ==> a & 0x3F == a
  {
  }

  function LengthField(b: Data): nat
    requires |b| == BLOB_SIZE
  {
    Number(b[2..5])
  }

  /** How many rounds the decoder goes through for a given length. */
  function RoundsFor(len: nat): nat { if len <= 123 then 1 else (len + 130) / 127 }

  lemma RoundsForBounds(len: nat)
    requires len <= MAX_BLOB_DATA_SIZE
    ensures 1 <= RoundsFor(len) <= ROUNDS
    ensures len <= RoundsFor(len) * 127 - 4
    ensures forall i :: 1 <= i < RoundsFor(len) ==> i * 127 - 4 < len
  {
  }

  /** The field elements of the rounds that are gone through, except the first, have their top bits clear. */
  predicate ElementsClear(b: Data, rounds: nat)
    requires |b| == BLOB_SIZE && rounds <= ROUNDS
  {
    forall fe :: 1 <= fe < 4 * rounds ==> SixBits(b[32 * fe])
  }

  predicate ZeroFrom(s: Data, i: nat) {
    forall j :: i <= j < |s| ==> s[j] == 0
  }

  /** The decoder's answer, its errors in the order in which they are looked for. */
  function ToDataResult(b: Data): (r: Result)
    requires |b| == BLOB_SIZE
  {
    var len := LengthField(b);
    if b[1] != ENCODING_VERSION then Err(InvalidEncodingVersion)
    else if len > MAX_BLOB_DATA_SIZE then Err(InvalidLength)
    else
      RoundsForBounds(len);
      var rounds := RoundsFor(len);
      var s := DecodeRounds(b, ROUNDS);
      if !ElementsClear(b, rounds) then Err(InvalidFieldElement)
      else if !ZeroFrom(s[..rounds * 127], 4 + len) then Err(ExtraneousDataFieldElement)
      else if !ZeroFrom(b, rounds * 128) then Err(ExtraneousData)
      else Ok(s[4..4 + len])
  }

  lemma RoundHead(p: Data)
    requires |p| == 128
    ensures DecodeRound(p)[..31] == p[1..32]
  {
  }

  /** The first 31 bytes of a sequence, found in its first k bytes. */
  lemma HeadOfPart(s: Data, k: nat)
    requires 31 <= k <= |s|
    ensures Part(s, 0, k)[..31] == s[..31]
  {
  }

  lemma FirstElement(b: Data)
    requires |b| == BLOB_SIZE
    ensures DecodeRounds(b, ROUNDS)[..31] == b[1..32]
  {
    DecodedPart(b, ROUNDS, 0);
    HeadOfPart(DecodeRounds(b, ROUNDS), 127);
    var p := Part(b, 0, 128);
    RoundHead(p);
    assert p[1..32] == b[1..32];
  }

  /** All element tops clear, stated by elements or by parts. */
  lemma ClearParts(b: Data, r: nat)
    requires |b| == BLOB_SIZE && r < ROUNDS && (r + 1) * 128 <= BLOB_SIZE
    ensures var p := Part(b, r, 128);
            p[0] == b[32 * (4 * r)] && p[32] == b[32 * (4 * r + 1)] && p[64] == b[32 * (4 * r + 2)]
              && p[96] == b[32 * (4 * r + 3)]
  {
    var p, o := Part(b, r, 128), r * 128;
    assert o == 32 * (4 * r) && o + 32 == 32 * (4 * r + 1) && o + 64 == 32 * (4 * r + 2) && o + 96 == 32 * (4 * r + 3);
    assert p[0] == b[o] && p[32] == b[o + 32] && p[64] == b[o + 64] && p[96] == b[o + 96];
  }

  lemma ElementClear(b: Data, fe: nat)
    requires |b| == BLOB_SIZE && fe < 4096 && (fe / 4 + 1) * 128 <= BLOB_SIZE && TopsClear(Part(b, fe / 4, 128))
    ensures SixBits(b[32 * fe])
  {
    var r := fe / 4;
    ClearParts(b, r);
    assert fe == 4 * r || fe == 4 * r + 1 || fe == 4 * r + 2 || fe == 4 * r + 3;
  }

  lemma EncodedElementClear(d: Data, fe: nat)
    requires |d| <= MAX_BLOB_DATA_SIZE && fe < 4096
    ensures SixBits(Encoded(d)[32 * fe])
  {
    var r, s, b := fe / 4, Stream(d), Encoded(d);
    assert r < ROUNDS;
    EncodedPart(s, ROUNDS, r);
    RoundTripRound(Part(s, r, 127));
    ElementClear(b, fe);
  }

  /** Beyond the data the blob is zero. */
  lemma EncodedZeroTail(d: Data, i: nat)
    requires |d| <= MAX_BLOB_DATA_SIZE && RoundsFor(|d|) * 128 <= i < BLOB_SIZE
    ensures Encoded(d)[i] == 0
  {
    var r, j, s := i / 128, i % 128, Stream(d);
    RoundsForBounds(|d|);
    assert r >= RoundsFor(|d|);
    assert (r + 1) * 127 <= ROUNDS * 127;
    forall k | 0 <= k < 127 ensures Part(s, r, 127)[k] == 0 {
      assert Part(s, r, 127)[k] == s[r * 127 + k];
      assert r * 127 + k >= 4 + |d|;
    }
    assert Part(s, r, 127) == Zeros(127);
    ZeroParts(s, ROUNDS, r);
    assert Part(Encoded(d), r, 128)[j] == Encoded(d)[i];
  }

  /** Version and length as the decoder reads them. */
  lemma HeaderDecoded(b: Data, d: Data)
    requires |b| == BLOB_SIZE && |d| <= MAX_BLOB_DATA_SIZE && DecodeRounds(b, ROUNDS) == Stream(d)
    ensures b[1] == ENCODING_VERSION && LengthField(b) == |d|
  {
    FirstElement(b);
    SameHeader(b, Stream(d));
    assert Stream(d)[1..4] == BigEndian(|d|, 3);
    assert Pow256(3) == 0x100_0000;
    BigEndianRoundTrip(|d|, 3);
  }

  lemma SameHeader(b: Data, s: Data)
    requires |b| == BLOB_SIZE && |s| == STREAM_SIZE && s[..31] == b[1..32]
    ensures s[0] == b[1] && s[1..4] == b[2..5]
  {
    forall k | 0 <= k < 31 ensures s[k] == b[1 + k] {
      assert s[k] == s[..31][k] == b[1..32][k];
    }
  }

  /** Decoding inverts encoding, for every input that fits. */
  lemma DecodeEncoded(b: Data, d: Data)
    requires |b| == BLOB_SIZE && |d| <= MAX_BLOB_DATA_SIZE && Encoded(d) == Masked(b)
    ensures ToDataResult(b) == Ok(d)
  {
    var s, e, len := Stream(d), Encoded(d), |d|;
    RoundTripRounds(s, ROUNDS);
    MaskedDecodesAlike(b);
    assert DecodeRounds(b, ROUNDS) == s;
    HeaderDecoded(b, d);
    RoundsForBounds(len);
    var rounds := RoundsFor(len);
    assert ElementsClear(b, rounds) by {
      forall fe | 1 <= fe < 4 * rounds ensures SixBits(b[32 * fe]) {
        EncodedElementClear(d, fe);
        assert b[32 * fe] == e[32 * fe];
      }
    }
    assert ZeroFrom(b, rounds * 128) by {
      forall i | rounds * 128 <= i < BLOB_SIZE ensures b[i] == 0 {
        EncodedZeroTail(d, i);
        assert b[i] == e[i];
      }
    }
    assert ZeroFrom(s[..rounds * 127], 4 + len);
    assert s[4..4 + len] == d;
  }

  /** What the decoder accepts, the encoder makes, up to the two bits of byte 0 that are not looked at. */
  lemma EncodeDecoded(b: Data, d: Data)
    requires |b| == BLOB_SIZE && ToDataResult(b) == Ok(d)
    ensures |d| <= MAX_BLOB_DATA_SIZE && Encoded(d) == Masked(b)
  {
    var s, len := DecodeRounds(b, ROUNDS), LengthField(b);
    RoundsForBounds(len);
    DecodedStream(b, len, RoundsFor(len));
    var m := Masked(b);
    MaskedDecodesAlike(b);
    forall r | 0 <= r < ROUNDS ensures (r + 1) * 128 <= ROUNDS * 128 && TopsClear(Part(m, r, 128)) {
      ClearParts(m, r);
      SameJoin(b[0], 0);
      assert r >= RoundsFor(len) ==> 32 * (4 * r) >= RoundsFor(len) * 128;
      assert r > 0 ==> m[32 * (4 * r)] == b[32 * (4 * r)];
    }
    CanonicalRounds(m, ROUNDS);
  }

  lemma DecodedStream(b: Data, len: nat, rounds: nat)
    requires |b| == BLOB_SIZE && b[1] == ENCODING_VERSION && len == LengthField(b) <= MAX_BLOB_DATA_SIZE
    requires rounds <= ROUNDS && ZeroFrom(DecodeRounds(b, ROUNDS)[..rounds * 127], 4 + len) && ZeroFrom(b, rounds * 128)
    ensures var s := DecodeRounds(b, ROUNDS); s == Stream(s[4..4 + len])
  {
    HeaderOfBlob(b);
    ZeroBeyond(b, rounds, 4 + len);
    IsStream(DecodeRounds(b, ROUNDS), len);
  }

  /** The stream of any blob starts with what is read as version and length. */
  lemma HeaderOfBlob(b: Data)
    requires |b| == BLOB_SIZE
    ensures var s := DecodeRounds(b, ROUNDS); s[0] == b[1] && s[1..4] == BigEndian(LengthField(b), 3)
  {
    FirstElement(b);
    SameHeader(b, DecodeRounds(b, ROUNDS));
    NumberRoundTrip(b[2..5]);
  }

  /** Zeros in the rounds gone through and in the rest of the blob are zeros to the end of the stream. */
  lemma ZeroBeyond(b: Data, rounds: nat, from: nat)
    requires |b| == BLOB_SIZE && rounds <= ROUNDS && ZeroFrom(b, rounds * 128)
    requires ZeroFrom(DecodeRounds(b, ROUNDS)[..rounds * 127], from)
    ensures ZeroFrom(DecodeRounds(b, ROUNDS), from)
  {
    var s := DecodeRounds(b, ROUNDS);
    forall i: nat | from <= i < STREAM_SIZE ensures s[i] == 0 {
      if i < rounds * 127 {
        assert s[i] == s[..rounds * 127][i];
      } else {
        DecodedZeroTail(b, rounds, i);
      }
    }
  }

  lemma IsStream(s: Data, len: nat)
    requires |s| == STREAM_SIZE && len <= MAX_BLOB_DATA_SIZE
    requires s[0] == ENCODING_VERSION && s[1..4] == BigEndian(len, 3) && ZeroFrom(s, 4 + len)
    ensures s == Stream(s[4..4 + len])
  {
    assert s[..4] == Header(len);
    assert s[4 + len..] == Zeros(STREAM_SIZE - 4 - len);
    assert s == s[..4] + s[4..4 + len] + s[4 + len..];
  }

  lemma DecodedZeroTail(b: Data, rounds: nat, i: nat)
    requires |b| == BLOB_SIZE && rounds <= ROUNDS && ZeroFrom(b, rounds * 128) && rounds * 127 <= i < STREAM_SIZE
    ensures DecodeRounds(b, ROUNDS)[i] == 0
  {
    var r, j := i / 127, i % 127;
    assert i == r * 127 + j && rounds <= r < ROUNDS;
    DecodedPart(b, ROUNDS, r);
    forall k | 0 <= k < 128 ensures Part(b, r, 128)[k] == 0 {
      assert Part(b, r, 128)[k] == b[r * 128 + k];
    }
    assert Part(b, r, 128) == Zeros(128);
    ZeroRound();
    assert Part(DecodeRounds(b, ROUNDS), r, 127)[j] == DecodeRounds(b, ROUNDS)[i];
  }

  /** The decoder and the encoder are inverse to each other, exactly up to the top two bits of byte 0. */
  lemma CodecExact(b: Data, d: Data)
    requires |b| == BLOB_SIZE
    ensures ToDataResult(b) == Ok(d) <==> |d| <= MAX_BLOB_DATA_SIZE && Encoded(d) == Masked(b)
  {
    if ToDataResult(b) == Ok(d) { EncodeDecoded(b, d); }
    if |d| <= MAX_BLOB_DATA_SIZE && Encoded(d) == Masked(b) { DecodeEncoded(b, d); }
  }
}
