/** The decoder as it runs: rounds of four field elements, and the checks behind the data. */
module BlobDecoder {
  import opened Bytes
  import opened BlobCodec

  /** Output byte p is byte p + 4 of the stream; round i starts at output position 127i - 4. */
  function RoundStart(i: nat): int { i * 127 - 4 }

  /** The lower 31 bytes of the first j elements of round i are in place (the header of round 0 is not output). */
  ghost predicate ElementsPlaced(b: Data, i: nat, j: nat, output: Data)
    requires |b| == BLOB_SIZE && i < ROUNDS && j <= 4 && |output| == MAX_BLOB_DATA_SIZE
  {
    forall m :: 0 <= m < 32 * j && m % 32 != 31 && RoundStart(i) + m >= 0 ==>
      output[RoundStart(i) + m] == b[i * 128 + 1 + m]
  }

  /** The first rounds of the stream are in place and nothing else is. */
  ghost predicate RoundsPlaced(b: Data, i: nat, output: Data)
    requires |b| == BLOB_SIZE && 1 <= i <= ROUNDS && |output| == MAX_BLOB_DATA_SIZE
  {
    && (forall p :: 0 <= p < RoundStart(i) ==> output[p] == DecodeRounds(b, ROUNDS)[p + 4])
    && ZeroFrom(output, RoundStart(i))
  }

  /** Element j of round i has its two highest bits clear. */
  predicate TopClear(b: Data, i: nat, j: nat)
    requires |b| == BLOB_SIZE && i < ROUNDS && j < 4
  {
    SixBits(b[i * 128 + 32 * j])
  }

  method DecodeFieldElement(b: Data, opos: nat, ipos: nat, output: array<byte>) returns (first: byte, ok: bool)
    requires ipos + 32 <= |b| && opos + 31 <= output.Length
    modifies output
    ensures ok <==> SixBits(b[ipos])
    ensures !ok ==> output[..] == old(output[..])
    ensures ok ==> first == b[ipos]
    ensures ok ==> output[..] == old(output[..opos]) + b[ipos + 1..ipos + 32] + old(output[opos + 31..])
  {
    if b[ipos] & 0xC0 != 0 {
      return 0, false;
    }
    forall k | 0 <= k < 31 {
      output[opos + k] := b[ipos + 1 + k];
    }
    return b[ipos], true;
  }

  /** The output with the three gaps of the round that ends at `end` filled. */
  function Gapless(output: Data, end: nat, x: byte, y: byte, z: byte): Data
    requires 96 <= end <= |output|
  {
    output[end - 96 := x][end - 64 := y][end - 32 := z]
  }

  /**
   Undoes the splitting of three bytes over four tops: whatever bytes x, y and z the encoder has put into the tops,
   they are back in the three gaps of the round that ends here.
   */
  method ReassembleBytes(opos: nat, encodedByte: Data, output: array<byte>) returns (end: nat)
    requires |encodedByte| == 4 && 97 <= opos <= output.Length + 1
    modifies output
    ensures end == opos - 1
    ensures forall x: byte, y: byte, z: byte ::
              encodedByte == [TopA(x), TopB(x, y), TopC(z), TopD(y, z)] ==>
                  output[..] == Gapless(old(output[..]), end, x, y, z)
    ensures output[..] == Gapless(old(output[..]), end, JoinX(encodedByte[0], encodedByte[1]),
                                  JoinY(encodedByte[1], encodedByte[3]), JoinZ(encodedByte[2], encodedByte[3]))
  {
    end := opos - 1;
    output[end - 32] := JoinZ(encodedByte[2], encodedByte[3]);
    output[end - 64] := JoinY(encodedByte[1], encodedByte[3]);
    output[end - 96] := JoinX(encodedByte[0], encodedByte[1]);
    forall x: byte, y: byte, z: byte | encodedByte == [TopA(x), TopB(x, y), TopC(z), TopD(y, z)]
      ensures output[..] == Gapless(old(output[..]), end, x, y, z)
    {
      SplitThenJoin(x, y, z);
    }
  }

  /** One more element in place. */
  lemma ElementPlaced(b: Data, i: nat, j: nat, before: Data, after: Data)
    requires |b| == BLOB_SIZE && i < ROUNDS && j < 4 && |before| == |after| == MAX_BLOB_DATA_SIZE
    requires RoundStart(i) + 32 * j >= 0 && ElementsPlaced(b, i, j, before)
    requires var opos, ipos := RoundStart(i) + 32 * j, i * 128 + 32 * j;
             after == before[..opos] + b[ipos + 1..ipos + 32] + before[opos + 31..]
    ensures ElementsPlaced(b, i, j + 1, after)
  {
    var start := RoundStart(i);
    forall m | 0 <= m < 32 * (j + 1) && m % 32 != 31 && start + m >= 0 ensures after[start + m] == b[i * 128 + 1 + m] {
      if m < 32 * j {
        assert after[start + m] == before[start + m];
      } else {
        var k := m - 32 * j;
        assert k < 31;
        assert after[start + m] == b[i * 128 + 32 * j + 1..i * 128 + 32 * j + 32][k];
      }
    }
  }

  /** The elements of a round from the given one on; stops at the first whose top bits are not clear. */
  method DecodeElements(b: Data, i: nat, from: nat, tops: Data, output: array<byte>)
      returns (encodedByte: Data, ok: bool)
    requires |b| == BLOB_SIZE && i < ROUNDS && output.Length == MAX_BLOB_DATA_SIZE
    requires from < 4 && |tops| == 4 && (i == 0 ==> from == 1)
    requires from > 0 ==> tops[0] == b[i * 128]
    requires from <= 1 && ElementsPlaced(b, i, from, output[..])
    modifies output
    ensures |encodedByte| == 4
    ensures ok <==> forall j :: from <= j < 4 ==> TopClear(b, i, j)
    ensures ok ==> forall j :: 0 <= j < 4 ==> encodedByte[j] == b[i * 128 + 32 * j]
    ensures ok ==> ElementsPlaced(b, i, 4, output[..])
    ensures forall p :: 0 <= p < output.Length && !(RoundStart(i) <= p < RoundStart(i + 1)) ==>
              output[p] == old(output[p])
  {
    encodedByte := tops;
    var j, opos, ipos := from, RoundStart(i) + 32 * from, i * 128 + 32 * from;
    while j < 4
      invariant from <= j <= 4 && |encodedByte| == 4
      invariant opos == RoundStart(i) + 32 * j && ipos == i * 128 + 32 * j
      invariant forall k :: from <= k < j ==> TopClear(b, i, k)
      invariant forall k :: 0 <= k < j ==> encodedByte[k] == b[i * 128 + 32 * k]
      invariant ElementsPlaced(b, i, j, output[..])
      invariant forall p :: 0 <= p < output.Length && !(RoundStart(i) <= p < RoundStart(i + 1)) ==>
                  output[p] == old(output[p])
    {
      ghost var before := output[..];
      var first, clear := DecodeFieldElement(b, opos, ipos, output);
      if !clear {
        assert !TopClear(b, i, j);
        return encodedByte, false;
      }
      ElementPlaced(b, i, j, before, output[..]);
      forall p | 0 <= p < output.Length && !(RoundStart(i) <= p < RoundStart(i + 1)) ensures output[p] == before[p] {
        assert output[p] == output[..][p];
      }
      encodedByte := encodedByte[j := first];
      j, opos, ipos := j + 1, opos + 32, ipos + 32;
    }
    ok := true;
  }

  /** With the elements and the three joined bytes in place the whole round is. */
  lemma RoundPlaced(b: Data, i: nat, before: Data, after: Data, m: nat)
    requires |b| == BLOB_SIZE && i < ROUNDS && |before| == |after| == MAX_BLOB_DATA_SIZE
             && ElementsPlaced(b, i, 4, before)
    requires after == Joined(b, i, before)
    requires m < 127 && RoundStart(i) + m >= 0
    ensures after[RoundStart(i) + m] == DecodeRounds(b, ROUNDS)[i * 127 + m]
  {
    StreamByte(b, i, m);
    var start := RoundStart(i);
    Gaps(m);
    if m != 31 && m != 63 && m != 95 {
      assert after[start + m] == before[start + m];
    }
  }

  /** The bytes of a round that are not in the lower part of an element. */
  lemma Gaps(m: nat)
    requires m < 127
    ensures m % 32 == 31 <==> m == 31 || m == 63 || m == 95
  {
    var q, r := m / 32, m % 32;
    assert m == 32 * q + r;
    assert q == 0 || q == 1 || q == 2 || q == 3;
  }

  /** Byte m of round i of the stream, from the bytes of the blob. */
  lemma StreamByte(b: Data, i: nat, m: nat)
    requires |b| == BLOB_SIZE && i < ROUNDS && m < 127
    ensures DecodeRounds(b, ROUNDS)[i * 127 + m] == RoundByte(b[i * 128..i * 128 + 128], m)
  {
    DecodedPart(b, ROUNDS, i);
    PartByte(DecodeRounds(b, ROUNDS), i, 127, m);
    DecodedByte(Part(b, i, 128), m);
  }

  lemma PartByte(s: Data, r: nat, k: nat, m: nat)
    requires m < k && (r + 1) * k <= |s|
    ensures r * k + m < |s| && Part(s, r, k)[m] == s[r * k + m]
  {
    assert (r + 1) * k == r * k + k;
  }

  function Joined(b: Data, i: nat, output: Data): (r: Data)
    requires |b| == BLOB_SIZE && i < ROUNDS && |output| == MAX_BLOB_DATA_SIZE
    ensures |r| == |output|
  {
    var end, c := RoundStart(i + 1), i * 128;
    Gapless(output, end, JoinX(b[c], b[c + 32]), JoinY(b[c + 32], b[c + 96]), JoinZ(b[c + 64], b[c + 96]))
  }

  /** A whole round: elements, then the three joined bytes. */
  method DecodeOneRound(b: Data, i: nat, from: nat, tops: Data, output: array<byte>) returns (ok: bool)
    requires |b| == BLOB_SIZE && i < ROUNDS && output.Length == MAX_BLOB_DATA_SIZE
    requires from <= 1 && |tops| == 4 && (i == 0 <==> from == 1)
    requires from > 0 ==> tops[0] == b[i * 128]
    requires ElementsPlaced(b, i, from, output[..])
    requires if i == 0 then ZeroFrom(output[..], 27) else RoundsPlaced(b, i, output[..])
    modifies output
    ensures ok <==> forall j :: from <= j < 4 ==> TopClear(b, i, j)
    ensures ok ==> RoundsPlaced(b, i + 1, output[..])
  {
    ghost var first := output[..];
    var encodedByte;
    encodedByte, ok := DecodeElements(b, i, from, tops, output);
    if ok {
      ghost var before := output[..];
      var end := ReassembleBytes(RoundStart(i) + 128, encodedByte, output);
      ghost var after := output[..];
      assert after == Joined(b, i, before);
      RoundDone(b, i, first, before, after);
    }
  }

  lemma RoundDone(b: Data, i: nat, first: Data, before: Data, after: Data)
    requires |b| == BLOB_SIZE && i < ROUNDS && |first| == |before| == |after| == MAX_BLOB_DATA_SIZE
    requires ElementsPlaced(b, i, 4, before) && after == Joined(b, i, before)
    requires forall p :: 0 <= p < |first| && !(RoundStart(i) <= p < RoundStart(i + 1)) ==> before[p] == first[p]
    requires if i == 0 then ZeroFrom(first, 27) else RoundsPlaced(b, i, first)
    ensures RoundsPlaced(b, i + 1, after)
  {
    var start := RoundStart(i);
    forall p | 0 <= p < RoundStart(i + 1) ensures after[p] == DecodeRounds(b, ROUNDS)[p + 4] {
      if p < start {
        assert after[p] == before[p] == first[p];
      } else {
        RoundPlaced(b, i, before, after, p - start);
      }
    }
    forall p | RoundStart(i + 1) <= p < |after| ensures after[p] == 0 {
      assert after[p] == before[p] == first[p];
    }
  }

  /** Rounds 0 to i - 1 in place, their tops clear: the elements are those of the specification. */
  lemma ClearSoFar(b: Data, i: nat)
    requires |b| == BLOB_SIZE && 1 <= i <= ROUNDS
    requires forall r, j :: 0 <= r < i && (if r == 0 then 1 else 0) <= j < 4 ==> TopClear(b, r, j)
    ensures ElementsClear(b, i)
  {
    forall fe | 1 <= fe < 4 * i ensures SixBits(b[32 * fe]) {
      var r, j := fe / 4, fe % 4;
      assert TopClear(b, r, j) && 32 * fe == r * 128 + 32 * j;
    }
  }

  lemma NotClear(b: Data, i: nat, j: nat, rounds: nat)
    requires |b| == BLOB_SIZE && i < rounds <= ROUNDS && j < 4 && (i == 0 ==> j > 0) && !TopClear(b, i, j)
    ensures !ElementsClear(b, rounds)
  {
    var fe := 4 * i + j;
    assert 32 * fe == i * 128 + 32 * j && !SixBits(b[32 * fe]);
  }

  method AllZero(s: Data, from: nat) returns (z: bool)
    requires from <= |s|
    ensures z <==> ZeroFrom(s, from)
  {
    var i := from;
    while i < |s|
      invariant from <= i <= |s| && forall j :: from <= j < i ==> s[j] == 0
    {
      if s[i] != 0 { return false; }
      i := i + 1;
    }
    return true;
  }

  /** The rounds from 1 on that the length calls for. */
  method DecodeRest(b: Data, len: nat, output: array<byte>) returns (ok: bool)
    requires |b| == BLOB_SIZE && len <= MAX_BLOB_DATA_SIZE && output.Length == MAX_BLOB_DATA_SIZE
    requires RoundsPlaced(b, 1, output[..]) && forall j :: 1 <= j < 4 ==> TopClear(b, 0, j)
    modifies output
    ensures 1 <= RoundsFor(len) <= ROUNDS
    ensures ok <==> ElementsClear(b, RoundsFor(len))
    ensures ok ==> RoundsPlaced(b, RoundsFor(len), output[..])
  {
    RoundsForBounds(len);
    var i, opos := 1, 123;
    while i < ROUNDS && opos < len
      invariant 1 <= i <= RoundsFor(len) && opos == RoundStart(i)
      invariant forall r, j :: 0 <= r < i && (if r == 0 then 1 else 0) <= j < 4 ==> TopClear(b, r, j)
      invariant RoundsPlaced(b, i, output[..])
    {
      var clear := DecodeOneRound(b, i, 0, [0, 0, 0, 0], output);
      if !clear {
        ghost var j :| 0 <= j < 4 && !TopClear(b, i, j);
        NotClear(b, i, j, RoundsFor(len));
        return false;
      }
      i, opos := i + 1, opos + 127;
    }
    ClearSoFar(b, i);
    ok := true;
  }

  /** Decodes the blob at the start of the bytes: the answer of the specification, errors included. */
  method ToData(bytes: Data) returns (r: Result)
    requires |bytes| >= BLOB_SIZE
    ensures r == ToDataResult(bytes[..BLOB_SIZE])
  {
    r := DecodeBlob(bytes[..BLOB_SIZE]);
  }

  method DecodeBlob(b: Data) returns (r: Result)
    requires |b| == BLOB_SIZE
    ensures r == ToDataResult(b)
  {
    if b[1] != ENCODING_VERSION {
      return Err(InvalidEncodingVersion);
    }
    var outputLen := FromByte(b[2]) * 65536 + FromByte(b[3]) * 256 + FromByte(b[4]);
    ThreeBytes(b);
    if outputLen > MAX_BLOB_DATA_SIZE {
      return Err(InvalidLength);
    }
    var clear, output := DecodeAll(b, outputLen);
    if !clear {
      RoundsForBounds(outputLen);
      return Err(InvalidFieldElement);
    }
    r := CheckRest(b, outputLen, output);
  }

  /** All rounds that the length calls for. */
  method DecodeAll(b: Data, len: nat) returns (ok: bool, data: Data)
    requires |b| == BLOB_SIZE && len <= MAX_BLOB_DATA_SIZE
    ensures 1 <= RoundsFor(len) <= ROUNDS && |data| == MAX_BLOB_DATA_SIZE
    ensures ok <==> ElementsClear(b, RoundsFor(len))
    ensures ok ==> RoundsPlaced(b, RoundsFor(len), data)
  {
    RoundsForBounds(len);
    var output := new byte[MAX_BLOB_DATA_SIZE](i => 0);
    forall k | 0 <= k < 27 {
      output[k] := b[5 + k];
    }
    ok := DecodeOneRound(b, 0, 1, [b[0], 0, 0, 0], output);
    if !ok {
      ghost var j :| 1 <= j < 4 && !TopClear(b, 0, j);
      NotClear(b, 0, j, RoundsFor(len));
      return false, output[..];
    }
    ok := DecodeRest(b, len, output);
    data := output[..];
  }

  /** Nothing may follow the data: neither in the rounds gone through nor in the rest of the blob. */
  method CheckRest(b: Data, outputLen: nat, output: Data) returns (r: Result)
    requires |b| == BLOB_SIZE && outputLen == LengthField(b) <= MAX_BLOB_DATA_SIZE && |output| == MAX_BLOB_DATA_SIZE
    requires b[1] == ENCODING_VERSION && 1 <= RoundsFor(outputLen) <= ROUNDS
    requires ElementsClear(b, RoundsFor(outputLen)) && RoundsPlaced(b, RoundsFor(outputLen), output)
    ensures r == ToDataResult(b)
  {
    PlacedOutput(b, outputLen, output);
    var zero := AllZero(output, outputLen);
    if !zero {
      return Err(ExtraneousDataFieldElement);
    }
    zero := AllZero(b, RoundsFor(outputLen) * 128);
    if !zero {
      return Err(ExtraneousData);
    }
    return Ok(output[..outputLen]);
  }

  lemma ThreeBytes(b: Data)
    requires |b| == BLOB_SIZE
    ensures LengthField(b) == FromByte(b[2]) * 65536 + FromByte(b[3]) * 256 + FromByte(b[4])
  {
    var n := b[2..5];
    assert n[..2] == [b[2], b[3]] && [b[2], b[3]][..1] == [b[2]] && [b[2]][..0] == [];
    assert Number([b[2]]) == FromByte(b[2]);
    assert Number([b[2], b[3]]) == Number([b[2]]) * 256 + FromByte(b[3]);
    assert Number(n) == Number(n[..2]) * 256 + FromByte(b[4]);
  }

  /** The finished output, compared with the stream it was taken from. */
  lemma PlacedOutput(b: Data, len: nat, output: Data)
    requires |b| == BLOB_SIZE && len <= MAX_BLOB_DATA_SIZE && |output| == MAX_BLOB_DATA_SIZE
    requires 1 <= RoundsFor(len) <= ROUNDS && RoundsPlaced(b, RoundsFor(len), output)
    ensures output[..len] == DecodeRounds(b, ROUNDS)[4..4 + len]
    ensures ZeroFrom(output, len) <==> ZeroFrom(DecodeRounds(b, ROUNDS)[..RoundsFor(len) * 127], 4 + len)
  {
    RoundsForBounds(len);
    var s := DecodeRounds(b, ROUNDS)[..RoundsFor(len) * 127];
    var end := RoundStart(RoundsFor(len));
    assert forall p :: 0 <= p < end ==> output[p] == s[p + 4];
    if ZeroFrom(output, len) {
      forall q | 4 + len <= q < |s| ensures s[q] == 0 { assert output[q - 4] == s[q]; }
    }
  }
}
