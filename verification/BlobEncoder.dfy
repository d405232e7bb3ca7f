/** The encoder as it runs: two offsets, a 31-byte buffer and the blob being filled. */
module BlobEncoder {
  import opened Arith
  import opened Bytes
  import opened BlobCodec

  /** Rounds over zeros add zeros. */
  lemma {:induction false} ZeroRoundsAtEnd(s: Data, r: nat, n: nat)
    requires |s| == n * 127 && r <= n && r * 127 <= n * 127 && ZeroFrom(s, r * 127)
    ensures EncodeRounds(s, n) == EncodeRounds(s[..r * 127], r) + Zeros(n * 128 - r * 128)
  {
    MulMonotone(r, n, 128);
    if r == n {
      assert s[..r * 127] == s;
    } else {
      var m := n - 1;
      MulMonotone(r, m, 127);
      MulMonotone(r, m, 128);
      ZeroRoundsAtEnd(s[..m * 127], r, m);
      assert s[..m * 127][..r * 127] == s[..r * 127];
      LastRoundZero(s, n);
      MoreZeros(EncodeRounds(s[..r * 127], r), m * 128 - r * 128, 128);
    }
  }

  lemma LastRoundZero(s: Data, n: nat)
    requires n >= 1 && |s| == n * 127 && ZeroFrom(s, (n - 1) * 127)
    ensures EncodeRounds(s, n) == EncodeRounds(s[..(n - 1) * 127], n - 1) + Zeros(128)
  {
    assert s[(n - 1) * 127..] == Zeros(127);
    ZeroRound();
  }

  lemma MoreZeros(a: Data, k: nat, l: nat)
    ensures a + Zeros(k) + Zeros(l) == a + Zeros(k + l)
  {
    assert Zeros(k) + Zeros(l) == Zeros(k + l);
  }

  /** One round appended to the rounds before it. */
  lemma RoundAppended(s: Data, r: nat)
    requires |s| == STREAM_SIZE && r < ROUNDS
    ensures EncodeRounds(s[..(r + 1) * 127], r + 1) == EncodeRounds(s[..r * 127], r) + EncodeRound(Part(s, r, 127))
  {
    var t := s[..(r + 1) * 127];
    assert t[..r * 127] == s[..r * 127] && t[r * 127..] == Part(s, r, 127);
  }

  /** A round as the encoder writes it: byte and buffer, four times. */
  lemma RoundWritten(w: Data, w1: Data, w2: Data, w3: Data, w4: Data, s: Data, r: nat, p: nat, x: byte, y: byte,
                     z: byte)
    requires |s| == STREAM_SIZE && r < ROUNDS
    requires p == r * 127 && x == s[p + 31] && y == s[p + 63] && z == s[p + 95]
    requires w1 == w + [TopA(x)] + s[p..p + 31]
    requires w2 == w1 + [TopB(x, y)] + s[p + 32..p + 63]
    requires w3 == w2 + [TopC(z)] + s[p + 64..p + 95]
    requires w4 == w3 + [TopD(y, z)] + s[p + 96..p + 127]
    ensures w4 == w + EncodeRound(Part(s, r, 127))
  {
    var c := Part(s, r, 127);
    SliceOfSlice(s, p, p + 127, 0, 31);
    SliceOfSlice(s, p, p + 127, 32, 63);
    SliceOfSlice(s, p, p + 127, 64, 95);
    SliceOfSlice(s, p, p + 127, 96, 127);
    assert x == c[31] && y == c[63] && z == c[95];
    RoundPutTogether(w, w1, w2, w3, w4, c);
  }

  lemma RoundPutTogether(w: Data, w1: Data, w2: Data, w3: Data, w4: Data, c: Data)
    requires |c| == 127
    requires w1 == w + [TopA(c[31])] + c[0..31] && w2 == w1 + [TopB(c[31], c[63])] + c[32..63]
    requires w3 == w2 + [TopC(c[95])] + c[64..95] && w4 == w3 + [TopD(c[63], c[95])] + c[96..127]
    ensures w4 == w + EncodeRound(c)
  {
    Reassociated(w, [TopA(c[31])], c[0..31], [TopB(c[31], c[63])], c[32..63], [TopC(c[95])], c[64..95],
                 [TopD(c[63], c[95])], c[96..127]);
  }

  lemma Reassociated(w: Data, a: Data, b: Data, c: Data, d: Data, e: Data, f: Data, g: Data, h: Data)
    ensures w + a + b + c + d + e + f + g + h == w + (a + b + c + d + e + f + g + h)
  {
    assert w + a + b + c + d == w + (a + b + c + d);
    assert w + (a + b + c + d) + e + f == w + (a + b + c + d + e + f);
  }

  /** Version, length and the first 27 bytes of input are the start of the stream. */
  lemma FirstBuffer(data: Data, buf: Data)
    requires |data| <= MAX_BLOB_DATA_SIZE && |buf| == 31
    requires buf[0] == ENCODING_VERSION && buf[1] == ToByte(|data| / 65536)
    requires buf[2] == ToByte(|data| / 256 % 256) && buf[3] == ToByte(|data| % 256)
    requires forall k :: 0 <= k < 27 ==> buf[4 + k] == if k < |data| then data[k] else 0
    ensures buf == Stream(data)[..31]
  {
    LengthBytes(|data|);
    var s := Stream(data);
    assert s[..4] == Header(|data|);
    forall k | 4 <= k < 31 ensures buf[k] == s[k] {
      var j := k - 4;
      StreamData(data, j);
      assert buf[4 + j] == s[4 + j];
    }
    forall k | 0 <= k < 4 ensures buf[k] == s[k] { assert s[k] == s[..4][k]; }
  }

  lemma StreamData(data: Data, k: nat)
    requires |data| <= MAX_BLOB_DATA_SIZE && 4 + k < STREAM_SIZE
    ensures Stream(data)[4 + k] == if k < |data| then data[k] else 0
  {
  }

  class Encoder {
    const data: Data
    var readOffset: nat
    var writeOffset: nat
    const buf31: array<byte>
    const blob: array<byte>
    ghost const stream: Data
    ghost var pos: nat // how much of the stream has been consumed

    ghost predicate Valid()
      reads this, buf31, blob
    {
      && |data| <= MAX_BLOB_DATA_SIZE && stream == Stream(data)
      && buf31.Length == 31 && blob.Length == BLOB_SIZE && buf31 != blob
      && (pos == 0 || 31 <= pos <= STREAM_SIZE)
      && (pos == 0 ==> ZeroFrom(buf31[..], 0))
      && readOffset == (if pos == 0 then 0 else Min(pos - 4, |data|))
      && writeOffset <= BLOB_SIZE
      && ZeroFrom(blob[..], writeOffset)
    }

    /** What has been written to the blob. */
    ghost function Written(): (w: Data)
      requires Valid()
      reads this, buf31, blob
    {
      blob[..writeOffset]
    }

    constructor (data: Data)
      requires |data| <= MAX_BLOB_DATA_SIZE
      ensures Valid() && this.data == data && pos == 0 && writeOffset == 0
      ensures fresh(buf31) && fresh(blob)
    {
      this.data, this.stream := data, Stream(data);
      readOffset, writeOffset, pos := 0, 0, 0;
      buf31 := new byte[31](i => 0);
      blob := new byte[BLOB_SIZE](i => 0);
    }

    method Read1() returns (out: byte)
      requires Valid() && 31 <= pos < STREAM_SIZE
      modifies this`readOffset, this`pos
      ensures Valid() && pos == old(pos) + 1
      ensures out == stream[old(pos)]
    {
      if readOffset >= |data| {
        out := 0;
      } else {
        out := data[readOffset];
        readOffset := readOffset + 1;
      }
      pos := pos + 1;
    }

    /** Up to 31 bytes of input, left-aligned and padded with zeros. */
    method Read31()
      requires Valid() && 31 <= pos <= STREAM_SIZE - 31
      modifies this`readOffset, this`pos, buf31
      ensures Valid() && pos == old(pos) + 31
      ensures buf31[..] == stream[old(pos)..pos]
    {
      var n := Min(31, |data| - readOffset);
      forall k | 0 <= k < 31 {
        buf31[k] := if k < n then data[readOffset + k] else 0;
      }
      readOffset := readOffset + n;
      pos := pos + 31;
      assert forall k :: 0 <= k < 31 ==> buf31[k] == stream[old(pos) + k];
    }

    /** The first buffer: version, length and up to 27 bytes of input. */
    method ReadFirst()
      requires Valid() && pos == 0
      modifies this`readOffset, this`pos, buf31
      ensures Valid() && pos == 31
      ensures buf31[..] == stream[..31]
    {
      var len := |data|;
      buf31[0] := ENCODING_VERSION;
      buf31[1] := ToByte(len / 65536);
      buf31[2] := ToByte(len / 256 % 256);
      buf31[3] := ToByte(len % 256);
      // behind the input the buffer keeps its initial zeros
      var n := Min(27, len);
      forall k | 0 <= k < n {
        buf31[4 + k] := data[k];
      }
      readOffset := n;
      pos := 31;
      FirstBuffer(data, buf31[..]);
    }

    /** The offset and the value always pass the two checks on a byte write. */
    method Write1(v: byte)
      requires Valid() && writeOffset % 32 == 0 && SixBits(v) && writeOffset < BLOB_SIZE
      modifies this`writeOffset, blob
      ensures Valid() && writeOffset == old(writeOffset) + 1
      ensures Written() == old(Written()) + [v]
    {
      blob[writeOffset] := v;
      writeOffset := writeOffset + 1;
    }

    method Write31()
      requires Valid() && writeOffset % 32 == 1 && writeOffset <= BLOB_SIZE - 31
      modifies this`writeOffset, blob
      ensures Valid() && writeOffset == old(writeOffset) + 31
      ensures Written() == old(Written()) + buf31[..]
    {
      ghost var o, w := writeOffset, Written();
      forall k | 0 <= k < 31 {
        blob[writeOffset + k] := buf31[k];
      }
      writeOffset := writeOffset + 31;
      assert blob[..o] == w;
      assert blob[o..o + 31] == buf31[..];
      assert blob[..o + 31] == blob[..o] + blob[o..o + 31];
    }

    /** A field element: top byte and buffer. */
    method WriteElement(v: byte)
      requires Valid() && writeOffset % 32 == 0 && SixBits(v) && writeOffset < BLOB_SIZE
      modifies this`writeOffset, blob
      ensures Valid() && writeOffset == old(writeOffset) + 32
      ensures Written() == old(Written()) + [v] + buf31[..]
    {
      Write1(v);
      Write31();
    }

    /** The first element of a round: in round 0 the header takes the first four bytes of the buffer. */
    method FirstElement(round: nat) returns (x: byte)
      requires Valid() && round < ROUNDS && pos == round * 127
      requires writeOffset % 32 == 0 && writeOffset < BLOB_SIZE
      modifies this`readOffset, this`writeOffset, this`pos, buf31, blob
      ensures Valid() && writeOffset == old(writeOffset) + 32 && writeOffset % 32 == 0
      ensures pos == old(pos) + 32 && x == stream[old(pos) + 31]
      ensures Written() == old(Written()) + [TopA(x)] + stream[old(pos)..old(pos) + 31]
    {
      if round == 0 {
        ReadFirst();
      } else {
        Read31();
      }
      x := Read1();
      SplitThenJoin(x, 0, 0);
      WriteElement(TopA(x));
    }

    method SecondElement(x: byte) returns (y: byte)
      requires Valid() && 31 <= pos <= STREAM_SIZE - 32
      requires writeOffset % 32 == 0 && writeOffset < BLOB_SIZE
      modifies this`readOffset, this`writeOffset, this`pos, buf31, blob
      ensures Valid() && writeOffset == old(writeOffset) + 32 && writeOffset % 32 == 0
      ensures pos == old(pos) + 32 && y == stream[old(pos) + 31]
      ensures Written() == old(Written()) + [TopB(x, y)] + stream[old(pos)..old(pos) + 31]
    {
      Read31();
      y := Read1();
      SplitThenJoin(x, y, 0);
      WriteElement(TopB(x, y));
    }

    method ThirdElement() returns (z: byte)
      requires Valid() && 31 <= pos <= STREAM_SIZE - 32
      requires writeOffset % 32 == 0 && writeOffset < BLOB_SIZE
      modifies this`readOffset, this`writeOffset, this`pos, buf31, blob
      ensures Valid() && writeOffset == old(writeOffset) + 32 && writeOffset % 32 == 0
      ensures pos == old(pos) + 32 && z == stream[old(pos) + 31]
      ensures Written() == old(Written()) + [TopC(z)] + stream[old(pos)..old(pos) + 31]
    {
      Read31();
      z := Read1();
      SplitThenJoin(0, 0, z);
      WriteElement(TopC(z));
    }

    method FourthElement(y: byte, z: byte)
      requires Valid() && 31 <= pos <= STREAM_SIZE - 31
      requires writeOffset % 32 == 0 && writeOffset < BLOB_SIZE
      modifies this`readOffset, this`writeOffset, this`pos, buf31, blob
      ensures Valid() && writeOffset == old(writeOffset) + 32 && writeOffset % 32 == 0
      ensures pos == old(pos) + 31
      ensures Written() == old(Written()) + [TopD(y, z)] + stream[old(pos)..old(pos) + 31]
    {
      Read31();
      SplitThenJoin(0, y, z);
      WriteElement(TopD(y, z));
    }

    /** The given number of rounds has been gone through. */
    ghost predicate After(round: nat)
      requires Valid()
      reads this, buf31, blob
    {
      && round <= ROUNDS && pos == round * 127 && writeOffset == round * 128
      && Written() == EncodeRounds(stream[..round * 127], round)
    }

    method NextRound(round: nat)
      requires Valid() && After(round) && round < ROUNDS
      modifies this`readOffset, this`writeOffset, this`pos, buf31, blob
      ensures Valid() && After(round + 1)
    {
      RoundAppended(stream, round);
      Round(round);
    }

    /** One round consumes 127 bytes of the stream and writes their 128-byte encoding. */
    method Round(round: nat)
      requires Valid() && round < ROUNDS && pos == round * 127 && writeOffset == round * 128
      modifies this`readOffset, this`writeOffset, this`pos, buf31, blob
      ensures Valid() && pos == (round + 1) * 127 && writeOffset == (round + 1) * 128
      ensures Written() == old(Written()) + EncodeRound(Part(stream, round, 127))
    {
      ghost var w, p := Written(), pos;
      assert writeOffset == 32 * (4 * round);
      var x := FirstElement(round);
      ghost var w1 := Written();
      var y := SecondElement(x);
      ghost var w2 := Written();
      ghost var z := SecondHalf(y);
      ghost var w3 := w2 + [TopC(z)] + stream[p + 64..p + 95];
      RoundWritten(w, w1, w2, w3, Written(), stream, round, p, x, y, z);
    }

    /** The last two elements of a round. */
    method SecondHalf(y: byte) returns (ghost z: byte)
      requires Valid() && 31 <= pos <= STREAM_SIZE - 63
      requires writeOffset % 32 == 0 && writeOffset <= BLOB_SIZE - 64
      modifies this`readOffset, this`writeOffset, this`pos, buf31, blob
      ensures Valid() && writeOffset == old(writeOffset) + 64
      ensures pos == old(pos) + 63 && z == stream[old(pos) + 31]
      ensures Written() ==
              old(Written()) + [TopC(z)] + stream[old(pos)..old(pos) + 31]
              + [TopD(y, z)] + stream[old(pos) + 32..old(pos) + 63]
    {
      var third := ThirdElement();
      FourthElement(y, third);
      z := third;
    }
  }

  lemma LengthBytes(len: nat)
    requires len < 0x100_0000
    ensures BigEndian(len, 3) == [ToByte(len / 65536), ToByte(len / 256 % 256), ToByte(len % 256)]
  {
    var hi := len / 256;
    assert hi / 256 == len / 65536 && hi / 256 / 256 == 0;
    assert BigEndian(hi / 256, 1) == BigEndian(0, 0) + [ToByte(hi / 256 % 256)];
    assert BigEndian(hi, 2) == BigEndian(hi / 256, 1) + [ToByte(hi % 256)];
  }

  /**
   Encodes the data: an error exactly if it is too long, else the blob of the whole zero-padded stream. The loop
   stops as soon as the input is used up.
   */
  method FromData(data: Data) returns (r: Result)
    ensures |data| > MAX_BLOB_DATA_SIZE ==> r == Err(InputTooLarge)
    ensures |data| <= MAX_BLOB_DATA_SIZE ==> r == Ok(Encoded(data))
  {
    if |data| > MAX_BLOB_DATA_SIZE {
      return Err(InputTooLarge);
    }
    var e := new Encoder(data);
    var round := RunRounds(e);
    RestIsZero(data, round, e.blob[..]);
    return Ok(e.blob[..]);
  }

  /** The rounds, until all input has been read; the error for input that is left over cannot arise. */
  method RunRounds(e: Encoder) returns (round: nat)
    requires e.Valid() && e.pos == 0 && e.writeOffset == 0
    modifies e, e.buf31, e.blob
    ensures e.Valid() && e.After(round) && e.readOffset == |e.data|
  {
    round := 0;
    while round < ROUNDS && e.readOffset < |e.data|
      invariant e.Valid() && e.After(round)
    {
      e.NextRound(round);
      round := round + 1;
    }
  }

  /** The rounds that are not gone through would write zeros. */
  lemma RestIsZero(data: Data, round: nat, blob: Data)
    requires |data| <= MAX_BLOB_DATA_SIZE && round <= ROUNDS
             && 4 + |data| <= round * 127 + (if round == 0 then 4 else 0)
    requires |blob| == BLOB_SIZE && ZeroFrom(blob, round * 128)
    requires blob[..round * 128] == EncodeRounds(Stream(data)[..round * 127], round)
    ensures blob == Encoded(data)
  {
    var s := Stream(data);
    if round == 0 { ZeroHeader(); }
    ZeroRoundsAtEnd(s, round, ROUNDS);
    assert blob[round * 128..] == Zeros(BLOB_SIZE - round * 128);
    assert blob == blob[..round * 128] + blob[round * 128..];
  }

  lemma ZeroHeader()
    ensures Header(0) == Zeros(4)
  {
    assert BigEndian(0, 1) == [0] && BigEndian(0, 2) == [0, 0] && BigEndian(0, 3) == [0, 0, 0];
  }
}
