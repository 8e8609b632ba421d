/** The requests the kernel driver sends (sawa.c), as sectors: how they are laid
    out in memory, and what the server makes of them. */
module BlockDriver {
  import opened BlockStore

  /** The frame of a read, as 13 bytes. */
  function ReadFrame(offset: nat, size: nat): seq<Byte>
    requires offset < TWO_32 && size < TWO_32
  {
    Le32(9) + [SAWA_READ] + Le32(offset) + Le32(size)
  }

  function WriteFrame(offset: nat, data: seq<Byte>): seq<Byte>
    requires offset < TWO_32
  {
    Le32((|data| + 5) % TWO_32) + [SAWA_WRITE] + Le32(offset) + data
  }

  /** The frames of a read and of a write byte by byte. */
  lemma FrameBytes(data: seq<Byte>)
    requires |data| == 512
    ensures ReadFrame(0x0003_0200, 0x400) == [9, 0, 0, 0, 2, 0x00, 0x02, 0x03, 0x00, 0x00, 0x04, 0x00, 0x00]
    ensures WriteFrame(0x0003_0200, data) == [0x05, 0x02, 0x00, 0x00, 3, 0x00, 0x02, 0x03, 0x00] + data
  {
  }

  /** Stores an int through a pointer into a byte buffer. */
  method StoreInt(buffer: array<Byte>, at: nat, v: nat)
    requires at + 4 <= buffer.Length && v < TWO_32
    modifies buffer
    ensures buffer[..] == old(buffer[..at]) + Le32(v) + old(buffer[at + 4..])
  {
    var b := Le32(v);
    buffer[at], buffer[at + 1], buffer[at + 2], buffer[at + 3] := b[0], b[1], b[2], b[3];
  }

  method EncodeRead(sector: nat, nbSectors: nat) returns (frame: array<Byte>)
    ensures frame[..] == ReadFrame(sector * SECTOR % TWO_32, nbSectors * SECTOR % TWO_32)
  {
    hide Le32;
    var offset := sector * SECTOR % TWO_32;
    var payloadSize := nbSectors * SECTOR % TWO_32;
    frame := new Byte[13](_ => 0xFF);
    StoreInt(frame, 0, 9);
    frame[4] := SAWA_READ;
    assert frame[..5] == Le32(9) + [SAWA_READ];
    StoreInt(frame, 5, offset);
    assert frame[..9] == Le32(9) + [SAWA_READ] + Le32(offset);
    StoreInt(frame, 9, payloadSize);
  }

  method EncodeWrite(sector: nat, nbSectors: nat, buffer: array<Byte>) returns (frame: array<Byte>)
    requires nbSectors * SECTOR % TWO_32 <= buffer.Length
    ensures frame[..] == WriteFrame(sector * SECTOR % TWO_32, buffer[..nbSectors * SECTOR % TWO_32])
  {
    hide Le32;
    var offset := sector * SECTOR % TWO_32;
    var payloadSize := nbSectors * SECTOR % TWO_32;
    frame := new Byte[9 + payloadSize](_ => 0);
    StoreInt(frame, 0, (payloadSize + 5) % TWO_32);
    frame[4] := SAWA_WRITE;
    assert frame[..5] == Le32((payloadSize + 5) % TWO_32) + [SAWA_WRITE];
    StoreInt(frame, 5, offset);
    assert frame[..9] == Le32((payloadSize + 5) % TWO_32) + [SAWA_WRITE] + Le32(offset);
    forall k | 0 <= k < payloadSize {
      frame[9 + k] := buffer[k];
    }
    assert frame[9..] == buffer[..payloadSize];
    assert frame[..] == frame[..9] + frame[9..];
  }

  // ----- What the server makes of them -----

  datatype Op = ReadSectors(sector: nat, count: nat) | WriteSectors(sector: nat, data: seq<Byte>)

  /** On the disk, and in one frame: a write is 63 sectors long at most. */
  predicate Admissible(op: Op, nbSectors: nat) {
    match op
    case ReadSectors(sector, count) => sector + count <= nbSectors
    case WriteSectors(sector, data) =>
      |data| % SECTOR == 0 && |data| / SECTOR <= 63 && sector + |data| / SECTOR <= nbSectors
  }

  function Frame(op: Op): seq<Byte>
  {
    match op
    case ReadSectors(sector, count) => ReadFrame(sector * SECTOR % TWO_32, count * SECTOR % TWO_32)
    case WriteSectors(sector, data) => WriteFrame(sector * SECTOR % TWO_32, data)
  }

  function Meant(op: Op): Request {
    match op
    case ReadSectors(sector, count) => Read(sector * SECTOR, count * SECTOR)
    case WriteSectors(sector, data) => Write(sector * SECTOR, data)
  }

  function Frames(ops: seq<Op>): seq<Byte> {
    if ops == [] then [] else Frame(ops[0]) + Frames(ops[1..])
  }

  function MeantAll(ops: seq<Op>): (rs: seq<Request>)
    ensures |rs| == |ops| && forall k :: 0 <= k < |ops| ==> rs[k] == Meant(ops[k])
  {
    if ops == [] then [] else [Meant(ops[0])] + MeantAll(ops[1..])
  }

  lemma ReadFrameDecodes(offset: nat, size: nat, rest: seq<Byte>)
    requires offset < TWO_32 && size < TWO_32 && WellFramed(rest)
    ensures WellFramed(ReadFrame(offset, size) + rest)
    ensures Requests(ReadFrame(offset, size) + rest) == [Read(offset, size)] + Requests(rest)
  {
    hide Le32, U32, Requests, WellFramed;
    var stream := ReadFrame(offset, size) + rest;
    var body := stream[4..13];
    IntRoundTrip(9);
    IntRoundTrip(offset);
    IntRoundTrip(size);
    assert stream[..4] == Le32(9) && stream[13..] == rest;
    assert body == [SAWA_READ] + Le32(offset) + Le32(size);
    assert body[0] == SAWA_READ && body[1..5] == Le32(offset) && body[5..9] == Le32(size);
    FrameIntro(stream, 9);
  }

  lemma WriteFrameDecodes(offset: nat, data: seq<Byte>, rest: seq<Byte>)
    requires offset < TWO_32 && |data| + 5 <= MAX_FRAME && WellFramed(rest)
    ensures WellFramed(WriteFrame(offset, data) + rest)
    ensures Requests(WriteFrame(offset, data) + rest) == [Write(offset, data)] + Requests(rest)
  {
    hide Le32, U32, Requests, WellFramed;
    var stream := WriteFrame(offset, data) + rest;
    var n := |data| + 5;
    var body := stream[4..4 + n];
    IntRoundTrip(n);
    IntRoundTrip(offset);
    assert stream[..4] == Le32(n) && stream[4 + n..] == rest;
    assert body == [SAWA_WRITE] + Le32(offset) + data;
    assert body[0] == SAWA_WRITE && body[1..5] == Le32(offset) && body[5..] == data;
    FrameIntro(stream, n);
  }

  lemma FrameIntro(stream: seq<Byte>, n: nat)
    requires 4 + n <= |stream| && U32(stream[..4]) == n && 0 < n <= MAX_FRAME
    requires WellFormed(stream[4..4 + n]) && WellFramed(stream[4 + n..])
    ensures WellFramed(stream)
    ensures Requests(stream) == [Decode(stream[4..4 + n])] + Requests(stream[4 + n..])
  {
    hide U32, Decode, WellFormed;
  }

  predicate InRange(r: Request, nbSectors: nat) {
    match r
    case Read(offset, size) => Fits(nbSectors, offset, size)
    case Write(offset, data) => Fits(nbSectors, offset, |data|)
    case _ => false
  }

  lemma OpDecodes(op: Op, nbSectors: nat, rest: seq<Byte>)
    requires Admissible(op, nbSectors) && nbSectors * SECTOR < TWO_32 && WellFramed(rest)
    ensures WellFramed(Frame(op) + rest)
    ensures Requests(Frame(op) + rest) == [Meant(op)] + Requests(rest)
    ensures Judged(nbSectors, Meant(op))
    ensures InRange(Meant(op), nbSectors)
  {
    hide Requests, WellFramed, ReadFrame, WriteFrame;
    match op
    case ReadSectors(sector, count) =>
      ReadFrameDecodes(sector * SECTOR, count * SECTOR, rest);
    case WriteSectors(sector, data) =>
      WriteFrameDecodes(sector * SECTOR, data, rest);
  }

  /** The server takes the driver's requests for what they were meant to be, one
      for one and in order; each is inside the disk, and its guard judges it so. */
  lemma {:induction false} DriverRequests(ops: seq<Op>, nbSectors: nat)
    requires nbSectors * SECTOR < TWO_32 && forall op :: op in ops ==> Admissible(op, nbSectors)
    ensures WellFramed(Frames(ops)) && Requests(Frames(ops)) == MeantAll(ops)
    ensures AllJudged(nbSectors, Requests(Frames(ops)))
    ensures forall r :: r in Requests(Frames(ops)) ==> InRange(r, nbSectors)
  {
    hide Requests, WellFramed, Frame, Meant, Admissible, Judged, InRange;
    if ops == [] {
      LastFrame(Frames(ops));
    } else {
      DriverRequests(ops[1..], nbSectors);
      OpDecodes(ops[0], nbSectors, Frames(ops[1..]));
    }
  }

  /** A longer write makes the server drop the connection: neither it nor anything
      after it on the connection is served. */
  lemma LongWritesAreDropped(sector: nat, data: seq<Byte>, rest: seq<Byte>)
    requires |data| % SECTOR == 0 && |data| / SECTOR > 63 && |data| + 5 < TWO_32
    ensures var stream := Frame(WriteSectors(sector, data)) + rest;
      WellFramed(stream) && Requests(stream) == []
  {
    hide Le32, U32, Requests, WellFramed;
    var stream := Frame(WriteSectors(sector, data)) + rest;
    IntRoundTrip(|data| + 5);
    assert stream[..4] == Le32(|data| + 5);
    LastFrame(stream);
  }

  /** What is read back after any run of driver requests is, byte for byte, what
      the latest write to that sector wrote. */
  lemma SectorsReadBack(store: seq<Byte>, nbSectors: nat, ops: seq<Op>, sector: nat, count: nat, k: nat)
    requires |store| == nbSectors * SECTOR < TWO_32 && forall op :: op in ops ==> Admissible(op, nbSectors)
    requires sector + count <= nbSectors && k < count * SECTOR
    ensures WellFramed(Frames(ops))
    ensures var after := StoredAll(store, nbSectors, Requests(Frames(ops)));
      var reply := Reply(after, nbSectors, Meant(ReadSectors(sector, count)));
      |reply| == count * SECTOR
      && reply[k] == Latest(store[sector * SECTOR + k], nbSectors, MeantAll(ops), sector * SECTOR + k)
  {
    hide StoredAll, Reply, Requests, WellFramed, Latest, Frames, Admissible;
    DriverRequests(ops, nbSectors);
    ReadsSeeLatest(store, nbSectors, MeantAll(ops), sector * SECTOR, count * SECTOR, k);
  }
}
