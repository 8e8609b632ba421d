/** The SaWa block server (server/sawa_srv.cpp): framed requests on a socket,
    served from one backing file with 32-bit arithmetic. */
module BlockStore {
  import opened ThreadLists

  type Byte = b: int | 0 <= b < 256

  const TWO_32 := 0x1_0000_0000

  const SAWA_INFO: Byte := 0x01
  const SAWA_READ: Byte := 0x02
  const SAWA_WRITE: Byte := 0x03
  const SAWA_MSG_OK: Byte := 0x42
  const SAWA_MSG_NOAUTH: Byte := 0x44

  const MAX_FRAME := 32768
  const SECTOR := 512

  // ----- 32-bit integers in memory, low byte first -----

  function Le32(v: nat): (b: seq<Byte>)
    requires v < TWO_32
    ensures |b| == 4
  {
    [v % 256, v / 256 % 256, v / 65536 % 256, v / 16777216]
  }

  function U32(b: seq<Byte>): (v: nat)
    requires |b| == 4
    ensures v < TWO_32
  {
    var b0: int, b1: int, b2: int, b3: int := b[0], b[1], b[2], b[3];
    b0 + 256 * b1 + 65536 * b2 + 16777216 * b3
  }

  lemma IntRoundTrip(v: nat)
    requires v < TWO_32
    ensures U32(Le32(v)) == v
  {
    assert v / 65536 == v / 256 / 256 && v / 16777216 == v / 256 / 256 / 256;
  }

  lemma BytesRoundTrip(b: seq<Byte>)
    requires |b| == 4
    ensures Le32(U32(b)) == b
  {
    var v := U32(b);
    var b1: int, b2: int, b3: int := b[1], b[2], b[3];
    assert v / 256 == b1 + 256 * b2 + 65536 * b3;
    assert v / 65536 == b2 + 256 * b3;
  }

  // ----- Requests -----

  datatype Request =
    | Info
    | Read(offset: nat, size: nat)
    | Write(offset: nat, data: seq<Byte>)
    | Unknown(op: Byte)

  /** The body holds every field the server reads for its operation. */
  predicate WellFormed(body: seq<Byte>) {
    && body != []
    && (body[0] == SAWA_INFO || |body| >= 5)
    && (body[0] == SAWA_READ ==> |body| >= 9)
  }

  function Decode(body: seq<Byte>): Request
    requires WellFormed(body)
  {
    if body[0] == SAWA_INFO then Info
    else if body[0] == SAWA_READ then Read(U32(body[1..5]), U32(body[5..9]))
    else if body[0] == SAWA_WRITE then Write(U32(body[1..5]), body[5..])
    else Unknown(body[0])
  }

  /** The stream is a run of complete well-formed frames, up to its end or to a
      declared size the server refuses. */
  predicate WellFramed(stream: seq<Byte>) {
    |stream| < 4 || U32(stream[..4]) > MAX_FRAME ||
    (var n := U32(stream[..4]);
     4 + n <= |stream| && (n > 0 ==> WellFormed(stream[4..4 + n])) && WellFramed(stream[4 + n..]))
  }

  function Requests(stream: seq<Byte>): seq<Request>
    requires WellFramed(stream)
  {
    if |stream| < 4 || U32(stream[..4]) > MAX_FRAME then []
    else
      var n := U32(stream[..4]);
      (if n == 0 then [] else [Decode(stream[4..4 + n])]) + Requests(stream[4 + n..])
  }

  /** A frame is a size, low byte first, and that many bytes, at most 32768; its first
      byte is 1 for information, 2 for a read, 3 for a write. */
  lemma FrameFormat(body: seq<Byte>, rest: seq<Byte>)
    requires body != [] && |body| < 65536 && WellFormed(body) && WellFramed(rest)
    ensures var stream := [|body| % 256, |body| / 256, 0, 0] + body + rest;
      && WellFramed(stream)
      && Requests(stream) == (if |body| <= 32768 then [Decode(body)] + Requests(rest) else [])
    ensures body[0] == 1 <==> Decode(body) == Info
    ensures body[0] == 2 <==> Decode(body).Read?
    ensures body[0] == 3 <==> Decode(body).Write?
  {
    var size := [|body| % 256, |body| / 256, 0, 0];
    var stream := size + body + rest;
    IntRoundTrip(|body|);
    assert size == Le32(|body|);
    assert stream[..4] == size && stream[4..4 + |body|] == body && stream[4 + |body|..] == rest;
    DecodedKind(body);
    hide Decode, WellFormed, Requests, U32, Le32, WellFramed;
    if |body| <= 32768 {
      OneFrame(stream);
    } else {
      LastFrame(stream);
    }
  }

  lemma OneFrame(stream: seq<Byte>)
    requires |stream| >= 4 && 0 < U32(stream[..4]) <= MAX_FRAME && 4 + U32(stream[..4]) <= |stream|
    requires WellFormed(stream[4..4 + U32(stream[..4])]) && WellFramed(stream[4 + U32(stream[..4])..])
    ensures WellFramed(stream)
    ensures Requests(stream) == [Decode(stream[4..4 + U32(stream[..4])])] + Requests(stream[4 + U32(stream[..4])..])
  {
    hide U32, Decode, WellFormed;
  }

  lemma DecodedKind(body: seq<Byte>)
    requires WellFormed(body)
    ensures body[0] == 1 <==> Decode(body) == Info
    ensures body[0] == 2 <==> Decode(body).Read?
    ensures body[0] == 3 <==> Decode(body).Write?
  {
    hide U32;
  }

  // ----- The reference: one array of sectors -----

  predicate Fits(nbSectors: nat, offset: nat, size: nat) {
    offset + size <= nbSectors * SECTOR
  }

  function Stored(store: seq<Byte>, nbSectors: nat, r: Request): (after: seq<Byte>)
    requires |store| == nbSectors * SECTOR
    ensures |after| == |store|
  {
    match r
    case Write(offset, data) =>
      if Fits(nbSectors, offset, |data|) then store[..offset] + data + store[offset + |data|..] else store
    case _ => store
  }

  function Reply(store: seq<Byte>, nbSectors: nat, r: Request): seq<Byte>
    requires |store| == nbSectors * SECTOR && nbSectors < TWO_32
  {
    match r
    case Info => Le32(nbSectors)
    case Read(offset, size) =>
      if Fits(nbSectors, offset, size) then store[offset..offset + size] else [SAWA_MSG_NOAUTH]
    case Write(offset, data) => if Fits(nbSectors, offset, |data|) then [SAWA_MSG_OK] else [SAWA_MSG_NOAUTH]
    case Unknown(_) => []
  }

  function StoredAll(store: seq<Byte>, nbSectors: nat, rs: seq<Request>): (after: seq<Byte>)
    requires |store| == nbSectors * SECTOR
    ensures |after| == |store|
    decreases rs
  {
    if rs == [] then store else StoredAll(Stored(store, nbSectors, rs[0]), nbSectors, rs[1..])
  }

  function Replies(store: seq<Byte>, nbSectors: nat, rs: seq<Request>): seq<Byte>
    requires |store| == nbSectors * SECTOR && nbSectors < TWO_32
    decreases rs
  {
    if rs == [] then []
    else Reply(store, nbSectors, rs[0]) + Replies(Stored(store, nbSectors, rs[0]), nbSectors, rs[1..])
  }

  /** The statistics column of a request, as shown by the administration interface. */
  function Counted(info: seq<int>, rs: seq<Request>): seq<int>
    requires |info| == 3
    decreases rs
  {
    if rs == [] then info
    else
      Counted(match rs[0]
              case Info => info[0 := info[0] + 1]
              case Read(_, _) => info[1 := info[1] + 1]
              case Write(_, _) => info[2 := info[2] + 1]
              case Unknown(_) => info, rs[1..])
  }

  /** How many requests are of a kind. */
  function Number(rs: seq<Request>, ofKind: Request -> bool): nat {
    if rs == [] then 0 else (if ofKind(rs[0]) then 1 else 0) + Number(rs[1..], ofKind)
  }

  /** The first column counts the requests for information, the second the reads, the
      third the writes. */
  lemma {:induction false} ColumnsCount(info: seq<int>, rs: seq<Request>)
    requires |info| == 3
    ensures Counted(info, rs) ==
      [info[0] + Number(rs, (r: Request) => r.Info?), info[1] + Number(rs, (r: Request) => r.Read?),
       info[2] + Number(rs, (r: Request) => r.Write?)]
    decreases rs
  {
    if rs != [] {
      CountStep(info, rs[0], rs[1..]);
      ColumnsCount(Counted(info, [rs[0]]), rs[1..]);
      CountedOne(info, rs[0]);
      assert rs == [rs[0]] + rs[1..];
    }
  }

  predicate Covers(nbSectors: nat, r: Request, i: nat) {
    r.Write? && Fits(nbSectors, r.offset, |r.data|) && r.offset <= i < r.offset + |r.data|
  }

  /** Byte `i` as its latest accepted write left it. */
  function Latest(initial: Byte, nbSectors: nat, rs: seq<Request>, i: nat): Byte {
    if rs == [] then initial
    else
      var last := rs[|rs| - 1];
      if Covers(nbSectors, last, i) then last.data[i - last.offset]
      else Latest(initial, nbSectors, rs[..|rs| - 1], i)
  }

  lemma {:induction false} StoredAllAppend(store: seq<Byte>, nbSectors: nat, rs: seq<Request>, r: Request)
    requires |store| == nbSectors * SECTOR
    ensures StoredAll(store, nbSectors, rs + [r]) == Stored(StoredAll(store, nbSectors, rs), nbSectors, r)
    decreases rs
  {
    if rs == [] {
      assert ([r])[1..] == [];
      assert rs + [r] == [r];
    } else {
      StoredAllAppend(Stored(store, nbSectors, rs[0]), nbSectors, rs[1..], r);
      assert (rs + [r])[1..] == rs[1..] + [r];
    }
  }

  lemma StoredByte(store: seq<Byte>, nbSectors: nat, r: Request, i: nat)
    requires |store| == nbSectors * SECTOR && i < |store|
    ensures Stored(store, nbSectors, r)[i] == if Covers(nbSectors, r, i) then r.data[i - r.offset] else store[i]
  {
  }

  /** Each byte of the store is what the latest accepted write to it wrote; rejected
      requests and writes elsewhere do not touch it. */
  lemma {:induction false} BytesAreLatest(store: seq<Byte>, nbSectors: nat, rs: seq<Request>, i: nat)
    requires |store| == nbSectors * SECTOR && i < |store|
    ensures StoredAll(store, nbSectors, rs)[i] == Latest(store[i], nbSectors, rs, i)
  {
    if rs != [] {
      var front, last := rs[..|rs| - 1], rs[|rs| - 1];
      assert rs == front + [last];
      BytesAreLatest(store, nbSectors, front, i);
      StoredAllAppend(store, nbSectors, front, last);
      StoredByte(StoredAll(store, nbSectors, front), nbSectors, last, i);
    }
  }

  /** What is sent: four bytes of the number of sectors, the bytes read, 0x42 for a write,
      0x44 for what does not fit on the 512 bytes of each sector. */
  lemma ReplyBytes(store: seq<Byte>, nbSectors: nat, offset: nat, data: seq<Byte>)
    requires |store| == nbSectors * 512 && nbSectors < TWO_32
    ensures |Reply(store, nbSectors, Info)| == 4 && U32(Reply(store, nbSectors, Info)) == nbSectors
    ensures Reply(store, nbSectors, Read(offset, |data|)) ==
      if offset + |data| <= |store| then store[offset..offset + |data|] else [0x44]
    ensures Reply(store, nbSectors, Write(offset, data)) == if offset + |data| <= |store| then [0x42] else [0x44]
  {
    IntRoundTrip(nbSectors);
  }

  /** A read that fits returns the latest bytes written before it. */
  lemma ReadsSeeLatest(store: seq<Byte>, nbSectors: nat, rs: seq<Request>, offset: nat, size: nat, k: nat)
    requires |store| == nbSectors * SECTOR && nbSectors < TWO_32
    requires Fits(nbSectors, offset, size) && k < size
    ensures var reply := Reply(StoredAll(store, nbSectors, rs), nbSectors, Read(offset, size));
      |reply| == size && reply[k] == Latest(store[offset + k], nbSectors, rs, offset + k)
  {
    BytesAreLatest(store, nbSectors, rs, offset + k);
  }

  // ----- The guard of the code -----

  /** checkValidRequest adds and multiplies in 32 bits. */
  predicate Accepts(nbSectors: nat, offset: nat, size: nat) {
    (size + offset) % TWO_32 <= nbSectors * SECTOR % TWO_32
  }

  /** The sum wraps around to a value the guard lets through. */
  predicate SlipsThrough(nbSectors: nat, offset: nat, size: nat) {
    TWO_32 <= offset + size <= TWO_32 + nbSectors * SECTOR
  }

  /** The guard is the range check exactly when the sum does not wrap around to a
      small value. */
  lemma GuardIsRangeCheck(nbSectors: nat, offset: nat, size: nat)
    requires nbSectors * SECTOR < TWO_32 && offset < TWO_32 && size < TWO_32
    ensures Accepts(nbSectors, offset, size) == Fits(nbSectors, offset, size) <==> !SlipsThrough(nbSectors, offset, size)
  {
    if offset + size >= TWO_32 {
      assert (size + offset) % TWO_32 == offset + size - TWO_32;
    }
  }

  /** A one-byte write at the last 32-bit offset is accepted. */
  lemma WrappingRequestIsAccepted()
    ensures Accepts(2048, 0xFFFF_FFFF, 1) && !Fits(2048, 0xFFFF_FFFF, 1)
  {
    assert (1 + 0xFFFF_FFFF) % TWO_32 == 0;
  }

  /** The guard judges the request rightly: a sum that wraps around is refused. */
  predicate Judged(nbSectors: nat, r: Request) {
    match r
    case Read(offset, size) => !SlipsThrough(nbSectors, offset, size)
    case Write(offset, data) => !SlipsThrough(nbSectors, offset, |data|)
    case _ => true
  }

  /** The fields of a request are 32 bits wide. */
  predicate Narrow(r: Request) {
    match r
    case Read(offset, size) => offset < TWO_32 && size < TWO_32
    case Write(offset, data) => offset < TWO_32 && |data| < TWO_32
    case _ => true
  }

  // ----- Files and sockets -----

  /** What a file holds after `data` is written at `offset`, past its end or not. */
  function Overwritten(bytes: seq<Byte>, offset: nat, data: seq<Byte>): seq<Byte> {
    if data == [] then bytes
    else
      var long := if |bytes| < offset then bytes + seq(offset - |bytes|, _ => 0) else bytes;
      long[..offset] + data + (if offset + |data| < |long| then long[offset + |data|..] else [])
  }

  /** The bytes of a file after a write, one by one. */
  lemma OverwrittenBytes(bytes: seq<Byte>, offset: nat, data: seq<Byte>, i: nat)
    requires data != [] && i < |Overwritten(bytes, offset, data)|
    ensures |Overwritten(bytes, offset, data)| == if offset + |data| > |bytes| then offset + |data| else |bytes|
    ensures Overwritten(bytes, offset, data)[i] ==
      if offset <= i < offset + |data| then data[i - offset] else if i < |bytes| then bytes[i] else 0
  {
  }

  /** A FILE* open for reading and writing. */
  class File {
    var bytes: seq<Byte>
    var pos: nat

    constructor (bytes: seq<Byte>)
      ensures this.bytes == bytes && pos == 0
    {
      this.bytes, pos := bytes, 0;
    }

    method Fseek(offset: nat)
      modifies `pos
      ensures pos == offset
    {
      pos := offset;
    }

    method Fread(buffer: array<Byte>, size: nat) returns (n: nat)
      requires size <= buffer.Length
      modifies `pos, buffer
      ensures n == (if old(pos) + size <= |bytes| then size else if old(pos) <= |bytes| then |bytes| - old(pos) else 0)
      ensures pos == old(pos) + n && (n > 0 ==> buffer[..n] == bytes[old(pos)..old(pos) + n])
      ensures buffer[n..] == old(buffer[n..])
    {
      n := if pos + size <= |bytes| then size else if pos <= |bytes| then |bytes| - pos else 0;
      forall k | 0 <= k < n {
        buffer[k] := bytes[pos + k];
      }
      pos := pos + n;
    }

    method Fwrite(data: seq<Byte>)
      modifies this
      ensures bytes == Overwritten(old(bytes), old(pos), data) && pos == old(pos) + |data|
    {
      bytes := Overwritten(bytes, pos, data);
      pos := pos + |data|;
    }
  }

  /** A connected socket: the bytes the client has yet to deliver, and those sent
      to it. Reads are complete unless the client has no more to send. */
  class Socket {
    var incoming: seq<Byte>
    var outgoing: seq<Byte>

    constructor (incoming: seq<Byte>)
      ensures this.incoming == incoming && outgoing == []
    {
      this.incoming, outgoing := incoming, [];
    }

    method Read(buffer: array<Byte>, size: nat) returns (n: nat)
      requires size <= buffer.Length
      modifies `incoming, buffer
      ensures n == if size <= |old(incoming)| then size else |old(incoming)|
      ensures buffer[..n] == old(incoming)[..n] && buffer[n..] == old(buffer[n..]) && incoming == old(incoming)[n..]
    {
      n := if size <= |incoming| then size else |incoming|;
      forall k | 0 <= k < n {
        buffer[k] := incoming[k];
      }
      incoming := incoming[n..];
    }

    method Write(data: seq<Byte>)
      modifies `outgoing
      ensures outgoing == old(outgoing) + data
    {
      outgoing := outgoing + data;
    }
  }

  // ----- The server -----

  /** What a read sends: the bytes the file has from `offset` on; past the end of
      the file, whatever the new buffer happened to hold. */
  predicate IsReadReply(bytes: seq<Byte>, offset: nat, size: nat, reply: seq<Byte>) {
    |reply| == size && forall k :: 0 <= k < size && offset + k < |bytes| ==> reply[k] == bytes[offset + k]
  }

  lemma ReadWithinFile(bytes: seq<Byte>, offset: nat, size: nat, reply: seq<Byte>)
    requires IsReadReply(bytes, offset, size, reply) && offset + size <= |bytes|
    ensures reply == bytes[offset..offset + size]
  {
  }

  /** Judged rightly, an accepted transfer stays inside the file. */
  lemma ServedWithinFile(bytes: seq<Byte>, nbSectors: nat, r: Request)
    requires |bytes| == nbSectors * SECTOR < TWO_32 && Judged(nbSectors, r) && Narrow(r)
    ensures r.Read? ==> Accepts(nbSectors, r.offset, r.size) == (r.offset + r.size <= |bytes|)
    ensures r.Read? ==> Reply(bytes, nbSectors, r)
                        == if Accepts(nbSectors, r.offset, r.size) then bytes[r.offset..r.offset + r.size]
                           else [SAWA_MSG_NOAUTH]
    ensures r.Write? ==> Stored(bytes, nbSectors, r)
                         == if Accepts(nbSectors, r.offset, |r.data|) then Overwritten(bytes, r.offset, r.data)
                            else bytes
    ensures r.Write? ==> Reply(bytes, nbSectors, r)
                         == [if Accepts(nbSectors, r.offset, |r.data|) then SAWA_MSG_OK else SAWA_MSG_NOAUTH]
  {
    hide Le32, Accepts, Fits, SlipsThrough;
    match r
    case Read(offset, size) => RangeChecked(nbSectors, offset, size);
    case Write(offset, data) => RangeChecked(nbSectors, offset, |data|);
    case _ =>
  }

  lemma RangeChecked(nbSectors: nat, offset: nat, size: nat)
    requires nbSectors * SECTOR < TWO_32 && offset < TWO_32 && size < TWO_32 && !SlipsThrough(nbSectors, offset, size)
    ensures Accepts(nbSectors, offset, size) == Fits(nbSectors, offset, size) == (offset + size <= nbSectors * SECTOR)
  {
    hide Accepts, SlipsThrough;
    GuardIsRangeCheck(nbSectors, offset, size);
  }

  lemma OtherRequests(bytes: seq<Byte>, nbSectors: nat, r: Request)
    requires |bytes| == nbSectors * SECTOR && nbSectors < TWO_32
    ensures !r.Write? ==> Stored(bytes, nbSectors, r) == bytes
    ensures r.Info? ==> Reply(bytes, nbSectors, r) == Le32(nbSectors)
    ensures r.Unknown? ==> Reply(bytes, nbSectors, r) == []
  {
  }

  lemma DecodedFields(body: seq<Byte>)
    requires WellFormed(body)
    ensures |body| > 0 && (body[0] == SAWA_INFO ==> Decode(body) == Info)
    ensures body[0] == SAWA_READ ==> |body| >= 9 && Decode(body) == Read(U32(body[1..5]), U32(body[5..9]))
    ensures body[0] == SAWA_WRITE ==> |body| >= 5 && Decode(body) == Write(U32(body[1..5]), body[5..])
    ensures body[0] != SAWA_INFO ==> |body| >= 5
    ensures body[0] !in {SAWA_INFO, SAWA_READ, SAWA_WRITE} ==> Decode(body) == Unknown(body[0])
    ensures |body| < TWO_32 ==> Narrow(Decode(body))
  {
    hide U32;
  }

  function Column(r: Request): nat {
    match r
    case Info => 0
    case Read(_, _) => 1
    case Write(_, _) => 2
    case Unknown(_) => 3
  }

  lemma CountedStep(info: seq<int>, rs: seq<Request>)
    requires |info| == 3 && rs != []
    ensures Counted(info, rs) == Counted(if rs[0].Unknown? then info else info[Column(rs[0]) := info[Column(rs[0])] + 1], rs[1..])
  {
  }

  lemma CountedOne(info: seq<int>, r: Request)
    requires |info| == 3
    ensures Counted(info, [r]) == if r.Unknown? then info else info[Column(r) := info[Column(r)] + 1]
  {
    CountedStep(info, [r]);
  }

  lemma FrameStep(stream: seq<Byte>)
    requires WellFramed(stream) && |stream| >= 4 && U32(stream[..4]) <= MAX_FRAME
    ensures var n := U32(stream[..4]);
      && 4 + n <= |stream| && WellFramed(stream[4 + n..])
      && (n == 0 ==> Requests(stream) == Requests(stream[4..]))
      && (n > 0 ==> WellFormed(stream[4..4 + n]))
      && (n > 0 ==> Requests(stream) == [Decode(stream[4..4 + n])] + Requests(stream[4 + n..]))
  {
    hide U32, Decode, WellFormed;
  }

  lemma LastFrame(stream: seq<Byte>)
    requires |stream| < 4 || U32(stream[..4]) > MAX_FRAME
    ensures WellFramed(stream) && Requests(stream) == []
  {
  }

  /** `rest` is all that is left to serve once `r` has been. */
  lemma ServeStep(store: seq<Byte>, nbSectors: nat, r: Request, rest: seq<Request>)
    requires |store| == nbSectors * SECTOR && nbSectors < TWO_32
    ensures StoredAll(store, nbSectors, [r] + rest) == StoredAll(Stored(store, nbSectors, r), nbSectors, rest)
    ensures Replies(store, nbSectors, [r] + rest)
         == Reply(store, nbSectors, r) + Replies(Stored(store, nbSectors, r), nbSectors, rest)
  {
    hide Stored, Reply, Fits;
    assert ([r] + rest)[1..] == rest;
  }

  lemma ServeNone(store: seq<Byte>, nbSectors: nat)
    requires |store| == nbSectors * SECTOR && nbSectors < TWO_32
    ensures StoredAll(store, nbSectors, []) == store && Replies(store, nbSectors, []) == []
  {
  }

  lemma CountStep(info: seq<int>, r: Request, rest: seq<Request>)
    requires |info| == 3
    ensures |Counted(info, [r])| == 3 && Counted(info, [r] + rest) == Counted(Counted(info, [r]), rest)
  {
    CountedOne(info, r);
    CountedStep(info, [r] + rest);
    assert ([r] + rest)[1..] == rest;
  }

  lemma NoMoreCounted(info: seq<int>)
    requires |info| == 3
    ensures Counted(info, []) == info
  {
  }

  predicate AllJudged(nbSectors: nat, rs: seq<Request>) {
    forall r :: r in rs ==> Judged(nbSectors, r)
  }

  lemma AllJudgedStep(nbSectors: nat, r: Request, rest: seq<Request>)
    requires AllJudged(nbSectors, [r] + rest)
    ensures Judged(nbSectors, r) && AllJudged(nbSectors, rest)
  {
    assert r in [r] + rest;
    assert forall u :: u in rest ==> u in [r] + rest;
  }

  class SawaServer {
    const fp: File
    const nbSectors: nat

    constructor (fp: File, nbSectors: nat)
      ensures this.fp == fp && this.nbSectors == nbSectors
    {
      this.fp, this.nbSectors := fp, nbSectors;
    }

    /** The file has the size it was created with, and that is below 2^32. */
    predicate Sized()
      reads fp
    {
      |fp.bytes| == nbSectors * SECTOR < TWO_32
    }

    method SendInfo(socket: Socket)
      requires nbSectors < TWO_32
      modifies socket`outgoing
      ensures socket.outgoing == old(socket.outgoing) + Le32(nbSectors)
    {
      socket.Write(Le32(nbSectors));
    }

    method CheckValidRequest(socket: Socket, offset: nat, size: nat) returns (ok: bool)
      modifies socket`outgoing
      ensures ok == Accepts(nbSectors, offset, size)
      ensures socket.outgoing == old(socket.outgoing) + (if ok then [] else [SAWA_MSG_NOAUTH])
    {
      if (size + offset) % TWO_32 <= nbSectors * SECTOR % TWO_32 {
        return true;
      }
      socket.Write([SAWA_MSG_NOAUTH]);
      return false;
    }

    method ReadFile(socket: Socket, offset: nat, size: nat)
      modifies socket`outgoing, fp`pos
      ensures |socket.outgoing| >= |old(socket.outgoing)|
      ensures socket.outgoing[..|old(socket.outgoing)|] == old(socket.outgoing)
      ensures var reply := socket.outgoing[|old(socket.outgoing)|..];
        if Accepts(nbSectors, offset, size) then IsReadReply(fp.bytes, offset, size, reply)
        else reply == [SAWA_MSG_NOAUTH]
    {
      var ok := CheckValidRequest(socket, offset, size);
      if !ok {
        return;
      }
      fp.Fseek(offset);
      var buffer := new Byte[size];
      var n := fp.Fread(buffer, size);
      forall k | 0 <= k < size && offset + k < |fp.bytes|
        ensures buffer[k] == fp.bytes[offset + k]
      {
        assert buffer[k] == buffer[..n][k];
      }
      socket.Write(buffer[..size]);
    }

    method WriteFile(socket: Socket, addr: array<Byte>, start: nat, offset: nat, size: nat)
      requires start + size <= addr.Length
      modifies socket`outgoing, fp
      ensures fp.bytes == if Accepts(nbSectors, offset, size)
                          then Overwritten(old(fp.bytes), offset, addr[start..start + size])
                          else old(fp.bytes)
      ensures socket.outgoing == old(socket.outgoing)
           + [if Accepts(nbSectors, offset, size) then SAWA_MSG_OK else SAWA_MSG_NOAUTH]
    {
      var ok := CheckValidRequest(socket, offset, size);
      if !ok {
        return;
      }
      fp.Fseek(offset);
      fp.Fwrite(addr[start..start + size]);
      socket.Write([SAWA_MSG_OK]);
    }

    method UpdateScreen(t: ConnectionThread, col: nat)
      requires col < |t.info|
      modifies t`info
      ensures t.info == old(t.info)[col := old(t.info)[col] + 1]
    {
      t.info := t.info[col := t.info[col] + 1];
    }

    /** On a file of the right size, a request whose end does not wrap around to a
        position inside the file is carried out as on the reference store. */
    method ProcessRequest(socket: Socket, t: ConnectionThread, addr: array<Byte>, size: nat)
      requires size <= addr.Length && size < TWO_32 && WellFormed(addr[..size]) && nbSectors < TWO_32 && |t.info| == 3
      modifies socket`outgoing, fp, t`info
      ensures t.info == Counted(old(t.info), [Decode(addr[..size])])
      ensures old(Sized()) && Judged(nbSectors, Decode(addr[..size])) ==>
        && Sized()
        && fp.bytes == Stored(old(fp.bytes), nbSectors, Decode(addr[..size]))
        && socket.outgoing == old(socket.outgoing) + Reply(old(fp.bytes), nbSectors, Decode(addr[..size]))
      ensures var r := Decode(addr[..size]);
        fp.bytes == if r.Write? && Accepts(nbSectors, r.offset, |r.data|)
                    then Overwritten(old(fp.bytes), r.offset, r.data)
                    else old(fp.bytes)
    {
      hide U32, Le32, Decode, WellFormed, Reply, Stored, Overwritten, Counted, Accepts, Fits, Judged, Narrow, IsReadReply;
      ghost var body := addr[..size];
      ghost var r := Decode(body);
      DecodedFields(body);
      CountedOne(t.info, r);
      if Sized() {
        OtherRequests(fp.bytes, nbSectors, r);
        if Judged(nbSectors, r) {
          ServedWithinFile(fp.bytes, nbSectors, r);
        }
      }
      var op := addr[0];
      if op == SAWA_INFO {
        SendInfo(socket);
        UpdateScreen(t, 0);
        return;
      }
      assert body[1..5] == addr[1..5];
      var offset := U32(addr[1..5]);
      if op == SAWA_READ {
        assert body[5..9] == addr[5..9];
        var count := U32(addr[5..9]);
        ghost var sent := |socket.outgoing|;
        ReadFile(socket, offset, count);
        if Accepts(nbSectors, offset, count) && offset + count <= |fp.bytes| {
          ReadWithinFile(fp.bytes, offset, count, socket.outgoing[sent..]);
        }
        assert socket.outgoing == socket.outgoing[..sent] + socket.outgoing[sent..];
        UpdateScreen(t, 1);
      } else if op == SAWA_WRITE {
        assert body[5..] == addr[5..5 + (size - 5)];
        WriteFile(socket, addr, 5, offset, size - 5);
        UpdateScreen(t, 2);
      }
    }

    /** Serves the requests of a connection one after another, until the client has
        no more to send or declares a frame that is too long. */
    method ReadData(t: ConnectionThread, socket: Socket)
      requires WellFramed(socket.incoming) && nbSectors < TWO_32 && |t.info| == 3
      modifies socket, fp, t`info
      ensures t.info == Counted(old(t.info), Requests(old(socket.incoming)))
      ensures old(Sized()) && AllJudged(nbSectors, Requests(old(socket.incoming))) ==>
        && Sized()
        && fp.bytes == StoredAll(old(fp.bytes), nbSectors, Requests(old(socket.incoming)))
        && socket.outgoing
           == old(socket.outgoing) + Replies(old(fp.bytes), nbSectors, Requests(old(socket.incoming)))
    {
      hide WellFramed, Requests, WellFormed, Decode, U32, StoredAll, Replies, Stored, Reply, Counted, AllJudged, Judged;
      var header := new Byte[4];
      ghost var all := Requests(socket.incoming);
      ghost var tame := Sized() && AllJudged(nbSectors, all);
      ghost var left := all;
      while true
        invariant WellFramed(socket.incoming) && left == Requests(socket.incoming)
        invariant |t.info| == 3 && Counted(t.info, left) == Counted(old(t.info), all)
        invariant tame ==> Sized() && AllJudged(nbSectors, left)
        invariant tame ==> StoredAll(fp.bytes, nbSectors, left) == StoredAll(old(fp.bytes), nbSectors, all)
        invariant tame ==>
          socket.outgoing + Replies(fp.bytes, nbSectors, left)
          == old(socket.outgoing) + Replies(old(fp.bytes), nbSectors, all)
        decreases |socket.incoming|
      {
        ghost var stream := socket.incoming;
        if |stream| < 4 || U32(stream[..4]) > MAX_FRAME {
          LastFrame(stream);
          NoMoreCounted(t.info);
          if tame {
            ServeNone(fp.bytes, nbSectors);
          }
        } else {
          FrameStep(stream);
        }
        var n := socket.Read(header, 4);
        if n < 4 {
          return;
        }
        assert header[..] == stream[..4];
        var expectedSize := U32(header[..]);
        if expectedSize > MAX_FRAME {
          return;
        }
        assert socket.incoming == stream[4..];
        if expectedSize > 0 {
          var buffer := new Byte[expectedSize];
          n := socket.Read(buffer, expectedSize);
          assert buffer[..expectedSize] == stream[4..4 + expectedSize];
          ghost var r, rest := Decode(buffer[..expectedSize]), Requests(stream[4 + expectedSize..]);
          if tame {
            AllJudgedStep(nbSectors, r, rest);
            ServeStep(fp.bytes, nbSectors, r, rest);
          }
          CountStep(t.info, r, rest);
          ProcessRequest(socket, t, buffer, expectedSize);
          left := rest;
        }
        assert socket.incoming == stream[4 + expectedSize..];
      }
    }
  }
}
