/** The read-only CD-ROM emulator: six SCSI commands answered through the window cache. */
module CdromDevice {
  import opened Wrappers
  import opened Bytes
  import opened IusbFrame
  import opened WindowCache

  const BLOCK := 2048
  const TEST_UNIT_READY := 0x00
  const START_STOP_UNIT := 0x1B
  const READ_CAPACITY10 := 0x25
  const READ10 := 0x28
  const READ_TOC := 0x43
  const READ12 := 0xA8
  const RESP_LEN_AT := 25

  /** `Overflow` is the integer-to-bytes error a length or LBA of 2^32 or more raises. */
  datatype Reply = NoReply | Answer(payload: seq<byte>) | Overflow
  datatype Data = Bytes(bytes: seq<byte>) | TooBig
  datatype Extent = NoRead | ReadOf(lba: nat, blocks: nat)

  // ----- the flat device: no cache, zeros past the end of the image -----

  function BlocksAt(image: seq<byte>, lba: nat, blocks: nat): (r: seq<byte>)
    ensures |r| == blocks * BLOCK
  {
    seq(blocks * BLOCK, i requires 0 <= i < blocks * BLOCK =>
      if lba * BLOCK + i < |image| then image[lba * BLOCK + i] else 0)
  }

  function LastLba(size: nat): nat {
    if size / BLOCK > 0 then size / BLOCK - 1 else 0
  }

  /** Which blocks a command descriptor reads; short descriptors read as if cut off. */
  function ExtentOf(cdb: seq<byte>): Extent {
    if cdb == [] then NoRead
    else if cdb[0] == READ10 then ReadOf(FromBE(Clip(cdb, 2, 6)), FromBE(Clip(cdb, 7, 9)))
    else if cdb[0] == READ12 then ReadOf(FromBE(Clip(cdb, 2, 6)), FromBE(Clip(cdb, 6, 10)))
    else NoRead
  }

  function Track(no: byte, lba: nat): (t: seq<byte>)
    ensures |t| == 8
  {
    [0, 0x14, no, 0] + ToBE(lba, 4)
  }

  function FullToc(lastLba: nat): (t: seq<byte>)
    ensures |t| == 20
  {
    ToBE(18, 2) + [1, 1] + Track(1, 0) + Track(0xAA, lastLba + 1)
  }

  function Allocation(cdb: seq<byte>): nat {
    if |cdb| >= 9 then FromBE(cdb[7..9]) else 0
  }

  function Toc(lastLba: nat, cdb: seq<byte>): Data {
    if lastLba + 1 >= U32 then TooBig
    else if 0 < Allocation(cdb) < 20 then Bytes(FullToc(lastLba)[..Allocation(cdb)])
    else Bytes(FullToc(lastLba))
  }

  function Capacity(lastLba: nat): Data {
    if lastLba >= U32 then TooBig else Bytes(ToBE(lastLba, 4) + ToBE(BLOCK, 4))
  }

  function DataIn(image: seq<byte>, cdb: seq<byte>): Data
    requires cdb != []
  {
    match ExtentOf(cdb)
    case ReadOf(lba, blocks) => Bytes(BlocksAt(image, lba, blocks))
    case NoRead =>
      if cdb[0] == READ_CAPACITY10 then Capacity(LastLba(|image|))
      else if cdb[0] == READ_TOC then Toc(LastLba(|image|), cdb)
      else Bytes([])
  }

  function PutLength(out: seq<byte>, at: nat, n: nat): (r: seq<byte>)
    ensures |r| == |out|
  {
    if |out| >= at + 4 then out[..at] + ToLE(n, 4) + out[at + 4..] else out
  }

  function BuildResponse(env: seq<byte>, data: seq<byte>): Reply {
    if |data| >= U32 then Overflow
    else Answer(PutLength(PutLength(env + data, 0, |data|), RESP_LEN_AT, |data|))
  }

  /** The answer of a device reading straight from the image. */
  function Respond(image: seq<byte>, payload: seq<byte>): Reply {
    var cdb := Cdb(payload);
    if cdb == [] then NoReply
    else
      match DataIn(image, cdb)
      case TooBig => Overflow
      case Bytes(data) => BuildResponse(payload, data)
  }

  /** Blocks a request asks for, and image bytes that really back them. */
  function BlocksRead(payload: seq<byte>): nat {
    match ExtentOf(Cdb(payload)) case NoRead => 0 case ReadOf(_, blocks) => blocks
  }

  function BytesRead(image: seq<byte>, payload: seq<byte>): nat {
    match ExtentOf(Cdb(payload))
    case NoRead => 0
    case ReadOf(lba, blocks) => |Slice(image, blocks * BLOCK, lba * BLOCK)|
  }

  // ----- the device over the cache -----

  class CDROMDevice {
    const cache: Cache
    const lastLba: nat
    var nBytes: nat
    var nBlocks: nat

    ghost predicate Valid()
      reads this, cache, cache.medium
    {
      cache.Valid() && lastLba == LastLba(|cache.medium.content|)
    }

    constructor (cache: Cache)
      requires cache.Valid()
      ensures Valid() && this.cache == cache && nBytes == nBlocks == 0
    {
      this.cache := cache;
      var n := cache.size / BLOCK;
      lastLba := if n > 0 then n - 1 else 0;
      nBytes, nBlocks := 0, 0;
    }

    method Read(lba: nat, blocks: nat) returns (buf: seq<byte>)
      requires Valid()
      modifies this, cache
      ensures Valid()
      ensures buf == BlocksAt(cache.medium.content, lba, blocks)
      ensures nBlocks == old(nBlocks) + blocks
      ensures nBytes == old(nBytes) + |Slice(cache.medium.content, blocks * BLOCK, lba * BLOCK)|
    {
      var n := blocks * BLOCK;
      var r := cache.ReadAt(n, lba * BLOCK);
      var data := r.value;
      ZeroFill(cache.medium.content, lba, blocks);
      buf := data + Zeros(n - |data|);
      nBytes := nBytes + |data|;
      nBlocks := nBlocks + blocks;
    }

    /** Whatever the cache holds, the reply is the flat device's; the counters move by
        exactly what the request read. */
    method Handle(payload: seq<byte>) returns (r: Reply)
      requires Valid()
      modifies this, cache
      ensures Valid()
      ensures r == Respond(cache.medium.content, payload)
      ensures nBlocks == old(nBlocks) + BlocksRead(payload)
      ensures nBytes == old(nBytes) + BytesRead(cache.medium.content, payload)
    {
      var cdb := Cdb(payload);
      if cdb == [] {
        return NoReply;
      }
      var op := cdb[0];
      if op == TEST_UNIT_READY || op == START_STOP_UNIT {
        return BuildResponse(payload, []);
      }
      if op == READ_CAPACITY10 {
        return if lastLba >= U32 then Overflow else BuildResponse(payload, ToBE(lastLba, 4) + ToBE(BLOCK, 4));
      }
      if op == READ10 {
        var data := Read(FromBE(Clip(cdb, 2, 6)), FromBE(Clip(cdb, 7, 9)));
        return BuildResponse(payload, data);
      }
      if op == READ12 {
        var data := Read(FromBE(Clip(cdb, 2, 6)), FromBE(Clip(cdb, 6, 10)));
        return BuildResponse(payload, data);
      }
      if op == READ_TOC {
        var toc := Toc(lastLba, cdb);
        return if toc.TooBig? then Overflow else BuildResponse(payload, toc.bytes);
      }
      r := BuildResponse(payload, []);
    }
  }

  /** A short read followed by zeros is the zero-padded image. */
  lemma ZeroFill(image: seq<byte>, lba: nat, blocks: nat)
    ensures var data := Slice(image, blocks * BLOCK, lba * BLOCK);
            |data| <= blocks * BLOCK && data + Zeros(blocks * BLOCK - |data|) == BlocksAt(image, lba, blocks)
  {
  }

  // ----- what the host can rely on -----

  /** With a full envelope both length fields hold the data length, the data follows
      unchanged, and every other envelope byte is echoed. */
  lemma ResponseLayout(env: seq<byte>, data: seq<byte>)
    requires |env| >= RESP_LEN_AT + 4 && |data| < U32
    ensures var out := BuildResponse(env, data).payload;
            && |out| == |env| + |data|
            && FromLE(out[0..4]) == |data| == FromLE(out[25..29])
            && out[|env|..] == data
            && out[4..25] == env[4..25] && out[29..|env|] == env[29..]
  {
    FromLEOfToLE(|data|, 4);
    ResponseParts(env, data);
    FiveParts(ToLE(|data|, 4), env[4..25], ToLE(|data|, 4), env[29..], data);
  }

  lemma ResponseParts(env: seq<byte>, data: seq<byte>)
    requires |env| >= RESP_LEN_AT + 4 && |data| < U32
    ensures var w := ToLE(|data|, 4);
            BuildResponse(env, data).payload == (w + env[4..25]) + w + (env[29..] + data)
  {
    var s := env + data;
    var w := ToLE(|data|, 4);
    PutFront(s, |data|);
    DropTake(w, s);
    CutPrefix(env, data);
  }

  lemma PutFront(s: seq<byte>, n: nat)
    requires |s| >= 4
    ensures PutLength(s, 0, n) == ToLE(n, 4) + s[4..]
  {
    assert s[..0] == [];
  }

  lemma CutPrefix(a: seq<byte>, b: seq<byte>)
    requires |a| >= 29
    ensures (a + b)[4..25] == a[4..25] && (a + b)[29..] == a[29..] + b
  {
  }

  lemma DropTake(w: seq<byte>, s: seq<byte>)
    requires |w| == 4 && |s| >= 29
    ensures (w + s[4..])[..25] == w + s[4..25] && (w + s[4..])[29..] == s[29..]
  {
  }

  lemma FiveParts(a: seq<byte>, b: seq<byte>, c: seq<byte>, d: seq<byte>, e: seq<byte>)
    requires |a| == 4 && |b| == 21 && |c| == 4
    ensures var out := (a + b) + c + (d + e);
            && out[0..4] == a && out[4..25] == b && out[25..29] == c
            && out[29..29 + |d|] == d && out[29 + |d|..] == e
  {
  }

  ghost predicate DataSurvives(env: seq<byte>, n: nat)
    requires n < U32
  {
    forall data: seq<byte> :: |data| == n ==> BuildResponse(env, data).payload[|env|..] == data
  }

  /** The code tests the length of envelope plus data before writing the second length
      field, so a short envelope lets that write land in the data. Data of length `n`
      always arrives intact exactly when the envelope is full, nothing is appended, or
      the whole response is too short to hold the field. */
  lemma DataSurvivesIff(env: seq<byte>, n: nat)
    requires |env| > OPCODE_OFFSET && n < U32
    ensures DataSurvives(env, n) <==> |env| >= 29 || n == 0 || |env| + n < 29
  {
    if |env| >= 29 || n == 0 || |env| + n < 29 {
      forall data: seq<byte> | |data| == n
        ensures BuildResponse(env, data).payload[|env|..] == data
      {
        if |env| >= 29 {
          ResponseLayout(env, data);
        } else {
          TailIntact(env, data);
        }
      }
    } else {
      var top: int := ToLE(n, 4)[3];
      var wrong: byte := if top == 0 then 1 else 0;
      var data: seq<byte> := seq(n, _ => wrong);
      var first := PutLength(env + data, 0, n);
      var out := PutLength(first, RESP_LEN_AT, n);
      assert out[28] == ToLE(n, 4)[3] != wrong;
      assert out[|env|..][28 - |env|] == out[28];
      assert data[28 - |env|] == wrong;
      assert BuildResponse(env, data).payload[|env|..] != data;
    }
  }

  /** What the host takes for data: everything after the echo of its own envelope. */
  function DataOf(image: seq<byte>, payload: seq<byte>): seq<byte> {
    match Respond(image, payload)
    case Answer(out) => Clip(out, |payload|, |payload| + |out|)
    case _ => []
  }

  /** Of the device itself: a READ of some blocks delivers them whatever the image holds if
      and only if its request has a full envelope. */
  lemma ReadDeliversIff(payload: seq<byte>, lba: nat, blocks: nat)
    requires ExtentOf(Cdb(payload)) == ReadOf(lba, blocks) && 0 < blocks && blocks * BLOCK < U32
    ensures (forall image :: DataOf(image, payload) == BlocksAt(image, lba, blocks)) <==> |payload| >= 29
  {
    DataSurvivesIff(payload, blocks * BLOCK);
    if |payload| >= 29 {
      forall image
        ensures DataOf(image, payload) == BlocksAt(image, lba, blocks)
      {
        ReadDelivers(image, payload, lba, blocks);
      }
    } else {
      var data: seq<byte> :|
        |data| == blocks * BLOCK && BuildResponse(payload, data).payload[|payload|..] != data;
      var image := ImageHolding(lba, blocks, data);
      DataOfRead(image, payload, lba, blocks);
    }
  }

  /** An image that has these bytes in these blocks. */
  lemma ImageHolding(lba: nat, blocks: nat, data: seq<byte>) returns (image: seq<byte>)
    requires |data| == blocks * BLOCK
    ensures BlocksAt(image, lba, blocks) == data
  {
    image := Zeros(lba * BLOCK) + data;
  }

  lemma DataOfRead(image: seq<byte>, payload: seq<byte>, lba: nat, blocks: nat)
    requires ExtentOf(Cdb(payload)) == ReadOf(lba, blocks) && blocks * BLOCK < U32
    ensures DataOf(image, payload) == BuildResponse(payload, BlocksAt(image, lba, blocks)).payload[|payload|..]
  {
  }

  lemma ReadDelivers(image: seq<byte>, payload: seq<byte>, lba: nat, blocks: nat)
    requires ExtentOf(Cdb(payload)) == ReadOf(lba, blocks) && blocks * BLOCK < U32 && |payload| >= 29
    ensures DataOf(image, payload) == BlocksAt(image, lba, blocks)
  {
    DataOfRead(image, payload, lba, blocks);
    ResponseLayout(payload, BlocksAt(image, lba, blocks));
  }

  /** A READ(10) of one block whose request lacks the last byte of a full envelope. */
  const SHORT_READ: seq<byte> := Zeros(OPCODE_OFFSET) + SHORT_CDB
  const SHORT_CDB: seq<byte> := [READ10, 0] + ToBE(0, 4) + [0] + ToBE(1, 2) + Zeros(10)

  /** Asked of an image of ones, the device's own reply starts with a wrong byte. */
  lemma ShortEnvelopeCorrupts(image: seq<byte>)
    requires image == seq(BLOCK, _ => 1)
    ensures |SHORT_READ| == 28 && ExtentOf(Cdb(SHORT_READ)) == ReadOf(0, 1)
    ensures DataOf(image, SHORT_READ) != BlocksAt(image, 0, 1) == image
  {
    ShortReadDecodes();
    DataOfRead(image, SHORT_READ, 0, 1);
    assert BlocksAt(image, 0, 1) == image;
    var first := PutLength(SHORT_READ + image, 0, BLOCK);
    var out := PutLength(first, RESP_LEN_AT, BLOCK);
    TopByte();
    assert out[28] == 0;
    assert out[28..][0] == out[28];
  }

  lemma TopByte()
    ensures ToLE(BLOCK, 4)[3] == 0
  {
  }

  lemma ShortReadDecodes()
    ensures |SHORT_READ| == 28 && Cdb(SHORT_READ) == SHORT_CDB && ExtentOf(SHORT_CDB) == ReadOf(0, 1)
  {
    assert Clip(SHORT_CDB, 2, 6) == ToBE(0, 4) && Clip(SHORT_CDB, 7, 9) == ToBE(1, 2);
    FromBEOfToBE(0, 4);
    FromBEOfToBE(1, 2);
  }

  /** Exactly when a request meets a number too big for its field: a READ(10) never does. */
  lemma OverflowIff(image: seq<byte>, payload: seq<byte>)
    ensures Respond(image, payload).Overflow?
            <==> && Cdb(payload) != []
                 && match Cdb(payload)[0]
                    case 0xA8 => FromBE(Clip(Cdb(payload), 6, 10)) * BLOCK >= U32
                    case 0x25 => |image| / BLOCK > U32
                    case 0x43 => |image| / BLOCK >= U32
                    case _ => false
  {
    var cdb := Cdb(payload);
    if cdb != [] {
      FromBEBound(Clip(cdb, 7, 9));
    }
  }

  // ----- what each command is answered with -----

  /** A READ(10) as the host writes it: LBA in bytes 2 to 5 and block count in bytes 7 and 8
      of the descriptor, most significant byte first; the descriptor is at offset 9. */
  lemma Read10Decodes(pre: seq<byte>, x: byte, lba: nat, y: byte, blocks: nat, rest: seq<byte>)
    requires |pre| == 9 && lba < U32 && blocks < 0x1_0000
    ensures ExtentOf(Cdb(pre + ([0x28, x] + ToBE(lba, 4) + [y] + ToBE(blocks, 2) + rest))) == ReadOf(lba, blocks)
  {
    var cdb := [0x28, x] + ToBE(lba, 4) + [y] + ToBE(blocks, 2) + rest;
    assert Cdb(pre + cdb) == cdb;
    assert Clip(cdb, 2, 6) == ToBE(lba, 4) && Clip(cdb, 7, 9) == ToBE(blocks, 2);
    FromBEOfToBE(lba, 4);
    FromBEOfToBE(blocks, 2);
  }

  /** A READ(12) likewise, with four bytes of block count at 6. */
  lemma Read12Decodes(pre: seq<byte>, x: byte, lba: nat, blocks: nat, rest: seq<byte>)
    requires |pre| == 9 && lba < U32 && blocks < U32
    ensures ExtentOf(Cdb(pre + ([0xA8, x] + ToBE(lba, 4) + ToBE(blocks, 4) + rest))) == ReadOf(lba, blocks)
  {
    var cdb := [0xA8, x] + ToBE(lba, 4) + ToBE(blocks, 4) + rest;
    assert Cdb(pre + cdb) == cdb;
    assert Clip(cdb, 2, 6) == ToBE(lba, 4) && Clip(cdb, 6, 10) == ToBE(blocks, 4);
    FromBEOfToBE(lba, 4);
    FromBEOfToBE(blocks, 4);
  }

  /** A READ TOC is answered with its twenty bytes cut to the allocation length in bytes 7
      and 8 of the descriptor; none, or zero, means all twenty. */
  lemma TocDelivered(image: seq<byte>, ask: seq<byte>, allocation: nat)
    requires |ask| >= 29 && ask[9] == 0x43 && !Respond(image, ask).Overflow?
    requires allocation < 0x1_0000 && ask[16..18] == ToBE(allocation, 2)
    ensures LastLba(|image|) + 1 < U32
    ensures var data := DataOf(image, ask);
            && |data| == (if allocation == 0 then 20 else Min(allocation, 20))
            && data == FullToc(LastLba(|image|))[..|data|]
  {
    var cdb := Cdb(ask);
    assert cdb[7..9] == ask[16..18];
    FromBEOfToBE(allocation, 2);
    assert Allocation(cdb) == allocation;
    TocReply(image, ask);
    TocHonoursAllocation(LastLba(|image|), cdb);
  }

  lemma TocReply(image: seq<byte>, ask: seq<byte>)
    requires |ask| >= 29 && ask[9] == 0x43 && !Respond(image, ask).Overflow?
    ensures LastLba(|image|) + 1 < U32 && DataOf(image, ask) == Toc(LastLba(|image|), Cdb(ask)).bytes
  {
    ResponseLayout(ask, Toc(LastLba(|image|), Cdb(ask)).bytes);
  }

  /** Every other command, known or not, is acknowledged with no data and its own envelope
      back, both length fields zero; a payload too short to hold an opcode gets no answer. */
  lemma OthersAcknowledged(image: seq<byte>, ask: seq<byte>)
    ensures |ask| <= 9 <==> Respond(image, ask) == NoReply
    ensures |ask| > 9 && ask[9] !in {0x25, 0x28, 0x43, 0xA8} ==>
              && Respond(image, ask).Answer? && DataOf(image, ask) == []
              && (var out := Respond(image, ask).payload;
                  && |out| == |ask| && out[0..4] == [0, 0, 0, 0] && out[4..Min(25, |ask|)] == ask[4..Min(25, |ask|)]
                  && (|ask| >= 29 ==> out[25..29] == [0, 0, 0, 0] && out[29..] == ask[29..]))
  {
    if |ask| > 9 && ask[9] !in {0x25, 0x28, 0x43, 0xA8} {
      assert Respond(image, ask) == BuildResponse(ask, []);
      Acknowledged(ask);
    }
  }

  lemma Acknowledged(ask: seq<byte>)
    requires |ask| > 9
    ensures var out := BuildResponse(ask, []).payload;
            && |out| == |ask| && out[0..4] == [0, 0, 0, 0] && out[4..Min(25, |ask|)] == ask[4..Min(25, |ask|)]
            && (|ask| >= 29 ==> out[25..29] == [0, 0, 0, 0] && out[29..] == ask[29..])
  {
    assert ask + [] == ask;
    assert ToLE(0, 4) == [0, 0, 0, 0];
    PutFront(ask, 0);
    var first := [0, 0, 0, 0] + ask[4..];
    if |ask| >= 29 {
      DropTake([0, 0, 0, 0], ask);
    } else {
      assert first[4..Min(25, |ask|)] == ask[4..Min(25, |ask|)];
    }
  }

  lemma TailIntact(env: seq<byte>, data: seq<byte>)
    requires |env| > OPCODE_OFFSET && |data| < U32
    requires data == [] || |env| + |data| < 29
    ensures BuildResponse(env, data).payload[|env|..] == data
  {
    var out := PutLength(env + data, 0, |data|);
    assert out == ToLE(|data|, 4) + env[4..] + data;
  }

  /** Neighbouring reads join into one. */
  lemma BlocksJoin(image: seq<byte>, lba: nat, a: nat, b: nat)
    ensures BlocksAt(image, lba, a) + BlocksAt(image, lba + a, b) == BlocksAt(image, lba, a + b)
  {
  }

  lemma PiecesJoin(image: seq<byte>, lba: nat, a: nat, b: nat, first: seq<byte>, second: seq<byte>)
    requires first == BlocksAt(image, lba, a) && second == BlocksAt(image, lba + a, b)
    ensures first + second == BlocksAt(image, lba, a + b)
  {
    BlocksJoin(image, lba, a, b);
  }

  /** READ requests, full envelopes, each starting where the one before stops. */
  predicate Consecutive(lba: nat, requests: seq<seq<byte>>)
    decreases |requests|
  {
    requests == [] ||
    (&& |requests[0]| >= 29
     && ExtentOf(Cdb(requests[0])) == ReadOf(lba, BlocksRead(requests[0]))
     && BlocksRead(requests[0]) * BLOCK < U32
     && Consecutive(lba + BlocksRead(requests[0]), requests[1..]))
  }

  function TotalBlocks(requests: seq<seq<byte>>): nat {
    if requests == [] then 0 else BlocksRead(requests[0]) + TotalBlocks(requests[1..])
  }

  /** The data of the replies, put together. */
  function Transferred(image: seq<byte>, requests: seq<seq<byte>>): seq<byte> {
    if requests == [] then [] else DataOf(image, requests[0]) + Transferred(image, requests[1..])
  }

  /** The replies to any series of consecutive reads carry together what one read of their
      total would. */
  lemma {:induction false} TransfersJoin(image: seq<byte>, lba: nat, requests: seq<seq<byte>>)
    requires Consecutive(lba, requests)
    ensures Transferred(image, requests) == BlocksAt(image, lba, TotalBlocks(requests))
    decreases |requests|
  {
    if requests != [] {
      var blocks := BlocksRead(requests[0]);
      ReadDelivers(image, requests[0], lba, blocks);
      TransfersJoin(image, lba + blocks, requests[1..]);
      PiecesJoin(image, lba, blocks, TotalBlocks(requests[1..]),
                 DataOf(image, requests[0]), Transferred(image, requests[1..]));
    }
  }

  /** What the host learns from READ CAPACITY. */
  lemma CapacityDelivered(image: seq<byte>, ask: seq<byte>)
    requires |ask| >= 29 && Cdb(ask)[0] == READ_CAPACITY10 && !Respond(image, ask).Overflow?
    ensures var data := DataOf(image, ask);
            && |data| == 8 && FromBE(data[..4]) == LastLba(|image|) && FromBE(data[4..]) == BLOCK
            && (forall i :: 0 <= i < 4 ==> data[i] == LastLba(|image|) / Pow256(3 - i) % 256)
            && data[4..] == [0, 0, 8, 0]
  {
    CapacityReply(image, ask);
    CapacityFields(LastLba(|image|));
    CapacityBytes(LastLba(|image|));
  }

  lemma CapacityBytes(last: nat)
    requires last < U32
    ensures var data := Capacity(last).bytes;
            && (forall i :: 0 <= i < 4 ==> data[i] == last / Pow256(3 - i) % 256)
            && data[4..] == [0, 0, 8, 0]
  {
    var a, b := ToBE(last, 4), ToBE(BLOCK, 4);
    assert forall i :: 0 <= i < 4 ==> (a + b)[i] == a[i];
    ToBEDigits(last, 4);
    assert (a + b)[4..] == b;
    BlockBytes();
  }

  lemma BlockBytes()
    ensures ToBE(BLOCK, 4) == [0, 0, 8, 0]
  {
    assert ToBE(BLOCK / 256, 3) == [0, 0, 8] by {
      assert ToBE(0, 2) == [0, 0] by {
        assert ToBE(0, 1) == [0];
      }
    }
  }

  lemma CapacityReply(image: seq<byte>, ask: seq<byte>)
    requires |ask| >= 29 && Cdb(ask)[0] == READ_CAPACITY10 && !Respond(image, ask).Overflow?
    ensures LastLba(|image|) < U32 && DataOf(image, ask) == Capacity(LastLba(|image|)).bytes
  {
    ResponseLayout(ask, Capacity(LastLba(|image|)).bytes);
  }

  lemma CapacityFields(last: nat)
    requires last < U32
    ensures var data := Capacity(last).bytes;
            |data| == 8 && FromBE(data[..4]) == last && FromBE(data[4..]) == BLOCK
  {
    var a, b := ToBE(last, 4), ToBE(BLOCK, 4);
    assert (a + b)[..4] == a && (a + b)[4..] == b;
    FromBEOfToBE(last, 4);
    FromBEOfToBE(BLOCK, 4);
  }

  /** A host that asks the device for its capacity and then reads as many blocks as the
      reply advertises, in whatever transfer sizes, recovers a non-empty whole-block image
      exactly from the device's replies. */
  lemma HostRecoversImage(image: seq<byte>, ask: seq<byte>, requests: seq<seq<byte>>)
    requires image != [] && |image| % BLOCK == 0
    requires |ask| >= 29 && Cdb(ask)[0] == READ_CAPACITY10 && !Respond(image, ask).Overflow?
    requires Consecutive(0, requests) && |DataOf(image, ask)| >= 4
    requires TotalBlocks(requests) == FromBE(DataOf(image, ask)[..4]) + 1
    ensures Transferred(image, requests) == image
  {
    CapacityDelivered(image, ask);
    TransfersJoin(image, 0, requests);
    WholeImage(image);
  }

  lemma WholeImage(image: seq<byte>)
    requires image != [] && |image| % BLOCK == 0
    ensures BlocksAt(image, 0, LastLba(|image|) + 1) == image
  {
  }

  /** The last LBA names the last whole block, the first block of an image without one. */
  lemma LastLbaIsLastWholeBlock(size: nat)
    ensures size >= BLOCK ==> (LastLba(size) + 1) * BLOCK <= size < (LastLba(size) + 2) * BLOCK
    ensures size < BLOCK ==> LastLba(size) == 0
  {
  }

  /** The table of contents is cut to the allocation length but still states its full one. */
  lemma TocHonoursAllocation(lastLba: nat, cdb: seq<byte>)
    requires lastLba + 1 < U32
    ensures var t := Toc(lastLba, cdb).bytes;
            && |t| == (if Allocation(cdb) == 0 then 20 else Min(Allocation(cdb), 20))
            && t <= FullToc(lastLba)
            && (|t| >= 2 ==> FromBE(t[..2]) == |FullToc(lastLba)| - 2)
    ensures var full := FullToc(lastLba);
            && full[2..4] == [1, 1]
            && full[6] == 1 && FromBE(full[8..12]) == 0
            && full[14] == 0xAA && FromBE(full[16..20]) == lastLba + 1
  {
    var full := FullToc(lastLba);
    assert full[8..12] == ToBE(0, 4);
    FromBEOfToBE(0, 4);
    assert full[..2] == ToBE(18, 2);
    FromBEOfToBE(18, 2);
    assert full[16..20] == ToBE(lastLba + 1, 4);
    FromBEOfToBE(lastLba + 1, 4);
    var t := Toc(lastLba, cdb).bytes;
    assert |t| >= 2 ==> t[..2] == full[..2];
  }

  /** The twenty bytes: a length of 18, one track, a data track 1 at LBA 0, and the lead-out
      one past the last LBA, most significant byte first. */
  lemma TocBytes(lastLba: nat)
    ensures var full := FullToc(lastLba);
            && full[..16] == [0, 18, 1, 1, 0, 0x14, 1, 0, 0, 0, 0, 0, 0, 0x14, 0xAA, 0]
            && forall i :: 0 <= i < 4 ==> full[16..][i] == (lastLba + 1) / Pow256(3 - i) % 256
  {
    var full := FullToc(lastLba);
    assert ToBE(0, 4) == [0, 0, 0, 0] by {
      assert ToBE(0, 2) == [0, 0] && ToBE(0, 3) == [0, 0, 0];
    }
    assert ToBE(18, 2) == [0, 18] by {
      assert ToBE(0, 1) == [0];
    }
    assert full[16..] == ToBE(lastLba + 1, 4);
    ToBEDigits(lastLba + 1, 4);
  }

  /** Served bytes never exceed served blocks; they match exactly when the read stays
      inside the image. */
  lemma ReadWithinImage(image: seq<byte>, payload: seq<byte>)
    ensures BytesRead(image, payload) <= BLOCK * BlocksRead(payload)
    ensures BytesRead(image, payload) == BLOCK * BlocksRead(payload) <==> !PastEnd(image, payload)
  {
  }

  predicate PastEnd(image: seq<byte>, payload: seq<byte>) {
    match ExtentOf(Cdb(payload))
    case NoRead => false
    case ReadOf(lba, blocks) => blocks > 0 && (lba + blocks) * BLOCK > |image|
  }
}
