/**
 * The PLC side, tools/s7_sim.py: a dictionary of data-block byte arrays, the request decoder with
 * its own offset arithmetic, and the response builders. `Respond` is the READY state of
 * `handle_client` as a function; class `DbServer` holds the dictionary and updates it in place.
 */
module Simulator {
  import opened Bytes
  import opened Telegrams

  // ----- Memory -----

  type Memory = map<nat, seq<Byte>>

  /** A data block that was never touched is 256 zero bytes. */
  function Db(mem: Memory, d: nat): seq<Byte> {
    if d in mem then mem[d] else Zeros(256)
  }

  function EnsureDb(mem: Memory, d: nat): Memory {
    mem[d := Db(mem, d)]
  }

  /** A data block that is touched for the first time has 256 bytes, all zero; any other is kept. */
  lemma {:induction false} FreshBlock(mem: Memory, d: nat)
    ensures d in EnsureDb(mem, d)
    ensures d !in mem ==> |EnsureDb(mem, d)[d]| == 256 && forall i | 0 <= i < 256 :: EnsureDb(mem, d)[d][i] == 0
    ensures d in mem ==> EnsureDb(mem, d) == mem
  {
  }

  /** `bytes` with `data` laid over it from `off`; what reaches past the end is dropped. */
  function Patch(bytes: seq<Byte>, off: nat, data: seq<Byte>): (r: seq<Byte>)
    ensures |r| == |bytes|
    ensures forall i | 0 <= i < |bytes| :: r[i] == if off <= i < off + |data| then data[i - off] else bytes[i]
  {
    seq(|bytes|, i requires 0 <= i < |bytes| => if off <= i < off + |data| then data[i - off] else bytes[i])
  }

  lemma {:induction false} PatchJoin(bytes: seq<Byte>, off: nat, a: seq<Byte>, b: seq<Byte>)
    ensures Patch(Patch(bytes, off, a), off + |a|, b) == Patch(bytes, off, a + b)
  {
  }

  // ----- Responses -----

  function CotpCc(): (f: Frame)
    ensures |f| == 22
  {
    [0x03, 0x00, 0x00, 0x16, 0x11, 0xD0, 0x00, 0x01, 0x00, 0x00, 0x00,
     0xC0, 0x01, 0x03, 0xC1, 0x02, 0x01, 0x00, 0xC2, 0x02, 0x01, 0x00]
  }

  function SetupResp(refn: int, pduSize: int): (f: Frame)
    ensures |f| == 28
  {
    AckHead(28, refn)
    + [0x00, 0x02, 0x00, 0x09, 0x00, 0x00, 0xF0, 0x00, 0x00, 0x01, 0x00, 0x01, Hi8(pduSize), Lo8(pduSize), 0x00]
  }

  /** TPKT, COTP and S7 header of an answer up to its PDU reference. */
  function AckHead(total: nat, refn: int): (h: seq<Byte>)
    ensures |h| == 13
  {
    [0x03, 0x00, Hi8(total), Lo8(total), 0x02, 0xF0, 0x80, 0x32, 0x03, 0x00, 0x00, Hi8(refn), Lo8(refn)]
  }

  /** Section lengths, error class and code, and the item header of a payload of `n` bytes. */
  function ItemHeader(n: nat): (h: seq<Byte>)
    ensures |h| == 12
  {
    [0x00, 0x04, Hi8(4 + n), Lo8(4 + n), 0x00, 0x00, 0x00, 0x00, 0xFF, 0x04, Hi8(n), Lo8(n)]
  }

  function ReadResp(data: seq<Byte>, refn: int): (f: Frame)
    ensures |f| == 25 + |data|
  {
    AckHead(25 + |data|, refn) + ItemHeader(|data|) + data
  }

  /** The 22-byte write response; the simulator always answers with return code 0xFF. */
  function WriteResp(refn: int, code: Byte): (f: Frame)
    ensures |f| == 22
  {
    AckHead(22, refn) + [0x00, 0x02, 0x00, 0x01, 0x00, 0x00, 0x05, 0x01, code]
  }

  // ----- Request decoding -----

  datatype Request = Request(msgType: Byte, refn: nat, params: seq<Byte>, data: seq<Byte>)

  /** `Malformed` stands for the IndexError of a frame that ends inside its S7 header. */
  datatype Parsed = NoHeader | Malformed | Parsed(req: Request)

  function ParseRequest(frame: seq<Byte>): Parsed {
    var s7 := FindFrom(frame, 0, false);
    if s7 < 0 then NoHeader
    else if s7 + 9 >= |frame| then Malformed
    else
      var plen := U16(frame[s7 + 6], frame[s7 + 7]);
      var dlen := U16(frame[s7 + 8], frame[s7 + 9]);
      Parsed(Request(frame[s7 + 1], U16(frame[s7 + 4], frame[s7 + 5]),
                     Clip(frame, s7 + 10, plen), Clip(frame, s7 + 10 + plen, dlen)))
  }

  function WordSize(wl: Byte): nat {
    if wl in {0x01, 0x02, 0x03} then 1 else if wl in {0x04, 0x05, 0x1C, 0x1D} then 2 else 4
  }

  /** The fields the simulator reads from one 12-byte item specification. */
  datatype ItemHead = ItemHead(area: Byte, db: nat, off: nat, len: nat)

  /** The number of items the loops visit before the `break`. */
  function Visited(params: seq<Byte>): (n: nat)
    requires |params| >= 2
    ensures 2 + 12 * n <= |params|
  {
    Min(params[1], (|params| - 2) / 12)
  }

  /** The loop guard fails exactly when every visited item is done. */
  lemma {:induction false} AllVisited(params: seq<Byte>, i: nat)
    requires |params| >= 2 && i <= Visited(params)
    requires !(i < params[1] && 2 + i * 12 + 12 <= |params|)
    ensures i == Visited(params)
  {
  }

  function HeadAt(params: seq<Byte>, i: nat): ItemHead
    requires 2 + 12 * (i + 1) <= |params|
  {
    var o := 2 + 12 * i;
    var addr := 65536 * (params[o + 9] as int) + 256 * (params[o + 10] as int) + params[o + 11];
    ItemHead(params[o + 8], U16(params[o + 6], params[o + 7]), addr / 8,
             U16(params[o + 4], params[o + 5]) * WordSize(params[o + 3]))
  }

  function LoadHead(mem: Memory, h: ItemHead): seq<Byte> {
    if h.area == 0x84 then Clip(Db(mem, h.db), h.off, h.len) else Zeros(h.len)
  }

  function TouchHead(mem: Memory, h: ItemHead): Memory {
    if h.area == 0x84 then EnsureDb(mem, h.db) else mem
  }

  /** Memory and joined results after the first `n` items of a read job. */
  function ReadLoop(mem: Memory, params: seq<Byte>, n: nat): (Memory, seq<Byte>)
    requires 2 + 12 * n <= |params|
  {
    if n == 0 then (mem, [])
    else
      var (m, out) := ReadLoop(mem, params, n - 1);
      var h := HeadAt(params, n - 1);
      (TouchHead(m, h), out + LoadHead(m, h))
  }

  datatype Poke = Poke(area: Byte, db: nat, off: nat, data: seq<Byte>)

  function ApplyPoke(mem: Memory, p: Poke): Memory {
    if p.area == 0x84 then mem[p.db := Patch(Db(mem, p.db), p.off, p.data)] else mem
  }

  function ApplyPokes(mem: Memory, ps: seq<Poke>): Memory {
    if ps == [] then mem else ApplyPoke(ApplyPokes(mem, ps[..|ps| - 1]), ps[|ps| - 1])
  }

  /** The write the simulator takes from the data item at offset `o`. */
  function PokeAt(h: ItemHead, wd: seq<Byte>, o: nat): Poke {
    Poke(h.area, h.db, h.off, Clip(wd, o + 4, h.len))
  }

  /** Running `data_offset` and the writes decoded from the first `n` items of a write job. */
  function DecodeWrites(params: seq<Byte>, wd: seq<Byte>, n: nat): (nat, seq<Poke>)
    requires 2 + 12 * n <= |params|
  {
    if n == 0 then (0, [])
    else
      var (o, ps) := DecodeWrites(params, wd, n - 1);
      var h := HeadAt(params, n - 1);
      if o + 4 <= |wd| then (o + 4 + h.len, ps + [PokeAt(h, wd, o)]) else (o, ps)
  }

  datatype Outcome = Reply(resp: Frame) | Dropped

  predicate IsUserdata(params: seq<Byte>) {
    && |params| >= 6
    && params[0] == 0x00 && params[1] == 0x01 && params[2] == 0x12 && params[4] == 0x11 && params[5] == 0x44
  }

  /** A PLC status of RUN, at index 44. */
  function StatusResp(refn: int): (f: Frame)
    ensures |f| == 45
  {
    [0x03, 0x00, 0x00, 0x2D, 0x02, 0xF0, 0x80, 0x32, 0x07, 0x00, 0x00, Hi8(refn), Lo8(refn)]
    + [0x00, 0x08, 0x00, 0x08, 0x00, 0x01, 0x12, 0x04, 0x11, 0x44, 0x01, 0x00]
    + [0xFF, 0x09, 0x00, 0x04, 0x04, 0x24] + Zeros(13) + [0x08]
  }

  function Ascii(text: string): (b: seq<Byte>)
    ensures |b| == |text|
    ensures forall i | 0 <= i < |text| :: b[i] == text[i] as int % 256
  {
    seq(|text|, i requires 0 <= i < |text| => text[i] as int % 256)
  }

  /** The fixed CPU description. */
  function CpuInfo(): (p: seq<Byte>)
    ensures |p| == 205
  {
    var names := Patch(Patch(Zeros(205), 2, Ascii("MOONBIT-AS")), 36, Ascii("CPU1214C-DEMO"));
    var marks := Patch(Patch(names, 104, Ascii("Copyright MoonBit 2026")), 138, Ascii("SZ-00000001"));
    Patch(marks, 172, Ascii("CPU 1214C"))
  }

  function SzlResp(refn: int): (f: Frame)
    ensures |f| == 246
  {
    [0x03, 0x00, 0x00, 0xF6, 0x02, 0xF0, 0x80, 0x32, 0x07, 0x00, 0x00, Hi8(refn), Lo8(refn)]
    + [0x00, 0x08, 0x00, 0xD1, 0x00, 0x01, 0x12, 0x08, 0x12, 0x44, 0x01, 0x00]
    + [0xFF, 0x00, 0x00, 0xD1, 0xFF, 0x00, 0x00, 0xD5, 0x00, 0x00, 0x00, 0x00, 0x00, 0x02, 0x00, 0x01] + CpuInfo()
  }

  function UserdataResp(req: Request): Frame {
    if |req.data| >= 6 && req.data[4] == 0x04 && req.data[5] == 0x24 then StatusResp(req.refn) else SzlResp(req.refn)
  }

  function Handle(mem: Memory, req: Request): (Memory, Outcome) {
    var dummy := Reply(ReadResp(Zeros(10), req.refn));
    if |req.params| < 2 then (mem, dummy)
    else if IsUserdata(req.params) then (mem, Reply(UserdataResp(req)))
    else if req.params[0] == 0x04 then
      var (m, out) := ReadLoop(mem, req.params, Visited(req.params));
      (m, Reply(ReadResp(out, req.refn)))
    else if req.params[0] == 0x05 then
      (ApplyPokes(mem, DecodeWrites(req.params, req.data, Visited(req.params)).1), Reply(WriteResp(req.refn, 0xFF)))
    else (mem, dummy)
  }

  /** What the handler thread does with one frame once the connection is READY. */
  function Respond(mem: Memory, frame: Frame): (Memory, Outcome) {
    match ParseRequest(frame)
    case NoHeader => (mem, Reply(ReadResp(Zeros(10), 1)))
    case Malformed => (mem, Dropped)
    case Parsed(req) => Handle(mem, req)
  }

  // ----- In-place form -----

  class DbServer {
    var db: Memory

    constructor ()
      ensures db == map[]
    {
      db := map[];
    }

    method Ensure(d: nat)
      modifies this
      ensures db == EnsureDb(old(db), d)
      ensures d in old(db) ==> db == old(db)
      ensures d in db && db - {d} == old(db) - {d}
      ensures d !in old(db) ==> |db[d]| == 256 && forall i | 0 <= i < 256 :: db[d][i] == 0
    {
      if d !in db {
        db := db[d := Zeros(256)];
      }
    }

    /** The byte loop of a write item. */
    method PokeBytes(d: nat, off: nat, wdata: seq<Byte>)
      requires d in db
      modifies this
      ensures db == old(db)[d := Patch(old(db)[d], off, wdata)]
    {
      ghost var was := db;
      var n := Min(|wdata|, |db[d]| - off);
      var j := 0;
      assert Patch(was[d], off, wdata[..0]) == was[d];
      while j < n
        invariant 0 <= j <= |wdata| && (0 <= n ==> j <= n)
        invariant db.Keys == was.Keys && db == was[d := Patch(was[d], off, wdata[..j])]
      {
        db := db[d := db[d][off + j := wdata[j]]];
        assert db[d] == Patch(was[d], off, wdata[..j + 1]);
        j := j + 1;
      }
      assert Patch(was[d], off, wdata[..j]) == Patch(was[d], off, wdata);
    }

    method LoadItem(h: ItemHead) returns (part: seq<Byte>)
      modifies this
      ensures db == TouchHead(old(db), h) && part == LoadHead(old(db), h)
    {
      if h.area == 0x84 {
        Ensure(h.db);
        part := Clip(db[h.db], h.off, h.len);
      } else {
        part := Zeros(h.len);
      }
    }

    method HandleRead(params: seq<Byte>, refn: int) returns (resp: Frame)
      requires |params| >= 2
      modifies this
      ensures db == ReadLoop(old(db), params, Visited(params)).0
      ensures resp == ReadResp(ReadLoop(old(db), params, Visited(params)).1, refn)
    {
      hide HeadAt, TouchHead, LoadHead, ReadResp;
      var results: seq<Byte> := [];
      ghost var was := db;
      var i := 0;
      while i < params[1] && 2 + i * 12 + 12 <= |params|
        invariant 0 <= i <= Visited(params)
        invariant (db, results) == ReadLoop(was, params, i)
      {
        var h := HeadAt(params, i);
        var part := LoadItem(h);
        results := results + part;
        i := i + 1;
      }
      AllVisited(params, i);
      resp := ReadResp(results, refn);
    }

    method HandleWrite(params: seq<Byte>, wd: seq<Byte>, refn: int) returns (resp: Frame)
      requires |params| >= 2
      modifies this
      ensures db == ApplyPokes(old(db), DecodeWrites(params, wd, Visited(params)).1)
      ensures resp == WriteResp(refn, 0xFF)
    {
      hide HeadAt, Patch, Db, Clip;
      var dataOffset := 0;
      ghost var was, pokes: seq<Poke> := db, [];
      var i := 0;
      while i < params[1] && 2 + i * 12 + 12 <= |params|
        invariant 0 <= i <= Visited(params) && 0 <= dataOffset
        invariant (dataOffset, pokes) == DecodeWrites(params, wd, i)
        invariant db == ApplyPokes(was, pokes)
      {
        var h := HeadAt(params, i);
        if dataOffset + 4 <= |wd| {
          var wdata := Clip(wd, dataOffset + 4, h.len);
          dataOffset := dataOffset + 4 + h.len;
          if h.area == 0x84 {
            Ensure(h.db);
            PokeBytes(h.db, h.off, wdata);
          }
          ghost var p := Poke(h.area, h.db, h.off, wdata);
          assert (pokes + [p])[..|pokes|] == pokes;
          pokes := pokes + [p];
        }
        i := i + 1;
      }
      AllVisited(params, i);
      resp := WriteResp(refn, 0xFF);
    }

    /** One turn of the READY loop; the two dispatch steps are those of `handle_s7_request`. */
    method Serve(frame: Frame) returns (out: Outcome)
      modifies this
      ensures (db, out) == Respond(old(db), frame)
    {
      match ParseRequest(frame)
      case NoHeader => out := Reply(ReadResp(Zeros(10), 1));
      case Malformed => out := Dropped;
      case Parsed(req) =>
        if |req.params| < 2 {
          out := Reply(ReadResp(Zeros(10), req.refn));
        } else if IsUserdata(req.params) {
          out := Reply(UserdataResp(req));
        } else if req.params[0] == 0x04 {
          var resp := HandleRead(req.params, req.refn);
          out := Reply(resp);
        } else if req.params[0] == 0x05 {
          var resp := HandleWrite(req.params, req.data, req.refn);
          out := Reply(resp);
        } else {
          out := Reply(ReadResp(Zeros(10), req.refn));
        }
    }
  }
}
