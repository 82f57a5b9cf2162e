/**
 * Chunked transfers (client/client.mbt) as functions of the PLC's state, and the theorems that the
 * whole stack - split, encode, frame, decode, apply, respond, parse, concatenate - is one flat update
 * or one slice. The loops themselves, over a live link, are in module Client.
 */
module Transfer {
  import opened Bytes
  import opened Items
  import opened Telegrams
  import opened Simulator
  import opened WriteCodec
  import opened Exchange
  import opened Tpkt
  import opened Peer

  function WriteChunkMax(pdu: int): (m: nat)
    ensures 0 < m
  {
    if pdu > 35 then pdu - 35 else 240
  }

  function ReadChunkMax(pdu: int): (m: nat)
    ensures 0 < m
  {
    if pdu > 23 then pdu - 23 else 240
  }

  // ----- The loops as functions of the PLC's state -----

  function ExecWriteRun(p: Plc, refn: int, items: seq<WriteItem>): (Plc, Result<()>)
    requires AllEncodable(items)
  {
    match WriteFrame(items, refn)
    case Err(e) => (p, Err(e))
    case Ok(req) =>
      match Transact(p, req)
      case (q, Err(e)) => (q, Err(e))
      case (q, Ok(resp)) => (q, CheckWriteAck(resp))
  }

  /** The write loop from offset `off` with chunks of at most `mc` bytes. */
  function WriteRun(p: Plc, refn: int, area: Area, start: int, data: seq<Byte>, mc: nat, off: nat): (Plc, Result<()>)
    requires 0 < mc && off <= |data|
    decreases |data| - off
  {
    if off == |data| then (p, Ok(()))
    else
      var cs := Min(mc, |data| - off);
      var (q, r) := ExecWriteRun(p, refn, [WriteChunkItem(area, start + off, data[off..off + cs])]);
      if r.Err? then (q, r) else WriteRun(q, refn, area, start, data, mc, off + cs)
  }

  /** The exchange of one read chunk. */
  function ExecReadRun(p: Plc, refn: int, item: ReadItem): (Plc, Result<seq<seq<Byte>>>) {
    match ReadFrame([item], refn)
    case Err(e) => (p, Err(e))
    case Ok(req) =>
      match Transact(p, req)
      case (q, Err(e)) => (q, Err(e))
      case (q, Ok(resp)) => (q, ParseResponse(resp))
  }

  /** The end of the read: no bytes at all is an error. */
  function ReadResult(bytes: seq<Byte>): (r: Result<seq<Byte>>)
    ensures bytes == [] ==> r == Err(ItemNotFound)
    ensures bytes != [] ==> r == Ok(bytes)
  {
    if bytes == [] then Err(ItemNotFound) else Ok(bytes)
  }

  /** One exchange of the read loop, its payload added to what was collected before. */
  function CollectRun(p: Plc, refn: int, item: ReadItem, got: seq<Byte>): (Plc, Result<seq<Byte>>) {
    match ExecReadRun(p, refn, item)
    case (q, Err(e)) => (q, Err(e))
    case (q, Ok(results)) => (q, Ok(if results == [] then got else got + results[0]))
  }

  /** The read loop from offset `off`, with `got` already collected. */
  function ReadRun(p: Plc, refn: int, area: Area, start: int, size: int, mc: nat, off: nat, got: seq<Byte>)
    : (Plc, Result<seq<Byte>>)
    requires 0 < mc
    decreases size - off
  {
    if off >= size then (p, ReadResult(got))
    else
      var cs := Min(mc, size - off);
      match CollectRun(p, refn, ReadChunkItem(area, start + off, cs), got)
      case (q, Err(e)) => (q, Err(e))
      case (q, Ok(all)) => ReadRun(q, refn, area, start, size, mc, off + cs, all)
  }

  /** One turn of the write loop: stop on an error, or go on from the next offset. */
  lemma {:induction false} WriteRunStep(p: Plc, refn: int, area: Area, start: int, data: seq<Byte>, mc: nat,
          off: nat, cs: nat, q: Plc, r: Result<()>)
    requires 0 < mc && off < |data| && cs == Min(mc, |data| - off)
    requires (q, r) == ExecWriteRun(p, refn, [WriteChunkItem(area, start + off, data[off..off + cs])])
    ensures r.Err? ==> WriteRun(p, refn, area, start, data, mc, off) == (q, r)
    ensures r.Ok?
      ==> WriteRun(p, refn, area, start, data, mc, off) == WriteRun(q, refn, area, start, data, mc, off + cs)
  {
    hide ExecWriteRun;
  }

  /** One turn of the read loop. */
  lemma {:induction false} ReadRunStep(p: Plc, refn: int, area: Area, start: int, size: int, mc: nat, off: nat,
          got: seq<Byte>, cs: nat, q: Plc, r: Result<seq<Byte>>)
    requires 0 < mc && off < size && cs == Min(mc, size - off)
    requires (q, r) == CollectRun(p, refn, ReadChunkItem(area, start + off, cs), got)
    ensures r.Err? ==> ReadRun(p, refn, area, start, size, mc, off, got) == (q, r)
    ensures r.Ok?
      ==> ReadRun(p, refn, area, start, size, mc, off, got)
          == ReadRun(q, refn, area, start, size, mc, off + cs, r.value)
  {
    hide CollectRun;
  }

  lemma {:induction false} WriteRunDone(p: Plc, refn: int, area: Area, start: int, data: seq<Byte>, mc: nat)
    requires 0 < mc
    ensures WriteRun(p, refn, area, start, data, mc, |data|) == (p, Ok(()))
  {
  }

  lemma {:induction false} ReadRunDone(p: Plc, refn: int, area: Area, start: int, size: int, mc: nat, off: nat,
          got: seq<Byte>)
    requires 0 < mc && off >= size
    ensures ReadRun(p, refn, area, start, size, mc, off, got) == (p, ReadResult(got))
  {
  }

  // ----- One chunk against the PLC -----

  lemma {:induction false} ReadChunkTransact(p: Plc, refn: int, area: Area, off: int, len: nat)
    requires p.phase == Ready && len <= 65512
    ensures var frame := ReadFrame([ReadChunkItem(area, off, len)], refn);
      var refused := |p.log| in p.refusals;
      var reply := if refused then RefusedRead(refn % 65536, p.refusals[|p.log|])
        else ReadResp(Load(p.mem, area, off % 0x20_0000, len), refn % 65536);
      var mem := if refused then p.mem else Touch(p.mem, area);
      && frame.Ok? && |frame.value| == 31 && WellFramed(frame.value)
      && Turn(p, frame.value) == (p.(mem := mem, log := p.log + [Exchanged(frame.value, reply)]), Some(reply))
  {
    var item := ReadChunkItem(area, off, len);
    ReadChunk(p.mem, area, off, len, refn);
    var params := ReadParams([item]);
    JobIsWellFramed(refn, params, []);
    ParseJob(refn, params, []);
    hide JobFrame, Respond, ReadResp, RefusedRead, Load, Touch, WellFramed;
    assert params[0] == 0x04;
    assert JobKind(ReadFrame([item], refn).value) == Some(0x04);
  }

  lemma {:induction false} WriteChunkTransact(p: Plc, refn: int, area: Area, off: int, chunk: seq<Byte>)
    requires p.phase == Ready && |chunk| <= 929
    ensures AllEncodable([WriteChunkItem(area, off, chunk)])
    ensures var frame := WriteFrame([WriteChunkItem(area, off, chunk)], refn);
      var code: Byte := if |p.log| in p.refusals then p.refusals[|p.log|] else 0xFF;
      var reply := WriteResp(refn % 65536, code);
      var mem := if code == 0xFF then Store(p.mem, area, off % 0x20_0000, chunk) else p.mem;
      && frame.Ok? && |frame.value| == 35 + |chunk| && WellFramed(frame.value) && WellFramed(reply)
      && Turn(p, frame.value) == (p.(mem := mem, log := p.log + [Exchanged(frame.value, reply)]), Some(reply))
  {
    var items := [WriteChunkItem(area, off, chunk)];
    WriteChunk(p.mem, area, off, chunk, refn);
    assert items[..0] == [];
    var params, wd := WriteParams(items), WriteData(items);
    JobIsWellFramed(refn, params, wd);
    ParseJob(refn, params, wd);
    WriteRespFraming(refn % 65536, if |p.log| in p.refusals then p.refusals[|p.log|] else 0xFF);
    hide JobFrame, Respond, WriteResp, Store, WellFramed, WriteSpecs, WriteData;
    assert params[0] == 0x05;
    assert JobKind(WriteFrame(items, refn).value) == Some(0x05);
  }

  /** A write chunk that fits: applied and acknowledged, or refused and reported. */
  lemma {:induction false} WriteChunkRun(p: Plc, refn: int, area: Area, off: int, chunk: seq<Byte>)
    requires p.phase == Ready && |chunk| <= 929
    ensures AllEncodable([WriteChunkItem(area, off, chunk)])
    ensures var (q, r) := ExecWriteRun(p, refn, [WriteChunkItem(area, off, chunk)]);
      && q.phase == Ready && q.refusals == p.refusals && q.announced == p.announced
      && |q.log| == |p.log| + 1 && q.log[..|p.log|] == p.log
      && |q.log[|p.log|].request| == 35 + |chunk|
      && if |p.log| in p.refusals then r == Err(PlcError(p.refusals[|p.log|])) && q.mem == p.mem
         else r == Ok(()) && q.mem == Store(p.mem, area, off % 0x20_0000, chunk)
  {
    hide WriteFrame, Turn, Transact, WriteResp, CheckWriteAck, Store, WellFramed, Take;
    WriteChunkTransact(p, refn, area, off, chunk);
    var frame := WriteFrame([WriteChunkItem(area, off, chunk)], refn).value;
    var code: Byte := if |p.log| in p.refusals then p.refusals[|p.log|] else 0xFF;
    var (q, reply) := Turn(p, frame);
    TransactReply(p, frame, q, reply.value);
    WriteAckExact(refn % 65536, code);
  }

  lemma {:induction false} ReadChunkRun(p: Plc, refn: int, area: Area, off: int, len: nat)
    requires p.phase == Ready && len <= 65512
    ensures var (q, r) := ExecReadRun(p, refn, ReadChunkItem(area, off, len));
      var part := Load(p.mem, area, off % 0x20_0000, len);
      && q.phase == Ready && q.refusals == p.refusals && q.announced == p.announced
      && |q.log| == |p.log| + 1 && q.log[..|p.log|] == p.log
      && |q.log[|p.log|].request| == 31
      && if |p.log| in p.refusals then
           q.mem == p.mem && |q.log[|p.log|].reply| == 25 && r == Err(PlcError(p.refusals[|p.log|]))
         else
           && q.mem == Touch(p.mem, area) && |q.log[|p.log|].reply| == 25 + |part|
           && if ReplyReadable(|part|) then r == Ok([part]) else r.Err?
  {
    hide RefusedRead, ReadFrame, Turn, Transact, ReadResp, ParseResponse, Touch, Load, WellFramed, Take, HeaderClear;
    hide ReadChunkItem;
    ReadChunkTransact(p, refn, area, off, len);
    var frame := ReadFrame([ReadChunkItem(area, off, len)], refn).value;
    var part := Load(p.mem, area, off % 0x20_0000, len);
    var (q, reply) := Turn(p, frame);
    TransactReply(p, frame, q, reply.value);
    ReadRespFraming(part, refn % 65536);
    ReadResponseExact(part, refn % 65536);
    if |p.log| in p.refusals {
      RefusedReadReported(refn % 65536, p.refusals[|p.log|]);
    }
  }

  /** The payload sizes the client can read back: the reply fits TPKT and its length looks like no header. */
  predicate ReplyReadable(len: nat) {
    25 + len < 65536 && HeaderClear(25 + len)
  }

  // ----- Whole writes -----

  /** The number of chunks of at most `mc` bytes that `n` bytes take. */
  function PieceCount(n: int, mc: nat): nat
    requires 0 < mc
    decreases n
  {
    if n <= 0 then 0 else 1 + PieceCount(n - mc, mc)
  }

  lemma {:induction false} PieceCountIsCeiling(n: nat, mc: nat)
    requires 0 < mc
    ensures PieceCount(n, mc) == (n + mc - 1) / mc
  {
    if n > mc {
      PieceCountIsCeiling(n - mc, mc);
      QuotientStep(n - 1, mc);
    } else if n > 0 {
      assert PieceCount(n - mc, mc) == 0;
      assert n + mc - 1 == 1 * mc + (n - 1);
      QuotientUnique(n + mc - 1, mc, 1, n - 1);
    } else {
      QuotientUnique(mc - 1, mc, 0, mc - 1);
    }
  }

  lemma {:induction false} AtLeastOneTimes(x: int, m: nat)
    requires 1 <= x
    ensures m <= x * m
  {
  }

  lemma {:induction false} QuotientUnique(a: nat, m: nat, q: nat, r: nat)
    requires 0 < m && a == q * m + r && r < m
    ensures a / m == q
  {
    var k, s := a / m, a % m;
    assert (k - q) * m == r - s;
    if k > q {
      AtLeastOneTimes(k - q, m);
    } else if k < q {
      assert (q - k) * m == s - r;
      AtLeastOneTimes(q - k, m);
    }
  }

  lemma {:induction false} QuotientStep(a: nat, m: nat)
    requires 0 < m
    ensures (a + m) / m == a / m + 1
  {
    assert a + m == (a / m + 1) * m + a % m;
    QuotientUnique(a + m, m, a / m + 1, a % m);
  }

  /** How many of the next `count` write jobs the PLC accepts before it refuses one. */
  function AcceptedBefore(refusals: map<nat, Refusal>, from: nat, count: nat): (k: nat)
    ensures k <= count
    ensures k < count <==> exists i :: from <= i < from + count && i in refusals
    ensures k < count ==> from + k in refusals
    ensures forall i | from <= i < from + k :: i !in refusals
    decreases count
  {
    if count == 0 || from in refusals then 0 else 1 + AcceptedBefore(refusals, from + 1, count - 1)
  }

  /** Memory after the first `n` bytes of a write have been applied; nothing happens for none. */
  function StoreFirst(mem: Memory, area: Area, start: nat, data: seq<Byte>, n: nat): Memory
    requires n <= |data|
  {
    if n == 0 then mem else Store(mem, area, start, data[..n])
  }

  lemma {:induction false} StoreFirstStep(mem: Memory, area: Area, start: nat, data: seq<Byte>, off: nat, cs: nat,
          n: nat)
    requires 0 < cs && off + cs + n <= |data|
    ensures StoreFirst(Store(mem, area, start + off, data[off..off + cs]), area, start + off + cs, data[off + cs..], n)
      == StoreFirst(mem, area, start + off, data[off..], cs + n)
  {
    var a, b := data[off..off + cs], data[off + cs..][..n];
    assert data[off..][..cs + n] == a + b;
    StoreJoin(mem, area, start + off, a, b);
    assert n == 0 ==> a + b == a;
  }

  /** Everything about the connection except memory and the exchange log. */
  predicate SamePlc(p: Plc, q: Plc) {
    q.phase == Ready && q.refusals == p.refusals && q.announced == p.announced && p.log <= q.log
  }

  /**
   * What a chunked write of `data` at `at` leaves behind. With no refusal it is one flat update after
   * one exchange per chunk. If the PLC refuses the (k+1)-th chunk, the client reports its code, exactly
   * the first k chunks are applied, and nothing is sent after the refusal.
   */
  predicate WriteOutcome(p: Plc, q: Plc, r: Result<()>, area: Area, at: nat, data: seq<Byte>, mc: nat)
    requires 0 < mc
  {
    var count := PieceCount(|data|, mc);
    var k := AcceptedBefore(p.refusals, |p.log|, count);
    && SamePlc(p, q)
    && if k == count then
         r == Ok(()) && |q.log| == |p.log| + count && q.mem == StoreFirst(p.mem, area, at, data, |data|)
       else
         && r == Err(PlcError(p.refusals[|p.log| + k]))
         && |q.log| == |p.log| + k + 1
         && 0 <= k * mc < |data|
         && q.mem == StoreFirst(p.mem, area, at, data, k * mc)
  }

  /** An accepted first chunk followed by the rest is the whole. */
  lemma {:induction false} WriteOutcomeStep(p: Plc, p1: Plc, q: Plc, r: Result<()>, area: Area, at: nat,
          data: seq<Byte>, mc: nat, cs: nat)
    requires 0 < mc && cs == Min(mc, |data|) && 0 < cs
    requires SamePlc(p, p1) && |p1.log| == |p.log| + 1 && |p.log| !in p.refusals
    requires p1.mem == Store(p.mem, area, at, data[..cs])
    requires WriteOutcome(p1, q, r, area, at + cs, data[cs..], mc)
    ensures WriteOutcome(p, q, r, area, at, data, mc)
  {
    hide Store, StoreFirst, PieceCount, AcceptedBefore;
    var rest := data[cs..];
    var count := PieceCount(|rest|, mc);
    PieceCountStep(|data|, mc);
    var k := AcceptedBefore(p1.refusals, |p1.log|, count);
    AcceptedStep(p.refusals, |p.log|, count);
    assert data[0..0 + cs] == data[..cs] && data[0 + cs..] == rest && data[0..] == data;
    if k == count {
      StoreFirstStep(p.mem, area, at, data, 0, cs, |rest|);
    } else {
      PieceCountPositive(|rest|, mc);
      assert k * mc + mc == (1 + k) * mc;
      StoreFirstStep(p.mem, area, at, data, 0, cs, k * mc);
    }
  }

  lemma {:induction false} PieceCountStep(n: nat, mc: nat)
    requires 0 < mc && 0 < n
    ensures PieceCount(n, mc) == 1 + PieceCount(n - Min(mc, n), mc)
  {
  }

  lemma {:induction false} PieceCountPositive(n: nat, mc: nat)
    requires 0 < mc
    ensures PieceCount(n, mc) > 0 <==> n > 0
  {
  }

  lemma {:induction false} AcceptedStep(refusals: map<nat, Refusal>, from: nat, count: nat)
    requires from !in refusals
    ensures AcceptedBefore(refusals, from, 1 + count) == 1 + AcceptedBefore(refusals, from + 1, count)
  {
  }

  lemma {:induction false} WriteOutcomeRefused(p: Plc, q: Plc, r: Result<()>, area: Area, at: nat, data: seq<Byte>,
          mc: nat)
    requires 0 < mc && data != [] && SamePlc(p, q) && |q.log| == |p.log| + 1 && |p.log| in p.refusals
    requires q.mem == p.mem && r == Err(PlcError(p.refusals[|p.log|]))
    ensures WriteOutcome(p, q, r, area, at, data, mc)
  {
    assert 0 * mc == 0;
    assert AcceptedBefore(p.refusals, |p.log|, PieceCount(|data|, mc)) == 0;
  }

  lemma {:induction false} WriteFrom(p: Plc, refn: int, area: Area, start: nat, data: seq<Byte>, mc: nat, off: nat)
    requires p.phase == Ready && 0 < mc && off <= |data| && start + |data| <= 0x20_0000
    requires Min(mc, |data| - off) <= 929
    ensures var (q, r) := WriteRun(p, refn, area, start, data, mc, off);
      && WriteOutcome(p, q, r, area, start + off, data[off..], mc) && SamePlc(p, q)
      && (forall i | |p.log| <= i < |q.log| :: |q.log[i].request| <= 35 + mc)
    decreases |data| - off
  {
    hide ExecWriteRun, Store, WriteOutcome;
    if off < |data| {
      var cs := Min(mc, |data| - off);
      var chunk, rest := data[off..off + cs], data[off..];
      assert rest[..cs] == chunk && rest[cs..] == data[off + cs..];
      WriteChunkRun(p, refn, area, start + off, chunk);
      var (p1, r1) := ExecWriteRun(p, refn, [WriteChunkItem(area, start + off, chunk)]);
      var (q, r) := WriteRun(p, refn, area, start, data, mc, off);
      if r1.Ok? {
        WriteFrom(p1, refn, area, start, data, mc, off + cs);
        WriteOutcomeStep(p, p1, q, r, area, start + off, rest, mc, cs);
      } else {
        WriteOutcomeRefused(p, q, r, area, start + off, rest, mc);
      }
    } else {
      NothingToWrite(p, area, start + off, data[off..], mc);
    }
  }

  lemma {:induction false} NothingToWrite(p: Plc, area: Area, at: nat, data: seq<Byte>, mc: nat)
    requires p.phase == Ready && 0 < mc && data == []
    ensures WriteOutcome(p, p, Ok(()), area, at, data, mc)
  {
  }

  /**
   * A chunked write, for every PDU size, length and area. Its first frame is too big exactly when
   * both the chunk size and the data exceed 929 bytes, and then nothing is sent at all; otherwise the
   * outcome is that of one flat write, up to the first refusal. Every frame fits the negotiated size.
   */
  lemma {:induction false} ChunkedWriteExact(p: Plc, refn: int, area: Area, start: nat, data: seq<Byte>, pdu: int)
    requires p.phase == Ready && start + |data| <= 0x20_0000
    ensures var mc := WriteChunkMax(pdu);
      var (q, r) := WriteRun(p, refn, area, start, data, mc, 0);
      && (pdu > 964 && |data| > 929 ==> (q, r) == (p, Err(InvalidPdu("PDU too big"))))
      && (pdu <= 964 || |data| <= 929 ==>
            && WriteOutcome(p, q, r, area, start, data, mc)
            && (36 <= pdu ==> forall i | |p.log| <= i < |q.log| :: |q.log[i].request| <= pdu))
  {
    var mc := WriteChunkMax(pdu);
    assert data[0..] == data;
    if pdu > 964 && |data| > 929 {
      var cs := Min(mc, |data|);
      WriteChunk(p.mem, area, start, data[0..cs], refn);
    } else {
      WriteFrom(p, refn, area, start, data, mc, 0);
    }
  }

  /** With no refusal the write succeeds iff it is short or the PDU size is at most 964. */
  lemma {:induction false} ChunkedWriteSucceedsIff(p: Plc, refn: int, area: Area, start: nat, data: seq<Byte>, pdu: int)
    requires p.phase == Ready && start + |data| <= 0x20_0000 && p.refusals == map[]
    ensures var (q, r) := WriteRun(p, refn, area, start, data, WriteChunkMax(pdu), 0);
      && (r == Ok(()) <==> pdu <= 964 || |data| <= 929)
      && (r == Ok(()) ==>
            && q.mem == StoreFirst(p.mem, area, start, data, |data|)
            && |q.log| - |p.log| == (|data| + WriteChunkMax(pdu) - 1) / WriteChunkMax(pdu))
      && (r != Ok(()) ==> q == p)
  {
    hide WriteRun, PieceCount, StoreFirst, WriteChunkMax;
    ChunkedWriteExact(p, refn, area, start, data, pdu);
    PieceCountIsCeiling(|data|, WriteChunkMax(pdu));
    assert AcceptedBefore(p.refusals, |p.log|, PieceCount(|data|, WriteChunkMax(pdu)))
        == PieceCount(|data|, WriteChunkMax(pdu));
  }

  // ----- Whole reads -----

  /** Every remaining chunk of a read gets a reply that the client can parse. */
  predicate AllReadable(mem: Memory, area: Area, start: nat, size: int, mc: nat, off: nat)
    requires 0 < mc
    decreases size - off
  {
    off >= size
    || (ReplyReadable(|Load(mem, area, start + off, Min(mc, size - off))|)
        && AllReadable(mem, area, start, size, mc, off + Min(mc, size - off)))
  }

  /** What a chunked read that is never refused leaves behind and returns. */
  predicate ReadOutcome(p: Plc, q: Plc, r: Result<seq<Byte>>, area: Area, at: nat, size: int, mc: nat,
          got: seq<Byte>, readable: bool)
    requires 0 < mc
  {
    && SamePlc(p, q)
    && q.mem == (if size > 0 then Touch(p.mem, area) else p.mem)
    && (readable ==>
          && r == ReadResult(got + if size > 0 then Load(p.mem, area, at, size) else [])
          && |q.log| == |p.log| + PieceCount(size, mc))
    && (!readable ==> r.Err?)
  }

  lemma {:induction false} ReadOutcomeStep(p: Plc, p1: Plc, q: Plc, r: Result<seq<Byte>>, area: Area, at: nat,
          size: nat, mc: nat, got: seq<Byte>, cs: nat, readable: bool)
    requires 0 < mc && cs == Min(mc, size) && 0 < cs
    requires SamePlc(p, p1) && |p1.log| == |p.log| + 1 && p1.mem == Touch(p.mem, area)
    requires ReadOutcome(p1, q, r, area, at + cs, size - cs, mc, got + Load(p.mem, area, at, cs), readable)
    ensures ReadOutcome(p, q, r, area, at, size, mc, got, readable)
  {
    hide Touch, PieceCount, Load;
    TouchKeeps(p.mem, area);
    PieceCountStep(size, mc);
    LoadTouched(p.mem, area, at + cs, size - cs);
    LoadJoin(p.mem, area, at, cs, size - cs);
    LoadNothing(p.mem, area, at + cs);
    var a, b := Load(p.mem, area, at, cs), Load(p.mem, area, at + cs, size - cs);
    assert got + a + b == got + (a + b);
  }

  lemma {:induction false} LoadTouched(mem: Memory, area: Area, off: nat, len: nat)
    ensures Load(Touch(mem, area), area, off, len) == Load(mem, area, off, len)
  {
  }

  lemma {:induction false} LoadNothing(mem: Memory, area: Area, off: nat)
    ensures Load(mem, area, off, 0) == []
  {
  }

  lemma {:induction false} AllReadableTouched(mem: Memory, area: Area, start: nat, size: int, mc: nat, off: nat)
    requires 0 < mc
    ensures AllReadable(Touch(mem, area), area, start, size, mc, off) == AllReadable(mem, area, start, size, mc, off)
    decreases size - off
  {
    if off < size {
      LoadTouched(mem, area, start + off, Min(mc, size - off));
      AllReadableTouched(mem, area, start, size, mc, off + Min(mc, size - off));
    }
  }

  /** The chunks that a read of `size` bytes gets before the PLC refuses one. */
  function ServedChunks(p: Plc, size: int, mc: nat): (k: nat)
    requires 0 < mc
    ensures k <= PieceCount(size, mc)
  {
    AcceptedBefore(p.refusals, |p.log|, PieceCount(size, mc))
  }

  /** A read of which the PLC refuses no chunk, from any offset. */
  lemma {:induction false} ReadFrom(p: Plc, refn: int, area: Area, start: nat, size: int, mc: nat, off: nat,
          got: seq<Byte>)
    requires p.phase == Ready && 0 < mc <= 65512 && (size > 0 ==> off <= size && start + size <= 0x20_0000)
    requires ServedChunks(p, size - off, mc) == PieceCount(size - off, mc)
    ensures var (q, r) := ReadRun(p, refn, area, start, size, mc, off, got);
      && ReadOutcome(p, q, r, area, start + off, size - off, mc, got, AllReadable(p.mem, area, start, size, mc, off))
      && SamePlc(p, q)
    decreases size - off
  {
    hide ExecReadRun, Touch, Load, ReadOutcome, ReplyReadable, PieceCount, AcceptedBefore;
    if off < size {
      var cs := Min(mc, size - off);
      PieceCountStep(size - off, mc);
      ReadChunkRun(p, refn, area, start + off, cs);
      FirstServed(p.refusals, |p.log|, PieceCount(size - off - cs, mc));
      var (p1, r1) := ExecReadRun(p, refn, ReadChunkItem(area, start + off, cs));
      var (q, r) := ReadRun(p, refn, area, start, size, mc, off, got);
      var part := Load(p.mem, area, start + off, cs);
      if r1.Ok? {
        ReadFrom(p1, refn, area, start, size, mc, off + cs, got + part);
        AllReadableTouched(p.mem, area, start, size, mc, off + cs);
        ReadOutcomeStep(p, p1, q, r, area, start + off, size - off, mc, got, cs,
                        AllReadable(p.mem, area, start, size, mc, off));
      } else {
        ReadOutcomeFails(p, q, r, area, start + off, size - off, mc, got);
      }
    } else {
      ReadOutcomeDone(p, area, start + off, size - off, mc, got);
    }
  }

  /** If the first of `1 + count` jobs is refused none is served, and otherwise one more than of the rest. */
  lemma {:induction false} FirstServed(refusals: map<nat, Refusal>, from: nat, count: nat)
    ensures AcceptedBefore(refusals, from, 1 + count)
      == if from in refusals then 0 else 1 + AcceptedBefore(refusals, from + 1, count)
  {
  }

  /** Requests have 31 bytes and replies at most 25 more than a chunk, refused or not. */
  lemma {:induction false} ReadFrames(p: Plc, refn: int, area: Area, start: nat, size: int, mc: nat, off: nat,
          got: seq<Byte>)
    requires p.phase == Ready && 0 < mc <= 65512 && (size > 0 ==> off <= size && start + size <= 0x20_0000)
    ensures var q := ReadRun(p, refn, area, start, size, mc, off, got).0;
      SamePlc(p, q) && forall i | |p.log| <= i < |q.log| :: |q.log[i].request| == 31 && |q.log[i].reply| <= 25 + mc
    decreases size - off
  {
    hide ExecReadRun, Touch, Load, ReplyReadable;
    if off < size {
      var cs := Min(mc, size - off);
      ReadChunkRun(p, refn, area, start + off, cs);
      var (p1, r1) := ExecReadRun(p, refn, ReadChunkItem(area, start + off, cs));
      if r1.Ok? {
        ReadFrames(p1, refn, area, start, size, mc, off + cs, if r1.value == [] then got else got + r1.value[0]);
      }
    }
  }

  /** What a refusal of the next chunk but `k` leaves behind and makes the client report. */
  predicate RefusalOutcome(p: Plc, q: Plc, r: Result<seq<Byte>>, area: Area, k: nat, readable: bool) {
    && |p.log| + k in p.refusals && r.Err?
    && q.mem == (if k > 0 then Touch(p.mem, area) else p.mem)
    && (readable ==> r == Err(PlcError(p.refusals[|p.log| + k])) && |q.log| == |p.log| + k + 1)
  }

  lemma {:induction false} ReadableHead(mem: Memory, area: Area, start: nat, mc: nat, off: nat, k: nat)
    requires 0 < mc
    ensures AllReadable(mem, area, start, off + (1 + k) * mc, mc, off)
      == (ReplyReadable(|Load(mem, area, start + off, mc)|)
          && AllReadable(Touch(mem, area), area, start, off + mc + k * mc, mc, off + mc))
  {
    hide Load, Touch, ReplyReadable;
    assert (1 + k) * mc == mc + k * mc;
    AllReadableTouched(mem, area, start, off + mc + k * mc, mc, off + mc);
  }

  /**
   * A read of which the PLC refuses the (k+1)-th chunk. If the k replies before it are readable, the
   * client reports the PLC's own code and sends nothing after the refusal; otherwise it has stopped before.
   */
  lemma {:induction false} ReadRefused(p: Plc, refn: int, area: Area, start: nat, size: int, mc: nat, off: nat,
          got: seq<Byte>)
    requires p.phase == Ready && 0 < mc <= 65512 && off < size && start + size <= 0x20_0000
    requires ServedChunks(p, size - off, mc) < PieceCount(size - off, mc)
    ensures var (q, r) := ReadRun(p, refn, area, start, size, mc, off, got);
      var k := ServedChunks(p, size - off, mc);
      RefusalOutcome(p, q, r, area, k, AllReadable(p.mem, area, start, off + k * mc, mc, off))
    decreases size - off
  {
    hide ExecReadRun, Touch, Load, ReplyReadable, PieceCount, AcceptedBefore, AllReadable, RefusalOutcome;
    hide ReadRun, SamePlc;
    var cs := Min(mc, size - off);
    PieceCountStep(size - off, mc);
    PieceCountPositive(size - off - cs, mc);
    ReadChunkRun(p, refn, area, start + off, cs);
    FirstServed(p.refusals, |p.log|, PieceCount(size - off - cs, mc));
    var (p1, r1) := ExecReadRun(p, refn, ReadChunkItem(area, start + off, cs));
    var (q, r) := ReadRun(p, refn, area, start, size, mc, off, got);
    var step := CollectRun(p, refn, ReadChunkItem(area, start + off, cs), got).1;
    ReadRunStep(p, refn, area, start, size, mc, off, got, cs, p1, step);
    if |p.log| in p.refusals {
      RefusedAtOnce(p, q, r, area, AllReadable(p.mem, area, start, off + 0 * mc, mc, off));
    } else {
      var k := ServedChunks(p1, size - off - cs, mc);
      ReadableHead(p.mem, area, start, mc, off, k);
      if r1.Ok? {
        ReadRefused(p1, refn, area, start, size, mc, off + cs, step.value);
        RefusedLater(p, p1, q, r, area, k, AllReadable(p1.mem, area, start, off + mc + k * mc, mc, off + mc));
      } else {
        UnreadableBefore(p, q, r, area, 1 + k);
      }
    }
  }

  lemma {:induction false} RefusedAtOnce(p: Plc, q: Plc, r: Result<seq<Byte>>, area: Area, readable: bool)
    requires |p.log| in p.refusals && q.mem == p.mem && |q.log| == |p.log| + 1
    requires r == Err(PlcError(p.refusals[|p.log|]))
    ensures RefusalOutcome(p, q, r, area, 0, readable)
  {
  }

  lemma {:induction false} RefusedLater(p: Plc, p1: Plc, q: Plc, r: Result<seq<Byte>>, area: Area, k: nat,
          readable: bool)
    requires p1.refusals == p.refusals && |p1.log| == |p.log| + 1 && p1.mem == Touch(p.mem, area)
    requires RefusalOutcome(p1, q, r, area, k, readable)
    ensures RefusalOutcome(p, q, r, area, 1 + k, readable)
  {
    TouchKeeps(p.mem, area);
    hide Touch;
  }

  lemma {:induction false} UnreadableBefore(p: Plc, q: Plc, r: Result<seq<Byte>>, area: Area, k: nat)
    requires 0 < k && |p.log| + k in p.refusals && q.mem == Touch(p.mem, area) && r.Err?
    ensures RefusalOutcome(p, q, r, area, k, false)
  {
  }

  lemma {:induction false} ReadOutcomeFails(p: Plc, q: Plc, r: Result<seq<Byte>>, area: Area, at: nat, size: nat,
          mc: nat, got: seq<Byte>)
    requires 0 < mc && 0 < size && SamePlc(p, q) && q.mem == Touch(p.mem, area) && r.Err?
    ensures ReadOutcome(p, q, r, area, at, size, mc, got, false)
  {
  }

  lemma {:induction false} ReadOutcomeDone(p: Plc, area: Area, at: nat, size: int, mc: nat, got: seq<Byte>)
    requires p.phase == Ready && 0 < mc && size <= 0
    ensures ReadOutcome(p, p, ReadResult(got), area, at, size, mc, got, true)
  {
    assert got + [] == got;
  }

  /**
   * A chunked read, for every PDU size a PLC can announce and every pattern of refusals. When no chunk is
   * refused and every reply is readable, the result is the single slice `mem[start..min(start + size, len)]`
   * after one exchange per chunk, and an error exactly when that slice is empty. If the PLC refuses the
   * (k+1)-th chunk after k readable replies, the client reports its code and nothing is sent after the
   * refusal. No reply exceeds the negotiated size.
   */
  lemma {:induction false} ChunkedReadExact(p: Plc, refn: int, area: Area, start: nat, size: int, pdu: nat)
    requires p.phase == Ready && pdu < 65536 && (size > 0 ==> start + size <= 0x20_0000)
    ensures var mc := ReadChunkMax(pdu);
      var (q, r) := ReadRun(p, refn, area, start, size, mc, 0, []);
      var slice := if size > 0 then Load(p.mem, area, start, size) else [];
      var count, k := PieceCount(size, mc), ServedChunks(p, size, mc);
      && SamePlc(p, q)
      && q.mem == (if k > 0 then Touch(p.mem, area) else p.mem)
      && (r.Ok? <==> k == count && slice != [] && AllReadable(p.mem, area, start, size, mc, 0))
      && (r.Ok? ==> r.value == slice && |q.log| - |p.log| == (size + mc - 1) / mc)
      && (k == count && AllReadable(p.mem, area, start, size, mc, 0) && slice == [] ==> r == Err(ItemNotFound))
      && (k < count ==> RefusalOutcome(p, q, r, area, k, AllReadable(p.mem, area, start, k * mc, mc, 0)))
      && (24 <= pdu ==> forall i | |p.log| <= i < |q.log| :: |q.log[i].reply| - 7 <= pdu - 5)
  {
    var mc := ReadChunkMax(pdu);
    hide ReadRun, AllReadable, Load, Touch, AcceptedBefore, PieceCount;
    ReadFrames(p, refn, area, start, size, mc, 0, []);
    PiecesExist(size, mc);
    if ServedChunks(p, size, mc) < PieceCount(size, mc) {
      ReadRefused(p, refn, area, start, size, mc, 0, []);
    } else {
      ReadFrom(p, refn, area, start, size, mc, 0, []);
      if size > 0 {
        PieceCountIsCeiling(size, mc);
        assert [] + Load(p.mem, area, start, size) == Load(p.mem, area, start, size);
      }
    }
  }

  lemma {:induction false} PiecesExist(size: int, mc: nat)
    requires 0 < mc
    ensures PieceCount(size, mc) > 0 <==> size > 0
  {
  }

  /** Without refusals every chunk is served. */
  lemma {:induction false} AllServed(p: Plc, size: int, mc: nat)
    requires 0 < mc && p.refusals == map[]
    ensures ServedChunks(p, size, mc) == PieceCount(size, mc)
    ensures PieceCount(size, mc) > 0 <==> size > 0
  {
  }

  lemma {:induction false} LoadShrinks(mem: Memory, area: Area, at: nat, len: nat, at': nat, len': nat)
    requires at <= at' && len' <= len
    ensures |Load(mem, area, at', len')| <= |Load(mem, area, at, len)|
  {
  }

  /** The first reply of a read is the longest; a refusal is shorter than any payload. */
  lemma {:induction false} FirstReplyLongest(p: Plc, refn: int, area: Area, start: nat, size: nat, mc: nat, off: nat,
          got: seq<Byte>)
    requires p.phase == Ready && 0 < mc <= 65512 && off < size && start + size <= 0x20_0000
    ensures var q := ReadRun(p, refn, area, start, size, mc, off, got).0;
      var longest := 25 + |Load(p.mem, area, start + off, Min(mc, size - off))|;
      && p.log < q.log && |q.log[|p.log|].reply| == (if |p.log| in p.refusals then 25 else longest)
      && (forall i | |p.log| <= i < |q.log| :: |q.log[i].reply| <= longest)
    decreases size - off
  {
    hide ExecReadRun, Touch, Load, ReplyReadable;
    var cs := Min(mc, size - off);
    ReadChunkRun(p, refn, area, start + off, cs);
    var (p1, r1) := ExecReadRun(p, refn, ReadChunkItem(area, start + off, cs));
    var q := ReadRun(p, refn, area, start, size, mc, off, got).0;
    if r1.Ok? {
      var all := if r1.value == [] then got else got + r1.value[0];
      if off + cs < size {
        FirstReplyLongest(p1, refn, area, start, size, mc, off + cs, all);
        LoadTouched(p.mem, area, start + off + cs, Min(mc, size - off - cs));
        LoadShrinks(p.mem, area, start + off, cs, start + off + cs, Min(mc, size - off - cs));
        assert q.log[|p.log|] == p1.log[|p.log|];
      } else {
        ReadRunDone(p1, refn, area, start, size, mc, off + cs, all);
        assert q == p1;
      }
    }
  }

  /** A read of at most `limit` bytes, or one that finds at most `limit` bytes in its data block. */
  predicate ShortRead(mem: Memory, area: Area, start: nat, size: int, limit: int) {
    size <= 0 || (0 <= limit && (size <= limit || (IsDb(area) && |Db(mem, DbNum(area))| <= start + limit)))
  }

  /**
   * The chunk size of a read leaves 23 bytes for headers, but a reply has 25. Whole replies stay within
   * the PDU size exactly when no chunk is both full and inside its area: the read, or what the data
   * block holds from its start, is at most the PDU size minus 25. (A read refused at once has one reply,
   * of 25 bytes.)
   */
  lemma {:induction false} RepliesFitPduIff(p: Plc, refn: int, area: Area, start: nat, size: int, pdu: nat)
    requires p.phase == Ready && |p.log| !in p.refusals
    requires 24 <= pdu < 65536 && (size > 0 ==> start + size <= 0x20_0000)
    ensures var q := ReadRun(p, refn, area, start, size, ReadChunkMax(pdu), 0, []).0;
      (forall i | |p.log| <= i < |q.log| :: |q.log[i].reply| <= pdu) <==> ShortRead(p.mem, area, start, size, pdu - 25)
  {
    var mc := ReadChunkMax(pdu);
    if size <= 0 {
      ReadRunDone(p, refn, area, start, size, mc, 0, []);
    } else {
      FirstReplyLongest(p, refn, area, start, size, mc, 0, []);
      hide ReadRun;
    }
  }

  /** At PDU size 480 a full chunk of flags is answered with 482 bytes. */
  lemma {:induction false} ReplyExceedsPdu(p: Plc, refn: int)
    requires p.phase == Ready && |p.log| !in p.refusals
    ensures var q := ReadRun(p, refn, Flags, 0, 457, ReadChunkMax(480), 0, []).0;
      |q.log| > |p.log| && |q.log[|p.log|].reply| == 482
  {
    hide ReadRun, Zeros;
    FirstReplyLongest(p, refn, Flags, 0, 457, ReadChunkMax(480), 0, []);
  }

  /** Replies are readable whenever no chunk can carry 12775 bytes: a small PDU, size or data block. */
  lemma {:induction false} SmallChunksAreReadable(mem: Memory, area: Area, start: nat, size: int, mc: nat, off: nat)
    requires 0 < mc
    requires mc <= 12774 || size - off <= 12774 || (IsDb(area) && |Db(mem, DbNum(area))| <= start + off + 12774)
    ensures AllReadable(mem, area, start, size, mc, off)
    decreases size - off
  {
    if off < size {
      SmallChunksAreReadable(mem, area, start, size, mc, off + Min(mc, size - off));
    }
  }

  // ----- Write, then read -----

  lemma {:induction false} LoadStored(mem: Memory, d: nat, start: nat, data: seq<Byte>)
    requires d < 65536 && start + |data| <= |Db(mem, d)|
    ensures Load(Store(mem, DataBlock(d), start, data), DataBlock(d), start, |data|) == data
  {
  }

  /**
   * Data written in chunks under one PDU size and read back in chunks under another is the data, the
   * data block has changed in the written range only, and every other data block is as it was.
   */
  lemma {:induction false} WriteThenRead(p: Plc, refn: int, d: nat, start: nat, data: seq<Byte>, pduW: int, pduR: nat)
    requires p.phase == Ready && p.refusals == map[] && d < 65536 && pduR < 65536
    requires data != [] && start + |data| <= Min(0x20_0000, |Db(p.mem, d)|)
    requires pduW <= 964 || |data| <= 929
    requires pduR <= 12797 || |data| <= 12774 || |Db(p.mem, d)| <= start + 12774
    ensures var (q, w) := WriteRun(p, refn, DataBlock(d), start, data, WriteChunkMax(pduW), 0);
      && w == Ok(())
      && q.mem == p.mem[d := Patch(Db(p.mem, d), start, data)]
      && ReadRun(q, refn, DataBlock(d), start, |data|, ReadChunkMax(pduR), 0, []).1 == Ok(data)
  {
    hide WriteRun, ReadRun, Patch, Clip, AllReadable, WriteOutcome;
    ChunkedWriteSucceedsIff(p, refn, DataBlock(d), start, data, pduW);
    ChunkedWriteExact(p, refn, DataBlock(d), start, data, pduW);
    var (q, w) := WriteRun(p, refn, DataBlock(d), start, data, WriteChunkMax(pduW), 0);
    assert data[..|data|] == data;
    WriteOutcomeSame(p, q, w, DataBlock(d), start, data, WriteChunkMax(pduW));
    LoadStored(p.mem, d, start, data);
    AllServed(q, |data|, ReadChunkMax(pduR));
    SmallChunksAreReadable(q.mem, DataBlock(d), start, |data|, ReadChunkMax(pduR), 0);
    ChunkedReadExact(q, refn, DataBlock(d), start, |data|, pduR);
  }

  lemma {:induction false} WriteOutcomeSame(p: Plc, q: Plc, r: Result<()>, area: Area, at: nat, data: seq<Byte>,
          mc: nat)
    requires 0 < mc && WriteOutcome(p, q, r, area, at, data, mc)
    ensures SamePlc(p, q)
  {
  }

  // ----- A data block that was never touched -----

  /** Reading a fresh block: zeros up to byte 256, and an error exactly from there on. */
  lemma {:induction false} FreshRead(p: Plc, refn: int, d: nat, start: nat, size: nat, pdu: nat)
    requires p.phase == Ready && p.refusals == map[] && d < 65536 && d !in p.mem && pdu < 65536
    requires 0 < size && start + size <= 0x20_0000
    ensures var r := ReadRun(p, refn, DataBlock(d), start, size, ReadChunkMax(pdu), 0, []).1;
      && (r.Ok? <==> start < 256)
      && (r.Ok? ==> |r.value| == Min(size, 256 - start) && forall i | 0 <= i < |r.value| :: r.value[i] == 0)
      && (r.Err? ==> r == Err(ItemNotFound))
  {
    hide ReadRun, AllReadable, ReadChunkMax;
    AllServed(p, size, ReadChunkMax(pdu));
    SmallChunksAreReadable(p.mem, DataBlock(d), start, size, ReadChunkMax(pdu), 0);
    ChunkedReadExact(p, refn, DataBlock(d), start, size, pdu);
  }

  /** Data written to a fresh block comes back whole exactly when it lies in the first 256 bytes. */
  lemma {:induction false} FreshWriteThenRead(p: Plc, refn: int, d: nat, start: nat, data: seq<Byte>, pduW: int,
          pduR: nat)
    requires p.phase == Ready && p.refusals == map[] && d < 65536 && d !in p.mem && pduR < 65536
    requires data != [] && start + |data| <= 0x20_0000 && (pduW <= 964 || |data| <= 929)
    ensures var (q, w) := WriteRun(p, refn, DataBlock(d), start, data, WriteChunkMax(pduW), 0);
      && w == Ok(())
      && (ReadRun(q, refn, DataBlock(d), start, |data|, ReadChunkMax(pduR), 0, []).1 == Ok(data)
          <==> start + |data| <= 256)
  {
    hide WriteRun, ReadRun, AllReadable, ReadChunkMax, WriteChunkMax, Patch, WriteOutcome, PieceCount;
    ChunkedWriteSucceedsIff(p, refn, DataBlock(d), start, data, pduW);
    ChunkedWriteExact(p, refn, DataBlock(d), start, data, pduW);
    var (q, w) := WriteRun(p, refn, DataBlock(d), start, data, WriteChunkMax(pduW), 0);
    WriteOutcomeSame(p, q, w, DataBlock(d), start, data, WriteChunkMax(pduW));
    assert data[..|data|] == data;
    if start + |data| <= 256 {
      LoadStored(p.mem, d, start, data);
    }
    AllServed(q, |data|, ReadChunkMax(pduR));
    SmallChunksAreReadable(q.mem, DataBlock(d), start, |data|, ReadChunkMax(pduR), 0);
    ChunkedReadExact(q, refn, DataBlock(d), start, |data|, pduR);
  }

  // ----- Exchanges, counted -----

  /** The number of exchanges of a write, the fallback of 240 bytes included. */
  lemma {:induction false} WriteExchanges(p: Plc, refn: int, area: Area, start: nat, data: seq<Byte>, pdu: int)
    requires p.phase == Ready && start + |data| <= 0x20_0000 && p.refusals == map[]
    requires pdu <= 964 || |data| <= 929
    ensures var q := WriteRun(p, refn, area, start, data, WriteChunkMax(pdu), 0).0;
      |q.log| - |p.log| == if pdu >= 36 then (|data| + pdu - 36) / (pdu - 35) else (|data| + 239) / 240
  {
    hide WriteRun, StoreFirst;
    ChunkedWriteSucceedsIff(p, refn, area, start, data, pdu);
  }

  lemma {:induction false} ReadExchanges(p: Plc, refn: int, area: Area, start: nat, size: int, pdu: nat)
    requires p.phase == Ready && p.refusals == map[] && pdu < 65536 && (size > 0 ==> start + size <= 0x20_0000)
    ensures var (q, r) := ReadRun(p, refn, area, start, size, ReadChunkMax(pdu), 0, []);
      r.Ok? ==> |q.log| - |p.log| == if pdu >= 24 then (size + pdu - 24) / (pdu - 23) else (size + 239) / 240
  {
    hide ReadRun, Load, Touch, AllReadable, PieceCount, ServedChunks;
    AllServed(p, size, ReadChunkMax(pdu));
    ChunkedReadExact(p, refn, area, start, size, pdu);
  }

  // ----- Where the promises stop -----

  /** A PLC that announces 1000 makes a write of 930 bytes impossible. */
  lemma {:induction false} LargePduBreaksWrites(p: Plc, refn: int)
    requires p.phase == Ready && p.refusals == map[]
    ensures WriteRun(p, refn, DataBlock(1), 0, Zeros(930), WriteChunkMax(1000), 0)
      == (p, Err(InvalidPdu("PDU too big")))
  {
    ChunkedWriteExact(p, refn, DataBlock(1), 0, Zeros(930), 1000);
  }

  /** A reply of 0x3201 bytes has a length field that reads as an S7 header, and the read fails. */
  lemma {:induction false} LengthFieldTakenForHeader(p: Plc, refn: int)
    requires p.phase == Ready
    ensures ReadRun(p, refn, Flags, 0, 12776, ReadChunkMax(12799), 0, []).1.Err?
  {
    hide ReadRun, Clip, Zeros;
    assert |Load(p.mem, Flags, 0, 12776)| == 12776;
    assert !ReplyReadable(12776);
    ChunkedReadExact(p, refn, Flags, 0, 12776, 12799);
  }
}
