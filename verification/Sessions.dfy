/**
 * Several clients at once. Each session is a client program, a PLC handler thread and two byte
 * streams between them; a schedule interleaves client steps, handler steps and the delivery of any
 * number of bytes. All handlers share one data-block memory, as the simulator's threads do
 * (tools/s7_sim.py, lines 209 and 382).
 */
module Sessions {
  import opened Bytes
  import opened Items
  import opened Telegrams
  import opened Simulator
  import opened Exchange
  import opened Tpkt
  import opened Peer
  import opened Transfer

  // ----- Programs -----

  datatype Op =
    | WriteOp(area: Area, start: int, data: seq<Byte>)
    | ReadOp(area: Area, start: int, size: nat)

  function OpLen(op: Op): nat {
    match op
    case WriteOp(_, _, data) => |data|
    case ReadOp(_, _, size) => size
  }

  /** What a client is configured to do, and the PDU size its PLC announces. */
  datatype Config = Config(lsap: seq<Byte>, rsap: seq<Byte>, refn: int, announced: nat, ops: seq<Op>)

  /** The size the client learns: the announcement has 16 bits. */
  function Pdu(c: Config): nat {
    c.announced % 65536
  }

  /** No reply to a read of this operation is too long for its 16-bit TPKT length. */
  predicate ReplyFits(pdu: int, op: Op) {
    op.ReadOp? ==> pdu <= 65533 || op.size <= 65510
  }

  predicate ValidConfig(c: Config) {
    && 18 + |c.lsap| + |c.rsap| < 65536
    && forall i | 0 <= i < |c.ops| :: ReplyFits(Pdu(c), c.ops[i])
  }

  /** No frame of this operation is too big to build. */
  predicate WriteFits(pdu: int, op: Op) {
    pdu <= 964 || OpLen(op) <= 929
  }

  // ----- State -----

  datatype ClientPhase = Fresh | WaitCc | WaitSetup | Sending | Waiting | Broken(error: S7Error)

  /** `off` and `got` are the loop variables of the operation at index `|results|`. */
  datatype ClientState =
    ClientState(phase: ClientPhase, pdu: int, off: nat, got: seq<Byte>, results: seq<Result<seq<Byte>>>)

  /** Bytes in flight and bytes that have arrived but are not yet read. */
  datatype Chan = Chan(wire: seq<Byte>, buf: seq<Byte>)

  datatype Session = Session(cfg: Config, client: ClientState, plc: Phase, up: Chan, down: Chan)

  datatype System = System(mem: Memory, sessions: seq<Session>)

  function Content(c: Chan): seq<Byte> {
    c.buf + c.wire
  }

  function Emit(c: Chan, bytes: seq<Byte>): Chan {
    c.(wire := c.wire + bytes)
  }

  function Deliver(c: Chan, k: nat): Chan {
    var n := Min(k, |c.wire|);
    Chan(c.wire[n..], c.buf + c.wire[..n])
  }

  // ----- Steps -----

  function ChunkLen(pdu: int, op: Op, off: nat): nat
    requires off <= OpLen(op)
  {
    Min(if op.WriteOp? then WriteChunkMax(pdu) else ReadChunkMax(pdu), OpLen(op) - off)
  }

  /** The next frame of an operation. */
  function NextFrame(refn: int, pdu: int, op: Op, off: nat): Result<Frame>
    requires off <= OpLen(op)
  {
    var cs := ChunkLen(pdu, op, off);
    match op
    case WriteOp(area, start, data) => WriteFrame([WriteChunkItem(area, start + off, data[off..off + cs])], refn)
    case ReadOp(area, start, _) => ReadFrame([ReadChunkItem(area, start + off, cs)], refn)
  }

  /** The client's reading of a reply: what has been collected so far, or the error it reports. */
  function Accept(op: Op, got: seq<Byte>, reply: Frame): Result<seq<Byte>> {
    match op
    case WriteOp(_, _, _) =>
      (match CheckWriteAck(reply) case Err(e) => Err(e) case Ok(_) => Ok(got))
    case ReadOp(_, _, _) =>
      (match ParseResponse(reply) case Err(e) => Err(e) case Ok(rs) => Ok(if rs == [] then got else got + rs[0]))
  }

  /** The value of a finished loop. */
  function Finish(op: Op, got: seq<Byte>): Result<seq<Byte>> {
    if op.WriteOp? then Ok([]) else ReadResult(got)
  }

  function Record(c: ClientState, r: Result<seq<Byte>>): ClientState {
    c.(phase := Sending, off := 0, got := [], results := c.results + [r])
  }

  /** A client that waits for a frame: the new state and, if a frame was taken, what it sends next. */
  function Receiving(cfg: Config, c: ClientState, f: Frame): (ClientState, seq<Byte>) {
    match c.phase
    case WaitCc =>
      (match ParseCotpCc(f)
       case Err(e) => (c.(phase := Broken(e)), [])
       case Ok(_) => (c.(phase := WaitSetup), SetupFrame()))
    case WaitSetup =>
      (match ParseSetupResp(f)
       case Err(e) => (c.(phase := Broken(e)), [])
       case Ok(n) => (c.(phase := Sending, pdu := n), []))
    case Waiting =>
      if |c.results| >= |cfg.ops| || c.off > OpLen(cfg.ops[|c.results|]) then (c, [])
      else
        var op := cfg.ops[|c.results|];
        (match Accept(op, c.got, f)
         case Err(e) => (Record(c, Err(e)), [])
         case Ok(got) => (c.(phase := Sending, off := c.off + ChunkLen(c.pdu, op, c.off), got := got), []))
    case _ => (c, [])
  }

  function ClientStep(s: Session): Session {
    var c := s.client;
    match c.phase
    case Fresh => s.(client := c.(phase := WaitCc), up := Emit(s.up, CotpCr(s.cfg.lsap, s.cfg.rsap)))
    case Sending =>
      if |c.results| >= |s.cfg.ops| then s
      else
        var op := s.cfg.ops[|c.results|];
        if c.off >= OpLen(op) then s.(client := Record(c, Finish(op, c.got)))
        else
          (match NextFrame(s.cfg.refn, c.pdu, op, c.off)
           case Err(e) => s.(client := Record(c, Err(e)))
           case Ok(req) => s.(client := c.(phase := Waiting), up := Emit(s.up, req)))
    case Broken(_) => s
    case _ =>
      match Take(s.down.buf)
      case Incomplete => s
      case Bad(e) => s.(client := c.(phase := Broken(e)))
      case Got(f, rest) =>
        var (c', out) := Receiving(s.cfg, c, f);
        s.(client := c', down := s.down.(buf := rest), up := Emit(s.up, out))
  }

  /** The handler thread: one whole frame in, its answer out, on the shared memory. */
  function PlcStep(mem: Memory, s: Session): (Memory, Session) {
    match Take(s.up.buf)
    case Incomplete => (mem, s)
    case Bad(_) => (mem, s.(plc := Closed))
    case Got(f, rest) =>
      var (q, reply) := Turn(Plc(s.plc, s.cfg.announced, mem, map[], []), f);
      (q.mem, s.(plc := q.phase, up := s.up.(buf := rest),
                 down := match reply case None => s.down case Some(r) => Emit(s.down, r)))
  }

  datatype Act = ClientAct | PlcAct | DeliverUp(k: nat) | DeliverDown(k: nat)

  function SessionStep(mem: Memory, s: Session, a: Act): (Memory, Session) {
    match a
    case ClientAct => (mem, ClientStep(s))
    case PlcAct => PlcStep(mem, s)
    case DeliverUp(k) => (mem, s.(up := Deliver(s.up, k)))
    case DeliverDown(k) => (mem, s.(down := Deliver(s.down, k)))
  }

  /** One action of session `i`; an action that is not enabled changes nothing. */
  function Step(sys: System, i: nat, a: Act): System {
    if i >= |sys.sessions| then sys
    else
      var (m, s) := SessionStep(sys.mem, sys.sessions[i], a);
      System(m, sys.sessions[i := s])
  }

  function Start(c: Config): Session {
    Session(c, ClientState(Fresh, 480, 0, [], []), AwaitCotp, Chan([], []), Chan([], []))
  }

  function Init(mem: Memory, cfgs: seq<Config>): System {
    System(mem, seq(|cfgs|, i requires 0 <= i < |cfgs| => Start(cfgs[i])))
  }

  /** The state after a schedule: any interleaving, any segmentation. */
  function Run(sys: System, schedule: seq<(nat, Act)>): System {
    if schedule == [] then sys
    else
      var n := |schedule| - 1;
      Step(Run(sys, schedule[..n]), schedule[n].0, schedule[n].1)
  }
}
