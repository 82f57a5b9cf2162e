/**
 * Safety of the concurrent system of module Sessions, whatever the clients do to each other's data: in
 * every run each session has at most one message in flight, PLC and client are in step, and each reply
 * is the one the PLC made for the request just sent.
 */
module Interleaving {
  import opened Bytes
  import opened Telegrams
  import opened Simulator
  import opened Exchange
  import opened Tpkt
  import opened Peer
  import opened Transfer
  import opened Sessions

  // ----- One request and its reply -----

  /** What a request does to memory, and its answer. */
  function Effect(mem: Memory, op: Op, off: nat, cs: nat): Memory
    requires off + cs <= OpLen(op)
  {
    match op
    case WriteOp(area, start, data) => Store(mem, area, (start + off) % 0x20_0000, data[off..off + cs])
    case ReadOp(area, _, _) => Touch(mem, area)
  }

  function ReplyTo(mem: Memory, refn: int, op: Op, off: nat, cs: nat): Frame {
    match op
    case WriteOp(_, _, _) => WriteResp(refn % 65536, 0xFF)
    case ReadOp(area, start, _) => ReadResp(Load(mem, area, (start + off) % 0x20_0000, cs), refn % 65536)
  }

  /** The PLC turns the frame into the operation's effect and reply. */
  predicate Answered(mem: Memory, announced: nat, refn: int, op: Op, off: nat, cs: nat, frame: Frame)
    requires off + cs <= OpLen(op)
  {
    && WellFramed(frame)
    && var (q, out) := Turn(Plc(Ready, announced, mem, map[], []), frame);
    && q.phase == Ready && q.mem == Effect(mem, op, off, cs) && out == Some(ReplyTo(mem, refn, op, off, cs))
  }

  lemma {:induction false} WriteRequestExact(mem: Memory, announced: nat, refn: int, pdu: nat, op: Op, off: nat)
    requires op.WriteOp? && off < OpLen(op)
    requires off > 0 ==> WriteFits(pdu, op)
    ensures var req := NextFrame(refn, pdu, op, off);
      var cs := ChunkLen(pdu, op, off);
      && 0 < cs
      && (req.Ok? <==> op.ReadOp? || WriteFits(pdu, op))
      && (req.Err? ==> req == Err(InvalidPdu("PDU too big")))
      && (req.Ok? ==> Answered(mem, announced, refn, op, off, cs, req.value))
  {
    hide WriteFrame, Turn, Store, WriteResp, WellFramed, Respond, WriteChunkItem, AllEncodable, IsDb, DbNum;
    var cs := ChunkLen(pdu, op, off);
    var chunk := op.data[off..off + cs];
    WriteChunk(mem, op.area, op.start + off, chunk, refn);
    if cs <= 929 {
      WriteChunkTransact(Plc(Ready, announced, mem, map[], []), refn, op.area, op.start + off, chunk);
    }
  }

  lemma {:induction false} ReadRequestExact(mem: Memory, announced: nat, refn: int, pdu: nat, op: Op, off: nat)
    requires op.ReadOp? && pdu < 65536 && off < OpLen(op)
    ensures var req := NextFrame(refn, pdu, op, off);
      var cs := ChunkLen(pdu, op, off);
      && 0 < cs
      && (req.Ok? <==> op.ReadOp? || WriteFits(pdu, op))
      && (req.Err? ==> req == Err(InvalidPdu("PDU too big")))
      && (req.Ok? ==> Answered(mem, announced, refn, op, off, cs, req.value))
  {
    hide ReadFrame, Turn, Touch, Load, ReadResp, WellFramed, ReadChunkItem;
    var cs := ChunkLen(pdu, op, off);
    ReadChunkTransact(Plc(Ready, announced, mem, map[], []), refn, op.area, op.start + off, cs);
  }

  /** A request fails only for a write that can never fit, and then at once; otherwise the PLC answers it. */
  lemma {:induction false} RequestExact(mem: Memory, announced: nat, refn: int, pdu: nat, op: Op, off: nat)
    requires pdu < 65536 && off < OpLen(op)
    requires op.WriteOp? && off > 0 ==> WriteFits(pdu, op)
    ensures var req := NextFrame(refn, pdu, op, off);
      var cs := ChunkLen(pdu, op, off);
      && 0 < cs
      && (req.Ok? <==> op.ReadOp? || WriteFits(pdu, op))
      && (req.Err? ==> req == Err(InvalidPdu("PDU too big")))
      && (req.Ok? ==> Answered(mem, announced, refn, op, off, cs, req.value))
  {
    hide Answered, NextFrame;
    match op
    case WriteOp(_, _, _) => WriteRequestExact(mem, announced, refn, pdu, op, off);
    case ReadOp(_, _, _) => ReadRequestExact(mem, announced, refn, pdu, op, off);
  }

  lemma {:induction false} ReplyAnswers(mem: Memory, refn: int, op: Op, off: nat, cs: nat)
    ensures Answers(ReplyTo(mem, refn, op, off, cs), refn, op, cs) && ReplyTo(mem, refn, op, off, cs) != []
  {
    hide ReadResp, WriteResp, Load;
    if op.ReadOp? {
      assert |Load(mem, op.area, (op.start + off) % 0x20_0000, cs)| <= cs;
    }
  }

  /** Whatever answers a request is one whole frame, readable or not. */
  lemma {:induction false} AnswerIsFrame(f: Frame, refn: int, op: Op, cs: nat)
    requires cs <= 65510 && Answers(f, refn, op, cs)
    ensures WellFramed(f) && f != []
  {
    hide ReadResp, WriteResp, WellFramed;
    match op
    case WriteOp(_, _, _) =>
      WriteRespFraming(refn % 65536, 0xFF);
    case ReadOp(_, _, _) =>
      var part: seq<Byte> :| |part| <= cs && f == ReadResp(part, refn % 65536);
      ReadRespFraming(part, refn % 65536);
  }

  lemma {:induction false} ChunkBound(pdu: nat, op: Op, off: nat)
    requires off <= OpLen(op) && ReplyFits(pdu, op) && (op.WriteOp? ==> WriteFits(pdu, op))
    ensures ChunkLen(pdu, op, off) <= 65510
  {
  }

  // ----- The invariant of one session -----

  /** Exactly one of request and reply is in flight, and the PLC has answered iff it is the reply. */
  predicate InFlight(s: Session, request: seq<Byte>, answered: bool, before: Phase, after: Phase) {
    || (Content(s.up) == request && Content(s.down) == [] && s.plc == before)
    || (Content(s.up) == [] && answered && s.plc == after)
  }

  /** The loop variables are inside the program. */
  predicate Cursor(cfg: Config, c: ClientState) {
    && |c.results| <= |cfg.ops|
    && (|c.results| == |cfg.ops| ==> c.off == 0)
    && (|c.results| < |cfg.ops| ==>
          && c.off <= OpLen(cfg.ops[|c.results|])
          && (cfg.ops[|c.results|].WriteOp? && c.off > 0 ==> WriteFits(Pdu(cfg), cfg.ops[|c.results|])))
  }

  /** `f` answers the request for `cs` bytes of `op`: a write is acknowledged, a read gets at most `cs` bytes. */
  ghost predicate Answers(f: Frame, refn: int, op: Op, cs: nat) {
    match op
    case WriteOp(_, _, _) => f == WriteResp(refn % 65536, 0xFF)
    case ReadOp(_, _, _) => exists part: seq<Byte> :: |part| <= cs && f == ReadResp(part, refn % 65536)
  }

  ghost predicate Exchanging(s: Session)
    requires Cursor(s.cfg, s.client)
  {
    var c := s.client;
    && |c.results| < |s.cfg.ops|
    && var op := s.cfg.ops[|c.results|];
    && c.off < OpLen(op)
    && NextFrame(s.cfg.refn, c.pdu, op, c.off).Ok?
    && InFlight(s, NextFrame(s.cfg.refn, c.pdu, op, c.off).value,
                Answers(Content(s.down), s.cfg.refn, op, ChunkLen(c.pdu, op, c.off)), Ready, Ready)
  }

  /** The two sides are in step, whatever memory holds. */
  ghost predicate InStep(s: Session) {
    && ValidConfig(s.cfg)
    && Cursor(s.cfg, s.client)
    && match s.client.phase
       case Fresh => s.plc == AwaitCotp && Content(s.up) == [] && Content(s.down) == []
       case WaitCc =>
         InFlight(s, CotpCr(s.cfg.lsap, s.cfg.rsap), Content(s.down) == CotpCc(), AwaitCotp, AwaitSetup)
       case WaitSetup =>
         InFlight(s, SetupFrame(), Content(s.down) == SetupResp(0, s.cfg.announced), AwaitSetup, Ready)
       case Sending => s.client.pdu == Pdu(s.cfg) && s.plc == Ready && Content(s.up) == [] && Content(s.down) == []
       case Waiting => s.client.pdu == Pdu(s.cfg) && Exchanging(s)
       case Broken(_) => false
  }

  /** Bytes of the current operation that the PLC has dealt with. */
  function Applied(s: Session): nat
    requires Cursor(s.cfg, s.client)
  {
    var c := s.client;
    if c.phase.Waiting? && Content(s.down) != [] && |c.results| < |s.cfg.ops|
    then c.off + ChunkLen(c.pdu, s.cfg.ops[|c.results|], c.off)
    else c.off
  }

  // ----- Streams -----

  /** A reader that sees part of one whole frame waits; it takes the frame once all of it is there. */
  lemma {:induction false} TakeArrived(c: Chan, f: Frame)
    requires WellFramed(f) && Content(c) == f
    ensures Take(c.buf) == Incomplete || (Take(c.buf) == Got(f, []) && c.wire == [])
    ensures c.wire == [] ==> Take(c.buf) == Got(f, [])
  {
    if c.wire == [] {
      assert c.buf == f;
      WholeFrame(f);
    } else {
      assert c.buf == f[..|c.buf|];
      PrefixWaits(f, |c.buf|);
    }
  }

  lemma {:induction false} DeliverKeeps(c: Chan, k: nat)
    ensures Content(Deliver(c, k)) == Content(c)
  {
    var n := Min(k, |c.wire|);
    assert c.wire[..n] + c.wire[n..] == c.wire;
  }

  lemma {:induction false} EmitOnEmpty(c: Chan, bytes: seq<Byte>)
    requires Content(c) == []
    ensures Content(Emit(c, bytes)) == bytes
  {
    assert c.buf == [] && c.wire == [];
  }

  lemma {:induction false} NothingArrived(c: Chan)
    requires Content(c) == []
    ensures Take(c.buf) == Incomplete
  {
    assert c.buf == [];
  }

  // ----- Every step keeps the two sides in step -----

  predicate Listening(c: ClientState) {
    c.phase in {WaitCc, WaitSetup, Waiting}
  }

  /** A listening client does nothing until the whole reply is there, and then takes exactly the reply. */
  lemma {:induction false} Listen(s: Session)
    requires Listening(s.client)
    ensures Content(s.down) == [] ==> ClientStep(s) == s
    ensures WellFramed(Content(s.down)) && Content(s.up) == [] && ClientStep(s) != s
      ==> var (c, out) := Receiving(s.cfg, s.client, Content(s.down));
          var t := ClientStep(s);
          t.cfg == s.cfg && t.plc == s.plc && t.client == c && Content(t.up) == out && Content(t.down) == []
  {
    hide Take, Receiving, WellFramed;
    if Content(s.down) == [] {
      NothingArrived(s.down);
    } else if WellFramed(Content(s.down)) && Content(s.up) == [] {
      TakeArrived(s.down, Content(s.down));
      EmitOnEmpty(s.up, Receiving(s.cfg, s.client, Content(s.down)).1);
    }
  }

  /** The handler does nothing until the whole request is there, and then answers exactly it. */
  lemma {:induction false} Serve(mem: Memory, s: Session)
    ensures Content(s.up) == [] ==> PlcStep(mem, s) == (mem, s)
    ensures WellFramed(Content(s.up)) && Content(s.down) == [] && PlcStep(mem, s) != (mem, s)
      ==> var (q, out) := Turn(Plc(s.plc, s.cfg.announced, mem, map[], []), Content(s.up));
          var (mem', t) := PlcStep(mem, s);
          && t.cfg == s.cfg && t.client == s.client && t.plc == q.phase && mem' == q.mem
          && Content(t.up) == [] && Content(t.down) == (if out.Some? then out.value else [])
  {
    hide Take, Turn, WellFramed;
    if Content(s.up) == [] {
      NothingArrived(s.up);
    } else if WellFramed(Content(s.up)) && Content(s.down) == [] {
      TakeArrived(s.up, Content(s.up));
      var reply := Turn(Plc(s.plc, s.cfg.announced, mem, map[], []), Content(s.up)).1;
      if reply.Some? {
        EmitOnEmpty(s.down, reply.value);
      }
    }
  }

  predicate SameProgress(s: Session, t: Session) {
    && t.cfg == s.cfg && t.client.results == s.client.results && t.client.off == s.client.off
    && t.client.got == s.client.got
  }

  lemma {:induction false} FreshStep(s: Session)
    requires InStep(s) && s.client.phase == Fresh
    ensures InStep(ClientStep(s)) && SameProgress(s, ClientStep(s)) && ClientStep(s).client.phase == WaitCc
  {
    hide CotpCr, CotpCc, Content, ValidConfig, Emit;
    EmitOnEmpty(s.up, CotpCr(s.cfg.lsap, s.cfg.rsap));
  }

  lemma {:induction false} CcStep(s: Session)
    requires InStep(s) && s.client.phase == WaitCc
    ensures InStep(ClientStep(s)) && SameProgress(s, ClientStep(s))
    ensures ClientStep(s).client.phase in {WaitCc, WaitSetup}
  {
    hide CotpCr, CotpCc, SetupFrame, SetupResp, Turn, WellFramed, ParseCotpCc, ClientStep, Content;
    Listen(s);
    CrTurn(Plc(AwaitCotp, 0, map[], map[], []), s.cfg.lsap, s.cfg.rsap);
  }

  lemma {:induction false} SetupStep(s: Session)
    requires InStep(s) && s.client.phase == WaitSetup
    ensures InStep(ClientStep(s)) && SameProgress(s, ClientStep(s))
    ensures ClientStep(s).client.phase in {WaitSetup, Sending}
  {
    hide CotpCr, CotpCc, SetupFrame, SetupResp, Turn, WellFramed, ParseSetupResp, ClientStep, Content;
    Listen(s);
    SetupTurn(Plc(AwaitSetup, s.cfg.announced, map[], map[], []));
  }

  lemma {:induction false} SendStep(s: Session)
    requires InStep(s) && s.client.phase == Sending
    ensures InStep(ClientStep(s)) && ClientStep(s).cfg == s.cfg
  {
    hide NextFrame, Answered, Answers, Emit, Content, ChunkLen, WriteFits, Finish, Load, WellFramed, Turn;
    var c := s.client;
    if |c.results| < |s.cfg.ops| && c.off < OpLen(s.cfg.ops[|c.results|]) {
      var op := s.cfg.ops[|c.results|];
      RequestExact(map[], s.cfg.announced, s.cfg.refn, Pdu(s.cfg), op, c.off);
      var req := NextFrame(s.cfg.refn, c.pdu, op, c.off);
      if req.Ok? {
        EmitOnEmpty(s.up, req.value);
      }
    }
  }

  /** A reply completes one chunk, or ends the operation with the error it is read as. */
  function AfterReply(c: ClientState, op: Op, accepted: Result<seq<Byte>>): ClientState
    requires c.off <= OpLen(op)
  {
    match accepted
    case Err(e) => Record(c, Err(e))
    case Ok(got) => c.(phase := Sending, off := c.off + ChunkLen(c.pdu, op, c.off), got := got)
  }

  lemma {:induction false} ReplyStep(s: Session)
    requires InStep(s) && s.client.phase == Waiting
    ensures InStep(ClientStep(s)) && ClientStep(s).cfg == s.cfg
    ensures ClientStep(s) != s
      ==> var t, c := ClientStep(s), s.client;
          var op := s.cfg.ops[|c.results|];
          && Content(s.up) == [] && Content(t.up) == [] && Content(t.down) == []
          && Answers(Content(s.down), s.cfg.refn, op, ChunkLen(c.pdu, op, c.off))
          && t.client == AfterReply(c, op, Accept(op, c.got, Content(s.down)))
  {
    hide ClientStep, NextFrame, WellFramed, Accept, Content, ChunkLen, Answers;
    Listen(s);
    var c, op := s.client, s.cfg.ops[|s.client.results|];
    var cs := ChunkLen(c.pdu, op, c.off);
    ChunkInside(c.pdu, op, c.off);
    RequestExact(map[], s.cfg.announced, s.cfg.refn, Pdu(s.cfg), op, c.off);
    ChunkBound(c.pdu, op, c.off);
    if Content(s.up) == [] && Answers(Content(s.down), s.cfg.refn, op, cs) {
      AnswerIsFrame(Content(s.down), s.cfg.refn, op, cs);
    }
  }

  lemma {:induction false} ChunkInside(pdu: int, op: Op, off: nat)
    requires off <= OpLen(op)
    ensures off + ChunkLen(pdu, op, off) <= OpLen(op)
    ensures off < OpLen(op) ==> 0 < ChunkLen(pdu, op, off)
  {
  }

  lemma {:induction false} HandshakeTurn(mem: Memory, s: Session)
    requires InStep(s) && s.client.phase in {Fresh, WaitCc, WaitSetup}
    ensures var (mem', t) := PlcStep(mem, s); mem' == mem && t.client == s.client && t.cfg == s.cfg && InStep(t)
  {
    hide CotpCr, CotpCc, SetupFrame, SetupResp, Turn, WellFramed, PlcStep, Content;
    Serve(mem, s);
    if s.plc == AwaitCotp {
      CrTurn(Plc(AwaitCotp, s.cfg.announced, mem, map[], []), s.cfg.lsap, s.cfg.rsap);
    } else if s.plc == AwaitSetup {
      SetupTurn(Plc(AwaitSetup, s.cfg.announced, mem, map[], []));
    }
  }

  /** The request is served once, by the operation's effect, and the reply sent is its answer. */
  lemma {:induction false} ExchangeTurn(mem: Memory, s: Session)
    requires InStep(s) && s.client.phase == Waiting
    ensures var (mem', t) := PlcStep(mem, s);
      var c, op := s.client, s.cfg.ops[|s.client.results|];
      var cs := ChunkLen(c.pdu, op, c.off);
      && t.client == s.client && t.cfg == s.cfg && InStep(t) && 0 < cs && c.off + cs <= OpLen(op)
      && ((mem', t) == (mem, s)
          || (Content(s.down) == [] && mem' == Effect(mem, op, c.off, cs)
              && Content(t.down) == ReplyTo(mem, s.cfg.refn, op, c.off, cs)))
  {
    hide PlcStep, Turn, WellFramed, NextFrame, ReplyTo, Effect, Content, ChunkLen, Answers;
    var c, op := s.client, s.cfg.ops[|s.client.results|];
    var cs := ChunkLen(c.pdu, op, c.off);
    Serve(mem, s);
    ChunkInside(c.pdu, op, c.off);
    RequestExact(mem, s.cfg.announced, s.cfg.refn, Pdu(s.cfg), op, c.off);
    ReplyAnswers(mem, s.cfg.refn, op, c.off, cs);
  }

  lemma {:induction false} InStepKept(mem: Memory, s: Session, a: Act)
    requires InStep(s)
    ensures var (mem', t) := SessionStep(mem, s, a); InStep(t) && t.cfg == s.cfg
  {
    hide ClientStep, PlcStep, Deliver, Content, CotpCr, CotpCc, SetupFrame, SetupResp, NextFrame, Answers, ChunkLen;
    match a
    case ClientAct =>
      if s.client.phase == Fresh {
        FreshStep(s);
      } else if s.client.phase == WaitCc {
        CcStep(s);
      } else if s.client.phase == WaitSetup {
        SetupStep(s);
      } else if s.client.phase == Waiting {
        ReplyStep(s);
      } else {
        SendStep(s);
      }
    case PlcAct =>
      if s.client.phase == Waiting {
        ExchangeTurn(mem, s);
      } else if s.client.phase == Sending {
        Serve(mem, s);
      } else {
        HandshakeTurn(mem, s);
      }
    case DeliverUp(k) => DeliverKeeps(s.up, k);
    case DeliverDown(k) => DeliverKeeps(s.down, k);
  }

  // ----- Every run -----

  ghost predicate AllInStep(cfgs: seq<Config>, sys: System) {
    && |sys.sessions| == |cfgs|
    && forall i | 0 <= i < |cfgs| :: sys.sessions[i].cfg == cfgs[i] && InStep(sys.sessions[i])
  }

  lemma {:induction false} StartInStep(c: Config)
    requires ValidConfig(c)
    ensures InStep(Start(c))
  {
  }

  lemma {:induction false} RunInStep(mem: Memory, cfgs: seq<Config>, schedule: seq<(nat, Act)>)
    requires forall i | 0 <= i < |cfgs| :: ValidConfig(cfgs[i])
    ensures AllInStep(cfgs, Run(Init(mem, cfgs), schedule))
  {
    hide InStep, SessionStep, ValidConfig;
    if schedule == [] {
      forall i | 0 <= i < |cfgs| ensures InStep(Init(mem, cfgs).sessions[i]) {
        StartInStep(cfgs[i]);
      }
    } else {
      var n := |schedule| - 1;
      RunInStep(mem, cfgs, schedule[..n]);
      var sys, i, a := Run(Init(mem, cfgs), schedule[..n]), schedule[n].0, schedule[n].1;
      if i < |cfgs| {
        InStepKept(sys.mem, sys.sessions[i], a);
      }
    }
  }

  // ----- Which request a reply answers -----

  /** The client of session `i` waits, and its request has been answered. */
  predicate ReplyPending(sys: System, i: nat) {
    i < |sys.sessions| && sys.sessions[i].client.phase == Waiting && Content(sys.sessions[i].up) == []
  }

  /**
   * The reply in flight was made at position `j` of the schedule, when the client was already where it
   * is now, out of the memory of that moment and for the very chunk the client waits for.
   */
  predicate ServedAt(init: System, schedule: seq<(nat, Act)>, i: nat, j: nat) {
    var now := Run(init, schedule);
    && j < |schedule| && schedule[j] == (i, PlcAct)
    && var then' := Run(init, schedule[..j]);
    && i < |now.sessions| && i < |then'.sessions| && then'.sessions[i].client == now.sessions[i].client
    && var s, c := now.sessions[i], now.sessions[i].client;
    && |c.results| < |s.cfg.ops|
    && var op := s.cfg.ops[|c.results|];
    && c.off < OpLen(op)
    && Content(s.down) == ReplyTo(then'.mem, s.cfg.refn, op, c.off, ChunkLen(c.pdu, op, c.off))
  }

  /** A step after which a reply is pending served the request, or left client and reply as they were. */
  lemma {:induction false} ReplyOrigin(mem: Memory, s: Session, a: Act)
    requires InStep(s)
    requires var t := SessionStep(mem, s, a).1; t.client.phase == Waiting && Content(t.up) == []
    ensures var t := SessionStep(mem, s, a).1;
      && t.client == s.client && t.cfg == s.cfg
      && var c, op := s.client, s.cfg.ops[|s.client.results|];
      || (Content(s.up) == [] && Content(t.down) == Content(s.down))
      || (a == PlcAct && Content(t.down) == ReplyTo(mem, s.cfg.refn, op, c.off, ChunkLen(c.pdu, op, c.off)))
  {
    hide ClientStep, PlcStep, Deliver, Content, CotpCr, CotpCc, SetupFrame, SetupResp, NextFrame, Answers, ChunkLen;
    hide ReplyTo, Effect, Accept, ValidConfig;
    match a
    case ClientAct => ClientOrigin(s);
    case PlcAct =>
      if s.client.phase == Waiting {
        ExchangeTurn(mem, s);
      } else if s.client.phase == Sending {
        Serve(mem, s);
      } else {
        HandshakeTurn(mem, s);
      }
    case DeliverUp(k) => DeliverKeeps(s.up, k);
    case DeliverDown(k) => DeliverKeeps(s.down, k);
  }

  /** A client that has just begun to wait has its request on the wire. */
  lemma {:induction false} ClientOrigin(s: Session)
    requires InStep(s) && ClientStep(s).client.phase == Waiting && Content(ClientStep(s).up) == []
    ensures ClientStep(s) == s
  {
    hide ClientStep, Content, CotpCr, CotpCc, SetupFrame, SetupResp, NextFrame, Answers, ChunkLen, Accept;
    InStepKept(map[], s, ClientAct);
    if s.client.phase == Fresh {
      FreshStep(s);
    } else if s.client.phase == WaitCc {
      CcStep(s);
    } else if s.client.phase == WaitSetup {
      SetupStep(s);
    } else if s.client.phase == Waiting {
      ReplyStep(s);
    } else {
      SendGivesRequest(s);
    }
  }

  lemma {:induction false} SendGivesRequest(s: Session)
    requires InStep(s) && s.client.phase == Sending && ClientStep(s).client.phase == Waiting
    ensures Content(ClientStep(s).up) != []
  {
    hide NextFrame, Content, ChunkLen, Emit, Effect, Turn, ReplyTo;
    var c, op := s.client, s.cfg.ops[|s.client.results|];
    RequestExact(map[], s.cfg.announced, s.cfg.refn, Pdu(s.cfg), op, c.off);
    EmitOnEmpty(s.up, NextFrame(s.cfg.refn, c.pdu, op, c.off).value);
  }

  lemma {:induction false} ReplyHasOrigin(mem: Memory, cfgs: seq<Config>, schedule: seq<(nat, Act)>, i: nat)
      returns (j: nat)
    requires forall k | 0 <= k < |cfgs| :: ValidConfig(cfgs[k])
    requires ReplyPending(Run(Init(mem, cfgs), schedule), i)
    ensures ServedAt(Init(mem, cfgs), schedule, i, j)
  {
    hide SessionStep, ReplyTo, ChunkLen, Content, ValidConfig, InStep;
    assert schedule != [];
    var n := |schedule| - 1;
    var before, a := Run(Init(mem, cfgs), schedule[..n]), schedule[n].1;
    RunInStep(mem, cfgs, schedule[..n]);
    if schedule[n].0 == i {
      ReplyOrigin(before.mem, before.sessions[i], a);
    }
    PendingInside(mem, cfgs, schedule, i);
    var now := Run(Init(mem, cfgs), schedule);
    if ReplyPending(before, i) && Content(before.sessions[i].down) == Content(now.sessions[i].down) {
      j := ReplyHasOrigin(mem, cfgs, schedule[..n], i);
      assert schedule[..n][..j] == schedule[..j];
    } else {
      j := n;
    }
  }

  lemma {:induction false} PendingInside(mem: Memory, cfgs: seq<Config>, schedule: seq<(nat, Act)>, i: nat)
    requires forall k | 0 <= k < |cfgs| :: ValidConfig(cfgs[k])
    requires ReplyPending(Run(Init(mem, cfgs), schedule), i)
    ensures var s := Run(Init(mem, cfgs), schedule).sessions[i];
      |s.client.results| < |s.cfg.ops| && s.client.off < OpLen(s.cfg.ops[|s.client.results|])
  {
    RunInStep(mem, cfgs, schedule);
    hide Run, Content, NextFrame, Answers, ChunkLen, ValidConfig;
    assert InStep(Run(Init(mem, cfgs), schedule).sessions[i]);
  }

  /**
   * In every reachable state of any number of clients, whatever they do to each other's data: at most
   * one message of a session is outstanding, no client ever sees a malformed or unexpected reply, a
   * connected client faces a PLC that is READY and uses the size that PLC announced, and a reply in
   * flight is the one the PLC made, out of the memory of that moment, for the chunk that the client
   * still waits for. The client never compares PDU references.
   */
  lemma {:induction false} EveryRunIsSafe(mem: Memory, cfgs: seq<Config>, schedule: seq<(nat, Act)>, i: nat)
    requires forall j | 0 <= j < |cfgs| :: ValidConfig(cfgs[j])
    requires i < |cfgs|
    ensures var sys := Run(Init(mem, cfgs), schedule);
      && |sys.sessions| == |cfgs|
      && var s, c := sys.sessions[i], sys.sessions[i].client;
      && (Content(s.up) == [] || Content(s.down) == [])
      && !c.phase.Broken? && s.plc != Closed
      && (c.phase in {Sending, Waiting} ==> s.plc == Ready && c.pdu == Pdu(cfgs[i]))
      && (c.phase == Waiting ==>
            && |c.results| < |cfgs[i].ops|
            && var op := cfgs[i].ops[|c.results|];
            && c.off < OpLen(op)
            && (Content(s.up) == [] ==> exists j :: ServedAt(Init(mem, cfgs), schedule, i, j))
            && (Content(s.up) != [] ==> Ok(Content(s.up)) == NextFrame(cfgs[i].refn, c.pdu, op, c.off)))
  {
    RunInStep(mem, cfgs, schedule);
    hide Run, Init, Answers, NextFrame, ChunkLen, Content, ValidConfig, CotpCr, CotpCc, SetupFrame, SetupResp, ServedAt;
    var s := Run(Init(mem, cfgs), schedule).sessions[i];
    assert InStep(s);
    if s.client.phase == Waiting {
      RequestNotEmpty(s);
      if Content(s.up) == [] {
        var j := ReplyHasOrigin(mem, cfgs, schedule, i);
      }
    }
  }

  lemma {:induction false} RequestNotEmpty(s: Session)
    requires InStep(s) && s.client.phase == Waiting
    ensures NextFrame(s.cfg.refn, s.client.pdu, s.cfg.ops[|s.client.results|], s.client.off).value != []
  {
    hide NextFrame, Answers, ChunkLen, Content, Effect, Turn, ReplyTo;
    var c := s.client;
    RequestExact(map[], s.cfg.announced, s.cfg.refn, c.pdu, s.cfg.ops[|c.results|], c.off);
  }
}
