/**
 * Progress of the concurrent system: every step that changes anything uses up a bounded budget, and
 * while some program is unfinished some step is enabled. So no schedule runs for ever, no state is a
 * deadlock, and from every reachable state all programs can be run to their end.
 */
module Progress {
  import opened Bytes
  import opened Telegrams
  import opened Simulator
  import opened Tpkt
  import opened Peer
  import opened Sessions
  import opened Interleaving
  import opened Serializability

  // ----- The budget -----

  /** Steps left in the operations from index `k` on: three for each byte, one to record the result. */
  function OpsBudget(c: Config, k: nat): nat
    requires k <= |c.ops|
    decreases |c.ops| - k
  {
    if k == |c.ops| then 0 else 1 + 3 * OpLen(c.ops[k]) + OpsBudget(c, k + 1)
  }

  lemma {:induction false} OpsBudgetHead(c: Config, k: nat)
    requires k < |c.ops|
    ensures OpsBudget(c, k) == 1 + 3 * OpLen(c.ops[k]) + OpsBudget(c, k + 1)
  {
  }

  /** Steps of client and PLC left in a session. A request in flight stands for two, a reply for one. */
  ghost function Steps(s: Session): nat
    requires InStep(s)
  {
    var left := OpsBudget(s.cfg, |s.client.results|) - 3 * s.client.off;
    var pending := if Content(s.up) != [] then 2 else 1;
    match s.client.phase
    case Fresh => left + 6
    case WaitCc => left + 3 + pending
    case WaitSetup => left + pending
    case Waiting => left - 3 + pending
    case Sending => left
  }

  /** Each step of client or PLC may put one frame of fewer than 65536 bytes on the wire. */
  ghost function Budget(s: Session): nat
    requires InStep(s)
  {
    65536 * Steps(s) + |s.up.wire| + |s.down.wire|
  }

  /** A step that either changes nothing or spends some of the budget. */
  ghost predicate Spends(s: Session, t: Session) {
    InStep(s) && InStep(t) && (t == s || Budget(t) < Budget(s))
  }

  /** One step of client or PLC with at most one frame sent is a spending step. */
  lemma {:induction false} StepPaysForFrame(s: Session, t: Session)
    requires InStep(s) && InStep(t) && Steps(t) < Steps(s)
    requires |t.up.wire| + |t.down.wire| < |s.up.wire| + |s.down.wire| + 65536
    ensures Spends(s, t)
  {
    hide InStep, Steps;
  }

  lemma {:induction false} DeliverShrinks(c: Chan, k: nat)
    ensures Deliver(c, k) == c || |Deliver(c, k).wire| < |c.wire|
    ensures 0 < k && c.wire != [] ==> Deliver(c, k) != c
  {
    if Min(k, |c.wire|) == 0 {
      assert c.wire[0..] == c.wire && c.buf + c.wire[..0] == c.buf;
    }
  }

  lemma {:induction false} StepsSame(s: Session, t: Session)
    requires InStep(s) && InStep(t)
    requires t.cfg == s.cfg && t.client == s.client && Content(t.up) == Content(s.up)
    ensures Steps(t) == Steps(s)
  {
    hide InStep, Content, OpsBudget;
  }

  lemma {:induction false} DeliverySpends(mem: Memory, s: Session, a: Act)
    requires InStep(s) && (a.DeliverUp? || a.DeliverDown?)
    ensures Spends(s, SessionStep(mem, s, a).1) && SessionStep(mem, s, a).0 == mem
  {
    hide InStep, Steps, Content, Deliver;
    InStepKept(mem, s, a);
    DeliverKeeps(s.up, a.k);
    DeliverShrinks(s.up, a.k);
    DeliverShrinks(s.down, a.k);
    StepsSame(s, SessionStep(mem, s, a).1);
  }

  // ----- Steps of the client -----

  /** What a step of the client does to the wires: it may send one frame on an idle stream. */
  lemma {:induction false} ClientWires(s: Session)
    requires InStep(s)
    ensures var t := ClientStep(s);
      t.down.wire == s.down.wire && |t.up.wire| < |s.up.wire| + 65536
  {
    hide Take, CotpCc, SetupResp, Answers, ChunkLen, ParseCotpCc, ParseSetupResp, Accept, Finish, NextFrame, WriteFits;
    if s.client.phase == Sending {
      RequestIsFrame(s);
    }
    hide OpLen, CotpCr, Content;
    CrLength(s.cfg.lsap, s.cfg.rsap);
  }

  lemma {:induction false} CrLength(lsap: seq<Byte>, rsap: seq<Byte>)
    ensures |CotpCr(lsap, rsap)| == 18 + |lsap| + |rsap|
  {
  }

  lemma {:induction false} RequestIsFrame(s: Session)
    requires InStep(s) && s.client.phase in {Sending, Waiting}
    ensures var c := s.client;
      |c.results| < |s.cfg.ops| && c.off < OpLen(s.cfg.ops[|c.results|])
      ==> var req := NextFrame(s.cfg.refn, c.pdu, s.cfg.ops[|c.results|], c.off);
          req.Ok? ==> 0 < |req.value| < 65536
  {
    hide NextFrame, Answers, ChunkLen, Content, Effect, Turn, ReplyTo, WriteFits;
    var c := s.client;
    if |c.results| < |s.cfg.ops| && c.off < OpLen(s.cfg.ops[|c.results|]) {
      RequestExact(map[], s.cfg.announced, s.cfg.refn, c.pdu, s.cfg.ops[|c.results|], c.off);
    }
  }

  lemma {:induction false} FreshSpends(s: Session)
    requires InStep(s) && s.client.phase == Fresh
    ensures InStep(ClientStep(s)) && Steps(ClientStep(s)) < Steps(s)
  {
    FreshStep(s);
    CrLength(s.cfg.lsap, s.cfg.rsap);
    EmitOnEmpty(s.up, CotpCr(s.cfg.lsap, s.cfg.rsap));
    hide InStep, Content, OpsBudget, CotpCr, Emit, Cursor, ValidConfig;
  }

  lemma {:induction false} HandshakeSpends(s: Session)
    requires InStep(s) && s.client.phase in {WaitCc, WaitSetup} && ClientStep(s) != s
    ensures InStep(ClientStep(s)) && Steps(ClientStep(s)) < Steps(s)
  {
    hide CotpCr, CotpCc, SetupFrame, SetupResp, Turn, WellFramed, ParseCotpCc, ParseSetupResp, ClientStep;
    hide Content, OpsBudget, Cursor;
    Listen(s);
    if s.client.phase == WaitCc {
      CcStep(s);
      CrTurn(Plc(AwaitCotp, 0, map[], map[], []), s.cfg.lsap, s.cfg.rsap);
    } else {
      SetupStep(s);
      SetupTurn(Plc(AwaitSetup, s.cfg.announced, map[], map[], []));
    }
  }

  lemma {:induction false} SendSpends(s: Session)
    requires InStep(s) && s.client.phase == Sending && ClientStep(s) != s
    ensures InStep(ClientStep(s)) && Steps(ClientStep(s)) < Steps(s)
  {
    hide NextFrame, Answers, Emit, Content, ChunkLen, WriteFits, Finish, Exchanging, ValidConfig, OpLen;
    var c := s.client;
    SendStep(s);
    RequestIsFrame(s);
    OpsBudgetHead(s.cfg, |c.results|);
    var op := s.cfg.ops[|c.results|];
    if c.off < OpLen(op) {
      var req := NextFrame(s.cfg.refn, c.pdu, op, c.off);
      if req.Ok? {
        EmitOnEmpty(s.up, req.value);
      }
    }
    hide OpsBudget;
  }

  lemma {:induction false} ReplySpends(s: Session)
    requires InStep(s) && s.client.phase == Waiting && ClientStep(s) != s
    ensures InStep(ClientStep(s)) && Steps(ClientStep(s)) < Steps(s)
  {
    hide ClientStep, NextFrame, WellFramed, Accept, Content, ChunkLen, Answers, OpsBudget, ValidConfig, WriteFits;
    ReplyStep(s);
    Listen(s);
    var c, op := s.client, s.cfg.ops[|s.client.results|];
    var cs := ChunkLen(c.pdu, op, c.off);
    ChunkInside(c.pdu, op, c.off);
    OpsBudgetHead(s.cfg, |c.results|);
  }

  lemma {:induction false} ClientSpends(s: Session)
    requires InStep(s)
    ensures Spends(s, ClientStep(s))
  {
    hide InStep, ClientStep, Steps;
    InStepKept(map[], s, ClientAct);
    if ClientStep(s) != s {
      ClientSpendsStep(s);
      ClientWires(s);
      StepPaysForFrame(s, ClientStep(s));
    }
  }

  lemma {:induction false} ClientSpendsStep(s: Session)
    requires InStep(s) && ClientStep(s) != s
    ensures InStep(ClientStep(s)) && Steps(ClientStep(s)) < Steps(s)
  {
    hide ClientStep, Steps, Exchanging, Content, InFlight, Cursor, ValidConfig;
    match s.client.phase
    case Fresh => FreshSpends(s);
    case WaitCc => HandshakeSpends(s);
    case WaitSetup => HandshakeSpends(s);
    case Waiting => ReplySpends(s);
    case Sending => SendSpends(s);
  }

  // ----- Steps of the PLC -----

  /** The PLC answers with one whole frame, or does nothing at all. */
  lemma {:induction false} PlcReplies(mem: Memory, s: Session)
    requires InStep(s) && PlcStep(mem, s) != (mem, s)
    ensures var t := PlcStep(mem, s).1;
      && Content(s.up) != [] && Content(t.up) == [] && t.up.wire == [] && t.cfg == s.cfg && t.client == s.client
      && s.client.phase !in {Fresh, Sending} && WellFramed(Content(t.down))
  {
    hide CotpCr, CotpCc, SetupFrame, SetupResp, Turn, WellFramed, PlcStep, Content, Answers, NextFrame, ReplyTo;
    hide Effect, ChunkLen;
    Serve(mem, s);
    NoBytes(PlcStep(mem, s).1.up);
    var p := Plc(s.plc, s.cfg.announced, mem, map[], []);
    if s.client.phase == WaitCc {
      CrTurn(p, s.cfg.lsap, s.cfg.rsap);
    } else if s.client.phase == WaitSetup {
      SetupTurn(p);
    } else if s.client.phase == Waiting {
      var c, op := s.client, s.cfg.ops[|s.client.results|];
      var cs := ChunkLen(c.pdu, op, c.off);
      RequestExact(mem, s.cfg.announced, s.cfg.refn, Pdu(s.cfg), op, c.off);
      ChunkBound(c.pdu, op, c.off);
      ReplyAnswers(mem, s.cfg.refn, op, c.off, cs);
      AnswerIsFrame(ReplyTo(mem, s.cfg.refn, op, c.off, cs), s.cfg.refn, op, cs);
    }
  }

  lemma {:induction false} NoBytes(c: Chan)
    ensures Content(c) == [] <==> c.wire == [] && c.buf == []
  {
  }

  lemma {:induction false} WireInside(c: Chan)
    ensures |c.wire| <= |Content(c)|
  {
  }

  lemma {:induction false} FrameShort(f: Frame)
    requires WellFramed(f)
    ensures |f| < 65536
  {
  }

  lemma {:induction false} PlcSpends(mem: Memory, s: Session)
    requires InStep(s) && PlcStep(mem, s) != (mem, s)
    ensures InStep(PlcStep(mem, s).1) && Budget(PlcStep(mem, s).1) < Budget(s)
  {
    hide InStep, PlcStep, Content, WellFramed;
    var t := PlcStep(mem, s).1;
    InStepKept(mem, s, PlcAct);
    PlcReplies(mem, s);
    FrameShort(Content(t.down));
    WireInside(t.down);
    assert Steps(t) < Steps(s) by {
      hide OpsBudget;
    }
    StepPaysForFrame(s, t);
    SpendsStrictly(s, t);
  }

  lemma {:induction false} SpendsStrictly(s: Session, t: Session)
    requires Spends(s, t) && Steps(t) < Steps(s)
    ensures Budget(t) < Budget(s)
  {
  }

  /** Every step of a session changes nothing, or spends budget. */
  lemma {:induction false} StepSpends(mem: Memory, s: Session, a: Act)
    requires InStep(s)
    ensures var (mem', t) := SessionStep(mem, s, a);
      InStep(t) && ((mem', t) == (mem, s) || Budget(t) < Budget(s))
  {
    hide InStep, PlcStep, ClientStep, Deliver, Steps;
    InStepKept(mem, s, a);
    match a
    case ClientAct => ClientSpends(s);
    case PlcAct =>
      if PlcStep(mem, s) != (mem, s) {
        PlcSpends(mem, s);
      }
    case DeliverUp(_) => DeliverySpends(mem, s, a);
    case DeliverDown(_) => DeliverySpends(mem, s, a);
  }

  // ----- Something is always enabled -----

  /** A fair choice: deliver what is in flight, then let the side that has a message act. */
  function NextAct(s: Session): Act {
    if s.up.wire != [] then DeliverUp(|s.up.wire|)
    else if s.down.wire != [] then DeliverDown(|s.down.wire|)
    else if s.up.buf != [] then PlcAct
    else ClientAct
  }

  /** Whatever is in flight is one whole frame, and its receiver is waiting for it. */
  lemma {:induction false} InFlightIsFrame(s: Session)
    requires InStep(s)
    ensures Content(s.up) != [] ==> WellFramed(Content(s.up))
    ensures Content(s.down) != [] ==> WellFramed(Content(s.down)) && Listening(s.client)
    ensures Listening(s.client) ==> Content(s.up) != [] || Content(s.down) != []
  {
    hide CotpCr, CotpCc, SetupFrame, SetupResp, Turn, WellFramed, Content, Answers, NextFrame, ReplyTo, Effect;
    hide ChunkLen;
    if s.client.phase == WaitCc {
      CrTurn(Plc(AwaitCotp, s.cfg.announced, map[], map[], []), s.cfg.lsap, s.cfg.rsap);
      CcNotEmpty();
    } else if s.client.phase == WaitSetup {
      SetupTurn(Plc(AwaitSetup, s.cfg.announced, map[], map[], []));
      SetupRespNotEmpty(s.cfg.announced);
    } else if s.client.phase == Waiting {
      var c, op := s.client, s.cfg.ops[|s.client.results|];
      var cs := ChunkLen(c.pdu, op, c.off);
      RequestExact(map[], s.cfg.announced, s.cfg.refn, Pdu(s.cfg), op, c.off);
      ChunkBound(c.pdu, op, c.off);
      if Answers(Content(s.down), s.cfg.refn, op, cs) {
        AnswerIsFrame(Content(s.down), s.cfg.refn, op, cs);
      }
      RequestIsFrame(s);
    }
  }

  lemma {:induction false} CcNotEmpty()
    ensures CotpCc() != []
  {
  }

  lemma {:induction false} SetupRespNotEmpty(announced: nat)
    ensures SetupResp(0, announced) != []
  {
  }

  /** A reader with a whole frame in its buffer takes it. */
  lemma {:induction false} ReaderMoves(mem: Memory, s: Session)
    ensures s.up.wire == [] && WellFramed(Content(s.up)) ==> PlcStep(mem, s).1 != s
    ensures s.down.wire == [] && WellFramed(Content(s.down)) && Listening(s.client) ==> ClientStep(s) != s
  {
    if s.up.wire == [] && WellFramed(Content(s.up)) {
      TakeArrived(s.up, Content(s.up));
    }
    if s.down.wire == [] && WellFramed(Content(s.down)) {
      TakeArrived(s.down, Content(s.down));
    }
    hide Take, Turn, Receiving, Emit;
  }

  lemma {:induction false} NotStuck(mem: Memory, s: Session)
    requires InStep(s) && !Done(s)
    ensures SessionStep(mem, s, NextAct(s)).1 != s
  {
    hide InStep, PlcStep, Deliver, Content, WellFramed, Take, Receiving, NextFrame;
    InFlightIsFrame(s);
    ReaderMoves(mem, s);
    DeliverShrinks(s.up, |s.up.wire|);
    DeliverShrinks(s.down, |s.down.wire|);
    NoBytes(s.up);
    if NextAct(s) == ClientAct && !Listening(s.client) {
      IdleClientMoves(s);
    }
  }

  lemma {:induction false} IdleClientMoves(s: Session)
    requires InStep(s) && !Done(s) && !Listening(s.client)
    ensures ClientStep(s) != s
  {
    hide NextFrame, Content, Exchanging, Emit, Finish, ValidConfig;
  }

  // ----- Whole runs -----

  ghost predicate Steady(ss: seq<Session>) {
    forall i | 0 <= i < |ss| :: InStep(ss[i])
  }

  ghost function Total(ss: seq<Session>): nat
    requires Steady(ss)
  {
    if ss == [] then 0 else Total(ss[..|ss| - 1]) + Budget(ss[|ss| - 1])
  }

  lemma {:induction false} TotalUpdate(ss: seq<Session>, i: nat, t: Session)
    requires Steady(ss) && i < |ss| && InStep(t) && Budget(t) < Budget(ss[i])
    ensures Steady(ss[i := t]) && Total(ss[i := t]) < Total(ss)
    decreases |ss|
  {
    hide InStep, Budget;
    var n := |ss| - 1;
    if i < n {
      TotalUpdate(ss[..n], i, t);
      assert ss[i := t][..n] == ss[..n][i := t];
    } else {
      assert ss[i := t][..n] == ss[..n];
    }
  }

  lemma {:induction false} SystemSpends(sys: System, i: nat, a: Act)
    requires Steady(sys.sessions)
    ensures Steady(Step(sys, i, a).sessions)
    ensures Step(sys, i, a) == sys || Total(Step(sys, i, a).sessions) < Total(sys.sessions)
  {
    hide InStep, Budget, SessionStep, Total;
    if i < |sys.sessions| {
      StepSpends(sys.mem, sys.sessions[i], a);
      var (m, t) := SessionStep(sys.mem, sys.sessions[i], a);
      if (m, t) == (sys.mem, sys.sessions[i]) {
        assert sys.sessions[i := t] == sys.sessions;
      } else {
        TotalUpdate(sys.sessions, i, t);
      }
    }
  }

  /** How many actions of a schedule changed anything. */
  function Changes(sys: System, schedule: seq<(nat, Act)>): nat {
    if schedule == [] then 0
    else
      var n := |schedule| - 1;
      Changes(sys, schedule[..n]) + if Run(sys, schedule) == Run(sys, schedule[..n]) then 0 else 1
  }

  /** A bound that depends on the programs alone. */
  function RunBound(cfgs: seq<Config>): nat {
    if cfgs == [] then 0 else RunBound(cfgs[..|cfgs| - 1]) + 65536 * (6 + OpsBudget(cfgs[|cfgs| - 1], 0))
  }

  lemma {:induction false} StartBudget(c: Config)
    requires ValidConfig(c)
    ensures InStep(Start(c)) && Budget(Start(c)) == 65536 * (6 + OpsBudget(c, 0))
  {
    StartInStep(c);
    hide OpsBudget, ValidConfig, InStep;
  }

  lemma {:induction false} InitTotal(mem: Memory, cfgs: seq<Config>)
    requires forall i | 0 <= i < |cfgs| :: ValidConfig(cfgs[i])
    ensures Steady(Init(mem, cfgs).sessions) && Total(Init(mem, cfgs).sessions) == RunBound(cfgs)
  {
    hide InStep, Budget, ValidConfig, Start, OpsBudget;
    if cfgs != [] {
      var n := |cfgs| - 1;
      InitTotal(mem, cfgs[..n]);
      StartBudget(cfgs[n]);
      assert Init(mem, cfgs).sessions[..n] == Init(mem, cfgs[..n]).sessions;
    }
  }

  lemma {:induction false} RunSpends(mem: Memory, cfgs: seq<Config>, schedule: seq<(nat, Act)>)
    requires forall i | 0 <= i < |cfgs| :: ValidConfig(cfgs[i])
    ensures var sys := Run(Init(mem, cfgs), schedule);
      Steady(sys.sessions) && Changes(Init(mem, cfgs), schedule) + Total(sys.sessions) <= RunBound(cfgs)
  {
    hide Steady, Total, ValidConfig, Step, RunBound, Init;
    if schedule == [] {
      InitTotal(mem, cfgs);
    } else {
      var n := |schedule| - 1;
      RunSpends(mem, cfgs, schedule[..n]);
      SystemSpends(Run(Init(mem, cfgs), schedule[..n]), schedule[n].0, schedule[n].1);
    }
  }

  /** No schedule, however unfair or long, makes more changes than the programs' budget. */
  lemma {:induction false} EveryRunIsBounded(mem: Memory, cfgs: seq<Config>, schedule: seq<(nat, Act)>)
    requires forall i | 0 <= i < |cfgs| :: ValidConfig(cfgs[i])
    ensures Changes(Init(mem, cfgs), schedule) <= RunBound(cfgs)
  {
    RunSpends(mem, cfgs, schedule);
  }

  predicate AllDone(sys: System) {
    forall i | 0 <= i < |sys.sessions| :: Done(sys.sessions[i])
  }

  /** An unfinished system has an enabled action. */
  lemma {:induction false} Enabled(sys: System) returns (i: nat, a: Act)
    requires Steady(sys.sessions) && !AllDone(sys)
    ensures Step(sys, i, a) != sys
  {
    hide InStep, Done, NextAct, SessionStep;
    i :| i < |sys.sessions| && !Done(sys.sessions[i]);
    a := NextAct(sys.sessions[i]);
    NotStuck(sys.mem, sys.sessions[i]);
    assert Step(sys, i, a).sessions[i] != sys.sessions[i];
  }

  /** No reachable state is a deadlock. */
  lemma {:induction false} NoDeadlock(mem: Memory, cfgs: seq<Config>, schedule: seq<(nat, Act)>)
    requires forall i | 0 <= i < |cfgs| :: ValidConfig(cfgs[i])
    ensures var sys := Run(Init(mem, cfgs), schedule); AllDone(sys) || exists i: nat, a :: Step(sys, i, a) != sys
  {
    hide Steady, AllDone, Step, Run, Init, ValidConfig;
    RunSpends(mem, cfgs, schedule);
    var sys := Run(Init(mem, cfgs), schedule);
    if !AllDone(sys) {
      var i, a := Enabled(sys);
    }
  }

  /** From every reachable state the programs can be run to their end. */
  lemma {:induction false} EveryRunCanFinish(mem: Memory, cfgs: seq<Config>, schedule: seq<(nat, Act)>)
    requires forall i | 0 <= i < |cfgs| :: ValidConfig(cfgs[i])
    ensures exists rest :: AllDone(Run(Init(mem, cfgs), schedule + rest))
    decreases RunBound(cfgs) - Changes(Init(mem, cfgs), schedule)
  {
    hide Steady, Total, AllDone, Step, Run, Init, ValidConfig, Changes, RunBound;
    RunSpends(mem, cfgs, schedule);
    var sys := Run(Init(mem, cfgs), schedule);
    if AllDone(sys) {
      assert schedule + [] == schedule;
    } else {
      var i, a := Enabled(sys);
      var longer := schedule + [(i, a)];
      ChangesStep(Init(mem, cfgs), schedule, i, a);
      RunSpends(mem, cfgs, longer);
      EveryRunCanFinish(mem, cfgs, longer);
      var rest :| AllDone(Run(Init(mem, cfgs), longer + rest));
      assert longer + rest == schedule + ([(i, a)] + rest);
    }
  }

  lemma {:induction false} ChangesStep(sys: System, schedule: seq<(nat, Act)>, i: nat, a: Act)
    ensures var longer := schedule + [(i, a)];
      Run(sys, longer) == Step(Run(sys, schedule), i, a)
      && (Run(sys, longer) != Run(sys, schedule) ==> Changes(sys, longer) == Changes(sys, schedule) + 1)
  {
    hide Step;
    assert (schedule + [(i, a)])[..|schedule|] == schedule;
  }
}
