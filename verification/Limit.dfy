/**
 * How far the safety of module Interleaving reaches: a reply longer than a TPKT header can state
 * breaks the session of the client that asked for it.
 */
module Limit {
  import opened Bytes
  import opened Items
  import opened Telegrams
  import opened Simulator
  import opened Exchange
  import opened Tpkt
  import opened Peer
  import opened Sessions
  import opened Interleaving

  ghost predicate Reaches(init: System, sys: System) {
    exists schedule :: Run(init, schedule) == sys
  }

  lemma {:induction false} ReachesSelf(init: System)
    ensures Reaches(init, init)
  {
    assert Run(init, []) == init;
  }

  lemma {:induction false} Onward(init: System, m: Memory, s: Session, a: Act)
    requires Reaches(init, System(m, [s]))
    ensures var (m', t) := SessionStep(m, s, a); Reaches(init, System(m', [t]))
  {
    hide SessionStep;
    var schedule :| Run(init, schedule) == System(m, [s]);
    var (m', t) := SessionStep(m, s, a);
    assert (schedule + [(0, a)])[..|schedule|] == schedule;
    assert [s][0 := t] == [t];
    assert Run(init, schedule + [(0, a)]) == System(m', [t]);
  }

  const IDLE := Chan([], [])

  /** A request on the wire is delivered, answered, and the answer delivered. */
  lemma {:induction false} Exchanged(init: System, m: Memory, s: Session, req: Frame, q: Plc, reply: Frame)
    requires Reaches(init, System(m, [s])) && s.up == Chan(req, []) && s.down == IDLE && WellFramed(req)
    requires Turn(Plc(s.plc, s.cfg.announced, m, map[], []), req) == (q, Some(reply))
    ensures Reaches(init, System(q.mem, [s.(plc := q.phase, up := IDLE, down := Chan([], reply))]))
  {
    hide Turn, WellFramed, Take, Reaches;
    WholeFrame(req);
    Onward(init, m, s, DeliverUp(|req|));
    var s1 := s.(up := Chan([], req));
    assert Deliver(s.up, |req|) == Chan([], req) by {
      assert req[|req|..] == [] && [] + req[..|req|] == req;
    }
    Onward(init, m, s1, PlcAct);
    var s2 := s.(plc := q.phase, up := IDLE, down := Chan(reply, []));
    assert [] + reply == reply;
    assert PlcStep(m, s1) == (q.mem, s2);
    Onward(init, q.mem, s2, DeliverDown(|reply|));
    assert Deliver(s2.down, |reply|) == Chan([], reply) by {
      assert reply[|reply|..] == [] && [] + reply[..|reply|] == reply;
    }
  }

  lemma {:induction false} EmitIdle(bytes: seq<Byte>)
    ensures Emit(IDLE, bytes) == Chan(bytes, [])
  {
    assert [] + bytes == bytes;
  }

  function Connected(c: Config): Session {
    Session(c, ClientState(Sending, Pdu(c), 0, [], []), Ready, IDLE, IDLE)
  }

  lemma {:induction false} ConnectionReached(mem: Memory, c: Config)
    requires 18 + |c.lsap| + |c.rsap| < 65536
    ensures Reaches(Init(mem, [c]), System(mem, [Connected(c)]))
  {
    hide CotpCr, CotpCc, SetupFrame, SetupResp, Turn, WellFramed, ParseSetupResp, ParseCotpCc, Take, Reaches;
    var init, cr := Init(mem, [c]), CotpCr(c.lsap, c.rsap);
    var p := Plc(AwaitCotp, c.announced, mem, map[], []);
    CrTurn(p, c.lsap, c.rsap);
    SetupTurn(p.(phase := AwaitSetup));
    WholeFrame(CotpCc());
    WholeFrame(SetupResp(0, c.announced));
    ReachesSelf(init);
    assert init == System(mem, [Start(c)]);
    Onward(init, mem, Start(c), ClientAct);
    EmitIdle(cr);
    EmitIdle(SetupFrame());
    EmitIdle([]);
    var s1 := Session(c, ClientState(WaitCc, 480, 0, [], []), AwaitCotp, Chan(cr, []), IDLE);
    Exchanged(init, mem, s1, cr, p.(phase := AwaitSetup), CotpCc());
    var s2 := s1.(plc := AwaitSetup, up := IDLE, down := Chan([], CotpCc()));
    Onward(init, mem, s2, ClientAct);
    var s3 := Session(c, ClientState(WaitSetup, 480, 0, [], []), AwaitSetup, Chan(SetupFrame(), []), IDLE);
    Exchanged(init, mem, s3, SetupFrame(), p.(phase := Ready), SetupResp(0, c.announced));
    var s4 := s3.(plc := Ready, up := IDLE, down := Chan([], SetupResp(0, c.announced)));
    Onward(init, mem, s4, ClientAct);
    assert ClientStep(s4) == Connected(c);
  }

  /** A slice too long for a frame makes the client give up the connection. */
  lemma {:induction false} LongReplyBreaks(mem: Memory, c: Config)
    requires 18 + |c.lsap| + |c.rsap| < 65536 && c.ops != [] && c.ops[0].ReadOp? && 0 < c.ops[0].size
    requires var op := c.ops[0];
      |Load(mem, op.area, op.start % 0x20_0000, ChunkLen(Pdu(c), op, 0))| >= 65511
    ensures exists sys :: Reaches(Init(mem, [c]), sys) && |sys.sessions| == 1 && sys.sessions[0].client.phase.Broken?
  {
    hide Turn, WellFramed, Reaches, NextFrame, ReplyTo, Effect, ChunkLen, ReadResp;
    var init, op, s := Init(mem, [c]), c.ops[0], Connected(c);
    var cs := ChunkLen(Pdu(c), op, 0);
    ConnectionReached(mem, c);
    RequestExact(mem, c.announced, c.refn, Pdu(c), op, 0);
    var req := NextFrame(c.refn, Pdu(c), op, 0).value;
    Onward(init, mem, s, ClientAct);
    EmitIdle(req);
    var s1 := s.(client := s.client.(phase := Waiting), up := Chan(req, []));
    assert ClientStep(s) == s1;
    var (q, out) := Turn(Plc(Ready, c.announced, mem, map[], []), req);
    Exchanged(init, mem, s1, req, q, out.value);
    var s2 := s1.(plc := q.phase, up := IDLE, down := Chan([], out.value));
    Onward(init, q.mem, s2, ClientAct);
    LongReplyIsBad(mem, c.refn, Pdu(c), op);
    assert ClientStep(s2).client.phase.Broken?;
    var end := System(q.mem, [ClientStep(s2)]);
    assert Reaches(init, end) && end.sessions[0] == ClientStep(s2);
  }

  lemma {:induction false} LongReplyIsBad(mem: Memory, refn: int, pdu: nat, op: Op)
    requires op.ReadOp? && pdu < 65536 && |Load(mem, op.area, op.start % 0x20_0000, ChunkLen(pdu, op, 0))| >= 65511
    ensures Take(ReplyTo(mem, refn, op, 0, ChunkLen(pdu, op, 0))).Bad?
  {
    hide ReadResp, Load, Take;
    ReadRespFraming(Load(mem, op.area, op.start % 0x20_0000, ChunkLen(pdu, op, 0)), refn % 65536);
  }

  /** The one client has not given up its connection. */
  predicate Alive(sys: System) {
    |sys.sessions| == 1 && !sys.sessions[0].client.phase.Broken?
  }

  /** A memory in which no slice of `len` bytes at `at` is cut short. */
  function Roomy(area: Area, at: nat, len: nat): Memory {
    if IsDb(area) then map[DbNum(area) := Zeros(at + len)] else map[]
  }

  /**
   * For a program of one operation the condition of `EveryRunIsSafe` is exact: the client keeps its
   * connection in every run on every memory iff no reply can be too long. The first reply that is, has
   * 65536 bytes, a TPKT length field of 0, and needs an announced size of 65534 or 65535.
   */
  lemma {:induction false} SafeIffReplyFits(c: Config)
    requires 18 + |c.lsap| + |c.rsap| < 65536 && |c.ops| == 1
    ensures (forall mem, schedule :: Alive(Run(Init(mem, [c]), schedule)))
      <==> ReplyFits(Pdu(c), c.ops[0])
  {
    var op := c.ops[0];
    if ReplyFits(Pdu(c), op) {
      forall mem, schedule ensures Alive(Run(Init(mem, [c]), schedule)) {
        EveryRunIsSafe(mem, [c], schedule, 0);
      }
    } else {
      var at, cs := op.start % 0x20_0000, ChunkLen(Pdu(c), op, 0);
      var mem := Roomy(op.area, at, cs);
      LongReplyBreaks(mem, c);
      var sys :| Reaches(Init(mem, [c]), sys) && |sys.sessions| == 1 && sys.sessions[0].client.phase.Broken?;
      var schedule :| Run(Init(mem, [c]), schedule) == sys;
      assert !Alive(Run(Init(mem, [c]), schedule));
    }
  }

  /** At 65534 a read of 65511 flag bytes gets a reply whose length field says 0. */
  lemma {:induction false} LengthFieldWraps(mem: Memory, refn: int)
    ensures var op := ReadOp(Flags, 0, 65511);
      var f := ReplyTo(mem, refn, op, 0, ChunkLen(65534, op, 0));
      |f| == 65536 && U16(f[2], f[3]) == 0 && Take(f) == Bad(InvalidPdu("Invalid TPKT length"))
  {
    hide Zeros;
  }
}
