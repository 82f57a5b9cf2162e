/**
 * Atomicity of the concurrent system: when no client writes what another one uses, every schedule
 * gives every client the results it would get alone, and leaves the memory that running the whole
 * programs one after another, in any order, would leave.
 */
module Serializability {
  import opened Bytes
  import opened Items
  import opened Telegrams
  import opened Simulator
  import opened Exchange
  import opened Tpkt
  import opened Peer
  import opened Transfer
  import opened Sessions
  import opened Interleaving

  // ----- Cells -----

  predicate Touches(op: Op, d: nat, o: nat) {
    IsDb(op.area) && DbNum(op.area) == d && op.start <= o < op.start + OpLen(op)
  }

  /** Some operation of the program reads or writes byte `o` of data block `d`. */
  predicate Uses(c: Config, d: nat, o: nat) {
    exists k | 0 <= k < |c.ops| :: Touches(c.ops[k], d, o)
  }

  predicate Writes(c: Config, d: nat, o: nat) {
    exists k | 0 <= k < |c.ops| :: c.ops[k].WriteOp? && Touches(c.ops[k], d, o)
  }

  /** Neither program writes what the other one uses. */
  ghost predicate Compatible(a: Config, b: Config) {
    forall d: nat, o: nat :: !(Writes(a, d, o) && Uses(b, d, o)) && !(Writes(b, d, o) && Uses(a, d, o))
  }

  ghost predicate SameShape(m: Memory, n: Memory) {
    forall d: nat :: |Db(m, d)| == |Db(n, d)|
  }

  /** Two memories that a program cannot tell apart. */
  ghost predicate Agree(m: Memory, n: Memory, c: Config) {
    SameShape(m, n) && forall d: nat, o: nat | o < |Db(m, d)| && Uses(c, d, o) :: Db(m, d)[o] == Db(n, d)[o]
  }

  /** A change that a program is entitled to make. */
  ghost predicate Change(m: Memory, n: Memory, c: Config) {
    SameShape(m, n) && forall d: nat, o: nat | o < |Db(m, d)| && !Writes(c, d, o) :: Db(m, d)[o] == Db(n, d)[o]
  }

  lemma {:induction false} StoreAgrees(m: Memory, n: Memory, c: Config, area: Area, at: nat, data: seq<Byte>)
    requires Agree(m, n, c)
    ensures Agree(Store(m, area, at, data), Store(n, area, at, data), c)
  {
    hide Uses;
    StoreShape(m, area, at, data);
    StoreShape(n, area, at, data);
    forall d: nat, o: nat | o < |Db(Store(m, area, at, data), d)| && Uses(c, d, o)
      ensures Db(Store(m, area, at, data), d)[o] == Db(Store(n, area, at, data), d)[o]
    {
      assert Db(m, d)[o] == Db(n, d)[o];
    }
  }

  lemma {:induction false} StoreShape(m: Memory, area: Area, at: nat, data: seq<Byte>)
    ensures SameShape(m, Store(m, area, at, data))
  {
  }

  lemma {:induction false} StoreChanges(m: Memory, c: Config, area: Area, at: nat, data: seq<Byte>)
    requires IsDb(area) ==> forall o | at <= o < at + |data| :: Writes(c, DbNum(area), o)
    ensures Change(m, Store(m, area, at, data), c)
  {
    hide Writes;
  }

  lemma {:induction false} LoadAgrees(m: Memory, n: Memory, c: Config, area: Area, at: nat, len: nat)
    requires Agree(m, n, c)
    requires IsDb(area) ==> forall o | at <= o < at + len :: Uses(c, DbNum(area), o)
    ensures Load(m, area, at, len) == Load(n, area, at, len)
  {
    hide Uses;
    if IsDb(area) {
      var a, b := Load(m, area, at, len), Load(n, area, at, len);
      forall i | 0 <= i < |a| ensures a[i] == b[i] {
        assert Uses(c, DbNum(area), at + i);
      }
    }
  }

  lemma {:induction false} TouchAgrees(m: Memory, n: Memory, c: Config, area: Area)
    requires Agree(m, n, c)
    ensures Agree(Touch(m, area), n, c) && Change(m, Touch(m, area), c)
  {
    TouchKeeps(m, area);
    hide Touch, Uses, Writes;
  }

  lemma {:induction false} OpCells(c: Config, k: nat, o: nat)
    requires k < |c.ops| && c.ops[k].start <= o < c.ops[k].start + OpLen(c.ops[k]) && IsDb(c.ops[k].area)
    ensures Uses(c, DbNum(c.ops[k].area), o)
    ensures c.ops[k].WriteOp? ==> Writes(c, DbNum(c.ops[k].area), o)
  {
    assert Touches(c.ops[k], DbNum(c.ops[k].area), o);
  }

  // ----- One client alone -----

  /** Every operation lies inside the address range. */
  predicate InRange(c: Config) {
    forall i | 0 <= i < |c.ops| :: 0 <= c.ops[i].start && c.ops[i].start + OpLen(c.ops[i]) <= 0x20_0000
  }

  /** The read loop on unchanging memory from offset `off`, with `got` already collected. */
  function ReadRest(mem: Memory, refn: int, pdu: int, op: Op, off: nat, got: seq<Byte>): Result<seq<Byte>>
    requires op.ReadOp? && off <= op.size
    decreases op.size - off
  {
    if off == op.size then ReadResult(got)
    else
      var cs := ChunkLen(pdu, op, off);
      match Accept(op, got, ReplyTo(mem, refn, op, off, cs))
      case Err(e) => Err(e)
      case Ok(all) => ReadRest(mem, refn, pdu, op, off + cs, all)
  }

  /** An operation as one atomic step on memory. */
  function OpMem(mem: Memory, op: Op, pdu: int): Memory
    requires 0 <= op.start
  {
    match op
    case WriteOp(area, start, data) => if WriteFits(pdu, op) then StoreFirst(mem, area, start, data, |data|) else mem
    case ReadOp(_, _, _) => mem
  }

  function OpResult(mem: Memory, refn: int, pdu: int, op: Op): Result<seq<Byte>> {
    if op.ReadOp? then ReadRest(mem, refn, pdu, op, 0, [])
    else if WriteFits(pdu, op) then Ok([])
    else Err(InvalidPdu("PDU too big"))
  }

  /** Memory after the first `n` operations of a program run alone, each in one step. */
  function SoloMem(mem: Memory, c: Config, n: nat): Memory
    requires n <= |c.ops| && InRange(c)
  {
    if n == 0 then mem else OpMem(SoloMem(mem, c, n - 1), c.ops[n - 1], Pdu(c))
  }

  function SoloResult(mem: Memory, c: Config, n: nat): Result<seq<Byte>>
    requires n < |c.ops| && InRange(c)
  {
    OpResult(SoloMem(mem, c, n), c.refn, Pdu(c), c.ops[n])
  }

  // ----- What a client knows -----

  /** Results, loop and reply are those of the program run alone on `mem0`. */
  predicate Story(mem0: Memory, s: Session)
    requires Cursor(s.cfg, s.client)
  {
    var c := s.client;
    && InRange(s.cfg)
    && (forall i | 0 <= i < |c.results| :: c.results[i] == SoloResult(mem0, s.cfg, i))
    && (|c.results| < |s.cfg.ops| ==>
          var op, m := s.cfg.ops[|c.results|], SoloMem(mem0, s.cfg, |c.results|);
          && (op.ReadOp? ==>
                ReadRest(m, s.cfg.refn, Pdu(s.cfg), op, c.off, c.got) == OpResult(m, s.cfg.refn, Pdu(s.cfg), op))
          && (c.phase.Waiting? ==>
                Content(s.down) in {[], ReplyTo(m, s.cfg.refn, op, c.off, ChunkLen(c.pdu, op, c.off))}))
  }

  ghost predicate Orderly(mem0: Memory, s: Session) {
    InStep(s) && Story(mem0, s)
  }

  /** Memory as the program alone would have left it, with `n` bytes of operation `k` applied. */
  function Partial(mem0: Memory, cfg: Config, k: nat, n: nat): Memory
    requires k <= |cfg.ops| && (k < |cfg.ops| ==> n <= OpLen(cfg.ops[k])) && InRange(cfg)
  {
    var m := SoloMem(mem0, cfg, k);
    if k < |cfg.ops| && cfg.ops[k].WriteOp?
    then StoreFirst(m, cfg.ops[k].area, cfg.ops[k].start, cfg.ops[k].data, n)
    else m
  }

  function OwnMem(mem0: Memory, s: Session): Memory
    requires Cursor(s.cfg, s.client) && InRange(s.cfg)
  {
    Partial(mem0, s.cfg, |s.client.results|, Applied(s))
  }

  // ----- One session -----

  /** Neither what the client knows nor the memory it believes in depends on the step taken. */
  predicate StoryKept(mem0: Memory, s: Session, t: Session)
    requires Cursor(s.cfg, s.client) && InRange(s.cfg)
  {
    t.cfg == s.cfg && Cursor(t.cfg, t.client) && Story(mem0, t) && OwnMem(mem0, t) == OwnMem(mem0, s)
  }

  lemma {:induction false} HandshakeStory(mem0: Memory, s: Session)
    requires Orderly(mem0, s) && s.client.phase in {Fresh, WaitCc, WaitSetup}
    ensures StoryKept(mem0, s, ClientStep(s))
  {
    hide ClientStep, SoloMem, SoloResult, ReadRest, StoreFirst, ReplyTo, Content, Exchanging, ValidConfig;
    if s.client.phase == Fresh {
      FreshStep(s);
    } else if s.client.phase == WaitCc {
      CcStep(s);
    } else {
      SetupStep(s);
    }
  }

  /** Recording the right result moves the program on by one whole operation. */
  lemma {:induction false} RecordStory(mem0: Memory, s: Session, r: Result<seq<Byte>>)
    requires Orderly(mem0, s) && s.client.phase == Sending && |s.client.results| < |s.cfg.ops|
    requires r == SoloResult(mem0, s.cfg, |s.client.results|)
    requires OwnMem(mem0, s) == SoloMem(mem0, s.cfg, |s.client.results| + 1)
    ensures StoryKept(mem0, s, s.(client := Record(s.client, r)))
  {
    hide Content, Store, SoloMem, SoloResult, Exchanging, ValidConfig, WriteFits, ReadRest, ReplyTo;
  }

  /** A write too big for any frame fails before anything is sent, as the whole operation does. */
  lemma {:induction false} SendStory(mem0: Memory, s: Session)
    requires Orderly(mem0, s) && s.client.phase == Sending && |s.client.results| < |s.cfg.ops|
    requires s.client.off < OpLen(s.cfg.ops[|s.client.results|])
    ensures StoryKept(mem0, s, ClientStep(s))
  {
    hide NextFrame, Answered, ReplyTo, Emit, Content, ReadRest, Store, ChunkLen, Exchanging;
    var c, op := s.client, s.cfg.ops[|s.client.results|];
    RequestExact(map[], s.cfg.announced, s.cfg.refn, Pdu(s.cfg), op, c.off);
    if NextFrame(s.cfg.refn, c.pdu, op, c.off).Err? {
      RecordStory(mem0, s, Err(InvalidPdu("PDU too big")));
    }
  }

  /** The end of a loop: the recorded result is that of the whole operation done at once. */
  lemma {:induction false} FinishStory(mem0: Memory, s: Session)
    requires Orderly(mem0, s) && s.client.phase == Sending && |s.client.results| < |s.cfg.ops|
    requires s.client.off >= OpLen(s.cfg.ops[|s.client.results|])
    ensures StoryKept(mem0, s, ClientStep(s))
  {
    hide Content, Load, Store, ReadResult, ReplyTo, Exchanging, ChunkLen;
    var c, op := s.client, s.cfg.ops[|s.client.results|];
    RecordStory(mem0, s, Finish(op, c.got));
  }

  /** A reply completes one chunk, or ends the read with the error that the whole operation reports. */
  lemma {:induction false} ReplyStory(mem0: Memory, s: Session)
    requires Orderly(mem0, s) && s.client.phase == Waiting
    ensures StoryKept(mem0, s, ClientStep(s))
  {
    hide ClientStep, ReplyTo, NextFrame, WellFramed, Accept, SoloMem, Content, StoreFirst, ChunkLen, Answers;
    hide Answered, ReadResult;
    ReplyStep(s);
    var c, op := s.client, s.cfg.ops[|s.client.results|];
    var m, cs := SoloMem(mem0, s.cfg, |c.results|), ChunkLen(c.pdu, op, c.off);
    ChunkInside(c.pdu, op, c.off);
    RequestExact(m, s.cfg.announced, s.cfg.refn, Pdu(s.cfg), op, c.off);
    ChunkBound(c.pdu, op, c.off);
    if ClientStep(s) != s {
      AnswerIsFrame(Content(s.down), s.cfg.refn, op, cs);
      if op.WriteOp? {
        AckAccepted(m, s.cfg.refn, op, c.off, cs, c.got);
      } else {
        ReadStory(mem0, s);
      }
    } else {
      Unchanged(mem0, s);
    }
  }

  lemma {:induction false} AckAccepted(mem: Memory, refn: int, op: Op, off: nat, cs: nat, got: seq<Byte>)
    requires op.WriteOp?
    ensures Accept(op, got, ReplyTo(mem, refn, op, off, cs)) == Ok(got)
  {
    hide WriteResp, CheckWriteAck;
    WriteAckExact(refn % 65536, 0xFF);
  }

  lemma {:induction false} ReadStory(mem0: Memory, s: Session)
    requires Orderly(mem0, s) && s.client.phase == Waiting && ClientStep(s) != s
    requires var c, op := s.client, s.cfg.ops[|s.client.results|];
      && op.ReadOp?
      && Content(s.down)
         == ReplyTo(SoloMem(mem0, s.cfg, |c.results|), s.cfg.refn, op, c.off, ChunkLen(c.pdu, op, c.off))
    ensures StoryKept(mem0, s, ClientStep(s))
  {
    hide ClientStep, ReplyTo, NextFrame, Accept, Content, Store, ChunkLen, Answers, ReadResult, ValidConfig;
    ReplyStep(s);
    var c, op := s.client, s.cfg.ops[|s.client.results|];
    ChunkInside(c.pdu, op, c.off);
  }

  lemma {:induction false} ClientStory(mem0: Memory, s: Session)
    requires Orderly(mem0, s)
    ensures StoryKept(mem0, s, ClientStep(s))
  {
    hide StoryKept, Story, Exchanging;
    if s.client.phase in {Fresh, WaitCc, WaitSetup} {
      HandshakeStory(mem0, s);
    } else if s.client.phase == Waiting {
      ReplyStory(mem0, s);
    } else if |s.client.results| < |s.cfg.ops| {
      if s.client.off < OpLen(s.cfg.ops[|s.client.results|]) {
        SendStory(mem0, s);
      } else {
        FinishStory(mem0, s);
      }
    } else {
      Unchanged(mem0, s);
    }
  }

  lemma {:induction false} Unchanged(mem0: Memory, s: Session)
    requires Orderly(mem0, s)
    ensures StoryKept(mem0, s, s)
  {
  }

  // ----- Shared memory -----

  /** What a step of one session does to shared memory and to its own account of it. */
  ghost predicate Kept(mem0: Memory, mem: Memory, s: Session, mem': Memory, t: Session) {
    && t.cfg == s.cfg && Orderly(mem0, t)
    && Agree(mem', OwnMem(mem0, t), s.cfg) && Change(mem, mem', s.cfg)
  }

  /** Serving one chunk does to shared memory what it does to the memory of the client alone. */
  lemma {:induction false} EffectAgrees(mem: Memory, m: Memory, c: Config, k: nat, off: nat, cs: nat)
    requires InRange(c) && k < |c.ops| && 0 < cs && off + cs <= OpLen(c.ops[k])
    requires var op := c.ops[k];
      Agree(mem, if op.WriteOp? then StoreFirst(m, op.area, op.start, op.data, off) else m, c)
    ensures var op := c.ops[k];
      Agree(Effect(mem, op, off, cs), if op.WriteOp? then StoreFirst(m, op.area, op.start, op.data, off + cs) else m, c)
    ensures Change(mem, Effect(mem, c.ops[k], off, cs), c)
    ensures forall refn :: ReplyTo(mem, refn, c.ops[k], off, cs) == ReplyTo(m, refn, c.ops[k], off, cs)
  {
    hide Agree, Change, Store, Load, StoreFirst, Touch, ReadResp, WriteResp, Uses, Writes;
    var op := c.ops[k];
    assert (op.start + off) % 0x20_0000 == op.start + off;
    forall o | IsDb(op.area) && op.start + off <= o < op.start + off + cs
      ensures Uses(c, DbNum(op.area), o) && (op.WriteOp? ==> Writes(c, DbNum(op.area), o))
    {
      OpCells(c, k, o);
    }
    match op
    case WriteOp(area, start, data) =>
      var before := StoreFirst(m, area, start, data, off);
      StoreAgrees(mem, before, c, area, start + off, data[off..off + cs]);
      StoreChanges(mem, c, area, start + off, data[off..off + cs]);
      StoreFirstAppend(m, area, start, data, off, cs);
    case ReadOp(area, start, _) =>
      LoadAgrees(mem, m, c, area, start + off, cs);
      TouchAgrees(mem, m, c, area);
  }

  lemma {:induction false} StoreFirstAppend(m: Memory, area: Area, start: nat, data: seq<Byte>, off: nat, cs: nat)
    requires 0 < cs && off + cs <= |data|
    ensures Store(StoreFirst(m, area, start, data, off), area, start + off, data[off..off + cs])
      == StoreFirst(m, area, start, data, off + cs)
  {
    hide Store;
    if off > 0 {
      StoreJoin(m, area, start, data[..off], data[off..off + cs]);
      assert data[..off] + data[off..off + cs] == data[..off + cs];
    } else {
      assert data[0..cs] == data[..cs];
    }
  }

  lemma {:induction false} NoChange(mem: Memory, c: Config)
    ensures Change(mem, mem, c)
  {
  }

  lemma {:induction false} ExchangeKept(mem0: Memory, mem: Memory, s: Session)
    requires Orderly(mem0, s) && s.client.phase == Waiting && Agree(mem, OwnMem(mem0, s), s.cfg)
    ensures var (mem', t) := PlcStep(mem, s); Kept(mem0, mem, s, mem', t)
  {
    hide PlcStep, NextFrame, ReplyTo, Effect, SoloMem, SoloResult, ReadRest, Content, ChunkLen, StoreFirst, Answers;
    hide Agree, Change, ValidConfig;
    var c, op := s.client, s.cfg.ops[|s.client.results|];
    var m, cs := SoloMem(mem0, s.cfg, |c.results|), ChunkLen(c.pdu, op, c.off);
    NoChange(mem, s.cfg);
    ExchangeTurn(mem, s);
    if Content(s.down) == [] {
      EffectAgrees(mem, m, s.cfg, |c.results|, c.off, cs);
      ReplyAnswers(m, s.cfg.refn, op, c.off, cs);
    }
  }

  lemma {:induction false} ClientKept(mem0: Memory, mem: Memory, s: Session)
    requires Orderly(mem0, s) && Agree(mem, OwnMem(mem0, s), s.cfg)
    ensures Kept(mem0, mem, s, mem, ClientStep(s))
  {
    hide Agree, Change, InStep, ClientStep, Story, OwnMem;
    InStepKept(mem, s, ClientAct);
    ClientStory(mem0, s);
    NoChange(mem, s.cfg);
  }

  /** Delivery moves bytes along a stream; nobody notices. */
  lemma {:induction false} DeliverKept(mem0: Memory, mem: Memory, s: Session, t: Session)
    requires Orderly(mem0, s) && Agree(mem, OwnMem(mem0, s), s.cfg)
    requires t.cfg == s.cfg && t.client == s.client && t.plc == s.plc
    requires Content(t.up) == Content(s.up) && Content(t.down) == Content(s.down)
    ensures Kept(mem0, mem, s, mem, t)
  {
    hide Agree, Change, Content, SoloMem, SoloResult, ReadRest, ReplyTo, StoreFirst, Answers, NextFrame, ChunkLen;
    NoChange(mem, s.cfg);
  }

  lemma {:induction false} PlcKept(mem0: Memory, mem: Memory, s: Session)
    requires Orderly(mem0, s) && Agree(mem, OwnMem(mem0, s), s.cfg)
    ensures var (mem', t) := PlcStep(mem, s); Kept(mem0, mem, s, mem', t)
  {
    hide Agree, Change, PlcStep, SoloMem, SoloResult, ReadRest, ReplyTo, StoreFirst, Content, Exchanging;
    NoChange(mem, s.cfg);
    if s.client.phase == Waiting {
      ExchangeKept(mem0, mem, s);
    } else if s.client.phase == Sending {
      Serve(mem, s);
    } else {
      HandshakeTurn(mem, s);
    }
  }

  lemma {:induction false} StepKept(mem0: Memory, mem: Memory, s: Session, a: Act)
    requires Orderly(mem0, s) && Agree(mem, OwnMem(mem0, s), s.cfg)
    ensures var (mem', t) := SessionStep(mem, s, a); Kept(mem0, mem, s, mem', t)
  {
    hide Agree, Kept, Orderly, OwnMem, PlcStep, ClientStep, Deliver, Content;
    match a
    case ClientAct => ClientKept(mem0, mem, s);
    case PlcAct => PlcKept(mem0, mem, s);
    case DeliverUp(k) =>
      DeliverKeeps(s.up, k);
      DeliverKept(mem0, mem, s, s.(up := Deliver(s.up, k)));
    case DeliverDown(k) =>
      DeliverKeeps(s.down, k);
      DeliverKept(mem0, mem, s, s.(down := Deliver(s.down, k)));
  }

  // ----- The whole system -----

  ghost predicate NoInterference(cfgs: seq<Config>) {
    forall i, j | 0 <= i < |cfgs| && 0 <= j < |cfgs| && i != j :: Compatible(cfgs[i], cfgs[j])
  }

  predicate AllInRange(cfgs: seq<Config>) {
    forall i | 0 <= i < |cfgs| :: InRange(cfgs[i])
  }

  /** Bytes that no program writes are as they were. */
  ghost predicate Untouched(m: Memory, n: Memory, cfgs: seq<Config>) {
    && SameShape(m, n)
    && forall d: nat, o: nat | o < |Db(m, d)| && (forall i | 0 <= i < |cfgs| :: !Writes(cfgs[i], d, o)) ::
         Db(m, d)[o] == Db(n, d)[o]
  }

  ghost predicate Inv(mem0: Memory, cfgs: seq<Config>, sys: System) {
    && |sys.sessions| == |cfgs| && AllInRange(cfgs) && Untouched(mem0, sys.mem, cfgs)
    && forall i | 0 <= i < |cfgs| ::
         && sys.sessions[i].cfg == cfgs[i] && Orderly(mem0, sys.sessions[i])
         && Agree(sys.mem, OwnMem(mem0, sys.sessions[i]), cfgs[i])
  }

  lemma {:induction false} AgreeFrame(m: Memory, n: Memory, own: Memory, a: Config, b: Config)
    requires Agree(m, own, b) && Change(m, n, a) && Compatible(a, b)
    ensures Agree(n, own, b)
  {
    hide Uses, Writes;
    forall d: nat, o: nat | o < |Db(n, d)| && Uses(b, d, o) ensures Db(n, d)[o] == Db(own, d)[o] {
      assert !Writes(a, d, o);
      assert Db(m, d)[o] == Db(own, d)[o];
    }
  }

  lemma {:induction false} UntouchedFrame(mem0: Memory, m: Memory, n: Memory, cfgs: seq<Config>, i: nat)
    requires i < |cfgs| && Untouched(mem0, m, cfgs) && Change(m, n, cfgs[i])
    ensures Untouched(mem0, n, cfgs)
  {
    hide Writes;
    forall d: nat, o: nat | o < |Db(mem0, d)| && (forall k | 0 <= k < |cfgs| :: !Writes(cfgs[k], d, o))
      ensures Db(mem0, d)[o] == Db(n, d)[o]
    {
      assert !Writes(cfgs[i], d, o);
      assert Db(mem0, d)[o] == Db(m, d)[o];
    }
  }

  lemma {:induction false} StartOrderly(mem0: Memory, c: Config)
    requires ValidConfig(c) && InRange(c)
    ensures Orderly(mem0, Start(c)) && Agree(mem0, OwnMem(mem0, Start(c)), c)
  {
    StartInStep(c);
    hide InStep, ReadRest;
  }

  lemma {:induction false} SystemStep(mem0: Memory, cfgs: seq<Config>, sys: System, i: nat, a: Act)
    requires NoInterference(cfgs) && Inv(mem0, cfgs, sys)
    ensures Inv(mem0, cfgs, Step(sys, i, a))
  {
    hide Agree, Change, Story, Exchanging, InFlight, Cursor, OwnMem, Compatible, SessionStep, Untouched;
    hide ValidConfig, Content;
    if i < |cfgs| {
      StepKept(mem0, sys.mem, sys.sessions[i], a);
      var next := Step(sys, i, a);
      UntouchedFrame(mem0, sys.mem, next.mem, cfgs, i);
      forall j | 0 <= j < |cfgs| && j != i ensures Agree(next.mem, OwnMem(mem0, next.sessions[j]), cfgs[j]) {
        AgreeFrame(sys.mem, next.mem, OwnMem(mem0, sys.sessions[j]), cfgs[i], cfgs[j]);
      }
    }
  }

  lemma {:induction false} RunKeeps(mem0: Memory, cfgs: seq<Config>, schedule: seq<(nat, Act)>)
    requires NoInterference(cfgs) && AllInRange(cfgs) && forall i | 0 <= i < |cfgs| :: ValidConfig(cfgs[i])
    ensures Inv(mem0, cfgs, Run(Init(mem0, cfgs), schedule))
  {
    hide Agree, Orderly, OwnMem, NoInterference, ValidConfig, Step;
    if schedule == [] {
      forall i | 0 <= i < |cfgs|
        ensures var s := Init(mem0, cfgs).sessions[i]; Orderly(mem0, s) && Agree(mem0, OwnMem(mem0, s), cfgs[i])
      {
        StartOrderly(mem0, cfgs[i]);
      }
    } else {
      var n := |schedule| - 1;
      RunKeeps(mem0, cfgs, schedule[..n]);
      SystemStep(mem0, cfgs, Run(Init(mem0, cfgs), schedule[..n]), schedule[n].0, schedule[n].1);
    }
  }

  // ----- One program after another -----

  /** Memory after whole programs have run alone, one after another. */
  function Serial(mem: Memory, cfgs: seq<Config>, order: seq<nat>): Memory
    requires AllInRange(cfgs) && forall k | 0 <= k < |order| :: order[k] < |cfgs|
  {
    if order == [] then mem
    else
      var n := |order| - 1;
      var c := cfgs[order[n]];
      SoloMem(Serial(mem, cfgs, order[..n]), c, |c.ops|)
  }

  /** Every index below `n`, once each. */
  predicate IsOrder(order: seq<nat>, n: nat) {
    && (forall k | 0 <= k < |order| :: order[k] < n)
    && (forall i | 0 <= i < n :: i in order)
    && (forall j, k | 0 <= j < k < |order| :: order[j] != order[k])
  }

  lemma {:induction false} ChangeJoin(a: Memory, b: Memory, m: Memory, c: Config)
    requires Change(a, b, c) && Change(b, m, c)
    ensures Change(a, m, c)
  {
    hide Writes;
    forall d: nat, o: nat | o < |Db(a, d)| && !Writes(c, d, o) ensures Db(a, d)[o] == Db(m, d)[o] {
      assert Db(a, d)[o] == Db(b, d)[o];
    }
  }

  /** One operation done at once: as good on an indistinguishable memory, and it writes only its own bytes. */
  lemma {:induction false} OpAgrees(m: Memory, n: Memory, c: Config, k: nat)
    requires InRange(c) && k < |c.ops| && Agree(m, n, c)
    ensures Agree(OpMem(m, c.ops[k], Pdu(c)), OpMem(n, c.ops[k], Pdu(c)), c)
    ensures Change(m, OpMem(m, c.ops[k], Pdu(c)), c)
    ensures OpResult(m, c.refn, Pdu(c), c.ops[k]) == OpResult(n, c.refn, Pdu(c), c.ops[k])
  {
    hide Agree, Change, Store, ReadRest, Uses, Writes, WriteFits;
    var op := c.ops[k];
    forall o | IsDb(op.area) && op.start <= o < op.start + OpLen(op)
      ensures Uses(c, DbNum(op.area), o) && (op.WriteOp? ==> Writes(c, DbNum(op.area), o))
    {
      OpCells(c, k, o);
    }
    NoChange(m, c);
    match op
    case WriteOp(area, start, data) =>
      assert data[..|data|] == data;
      StoreAgrees(m, n, c, area, start, data);
      StoreChanges(m, c, area, start, data);
    case ReadOp(_, _, _) =>
      ReadAgrees(m, n, c, k, 0, []);
  }

  lemma {:induction false} ReadAgrees(m: Memory, n: Memory, c: Config, k: nat, off: nat, got: seq<Byte>)
    requires InRange(c) && k < |c.ops| && Agree(m, n, c) && c.ops[k].ReadOp? && off <= c.ops[k].size
    ensures ReadRest(m, c.refn, Pdu(c), c.ops[k], off, got) == ReadRest(n, c.refn, Pdu(c), c.ops[k], off, got)
    decreases c.ops[k].size - off
  {
    hide Agree, Accept, Uses, Load, ReadResp;
    var op := c.ops[k];
    if off < op.size {
      var cs := ChunkLen(Pdu(c), op, off);
      ChunkInside(Pdu(c), op, off);
      forall o | IsDb(op.area) && op.start + off <= o < op.start + off + cs ensures Uses(c, DbNum(op.area), o) {
        OpCells(c, k, o);
      }
      assert (op.start + off) % 0x20_0000 == op.start + off;
      LoadAgrees(m, n, c, op.area, op.start + off, cs);
      var accepted := Accept(op, got, ReplyTo(m, c.refn, op, off, cs));
      if accepted.Ok? {
        ReadAgrees(m, n, c, k, off + cs, accepted.value);
      }
    }
  }

  lemma {:induction false} SoloAgrees(m: Memory, n: Memory, c: Config, k: nat)
    requires InRange(c) && k <= |c.ops| && Agree(m, n, c)
    ensures Agree(SoloMem(m, c, k), SoloMem(n, c, k), c) && Change(m, SoloMem(m, c, k), c)
    ensures k < |c.ops| ==> SoloResult(m, c, k) == SoloResult(n, c, k)
    decreases k
  {
    hide Agree, Change, OpMem, OpResult;
    NoChange(m, c);
    if k > 0 {
      SoloAgrees(m, n, c, k - 1);
      OpAgrees(SoloMem(m, c, k - 1), SoloMem(n, c, k - 1), c, k - 1);
      ChangeJoin(m, SoloMem(m, c, k - 1), SoloMem(m, c, k), c);
    }
    if k < |c.ops| {
      OpAgrees(SoloMem(m, c, k), SoloMem(n, c, k), c, k);
    }
  }

  lemma {:induction false} AgreeSelf(m: Memory, c: Config)
    ensures Agree(m, m, c)
  {
  }

  /** Running some of the programs whole: those that ran left their own result, the others see no difference. */
  lemma {:induction false} SerialKeeps(mem: Memory, cfgs: seq<Config>, order: seq<nat>)
    requires NoInterference(cfgs) && AllInRange(cfgs)
    requires forall k | 0 <= k < |order| :: order[k] < |cfgs|
    requires forall j, k | 0 <= j < k < |order| :: order[j] != order[k]
    ensures Untouched(mem, Serial(mem, cfgs, order), cfgs)
    ensures forall i | 0 <= i < |cfgs| ::
      Agree(Serial(mem, cfgs, order), if i in order then SoloMem(mem, cfgs[i], |cfgs[i].ops|) else mem, cfgs[i])
  {
    hide Agree, Change, SoloMem, Untouched, Compatible;
    if order == [] {
      forall i | 0 <= i < |cfgs| ensures Agree(mem, mem, cfgs[i]) {
        AgreeSelf(mem, cfgs[i]);
      }
      UntouchedSelf(mem, cfgs);
    } else {
      var n := |order| - 1;
      var before, last := order[..n], order[n];
      var m, c := Serial(mem, cfgs, before), cfgs[last];
      SerialKeeps(mem, cfgs, before);
      SoloAgrees(m, mem, c, |c.ops|);
      var after := Serial(mem, cfgs, order);
      UntouchedFrame(mem, m, after, cfgs, last);
      forall i | 0 <= i < |cfgs|
        ensures Agree(after, if i in order then SoloMem(mem, cfgs[i], |cfgs[i].ops|) else mem, cfgs[i])
      {
        assert i in order <==> i in before || i == last;
        if i != last {
          AgreeFrame(m, after, if i in before then SoloMem(mem, cfgs[i], |cfgs[i].ops|) else mem, c, cfgs[i]);
        }
      }
    }
  }

  lemma {:induction false} UntouchedSelf(mem: Memory, cfgs: seq<Config>)
    ensures Untouched(mem, mem, cfgs)
  {
  }

  /** The read loop of a client alone with the PLC reads as `ReadRest` does on unchanging memory. */
  lemma {:induction false} ReadRestIsRun(p: Plc, refn: int, pdu: nat, op: Op, off: nat, got: seq<Byte>)
    requires p.phase == Ready && p.refusals == map[] && pdu < 65536 && ReplyFits(pdu, op)
    requires op.ReadOp? && off <= op.size
    ensures ReadRun(p, refn, op.area, op.start, op.size, ReadChunkMax(pdu), off, got).1
      == ReadRest(p.mem, refn, pdu, op, off, got)
    decreases op.size - off
  {
    hide CollectRun, Accept, ReplyTo, Touch, ReadResult;
    if off < op.size {
      var cs := ChunkLen(pdu, op, off);
      ChunkInside(pdu, op, off);
      ChunkBound(pdu, op, off);
      CollectIsAccept(p, refn, op, off, cs, got);
      var (q, r) := CollectRun(p, refn, ReadChunkItem(op.area, op.start + off, cs), got);
      if r.Ok? {
        ReadRestIsRun(q, refn, pdu, op, off + cs, r.value);
        RestTouched(p.mem, refn, pdu, op, off + cs, r.value);
      }
    }
  }

  lemma {:induction false} CollectIsAccept(p: Plc, refn: int, op: Op, off: nat, cs: nat, got: seq<Byte>)
    requires p.phase == Ready && p.refusals == map[] && op.ReadOp? && cs <= 65510
    ensures var (q, r) := CollectRun(p, refn, ReadChunkItem(op.area, op.start + off, cs), got);
      && q.phase == Ready && q.refusals == map[] && q.mem == Touch(p.mem, op.area)
      && r == Accept(op, got, ReplyTo(p.mem, refn, op, off, cs))
  {
    hide ReadFrame, Turn, Transact, ReadResp, ParseResponse, Touch, Load, WellFramed, ReadChunkItem;
    ReadChunkTransact(p, refn, op.area, op.start + off, cs);
    var frame := ReadFrame([ReadChunkItem(op.area, op.start + off, cs)], refn).value;
    var part := Load(p.mem, op.area, (op.start + off) % 0x20_0000, cs);
    TransactReply(p, frame, Turn(p, frame).0, ReadResp(part, refn % 65536));
    ReadRespFraming(part, refn % 65536);
  }

  lemma {:induction false} RestTouched(mem: Memory, refn: int, pdu: nat, op: Op, off: nat, got: seq<Byte>)
    requires op.ReadOp? && off <= op.size
    ensures ReadRest(Touch(mem, op.area), refn, pdu, op, off, got) == ReadRest(mem, refn, pdu, op, off, got)
    decreases op.size - off
  {
    hide Accept, Load, Touch, ReadResp;
    if off < op.size {
      var cs := ChunkLen(pdu, op, off);
      ChunkInside(pdu, op, off);
      LoadTouched(mem, op.area, (op.start + off) % 0x20_0000, cs);
      var accepted := Accept(op, got, ReplyTo(mem, refn, op, off, cs));
      if accepted.Ok? {
        RestTouched(mem, refn, pdu, op, off + cs, accepted.value);
      }
    }
  }

  /**
   * One operation done at once is what the chunk loop of a client alone with the PLC achieves, error
   * for error. A read whose replies are all readable gives the flat slice.
   */
  lemma {:induction false} OpIsTransfer(p: Plc, refn: int, pdu: nat, op: Op)
    requires p.phase == Ready && p.refusals == map[] && pdu < 65536 && ReplyFits(pdu, op)
    requires 0 <= op.start && op.start + OpLen(op) <= 0x20_0000
    ensures op.WriteOp? ==>
      var (q, r) := WriteRun(p, refn, op.area, op.start, op.data, WriteChunkMax(pdu), 0);
      && q.mem == OpMem(p.mem, op, pdu)
      && OpResult(p.mem, refn, pdu, op) == (match r case Ok(_) => Ok([]) case Err(e) => Err(e))
    ensures op.ReadOp? ==>
      var (q, r) := ReadRun(p, refn, op.area, op.start, op.size, ReadChunkMax(pdu), 0, []);
      && r == OpResult(p.mem, refn, pdu, op)
      && (forall d: nat :: Db(q.mem, d) == Db(OpMem(p.mem, op, pdu), d))
      && (AllReadable(p.mem, op.area, op.start, op.size, ReadChunkMax(pdu), 0) ==>
            OpResult(p.mem, refn, pdu, op) == ReadResult(Load(p.mem, op.area, op.start, op.size)))
  {
    hide WriteRun, ReadRun, ReadRest, StoreFirst, AllReadable, Load, Touch, PieceCount, AcceptedBefore, ReadResult;
    match op
    case WriteOp(area, start, data) =>
      ChunkedWriteExact(p, refn, area, start, data, pdu);
      ChunkedWriteSucceedsIff(p, refn, area, start, data, pdu);
    case ReadOp(area, start, size) =>
      ReadRestIsRun(p, refn, pdu, op, 0, []);
      AllServed(p, size, ReadChunkMax(pdu));
      ChunkedReadExact(p, refn, area, start, size, pdu);
      TouchKeeps(p.mem, area);
      LoadNothing(p.mem, area, start);
      ReadResultIs(Load(p.mem, area, start, size));
  }

  lemma {:induction false} ReadResultIs(bytes: seq<Byte>)
    ensures ReadResult(bytes) == if bytes == [] then Err(ItemNotFound) else Ok(bytes)
  {
  }

  predicate Done(s: Session) {
    s.client.phase == Sending && |s.client.results| == |s.cfg.ops|
  }

  /** Memories that the programs cannot tell apart, and that agree elsewhere, hold the same bytes. */
  lemma {:induction false} SameEverywhere(mem0: Memory, m: Memory, n: Memory, cfgs: seq<Config>, own: seq<Memory>)
    requires |own| == |cfgs| && Untouched(mem0, m, cfgs) && Untouched(mem0, n, cfgs)
    requires forall i | 0 <= i < |cfgs| :: Agree(m, own[i], cfgs[i]) && Agree(n, own[i], cfgs[i])
    ensures forall d: nat :: Db(m, d) == Db(n, d)
  {
    hide Uses, Writes;
    forall d: nat ensures Db(m, d) == Db(n, d) {
      assert |Db(m, d)| == |Db(mem0, d)| == |Db(n, d)|;
      forall o: nat | o < |Db(m, d)| ensures Db(m, d)[o] == Db(n, d)[o] {
        if i: nat :| i < |cfgs| && Writes(cfgs[i], d, o) {
          WritesAreUses(cfgs[i], d, o);
          assert Db(m, d)[o] == Db(own[i], d)[o] && Db(n, d)[o] == Db(own[i], d)[o];
        } else {
          assert Db(mem0, d)[o] == Db(m, d)[o] && Db(mem0, d)[o] == Db(n, d)[o];
        }
      }
    }
  }

  lemma {:induction false} WritesAreUses(c: Config, d: nat, o: nat)
    requires Writes(c, d, o)
    ensures Uses(c, d, o)
  {
  }

  /**
   * Clients that do not interfere are isolated and atomic. For every schedule of their steps and of
   * the bytes in flight, and for every order of the programs, each result recorded so far is the one
   * its program gets when the programs run whole in that order; and once all are done the data blocks
   * hold what running them in that order leaves.
   */
  lemma {:induction false} EveryRunIsSerializable(mem: Memory, cfgs: seq<Config>, schedule: seq<(nat, Act)>,
          order: seq<nat>)
    requires forall i | 0 <= i < |cfgs| :: ValidConfig(cfgs[i]) && InRange(cfgs[i])
    requires NoInterference(cfgs) && IsOrder(order, |cfgs|)
    ensures var sys := Run(Init(mem, cfgs), schedule);
      && |sys.sessions| == |cfgs|
      && (forall k, j | 0 <= k < |order| && 0 <= j < |sys.sessions[order[k]].client.results| ::
            && j < |cfgs[order[k]].ops|
            && sys.sessions[order[k]].client.results[j] == SoloResult(Serial(mem, cfgs, order[..k]), cfgs[order[k]], j))
      && ((forall i | 0 <= i < |cfgs| :: Done(sys.sessions[i]))
            ==> forall d: nat :: Db(sys.mem, d) == Db(Serial(mem, cfgs, order), d))
  {
    hide Agree, Untouched, SoloMem, SoloResult, Serial, NoInterference, ValidConfig, Run, Exchanging, InFlight, Content;
    var sys := Run(Init(mem, cfgs), schedule);
    RunKeeps(mem, cfgs, schedule);
    forall k, j | 0 <= k < |order| && 0 <= j < |sys.sessions[order[k]].client.results|
      ensures j < |cfgs[order[k]].ops|
      ensures sys.sessions[order[k]].client.results[j] == SoloResult(Serial(mem, cfgs, order[..k]), cfgs[order[k]], j)
    {
      SerialKeeps(mem, cfgs, order[..k]);
      assert order[k] !in order[..k];
      SoloAgrees(Serial(mem, cfgs, order[..k]), mem, cfgs[order[k]], j);
    }
    if forall i | 0 <= i < |cfgs| :: Done(sys.sessions[i]) {
      SerialKeeps(mem, cfgs, order);
      var own := seq(|cfgs|, i requires 0 <= i < |cfgs| => SoloMem(mem, cfgs[i], |cfgs[i].ops|));
      SameEverywhere(mem, sys.mem, Serial(mem, cfgs, order), cfgs, own);
    }
  }
}
