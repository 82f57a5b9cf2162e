/**
 * What a run does to shared memory, interference included. The chunks the PLC has served, in order,
 * account for every byte of memory, and the write chunks of each client are those of its program, in
 * program order, each served once.
 */
module History {
  import opened Telegrams
  import opened Simulator
  import opened Exchange
  import opened Transfer
  import opened Sessions
  import opened Interleaving

  /** One chunk of an operation of client `who`. */
  datatype Chunk = Chunk(who: nat, op: Op, off: nat, len: nat)

  // ----- Memory -----

  function ApplyChunk(mem: Memory, c: Chunk): Memory {
    if c.off + c.len <= OpLen(c.op) then Effect(mem, c.op, c.off, c.len) else mem
  }

  function ApplyChunks(mem: Memory, chunks: seq<Chunk>): Memory {
    if chunks == [] then mem else ApplyChunk(ApplyChunks(mem, chunks[..|chunks| - 1]), chunks[|chunks| - 1])
  }

  /** The chunk that action `a` of session `i` serves, if any. */
  function ServedBy(mem: Memory, s: Session, i: nat, a: Act): seq<Chunk> {
    var c := s.client;
    if a != PlcAct || c.phase != Waiting || PlcStep(mem, s) == (mem, s) || |c.results| >= |s.cfg.ops| then []
    else
      var op := s.cfg.ops[|c.results|];
      if c.off > OpLen(op) then [] else [Chunk(i, op, c.off, ChunkLen(c.pdu, op, c.off))]
  }

  /** The chunks served in a run, in the order of the PLC's steps. */
  function Served(init: System, schedule: seq<(nat, Act)>): seq<Chunk> {
    if schedule == [] then []
    else
      var n := |schedule| - 1;
      var sys, i := Run(init, schedule[..n]), schedule[n].0;
      Served(init, schedule[..n])
      + if i < |sys.sessions| then ServedBy(sys.mem, sys.sessions[i], i, schedule[n].1) else []
  }

  lemma {:induction false} StepServes(mem: Memory, s: Session, i: nat, a: Act)
    requires InStep(s)
    ensures |ServedBy(mem, s, i, a)| <= 1
    ensures SessionStep(mem, s, a).0
      == if ServedBy(mem, s, i, a) == [] then mem else ApplyChunk(mem, ServedBy(mem, s, i, a)[0])
  {
    hide PlcStep, ClientStep, Deliver, Content, Effect, ChunkLen, ReplyTo, Answers, NextFrame;
    if a == PlcAct {
      if s.client.phase == Waiting {
        ExchangeTurn(mem, s);
      } else if s.client.phase == Sending {
        Serve(mem, s);
      } else {
        HandshakeTurn(mem, s);
      }
    }
  }

  /**
   * In every run, interference included, memory is what the served chunks make of it, applied in the
   * order in which the PLC served them.
   */
  lemma {:induction false} MemoryIsHistory(mem: Memory, cfgs: seq<Config>, schedule: seq<(nat, Act)>)
    requires forall k | 0 <= k < |cfgs| :: ValidConfig(cfgs[k])
    ensures Run(Init(mem, cfgs), schedule).mem == ApplyChunks(mem, Served(Init(mem, cfgs), schedule))
  {
    hide InStep, SessionStep, ServedBy, ApplyChunk, ValidConfig;
    if schedule != [] {
      var n := |schedule| - 1;
      var sys, i, a := Run(Init(mem, cfgs), schedule[..n]), schedule[n].0, schedule[n].1;
      var before := Served(Init(mem, cfgs), schedule[..n]);
      MemoryIsHistory(mem, cfgs, schedule[..n]);
      RunInStep(mem, cfgs, schedule[..n]);
      if i < |cfgs| {
        StepServes(sys.mem, sys.sessions[i], i, a);
        var now := ServedBy(sys.mem, sys.sessions[i], i, a);
        if now == [] {
          assert before + now == before;
        } else {
          assert (before + now)[..|before|] == before && (before + now)[|before|] == now[0];
        }
      } else {
        assert before + [] == before;
      }
    }
  }

  lemma {:induction false} ApplyHead(mem: Memory, c: Chunk, rest: seq<Chunk>)
    ensures ApplyChunks(mem, [c] + rest) == ApplyChunks(ApplyChunk(mem, c), rest)
    decreases |rest|
  {
    hide ApplyChunk;
    if rest == [] {
      assert ([c] + rest)[..0] == [];
    } else {
      var n := |rest| - 1;
      ApplyHead(mem, c, rest[..n]);
      assert ([c] + rest)[..n + 1] == [c] + rest[..n];
    }
  }

  // ----- Each write chunk once, in order -----

  function ChunksFrom(i: nat, op: Op, pdu: nat, off: nat): seq<Chunk>
    requires off <= OpLen(op)
    decreases OpLen(op) - off
  {
    if off == OpLen(op) then []
    else [Chunk(i, op, off, ChunkLen(pdu, op, off))] + ChunksFrom(i, op, pdu, off + ChunkLen(pdu, op, off))
  }

  /** Without interruption the chunks of a write are one flat update. */
  lemma {:induction false} ChunksAreFlat(mem: Memory, i: nat, op: Op, pdu: nat, off: nat)
    requires op.WriteOp? && off <= OpLen(op) && 0 <= op.start && op.start + OpLen(op) <= 0x20_0000
    ensures ApplyChunks(mem, ChunksFrom(i, op, pdu, off))
      == StoreFirst(mem, op.area, op.start + off, op.data[off..], |op.data| - off)
    decreases OpLen(op) - off
  {
    hide Store, ChunkLen;
    if off < OpLen(op) {
      var cs := ChunkLen(pdu, op, off);
      ChunkInside(pdu, op, off);
      var chunk := Chunk(i, op, off, cs);
      ApplyHead(mem, chunk, ChunksFrom(i, op, pdu, off + cs));
      assert (op.start + off) % 0x20_0000 == op.start + off;
      ChunksAreFlat(ApplyChunk(mem, chunk), i, op, pdu, off + cs);
      StoreFirstStep(mem, op.area, op.start, op.data, off, cs, |op.data| - off - cs);
    }
  }

  /** The write chunks of a program from offset `off` of operation `k` on. */
  function Todo(i: nat, c: Config, k: nat, off: nat): seq<Chunk>
    requires k <= |c.ops| && (k < |c.ops| ==> off <= OpLen(c.ops[k]))
    decreases |c.ops| - k
  {
    if k == |c.ops| then []
    else
      (if c.ops[k].WriteOp? && WriteFits(Pdu(c), c.ops[k]) then ChunksFrom(i, c.ops[k], Pdu(c), off) else [])
      + Todo(i, c, k + 1, 0)
  }

  /** The write chunks of client `i` among `chunks`. */
  function WritesOf(chunks: seq<Chunk>, i: nat): seq<Chunk> {
    if chunks == [] then []
    else
      var n := |chunks| - 1;
      WritesOf(chunks[..n], i) + if chunks[n].who == i && chunks[n].op.WriteOp? then [chunks[n]] else []
  }

  ghost function Remaining(i: nat, s: Session): seq<Chunk>
    requires InStep(s)
  {
    Todo(i, s.cfg, |s.client.results|, Applied(s))
  }

  /** Nothing is left of an operation that has been served to its end, or is never served. */
  lemma {:induction false} TodoEnds(i: nat, c: Config, k: nat, off: nat)
    requires k < |c.ops| && off <= OpLen(c.ops[k])
    requires off == OpLen(c.ops[k]) || c.ops[k].ReadOp? || !WriteFits(Pdu(c), c.ops[k])
    ensures Todo(i, c, k, off) == Todo(i, c, k + 1, 0)
  {
    hide WriteFits;
    assert [] + Todo(i, c, k + 1, 0) == Todo(i, c, k + 1, 0);
  }

  lemma {:induction false} TodoHead(i: nat, c: Config, k: nat, off: nat)
    requires k < |c.ops| && off < OpLen(c.ops[k]) && (c.ops[k].WriteOp? ==> WriteFits(Pdu(c), c.ops[k]))
    ensures var op := c.ops[k];
      var cs := ChunkLen(Pdu(c), op, off);
      && off + cs <= OpLen(op)
      && Todo(i, c, k, off)
         == (if op.WriteOp? then [Chunk(i, op, off, cs)] else []) + Todo(i, c, k, off + cs)
  {
    hide WriteFits, ChunkLen;
    var op := c.ops[k];
    var cs := ChunkLen(Pdu(c), op, off);
    ChunkInside(Pdu(c), op, off);
    if op.WriteOp? {
      var rest, tail := ChunksFrom(i, op, Pdu(c), off + cs), Todo(i, c, k + 1, 0);
      assert ([Chunk(i, op, off, cs)] + rest) + tail == [Chunk(i, op, off, cs)] + (rest + tail);
    }
  }

  lemma {:induction false} SendRemains(i: nat, s: Session)
    requires InStep(s) && s.client.phase == Sending
    ensures InStep(ClientStep(s)) && Remaining(i, ClientStep(s)) == Remaining(i, s)
  {
    hide NextFrame, Answers, Emit, Content, ChunkLen, Finish, Exchanging, ValidConfig, Todo, WriteFits;
    var c := s.client;
    SendStep(s);
    if |c.results| < |s.cfg.ops| {
      var op := s.cfg.ops[|c.results|];
      if c.off == OpLen(op) {
        TodoEnds(i, s.cfg, |c.results|, c.off);
      } else {
        RequestExact(map[], s.cfg.announced, s.cfg.refn, Pdu(s.cfg), op, c.off);
        if NextFrame(s.cfg.refn, c.pdu, op, c.off).Err? {
          TodoEnds(i, s.cfg, |c.results|, c.off);
        }
      }
    }
  }

  /** A write is always acknowledged; only a read can end early. */
  lemma {:induction false} ReplyRemains(i: nat, s: Session)
    requires InStep(s) && s.client.phase == Waiting
    ensures InStep(ClientStep(s)) && Remaining(i, ClientStep(s)) == Remaining(i, s)
  {
    hide ClientStep, NextFrame, Content, ChunkLen, Todo, WriteFits, Answered, ReadResp, WriteResp, CheckWriteAck;
    var c, op := s.client, s.cfg.ops[|s.client.results|];
    var cs := ChunkLen(c.pdu, op, c.off);
    ReplyStep(s);
    ChunkInside(c.pdu, op, c.off);
    if ClientStep(s) != s {
      RequestExact(map[], s.cfg.announced, s.cfg.refn, Pdu(s.cfg), op, c.off);
      ChunkBound(c.pdu, op, c.off);
      AnswerIsFrame(Content(s.down), s.cfg.refn, op, cs);
      WriteAckExact(s.cfg.refn % 65536, 0xFF);
      if op.ReadOp? {
        TodoEnds(i, s.cfg, |c.results|, c.off + cs);
      }
    }
  }

  lemma {:induction false} HandshakeRemains(i: nat, s: Session)
    requires InStep(s) && s.client.phase in {Fresh, WaitCc, WaitSetup}
    ensures InStep(ClientStep(s)) && Remaining(i, ClientStep(s)) == Remaining(i, s)
  {
    hide ClientStep, Content, Todo, Exchanging, ValidConfig;
    if s.client.phase == Fresh {
      FreshStep(s);
    } else if s.client.phase == WaitCc {
      CcStep(s);
    } else {
      SetupStep(s);
    }
  }

  /** Serving a request takes its chunk off the list. */
  lemma {:induction false} ServiceRemains(i: nat, mem: Memory, s: Session)
    requires InStep(s) && s.client.phase == Waiting && PlcStep(mem, s) != (mem, s)
    ensures var t := PlcStep(mem, s).1;
      InStep(t) && WritesOf(ServedBy(mem, s, i, PlcAct), i) + Remaining(i, t) == Remaining(i, s)
  {
    hide PlcStep, NextFrame, Content, ChunkLen, Todo, Effect, ReplyTo, Answers, ValidConfig, WriteFits, InFlight;
    var c, op := s.client, s.cfg.ops[|s.client.results|];
    var cs := ChunkLen(c.pdu, op, c.off);
    ExchangeTurn(mem, s);
    RequestExact(mem, s.cfg.announced, s.cfg.refn, Pdu(s.cfg), op, c.off);
    TodoHead(i, s.cfg, |c.results|, c.off);
    ReplyAnswers(mem, s.cfg.refn, op, c.off, cs);
    assert ServedBy(mem, s, i, PlcAct) == [Chunk(i, op, c.off, cs)];
    WritesOfOne(Chunk(i, op, c.off, cs));
    hide WritesOf;
  }

  lemma {:induction false} WritesOfOne(c: Chunk)
    ensures WritesOf([c], c.who) == if c.op.WriteOp? then [c] else []
  {
    assert [c][..0] == [];
  }

  lemma {:induction false} TurnRemains(i: nat, mem: Memory, s: Session)
    requires InStep(s)
    ensures var t := PlcStep(mem, s).1;
      InStep(t) && WritesOf(ServedBy(mem, s, i, PlcAct), i) + Remaining(i, t) == Remaining(i, s)
  {
    hide PlcStep, NextFrame, Content, Todo, Answers, ValidConfig, Exchanging, InFlight, Applied;
    assert [] + Remaining(i, s) == Remaining(i, s);
    if s.client.phase == Waiting {
      if PlcStep(mem, s) != (mem, s) {
        ServiceRemains(i, mem, s);
      }
    } else {
      TurnIdle(i, mem, s);
    }
  }

  lemma {:induction false} TurnIdle(i: nat, mem: Memory, s: Session)
    requires InStep(s) && s.client.phase != Waiting
    ensures var t := PlcStep(mem, s).1; InStep(t) && Remaining(i, t) == Remaining(i, s)
  {
    hide PlcStep, Content, Todo, Exchanging, ValidConfig;
    if s.client.phase == Sending {
      Serve(mem, s);
    } else {
      HandshakeTurn(mem, s);
    }
  }

  lemma {:induction false} DeliverRemains(i: nat, s: Session, t: Session)
    requires InStep(s) && InStep(t) && t.cfg == s.cfg && t.client == s.client && Content(t.down) == Content(s.down)
    ensures Remaining(i, t) == Remaining(i, s)
  {
    hide InStep, Content, Todo;
  }

  /** Conservation: what a step serves is what it takes off the session's remaining write chunks. */
  lemma {:induction false} StepRemains(i: nat, mem: Memory, s: Session, a: Act)
    requires InStep(s)
    ensures var t := SessionStep(mem, s, a).1;
      InStep(t) && WritesOf(ServedBy(mem, s, i, a), i) + Remaining(i, t) == Remaining(i, s)
  {
    hide PlcStep, ClientStep, Deliver, Content, Exchanging, Remaining, ValidConfig;
    InStepKept(mem, s, a);
    var t := SessionStep(mem, s, a).1;
    match a
    case PlcAct => TurnRemains(i, mem, s);
    case ClientAct =>
      if s.client.phase in {Fresh, WaitCc, WaitSetup} {
        HandshakeRemains(i, s);
      } else if s.client.phase == Waiting {
        ReplyRemains(i, s);
      } else {
        SendRemains(i, s);
      }
      assert [] + Remaining(i, s) == Remaining(i, s);
    case DeliverUp(k) =>
      DeliverRemains(i, s, t);
      assert [] + Remaining(i, s) == Remaining(i, s);
    case DeliverDown(k) =>
      DeliverKeeps(s.down, k);
      DeliverRemains(i, s, t);
      assert [] + Remaining(i, s) == Remaining(i, s);
  }

  lemma {:induction false} WritesAppend(chunks: seq<Chunk>, more: seq<Chunk>, i: nat)
    requires |more| <= 1
    ensures WritesOf(chunks + more, i) == WritesOf(chunks, i) + WritesOf(more, i)
  {
    if more == [] {
      assert chunks + more == chunks;
    } else {
      assert (chunks + more)[..|chunks|] == chunks && more[..0] == [];
    }
  }

  lemma {:induction false} OthersServe(mem: Memory, s: Session, k: nat, a: Act, i: nat)
    requires k != i
    ensures |ServedBy(mem, s, k, a)| <= 1 && WritesOf(ServedBy(mem, s, k, a), i) == []
  {
    hide PlcStep, ChunkLen;
    var now := ServedBy(mem, s, k, a);
    if now != [] {
      assert now[..0] == [];
    }
  }

  /**
   * In every run, interference included, the write chunks of a client that have been served, followed
   * by those still to come, are the write chunks of its program: none is lost, repeated or overtaken.
   * Once the client is done, exactly its program's write chunks have been served, in order.
   */
  lemma {:induction false} EachWriteChunkOnce(mem: Memory, cfgs: seq<Config>, schedule: seq<(nat, Act)>, i: nat)
    requires (forall k | 0 <= k < |cfgs| :: ValidConfig(cfgs[k])) && i < |cfgs|
    ensures var sys, served := Run(Init(mem, cfgs), schedule), WritesOf(Served(Init(mem, cfgs), schedule), i);
      && |sys.sessions| == |cfgs| && InStep(sys.sessions[i])
      && served + Remaining(i, sys.sessions[i]) == Todo(i, cfgs[i], 0, 0)
      && (|sys.sessions[i].client.results| == |cfgs[i].ops| ==> served == Todo(i, cfgs[i], 0, 0))
  {
    hide InStep, SessionStep, ServedBy, ValidConfig, Remaining, WritesOf, Todo;
    RunInStep(mem, cfgs, schedule);
    if schedule == [] {
      StartRemains(i, cfgs[i]);
    } else {
      var n := |schedule| - 1;
      var sys, k, a := Run(Init(mem, cfgs), schedule[..n]), schedule[n].0, schedule[n].1;
      var before := Served(Init(mem, cfgs), schedule[..n]);
      EachWriteChunkOnce(mem, cfgs, schedule[..n], i);
      RunInStep(mem, cfgs, schedule[..n]);
      var now := if k < |cfgs| then ServedBy(sys.mem, sys.sessions[k], k, a) else [];
      NoneServed(i);
      if k < |cfgs| {
        StepServes(sys.mem, sys.sessions[k], k, a);
        if k == i {
          StepRemains(i, sys.mem, sys.sessions[i], a);
        } else {
          OthersServe(sys.mem, sys.sessions[k], k, a, i);
        }
      }
      WritesAppend(before, now, i);
      var s := Run(Init(mem, cfgs), schedule).sessions[i];
      assert WritesOf(now, i) + Remaining(i, s) == Remaining(i, sys.sessions[i]);
      assert (WritesOf(before, i) + WritesOf(now, i)) + Remaining(i, s)
          == WritesOf(before, i) + (WritesOf(now, i) + Remaining(i, s));
    }
    if |Run(Init(mem, cfgs), schedule).sessions[i].client.results| == |cfgs[i].ops| {
      NothingRemains(i, Run(Init(mem, cfgs), schedule).sessions[i]);
    }
  }

  lemma {:induction false} NoneServed(i: nat)
    ensures WritesOf([], i) == []
    ensures forall chunks: seq<Chunk> :: [] + chunks == chunks
  {
  }

  lemma {:induction false} StartRemains(i: nat, c: Config)
    requires ValidConfig(c)
    ensures InStep(Start(c)) && WritesOf([], i) + Remaining(i, Start(c)) == Todo(i, c, 0, 0)
  {
    StartInStep(c);
    assert [] + Todo(i, c, 0, 0) == Todo(i, c, 0, 0);
  }

  lemma {:induction false} NothingRemains(i: nat, s: Session)
    requires InStep(s) && |s.client.results| == |s.cfg.ops|
    ensures Remaining(i, s) == []
  {
  }
}
