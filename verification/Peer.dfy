/**
 * The connection between one client and the PLC: the per-connection state machine of
 * `handle_client` (tools/s7_sim.py), and a socket pair on which the client's `send_raw`, `receive`
 * and `negotiate` (transport/tcp.mbt) exchange whole TPKT frames with it.
 */
module Peer {
  import opened Bytes
  import opened Telegrams
  import opened Simulator
  import opened WriteCodec
  import opened Exchange
  import opened Tpkt
  import opened Wire

  datatype Phase = AwaitCotp | AwaitSetup | Ready | Closed

  /** A return code other than OK. */
  type Refusal = c: Byte | c != 0xFF

  datatype Exchanged = Exchanged(request: Frame, reply: Frame)

  /**
   * The PLC as one connection sees it. `refusals` names the exchanges at which the PLC rejects a
   * read or write job with a return code and leaves memory alone; the simulator itself refuses nothing.
   */
  datatype Plc = Plc(phase: Phase, announced: nat, mem: Memory, refusals: map<nat, Refusal>, log: seq<Exchanged>)

  /** The function code of a read or write job. */
  function JobKind(frame: Frame): Option<Byte> {
    match ParseRequest(frame)
    case Parsed(req) => if |req.params| >= 2 && req.params[0] in {0x04, 0x05} then Some(req.params[0]) else None
    case _ => None
  }

  /** A rejected read: the return code in the place of 0xFF, and no payload. */
  function RefusedRead(refn: int, code: Byte): (f: Frame)
    ensures |f| == 25
  {
    AckHead(25, refn) + [0x00, 0x04, 0x00, 0x04, 0x00, 0x00, 0x00, 0x00, code, 0x00, 0x00, 0x00]
  }

  /** The PLC's answer in the READY phase. */
  function Answer(p: Plc, frame: Frame): (Memory, Outcome) {
    if |p.log| in p.refusals && JobKind(frame).Some? then
      var refn, code := ParseRequest(frame).req.refn, p.refusals[|p.log|];
      (p.mem, Reply(if JobKind(frame).value == 0x05 then WriteResp(refn, code) else RefusedRead(refn, code)))
    else Respond(p.mem, frame)
  }

  /** One turn of the connection handler on one frame. */
  function Turn(p: Plc, frame: Frame): (Plc, Option<Frame>) {
    match p.phase
    case AwaitCotp =>
      if |frame| >= 7 && frame[4] == 0x11 && frame[5] == 0xE0 then (p.(phase := AwaitSetup), Some(CotpCc()))
      else (p.(phase := Closed), None)
    case AwaitSetup =>
      (match ParseRequest(frame)
       case Parsed(req) =>
         if req.msgType == 0x01 then (p.(phase := Ready), Some(SetupResp(req.refn, p.announced)))
         else (p.(phase := Closed), None)
       case _ => (p.(phase := Closed), None))
    case Ready =>
      (match Answer(p, frame)
       case (m, Reply(r)) => (p.(mem := m, log := p.log + [Exchanged(frame, r)]), Some(r))
       case (m, Dropped) => (p.(phase := Closed), None))
    case Closed => (p, None)
  }

  /** Send one frame to the PLC and read the answer back through TPKT framing. */
  function Transact(p: Plc, request: Frame): (Plc, Result<Frame>) {
    match Take(request)
    case Got(f, _) =>
      (match Turn(p, f)
       case (q, Some(reply)) =>
         (match Take(reply)
          case Got(g, _) => (q, Ok(g))
          case Bad(e) => (q, Err(e))
          case Incomplete => (q, Err(TimedOut)))
       case (q, None) => (q, Err(TimedOut)))
    case _ => (p, Err(TimedOut))
  }

  // ----- Frames the two sides produce are well framed -----

  lemma {:induction false} JobIsWellFramed(refn: int, params: seq<Byte>, data: seq<Byte>)
    requires 17 + |params| + |data| < 65536
    ensures WellFramed(JobFrame(refn, params, data))
  {
    JobBytes(refn, params, data);
  }

  lemma {:induction false} WholeFrame(f: Frame)
    requires WellFramed(f)
    ensures Take(f) == Got(f, [])
  {
    TakeExact(f, []);
    assert f + [] == f;
  }

  /** A well-framed request whose answer is well framed travels both ways unchanged. */
  lemma {:induction false} TransactReply(p: Plc, frame: Frame, q: Plc, reply: Frame)
    requires WellFramed(frame) && Turn(p, frame) == (q, Some(reply))
    ensures WellFramed(reply) ==> Transact(p, frame) == (q, Ok(reply))
    ensures Take(reply).Bad? ==> Transact(p, frame) == (q, Err(Take(reply).error))
  {
    WholeFrame(frame);
    if WellFramed(reply) {
      WholeFrame(reply);
    }
  }

  /** A read answer is well framed exactly when its length fits the 16-bit TPKT field. */
  lemma {:induction false} ReadRespFraming(data: seq<Byte>, refn: int)
    ensures WellFramed(ReadResp(data, refn)) <==> 25 + |data| < 65536
    ensures 65536 <= 25 + |data| < 65540 ==> Take(ReadResp(data, refn)).Bad?
  {
    ReadRespBytes(data, refn);
    hide ReadResp;
    SplitJoin(25 + |data|);
  }

  /** The client reports the return code of a rejected read as it stands. */
  lemma {:induction false} RefusedReadReported(refn: int, code: Refusal)
    ensures WellFramed(RefusedRead(refn, code))
    ensures ParseResponse(RefusedRead(refn, code)) == Err(PlcError(code))
  {
    hide AckHead, ParseResponse;
    AckHeadFields(25, refn);
    var f, h := RefusedRead(refn, code), AckHead(25, refn);
    assert forall k: nat {:trigger f[k]} | k < 13 :: f[k] == h[k];
    assert f[21] == code;
    HeaderFirstAtSeven(f);
    ReadReplyAtSeven(f);
  }

  lemma {:induction false} WriteRespFraming(refn: int, code: Byte)
    ensures WellFramed(WriteResp(refn, code))
  {
  }

  /** The handler on a stream: the PLC afterwards, what it left unread, and the bytes it sent. */
  function Handled(p: Plc, stream: seq<Byte>): (Plc, seq<Byte>, seq<Byte>) {
    match Take(stream)
    case Got(f, rest) =>
      var (q, out) := Turn(p, f);
      (q, rest, match out case None => [] case Some(r) => r)
    case _ => (p, stream, [])
  }

  /** Sending on an idle link and receiving is one exchange, and a clean one leaves the link idle. */
  lemma {:induction false} HandledIsTransact(p: Plc, request: Frame)
    ensures var (q, rest, answer) := Handled(p, request);
      && [] + answer == answer
      && Transact(p, request)
         == (q, match Take(answer) case Got(f, _) => Ok(f) case Bad(e) => Err(e) case Incomplete => Err(TimedOut))
      && (Clean(p, request) ==> rest == [] && Take(answer) == if answer == [] then Incomplete else Got(answer, []))
  {
    hide Turn;
    if Clean(p, request) {
      WholeFrame(request);
      if Turn(p, request).1.Some? {
        WholeFrame(Turn(p, request).1.value);
      }
    }
  }

  // ----- The client's end -----

  class Link {
    const server: DbServer
    const announced: nat
    const refusals: map<nat, Refusal>
    var phase: Phase
    var log: seq<Exchanged>
    var toPlc: seq<Byte>
    var toClient: seq<Byte>

    /** The PLC's state as a value. */
    ghost function View(): Plc
      reads this, server
    {
      Plc(phase, announced, server.db, refusals, log)
    }

    /** Nothing is in flight. */
    predicate Idle()
      reads this
    {
      toPlc == [] && toClient == []
    }

    constructor (server: DbServer, announced: nat, refusals: map<nat, Refusal>)
      ensures this.server == server && this.announced == announced && this.refusals == refusals
      ensures phase == AwaitCotp && log == [] && Idle()
    {
      this.server := server;
      this.announced := announced;
      this.refusals := refusals;
      phase, log, toPlc, toClient := AwaitCotp, [], [], [];
    }

    method SendRaw(data: seq<Byte>)
      modifies this`toPlc
      ensures toPlc == old(toPlc) + data
    {
      toPlc := toPlc + data;
    }

    /** The handler thread reads one frame, if one is complete, and writes its answer. */
    method PlcTurn()
      modifies this`phase, this`log, this`toPlc, this`toClient, server
      ensures var (p, rest, answer) := Handled(old(View()), old(toPlc));
        View() == p && toPlc == rest && toClient == old(toClient) + answer
    {
      var front := Take(toPlc);
      if !front.Got? {
        return;
      }
      var frame := front.frame;
      toPlc := front.rest;
      match phase
      case AwaitCotp =>
        if |frame| >= 7 && frame[4] == 0x11 && frame[5] == 0xE0 {
          toClient := toClient + CotpCc();
          phase := AwaitSetup;
        } else {
          phase := Closed;
        }
      case AwaitSetup =>
        var parsed := ParseRequest(frame);
        if parsed.Parsed? && parsed.req.msgType == 0x01 {
          toClient := toClient + SetupResp(parsed.req.refn, announced);
          phase := Ready;
        } else {
          phase := Closed;
        }
      case Ready =>
        ReadyTurn(frame);
      case Closed =>
    }

    method ReadyTurn(frame: Frame)
      requires phase == Ready
      modifies this`phase, this`log, this`toClient, server
      ensures View() == Turn(old(View()), frame).0
      ensures toClient == old(toClient) + (match Turn(old(View()), frame).1 case None => [] case Some(r) => r)
    {
      var out: Outcome;
      if |log| in refusals && JobKind(frame) == Some(0x05) {
        out := Reply(WriteResp(ParseRequest(frame).req.refn, refusals[|log|]));
      } else if |log| in refusals && JobKind(frame) == Some(0x04) {
        out := Reply(RefusedRead(ParseRequest(frame).req.refn, refusals[|log|]));
      } else {
        out := server.Serve(frame);
      }
      match out
      case Reply(r) =>
        toClient := toClient + r;
        log := log + [Exchanged(frame, r)];
      case Dropped => phase := Closed;
    }

    /**
     * `receive` / `read_tpkt`: the PLC gets its turn, then the client takes one frame off everything it
     * has received. A bad header costs the four bytes that were read.
     */
    method Receive() returns (r: Result<Frame>)
      modifies this`phase, this`log, this`toPlc, this`toClient, server
      ensures var (p, rest, answer) := Handled(old(View()), old(toPlc));
        && View() == p && toPlc == rest
        && match Take(old(toClient) + answer)
           case Got(f, unread) => r == Ok(f) && toClient == unread
           case Bad(e) => r == Err(e) && toClient == (old(toClient) + answer)[4..]
           case Incomplete => r == Err(TimedOut) && toClient == old(toClient) + answer
    {
      PlcTurn();
      match Take(toClient)
      case Got(f, rest) =>
        toClient := rest;
        r := Ok(f);
      case Bad(e) =>
        toClient := toClient[4..];
        r := Err(e);
      case Incomplete =>
        r := Err(TimedOut);
    }

    /** COTP connection request and S7 setup; returns the PDU size the client will use. */
    method Negotiate(lsap: seq<Byte>, rsap: seq<Byte>) returns (r: Result<int>)
      requires phase == AwaitCotp && Idle() && 18 + |lsap| + |rsap| < 65536
      modifies this`phase, this`log, this`toPlc, this`toClient, server
      ensures (View(), r) == Negotiation(old(View()), lsap, rsap)
      ensures Idle()
    {
      hide CotpCr, SetupFrame, SetupResp, CotpCc, Turn, Take, Handled, Transact;
      NegotiationIsClean(View(), lsap, rsap);
      var cr := BuildCotpCr(lsap, rsap);
      SendRaw(cr);
      assert toPlc == cr;
      HandledIsTransact(View(), cr);
      var cc := Receive();
      if cc.Err? {
        return Err(cc.error);
      }
      var cotp := ParseCotpCc(cc.value);
      if cotp.Err? {
        return Err(cotp.error);
      }
      SendRaw(SetupFrame());
      assert toPlc == SetupFrame();
      HandledIsTransact(View(), SetupFrame());
      var st := Receive();
      if st.Err? {
        return Err(st.error);
      }
      r := ParseSetupResp(st.value);
    }
  }

  /** The request and its answer, if any, are each one whole frame. */
  predicate Clean(p: Plc, request: Frame) {
    WellFramed(request) && (match Turn(p, request).1 case None => true case Some(reply) => WellFramed(reply))
  }

  lemma {:induction false} CrTurn(p: Plc, lsap: seq<Byte>, rsap: seq<Byte>)
    requires p.phase == AwaitCotp && 18 + |lsap| + |rsap| < 65536
    ensures WellFramed(CotpCr(lsap, rsap))
    ensures Turn(p, CotpCr(lsap, rsap)) == (p.(phase := AwaitSetup), Some(CotpCc()))
    ensures WellFramed(CotpCc()) && ParseCotpCc(CotpCc()) == Ok(1024)
  {
    var cr, head := CotpCr(lsap, rsap), CrHead(18 + |lsap| + |rsap|, |lsap|);
    assert cr[..16] == head;
    assert cr[0] == head[0] && cr[2] == head[2] && cr[3] == head[3] && cr[4] == head[4] && cr[5] == head[5];
    SplitJoin(18 + |lsap| + |rsap|);
  }

  lemma {:induction false} SetupTurn(p: Plc)
    requires p.phase == AwaitSetup
    ensures WellFramed(SetupFrame())
    ensures Turn(p, SetupFrame()) == (p.(phase := Ready), Some(SetupResp(0, p.announced)))
    ensures WellFramed(SetupResp(0, p.announced))
    ensures ParseSetupResp(SetupResp(0, p.announced)) == Ok(p.announced % 65536)
  {
    var params := [0xF0, 0x00, 0x00, 0x08, 0x00, 0x08, Hi8(960), Lo8(960)];
    ParseJob(0, params, []);
    JobIsWellFramed(0, params, []);
    SetupRespParses(0, p.announced);
  }

  lemma {:induction false} SetupRespParses(refn: int, pdu: nat)
    ensures WellFramed(SetupResp(refn, pdu)) && ParseSetupResp(SetupResp(refn, pdu)) == Ok(pdu % 65536)
  {
    SplitJoin(pdu);
    var f := SetupResp(refn, pdu);
    assert HeaderAt(f, 7, true);
  }

  lemma {:induction false} NegotiationIsClean(p: Plc, lsap: seq<Byte>, rsap: seq<Byte>)
    requires p.phase == AwaitCotp && 18 + |lsap| + |rsap| < 65536
    ensures Clean(p, CotpCr(lsap, rsap)) && Clean(Transact(p, CotpCr(lsap, rsap)).0, SetupFrame())
  {
    CrTurn(p, lsap, rsap);
    SetupTurn(p.(phase := AwaitSetup));
    hide CotpCr, CotpCc, SetupFrame, SetupResp, Turn, WellFramed, ParseSetupResp, ParseCotpCc;
    WholeFrame(CotpCr(lsap, rsap));
    WholeFrame(CotpCc());
  }

  /** What moves the handshake on, and what ends the connection without an answer. */
  lemma {:induction false} HandshakeExact(p: Plc, f: Frame)
    ensures p.phase == AwaitCotp
      ==> Turn(p, f) == if |f| >= 7 && f[4] == 17 && f[5] == 0xE0 then (p.(phase := AwaitSetup), Some(CotpCc()))
                        else (p.(phase := Closed), None)
    ensures p.phase == AwaitSetup
      ==> var asked := exists s: nat :: FirstRequest(f, s) && |f| > s + 9 && f[s + 1] == 0x01;
          if asked then Turn(p, f).0 == p.(phase := Ready) else Turn(p, f) == (p.(phase := Closed), None)
    ensures p.phase == Closed ==> Turn(p, f) == (p, None)
  {
    RequestHeader(f);
    var s := FindFrom(f, 0, false);
    if s >= 0 {
      RequestMeans(f, s);
    }
    hide FindFrom, FirstRequest, Answer;
  }

  /** Negotiation brings the PLC to READY and hands the client the announced PDU size. */
  lemma {:induction false} NegotiationSucceeds(p: Plc, lsap: seq<Byte>, rsap: seq<Byte>)
    requires p.phase == AwaitCotp && 18 + |lsap| + |rsap| < 65536
    ensures Negotiation(p, lsap, rsap) == (p.(phase := Ready), Ok(p.announced % 65536))
  {
    hide CotpCr, CotpCc, SetupFrame, SetupResp, Turn, WellFramed, ParseSetupResp, ParseCotpCc, Take;
    CrTurn(p, lsap, rsap);
    var p1 := p.(phase := AwaitSetup);
    SetupTurn(p1);
    WholeFrame(CotpCr(lsap, rsap));
    WholeFrame(CotpCc());
    WholeFrame(SetupFrame());
    WholeFrame(SetupResp(0, p.announced));
  }

  /** The two exchanges of `negotiate`. */
  function Negotiation(p: Plc, lsap: seq<Byte>, rsap: seq<Byte>): (Plc, Result<int>) {
    var (p1, cc) := Transact(p, CotpCr(lsap, rsap));
    if cc.Err? then (p1, Err(cc.error))
    else if ParseCotpCc(cc.value).Err? then (p1, Err(ParseCotpCc(cc.value).error))
    else
      var (p2, st) := Transact(p1, SetupFrame());
      if st.Err? then (p2, Err(st.error)) else (p2, ParseSetupResp(st.value))
  }
}
