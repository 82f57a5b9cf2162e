/**
 * The client (client/client.mbt) over a live link: connecting, and the chunked loops step by step.
 * Each method is proved to leave the link in the state, and return the value, that the functions of
 * module Transfer name.
 */
module Client {
  import opened Bytes
  import opened Items
  import opened Telegrams
  import opened Simulator
  import opened WriteCodec
  import opened Exchange
  import opened Tpkt
  import opened Peer
  import opened Transfer

  datatype S7Client = S7Client(link: Link, connected: bool, pduRef: int, pduSize: int) {
    predicate Valid()
      reads link
    {
      connected ==> link.phase == Ready && link.Idle() && 0 <= pduSize < 65536
    }
  }

  /** `S7Client::connect`: the negotiated size becomes the client's PDU size. */
  method Connect(cl: S7Client, lsap: seq<Byte>, rsap: seq<Byte>) returns (r: Result<S7Client>)
    requires !cl.connected ==> cl.link.phase == AwaitCotp && cl.link.Idle() && 18 + |lsap| + |rsap| < 65536
    modifies cl.link, cl.link.server
    ensures cl.connected ==> r == Err(AlreadyConnected) && cl.link.View() == old(cl.link.View())
    ensures !cl.connected
      ==> r.Ok? && r.value == S7Client(cl.link, true, 3, cl.link.announced % 65536) && r.value.Valid()
    ensures !cl.connected ==> cl.link.server.db == old(cl.link.server.db) && cl.link.log == old(cl.link.log)
  {
    if cl.connected {
      return Err(AlreadyConnected);
    }
    ghost var p := cl.link.View();
    var neg := cl.link.Negotiate(lsap, rsap);
    NegotiationSucceeds(p, lsap, rsap);
    r := Ok(S7Client(cl.link, true, 3, neg.value));
  }

  /** A write job's request and answer are always whole frames, and the PLC stays READY. */
  lemma {:induction false} WriteJobClean(p: Plc, items: seq<WriteItem>, refn: int)
    requires p.phase == Ready && AllEncodable(items) && WriteFrame(items, refn).Ok?
    ensures Clean(p, WriteFrame(items, refn).value)
    ensures Transact(p, WriteFrame(items, refn).value).0.phase == Ready
    ensures SameRest(p, Transact(p, WriteFrame(items, refn).value).0)
  {
    var params, wd := WriteParams(items), WriteData(items);
    var frame := JobFrame(refn, params, wd);
    JobIsWellFramed(refn, params, wd);
    ParseJob(refn, params, wd);
    assert params[0] == 0x05;
    hide JobFrame, WellFramed, WriteParams, ApplyPokes, DecodeWrites, WriteResp;
    var code: Byte := if |p.log| in p.refusals then p.refusals[|p.log|] else 0xFF;
    WriteRespFraming(refn % 65536, code);
    assert Turn(p, frame).1 == Some(WriteResp(refn % 65536, code));
    TransactReply(p, frame, Turn(p, frame).0, WriteResp(refn % 65536, code));
  }

  predicate SameRest(p: Plc, q: Plc) {
    q.announced == p.announced && q.refusals == p.refusals
  }

  /** `send_raw` and then `receive`. */
  method SendAndReceive(cl: S7Client, request: Frame) returns (resp: Result<Frame>)
    requires cl.connected && cl.Valid()
    modifies cl.link, cl.link.server
    ensures (cl.link.View(), resp) == Transact(old(cl.link.View()), request)
    ensures Clean(old(cl.link.View()), request) ==> cl.link.Idle()
  {
    hide Transact, Clean, Handled, Take;
    cl.link.SendRaw(request);
    assert cl.link.toPlc == request;
    HandledIsTransact(cl.link.View(), request);
    resp := cl.link.Receive();
  }

  /** The return-code check on a write answer. */
  method CheckAck(resp: Frame) returns (r: Result<()>)
    ensures r == CheckWriteAck(resp)
  {
    var s7 := ScanForS7(resp);
    if s7 < 0 || |resp| <= s7 + 14 {
      return Err(InvalidPdu("Bad write response"));
    }
    var rc := resp[s7 + 14];
    if rc != 0xFF {
      return Err(PlcError(rc));
    }
    r := Ok(());
  }

  method ExecWrite(cl: S7Client, items: seq<WriteItem>) returns (r: Result<()>)
    requires cl.connected && cl.Valid() && AllEncodable(items)
    modifies cl.link, cl.link.server
    ensures cl.Valid()
    ensures (cl.link.View(), r) == ExecWriteRun(old(cl.link.View()), cl.pduRef, items)
  {
    hide WriteFrame, Transact, Clean, CheckWriteAck, AllEncodable;
    var req := BuildWritePdu(items, cl.pduRef);
    if req.Err? {
      return Err(req.error);
    }
    WriteJobClean(cl.link.View(), items, cl.pduRef);
    var resp := SendAndReceive(cl, req.value);
    if resp.Err? {
      return Err(resp.error);
    }
    r := CheckAck(resp.value);
  }

  /** The body of the write loop: copy the chunk, build its item, execute the job. */
  method WriteOne(cl: S7Client, area: Area, at: int, data: seq<Byte>, off: nat, cs: nat) returns (r: Result<()>)
    requires cl.connected && cl.Valid() && off + cs <= |data|
    modifies cl.link, cl.link.server
    ensures cl.Valid()
    ensures (cl.link.View(), r)
      == ExecWriteRun(old(cl.link.View()), cl.pduRef, [WriteChunkItem(area, at, data[off..off + cs])])
  {
    hide ExecWriteRun, Link.View, S7Client.Valid;
    var chunk := CopyChunk(data, off, cs);
    var item := NewWriteItem(area, at, ByteArray(cs), chunk);
    assert item == WriteChunkItem(area, at, data[off..off + cs]);
    r := ExecWrite(cl, [item]);
  }

  method ChunkedWrite(cl: S7Client, area: Area, start: int, data: seq<Byte>) returns (r: Result<()>)
    requires cl.Valid()
    modifies cl.link, cl.link.server
    ensures cl.Valid()
    ensures !cl.connected ==> r == Err(NotConnected) && cl.link.View() == old(cl.link.View())
    ensures cl.connected
      ==> (cl.link.View(), r)
          == WriteRun(old(cl.link.View()), cl.pduRef, area, start, data, WriteChunkMax(cl.pduSize), 0)
  {
    if !cl.connected {
      return Err(NotConnected);
    }
    r := WriteLoop(cl, area, start, data);
  }

  method WriteLoop(cl: S7Client, area: Area, start: int, data: seq<Byte>) returns (r: Result<()>)
    requires cl.connected && cl.Valid()
    modifies cl.link, cl.link.server
    ensures cl.Valid()
    ensures (cl.link.View(), r)
      == WriteRun(old(cl.link.View()), cl.pduRef, area, start, data, WriteChunkMax(cl.pduSize), 0)
  {
    hide *;
    var maxChunk := WriteChunkMax(cl.pduSize);
    var off := 0;
    ghost var goal := WriteRun(cl.link.View(), cl.pduRef, area, start, data, maxChunk, 0);
    while off < |data|
      invariant 0 <= off <= |data| && cl.Valid()
      invariant goal == WriteRun(cl.link.View(), cl.pduRef, area, start, data, maxChunk, off)
    {
      ghost var p := cl.link.View();
      var cs := Min(maxChunk, |data| - off);
      r := WriteOne(cl, area, start + off, data, off, cs);
      WriteRunStep(p, cl.pduRef, area, start, data, maxChunk, off, cs, cl.link.View(), r);
      if r.Err? {
        return;
      }
      off := off + cs;
    }
    WriteRunDone(cl.link.View(), cl.pduRef, area, start, data, maxChunk);
    r := Ok(());
  }

  /** The inner loop of the write: `cs` bytes copied into a fresh array. */
  method CopyChunk(data: seq<Byte>, off: nat, cs: nat) returns (chunk: seq<Byte>)
    requires off + cs <= |data|
    ensures chunk == data[off..off + cs]
  {
    var a := new Byte[cs](_ => 0x00);
    for i := 0 to cs
      invariant a[..i] == data[off..off + i]
    {
      a[i] := data[off + i];
    }
    chunk := a[..];
  }

  /** After a readable reply nothing is left in flight. */
  lemma {:induction false} ReadChunkClean(p: Plc, refn: int, area: Area, off: int, len: nat)
    requires p.phase == Ready && len <= 65512
    ensures var frame := ReadFrame([ReadChunkItem(area, off, len)], refn);
      && frame.Ok?
      && Transact(p, frame.value).0.phase == Ready
      && SameRest(p, Transact(p, frame.value).0)
      && (Transact(p, frame.value).1.Ok? ==> Clean(p, frame.value))
  {
    hide ReadFrame, ReadResp, RefusedRead, Load, Touch, Turn, Take, Transact, WellFramed, ReadChunkItem;
    ReadChunkTransact(p, refn, area, off, len);
    var frame := ReadFrame([ReadChunkItem(area, off, len)], refn).value;
    var part := Load(p.mem, area, off % 0x20_0000, len);
    ReadRespFraming(part, refn % 65536);
    if |p.log| in p.refusals {
      RefusedReadReported(refn % 65536, p.refusals[|p.log|]);
    }
    TransactReply(p, frame, Turn(p, frame).0, Turn(p, frame).1.value);
  }

  lemma {:induction false} NeverItemNotFound(p: Plc, items: seq<ReadItem>, refn: int)
    ensures ReadFrame(items, refn) != Err(ItemNotFound)
    ensures forall frame :: Transact(p, frame).1 != Err(ItemNotFound)
    ensures forall resp :: ParseResponse(resp) != Err(ItemNotFound)
  {
    hide Turn, FindS7;
  }

  method ChunkedRead(cl: S7Client, area: Area, start: int, size: int) returns (r: Result<seq<Byte>>)
    requires cl.Valid()
    modifies cl.link, cl.link.server
    ensures !cl.connected ==> r == Err(NotConnected) && cl.link.View() == old(cl.link.View())
    ensures cl.connected
      ==> (cl.link.View(), r)
          == ReadRun(old(cl.link.View()), cl.pduRef, area, start, size, ReadChunkMax(cl.pduSize), 0, [])
    ensures r.Ok? || r == Err(ItemNotFound) ==> cl.Valid()
  {
    if !cl.connected {
      return Err(NotConnected);
    }
    r := ReadLoop(cl, area, start, size);
  }

  method ReadLoop(cl: S7Client, area: Area, start: int, size: int) returns (r: Result<seq<Byte>>)
    requires cl.connected && cl.Valid()
    modifies cl.link, cl.link.server
    ensures (cl.link.View(), r)
      == ReadRun(old(cl.link.View()), cl.pduRef, area, start, size, ReadChunkMax(cl.pduSize), 0, [])
    ensures r.Ok? || r == Err(ItemNotFound) ==> cl.Valid()
  {
    hide *;
    ReadChunkBound(cl);
    var maxChunk := ReadChunkMax(cl.pduSize);
    var remaining := size;
    var result: seq<Byte> := [];
    var off := 0;
    ghost var goal := ReadRun(cl.link.View(), cl.pduRef, area, start, size, maxChunk, 0, []);
    while remaining > 0
      invariant 0 <= off && remaining == size - off && cl.Valid()
      invariant goal == ReadRun(cl.link.View(), cl.pduRef, area, start, size, maxChunk, off, result)
    {
      ghost var p := cl.link.View();
      var cs := Min(maxChunk, remaining);
      var step := ReadOne(cl, area, start + off, cs, result);
      ghost var q := cl.link.View();
      ReadRunStep(p, cl.pduRef, area, start, size, maxChunk, off, result, cs, q, step);
      if step.Err? {
        return step;
      }
      result := step.value;
      remaining := remaining - cs;
      off := off + cs;
    }
    ReadRunDone(cl.link.View(), cl.pduRef, area, start, size, maxChunk, off, result);
    r := if |result| == 0 then Err(ItemNotFound) else Ok(result);
  }

  lemma {:induction false} ReadChunkBound(cl: S7Client)
    requires cl.connected && cl.Valid()
    ensures ReadChunkMax(cl.pduSize) <= 65512
  {
  }

  /** The body of the read loop: exchange one chunk and push its bytes onto the result. */
  method ReadOne(cl: S7Client, area: Area, at: int, len: nat, got: seq<Byte>) returns (r: Result<seq<Byte>>)
    requires cl.connected && cl.Valid() && len <= 65512
    modifies cl.link, cl.link.server
    ensures (cl.link.View(), r) == CollectRun(old(cl.link.View()), cl.pduRef, ReadChunkItem(area, at, len), got)
    ensures r.Ok? ==> cl.Valid()
    ensures r != Err(ItemNotFound)
  {
    hide ExecReadRun, Link.View, S7Client.Valid;
    var results := ExecRead(cl, area, at, len);
    if results.Err? {
      return Err(results.error);
    }
    var result := got;
    if |results.value| > 0 {
      var part := results.value[0];
      for i := 0 to |part|
        invariant result == got + part[..i]
      {
        result := result + [part[i]];
      }
      assert result == got + part;
    }
    r := Ok(result);
  }

  method ExecRead(cl: S7Client, area: Area, off: int, len: nat) returns (r: Result<seq<seq<Byte>>>)
    requires cl.connected && cl.Valid() && len <= 65512
    modifies cl.link, cl.link.server
    ensures (cl.link.View(), r) == ExecReadRun(old(cl.link.View()), cl.pduRef, ReadChunkItem(area, off, len))
    ensures r.Ok? ==> cl.Valid()
    ensures r != Err(ItemNotFound)
  {
    hide ReadFrame, Transact, Clean, ParseResponse;
    var item := NewReadItem(area, off, ByteArray(len));
    NeverItemNotFound(cl.link.View(), [item], cl.pduRef);
    var req := BuildReadPdu([item], cl.pduRef);
    if req.Err? {
      return Err(req.error);
    }
    ReadChunkClean(cl.link.View(), cl.pduRef, area, off, len);
    var resp := SendAndReceive(cl, req.value);
    if resp.Err? {
      return Err(resp.error);
    }
    r := ParseReadResponse(resp.value);
  }
}
