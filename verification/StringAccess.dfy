/**
 * The string accessors of the client (`ag_write_string`, `ag_read_string`): the S7 STRING codec on
 * top of the chunk loops, from text to data-block memory and back.
 */
module StringAccess {
  import opened Bytes
  import opened Items
  import opened Simulator
  import opened Exchange
  import opened Peer
  import opened Transfer
  import opened Client
  import opened S7String

  function WriteStringRun(p: Plc, refn: int, db: int, start: int, maxLen: nat, s: Text, pdu: int): (Plc,
          Result<seq<Byte>>) {
    var bytes := FieldBytes(maxLen, s);
    match WriteRun(p, refn, DataBlock(db), start, bytes, WriteChunkMax(pdu), 0)
    case (q, Err(e)) => (q, Err(e))
    case (q, Ok(_)) => (q, Ok(bytes))
  }

  function ReadStringRun(p: Plc, refn: int, db: int, start: int, maxLen: nat, pdu: int): (Plc, Result<seq<int>>) {
    match ReadRun(p, refn, DataBlock(db), start, maxLen + 2, ReadChunkMax(pdu), 0, [])
    case (q, Err(e)) => (q, Err(e))
    case (q, Ok(data)) => (q, Ok(DecodeS7(data)))
  }

  method AgWriteString(cl: S7Client, db: int, start: int, maxLen: nat, s: Text) returns (r: Result<seq<Byte>>)
    requires cl.Valid()
    modifies cl.link, cl.link.server
    ensures cl.Valid()
    ensures !cl.connected ==> r == Err(NotConnected) && cl.link.View() == old(cl.link.View())
    ensures cl.connected
      ==> (cl.link.View(), r) == WriteStringRun(old(cl.link.View()), cl.pduRef, db, start, maxLen, s, cl.pduSize)
  {
    hide WriteRun, Link.View, S7Client.Valid, FieldBytes;
    if !cl.connected {
      return Err(NotConnected);
    }
    var bytes := StringFieldToBytes(maxLen, s);
    var done := ChunkedWrite(cl, DataBlock(db), start, bytes);
    match done
    case Err(e) => r := Err(e);
    case Ok(_) => r := Ok(bytes);
  }

  method AgReadString(cl: S7Client, db: int, start: int, maxLen: nat) returns (r: Result<seq<int>>)
    requires cl.Valid()
    modifies cl.link, cl.link.server
    ensures !cl.connected ==> r == Err(NotConnected) && cl.link.View() == old(cl.link.View())
    ensures cl.connected
      ==> (cl.link.View(), r) == ReadStringRun(old(cl.link.View()), cl.pduRef, db, start, maxLen, cl.pduSize)
    ensures r.Ok? ==> cl.Valid()
  {
    hide ReadRun, Link.View, S7Client.Valid, DecodeS7;
    if !cl.connected {
      return Err(NotConnected);
    }
    var size := maxLen + 2;
    var data := ChunkedRead(cl, DataBlock(db), start, size);
    match data
    case Err(e) => r := Err(e);
    case Ok(bytes) =>
      var text := DecodeS7String(bytes);
      r := Ok(text);
  }

  /**
   * A string written to a field inside a data block and read back, each transfer split by its own
   * PDU size, is the longest prefix that fits the declared length iff the cut does not leave three
   * bytes of a four-byte character; a string that fits comes back whole. The field keeps its declared
   * length in front of the current one; bytes outside it and other data blocks are untouched.
   */
  lemma {:induction false} StringSurvivesThePlc(p: Plc, refn: int, d: nat, start: nat, maxLen: nat, s: Text,
          pduW: int, pduR: nat)
    requires p.phase == Ready && p.refusals == map[] && d < 65536 && pduR < 65536
    requires maxLen <= 255 && start + maxLen + 2 <= Min(0x20_0000, |Db(p.mem, d)|)
    ensures var (q, w) := WriteStringRun(p, refn, d, start, maxLen, s, pduW);
      var r := ReadStringRun(q, refn, d, start, maxLen, pduR).1;
      && w == Ok(FieldBytes(maxLen, s))
      && q.mem == p.mem[d := Patch(Db(p.mem, d), start, FieldBytes(maxLen, s))]
      && Db(q.mem, d)[start] == maxLen && Db(q.mem, d)[start + 1] == Min(maxLen, |Encode(s)|)
      && (r == Ok(s[..Fit(s, maxLen)]) <==> !LeavesThree(s, maxLen))
      && (|Encode(s)| <= maxLen ==> r == Ok(s))
  {
    hide WriteRun, ReadRun, FieldBytes, DecodeS7, LeavesThree, Fit, Patch, Encode;
    WriteThenRead(p, refn, d, start, FieldBytes(maxLen, s), pduW, pduR);
    FieldRoundTrip(maxLen, s);
    FieldLayout(maxLen, s);
  }

  /**
   * Reading a STRING field that sticks out of its data block decodes what is there; one wholly outside
   * is an error.
   */
  lemma {:induction false} ReadStringExact(p: Plc, refn: int, d: nat, start: nat, maxLen: nat, pdu: nat)
    requires p.phase == Ready && p.refusals == map[] && d < 65536 && pdu < 65536
    requires maxLen <= 12772 && start + maxLen + 2 <= 0x20_0000
    ensures var r, block := ReadStringRun(p, refn, d, start, maxLen, pdu).1, Db(p.mem, d);
      r == if start >= |block| then Err(ItemNotFound)
           else Ok(DecodeS7(block[start..Min(start + maxLen + 2, |block|)]))
  {
    hide ReadRun, DecodeS7, AllReadable, ReadChunkMax, PieceCount, ServedChunks;
    AllServed(p, maxLen + 2, ReadChunkMax(pdu));
    SmallChunksAreReadable(p.mem, DataBlock(d), start, maxLen + 2, ReadChunkMax(pdu), 0);
    ChunkedReadExact(p, refn, DataBlock(d), start, maxLen + 2, pdu);
    SliceOf(p.mem, d, start, maxLen + 2);
  }

  lemma {:induction false} SliceOf(mem: Memory, d: nat, start: nat, len: nat)
    requires d < 65536 && 0 < len
    ensures Load(mem, DataBlock(d), start, len)
      == if start >= |Db(mem, d)| then [] else Db(mem, d)[start..Min(start + len, |Db(mem, d)|)]
  {
  }
}
