/**
 * The telegrams of protocol/s7comm.mbt: TPKT/COTP/S7 frames for read and write jobs, the
 * connection telegrams, and the client's response parsing. Each array-filling builder is a
 * method proved against a function that names the frame it produces.
 */
module Telegrams {
  import opened Bytes
  import opened Items

  const MAX_PDU := 960
  const PID: Byte := 0x32

  type Frame = seq<Byte>

  // ----- Item encoding -----

  function ACode(a: Area): Byte {
    match a
    case ProcessInputs => 0x81
    case ProcessOutputs => 0x82
    case Flags => 0x83
    case DataBlock(_) => 0x84
    case SystemInfo => 0x85
    case TimerArea => 0x86
    case CounterArea => 0x87
    case Vendor(v) => Lo8(v)
  }

  function ADb(a: Area): int {
    match a
    case DataBlock(v) => v
    case _ => 0
  }

  /** The low 24 bits of `(byte_offset << 3) | bit_offset`. */
  function Address(byteOffset: int, bitOffset: Bit): (a: nat)
    ensures a < 0x100_0000
  {
    (8 * byteOffset + bitOffset) % 0x100_0000
  }

  /** One 12-byte item specification of a job's parameter section. */
  function ItemSpec(wl: int, count: int, area: Area, byteOffset: int, bitOffset: Bit): (s: seq<Byte>)
    ensures |s| == 12
  {
    var a := Address(byteOffset, bitOffset);
    [0x12, 0x0A, 0x10, Lo8(wl), Hi8(count), Lo8(count), Hi8(ADb(area)), Lo8(ADb(area)), ACode(area),
     a / 65536, a / 256 % 256, a % 256]
  }

  function ReadSpecs(items: seq<ReadItem>): (s: seq<Byte>)
    ensures |s| == 12 * |items|
  {
    if items == [] then []
    else
      var it := items[|items| - 1];
      ReadSpecs(items[..|items| - 1]) + ItemSpec(it.wordLen, it.count, it.area, it.byteOffset, it.bitOffset)
  }

  /** The library divides by the element size, so a non-empty item needs a known word length. */
  predicate Encodable(it: WriteItem) {
    it.data == [] || DataSizeByte(it.wordLen) != 0
  }

  predicate AllEncodable(items: seq<WriteItem>) {
    forall i | 0 <= i < |items| :: Encodable(items[i])
  }

  function WriteCount(it: WriteItem): (c: nat)
    requires Encodable(it)
  {
    if |it.data| < 1 then 1 else |it.data| / DataSizeByte(it.wordLen)
  }

  function WriteSpec(it: WriteItem): (s: seq<Byte>)
    requires Encodable(it)
    ensures |s| == 12
  {
    ItemSpec(it.wordLen, WriteCount(it), it.area, it.byteOffset, it.bitOffset)
  }

  function WriteSpecs(items: seq<WriteItem>): (s: seq<Byte>)
    requires AllEncodable(items)
    ensures |s| == 12 * |items|
  {
    if items == [] then []
    else WriteSpecs(items[..|items| - 1]) + WriteSpec(items[|items| - 1])
  }

  function TransportSize(wl: int): Byte {
    if wl == WL_BIT then 3 else if wl == WL_COUNTER || wl == WL_TIMER then 9 else 4
  }

  /** The length field of a data item: bytes for bit, counter and timer items, bits otherwise. */
  function LengthField(wl: int, bytes: nat): nat {
    if wl == WL_BIT || wl == WL_COUNTER || wl == WL_TIMER then bytes else 8 * bytes
  }

  function DataItem(it: WriteItem): (s: seq<Byte>)
    ensures |s| == 4 + |it.data|
  {
    var len := LengthField(it.wordLen, |it.data|);
    [0x00, TransportSize(it.wordLen), Hi8(len), Lo8(len)] + it.data
  }

  function WriteData(items: seq<WriteItem>): seq<Byte> {
    if items == [] then []
    else WriteData(items[..|items| - 1]) + DataItem(items[|items| - 1])
  }

  function TotalData(items: seq<WriteItem>): nat {
    if items == [] then 0 else TotalData(items[..|items| - 1]) + |items[|items| - 1].data|
  }

  /** Appending one item appends one specification and one data item. */
  lemma {:induction false} WriteSnoc(items: seq<WriteItem>, i: nat)
    requires i < |items| && AllEncodable(items)
    ensures WriteSpecs(items[..i + 1]) == WriteSpecs(items[..i]) + WriteSpec(items[i])
    ensures WriteData(items[..i + 1]) == WriteData(items[..i]) + DataItem(items[i])
  {
    assert items[..i + 1][..i] == items[..i];
  }

  lemma {:induction false} NothingWritten(items: seq<WriteItem>)
    requires AllEncodable(items)
    ensures WriteSpecs(items[..0]) == [] && WriteData(items[..0]) == []
  {
  }

  lemma {:induction false} ReadSnoc(items: seq<ReadItem>, i: nat)
    requires i < |items|
    ensures var it := items[i];
      ReadSpecs(items[..i + 1])
      == ReadSpecs(items[..i]) + ItemSpec(it.wordLen, it.count, it.area, it.byteOffset, it.bitOffset)
  {
    assert items[..i + 1][..i] == items[..i];
  }

  // ----- Frames -----

  const COTP_DT: seq<Byte> := [0x02, 0xF0, 0x80]

  function Header(mt: Byte, refn: int, plen: int, dlen: int): (h: seq<Byte>)
    ensures |h| == 10
  {
    [PID, mt, 0x00, 0x00, Hi8(refn), Lo8(refn), Hi8(plen), Lo8(plen), Hi8(dlen), Lo8(dlen)]
  }

  function TpktHeader(total: int): (h: seq<Byte>)
    ensures |h| == 4
  {
    [0x03, 0x00, Hi8(total), Lo8(total)]
  }

  /** The 17 fixed bytes of a job: TPKT header, COTP data header, S7 header. */
  function JobHead(total: int, refn: int, plen: int, dlen: int): (h: seq<Byte>)
    ensures |h| == 17
  {
    [0x03, 0x00, Hi8(total), Lo8(total), 0x02, 0xF0, 0x80,
     PID, 0x01, 0x00, 0x00, Hi8(refn), Lo8(refn), Hi8(plen), Lo8(plen), Hi8(dlen), Lo8(dlen)]
  }

  /** The frame of a job with the given parameter and data sections. */
  function JobFrame(refn: int, params: seq<Byte>, data: seq<Byte>): (f: Frame)
    ensures |f| == 17 + |params| + |data|
  {
    JobHead(17 + |params| + |data|, refn, |params|, |data|) + params + data
  }

  function ReadParams(items: seq<ReadItem>): (p: seq<Byte>)
    ensures |p| == 2 + 12 * |items|
  {
    [0x04, Lo8(|items|)] + ReadSpecs(items)
  }

  function WriteParams(items: seq<WriteItem>): (p: seq<Byte>)
    requires AllEncodable(items)
    ensures |p| == 2 + 12 * |items|
  {
    [0x05, Lo8(|items|)] + WriteSpecs(items)
  }

  function ReadFrame(items: seq<ReadItem>, refn: int): Result<Frame> {
    if 15 + 12 * |items| > MAX_PDU then Err(InvalidPdu("PDU too big"))
    else Ok(JobFrame(refn, ReadParams(items), []))
  }

  function WriteFrame(items: seq<WriteItem>, refn: int): Result<Frame>
    requires AllEncodable(items)
  {
    if 13 + |WriteParams(items)| + |WriteData(items)| > MAX_PDU then Err(InvalidPdu("PDU too big"))
    else Ok(JobFrame(refn, WriteParams(items), WriteData(items)))
  }

  // ----- Builders -----

  /** The copy loop the builders repeat for each section of the packet. */
  method CopyInto(pkt: array<Byte>, off: nat, src: seq<Byte>)
    requires off + |src| <= pkt.Length
    modifies pkt
    ensures pkt[..off] == old(pkt[..off])
    ensures pkt[off..off + |src|] == src
    ensures pkt[off + |src|..] == old(pkt[off + |src|..])
  {
    for i := 0 to |src|
      invariant pkt[..off] == old(pkt[..off])
      invariant pkt[off..off + i] == src[..i]
      invariant pkt[off + |src|..] == old(pkt[off + |src|..])
    {
      pkt[off + i] := src[i];
    }
  }

  /** Writes one item specification at `b`, byte by byte as the builders do. */
  method PutSpec(params: array<Byte>, b: nat, wl: int, count: int, area: Area, byteOffset: int, bitOffset: Bit)
    requires b + 12 <= params.Length
    modifies params
    ensures params[..b + 12] == old(params[..b]) + ItemSpec(wl, count, area, byteOffset, bitOffset)
  {
    params[b] := 0x12;
    params[b + 1] := 0x0A;
    params[b + 2] := 0x10;
    params[b + 3] := Lo8(wl);
    params[b + 4] := Hi8(count);
    params[b + 5] := Lo8(count);
    var db := ADb(area);
    params[b + 6] := Hi8(db);
    params[b + 7] := Lo8(db);
    params[b + 8] := ACode(area);
    var a := Address(byteOffset, bitOffset);
    params[b + 9] := a / 65536;
    params[b + 10] := a / 256 % 256;
    params[b + 11] := a % 256;
  }

  /** The fixed bytes of a job: four TPKT bytes, then the COTP and S7 headers copied in. */
  method PutJobHead(pkt: array<Byte>, refn: int, plen: int, dlen: int)
    requires pkt.Length >= 17
    modifies pkt
    ensures pkt[..17] == JobHead(pkt.Length, refn, plen, dlen)
  {
    hide Hi8, Lo8;
    var hdr := Header(0x01, refn, plen, dlen);
    pkt[0] := 0x03;
    pkt[1] := 0x00;
    pkt[2] := Hi8(pkt.Length);
    pkt[3] := Lo8(pkt.Length);
    assert pkt[..4] == TpktHeader(pkt.Length);
    CopyInto(pkt, 4, COTP_DT);
    assert pkt[..7] == pkt[..4] + pkt[4..7];
    CopyInto(pkt, 7, hdr);
    assert pkt[..17] == pkt[..7] + pkt[7..17];
  }

  /** Assembles TPKT, COTP, S7 header, parameters and data into a fresh packet. */
  method Assemble(refn: int, params: seq<Byte>, data: seq<Byte>) returns (pkt: array<Byte>)
    ensures fresh(pkt) && pkt[..] == JobFrame(refn, params, data)
  {
    hide JobHead;
    var tlen := 3 + 10 + |params| + |data| + 4;
    pkt := new Byte[tlen](_ => 0x00);
    PutJobHead(pkt, refn, |params|, |data|);
    var off := 17;
    CopyInto(pkt, off, params);
    assert pkt[..17 + |params|] == pkt[..17] + pkt[17..17 + |params|];
    off := off + |params|;
    CopyInto(pkt, off, data);
    assert pkt[..] == pkt[..17 + |params|] + pkt[17 + |params|..];
  }

  method NewParams(func: Byte, n: nat) returns (params: array<Byte>)
    ensures fresh(params) && params.Length == 2 + n * 12 && params[..2] == [func, Lo8(n)]
  {
    params := new Byte[2 + n * 12](_ => 0x00);
    params[0] := func;
    params[1] := Lo8(n);
  }

  /** The parameter section of a read job, filled item by item. */
  method FillReadParams(items: seq<ReadItem>) returns (params: array<Byte>)
    ensures fresh(params) && params[..] == ReadParams(items)
  {
    var n := |items|;
    params := NewParams(0x04, n);
    ghost var head := params[..2];
    for i := 0 to n
      invariant params[..2 + i * 12] == head + ReadSpecs(items[..i])
    {
      var it := items[i];
      ghost var done := params[..2 + i * 12];
      PutSpec(params, 2 + i * 12, it.wordLen, it.count, it.area, it.byteOffset, it.bitOffset);
      ReadSnoc(items, i);
      ghost var spec := ItemSpec(it.wordLen, it.count, it.area, it.byteOffset, it.bitOffset);
      assert params[..2 + i * 12 + 12] == done + spec;
      assert done + spec == head + (ReadSpecs(items[..i]) + spec);
      assert 2 + (i + 1) * 12 == 2 + i * 12 + 12;
    }
    assert items[..n] == items;
    assert params[..2 + n * 12] == params[..];
  }

  method BuildReadPdu(items: seq<ReadItem>, refn: int) returns (r: Result<Frame>)
    ensures r == ReadFrame(items, refn)
  {
    var params := FillReadParams(items);
    if 3 + 10 + params.Length > MAX_PDU {
      return Err(InvalidPdu("PDU too big"));
    }
    var pkt := Assemble(refn, params[..], []);
    r := Ok(pkt[..]);
  }

  /** Pushes one data item: reserved byte, transport size, length field, then the bytes one by one. */
  method PushDataItem(before: seq<Byte>, it: WriteItem) returns (wdata: seq<Byte>)
    ensures wdata == before + DataItem(it)
  {
    var dl := |it.data|;
    var bitLen := LengthField(it.wordLen, dl);
    wdata := before + [0x00];
    wdata := wdata + [TransportSize(it.wordLen)];
    wdata := wdata + [Hi8(bitLen)];
    wdata := wdata + [Lo8(bitLen)];
    ghost var head := wdata;
    for j := 0 to dl
      invariant wdata == head + it.data[..j]
    {
      wdata := wdata + [it.data[j]];
    }
  }

  method PutWriteSpec(params: array<Byte>, b: nat, it: WriteItem)
    requires b + 12 <= params.Length && Encodable(it)
    modifies params
    ensures params[..b + 12] == old(params[..b]) + WriteSpec(it)
  {
    var dl := |it.data|;
    var cnt := if dl < 1 then 1 else dl / DataSizeByte(it.wordLen);
    PutSpec(params, b, it.wordLen, cnt, it.area, it.byteOffset, it.bitOffset);
  }

  /** The parameter and data sections of a write job, filled side by side in one loop. */
  method FillWriteSections(items: seq<WriteItem>) returns (params: array<Byte>, wdata: seq<Byte>)
    requires AllEncodable(items)
    ensures fresh(params) && params[..] == WriteParams(items)
    ensures wdata == WriteData(items)
  {
    hide WriteSpecs, WriteSpec, WriteData, DataItem;
    var n := |items|;
    params := NewParams(0x05, n);
    wdata := [];
    NothingWritten(items);
    ghost var head, specs: seq<Byte> := params[..2], [];
    for i := 0 to n
      invariant specs == WriteSpecs(items[..i])
      invariant params[..2 + i * 12] == head + specs
      invariant wdata == WriteData(items[..i])
    {
      WriteSnoc(items, i);
      PutWriteSpec(params, 2 + i * 12, items[i]);
      assert params[..2 + i * 12 + 12] == head + (specs + WriteSpec(items[i]));
      specs := specs + WriteSpec(items[i]);
      wdata := PushDataItem(wdata, items[i]);
    }
    assert items[..n] == items;
    assert params[..2 + n * 12] == params[..];
  }

  method BuildWritePdu(items: seq<WriteItem>, refn: int) returns (r: Result<Frame>)
    requires AllEncodable(items)
    ensures r == WriteFrame(items, refn)
  {
    var params, wdata := FillWriteSections(items);
    if 3 + 10 + params.Length + |wdata| > MAX_PDU {
      return Err(InvalidPdu("PDU too big"));
    }
    var pkt := Assemble(refn, params[..], wdata);
    r := Ok(pkt[..]);
  }

  // ----- Locating the S7 header -----

  /** The client masks the error flag (bit 7) of the message type; the simulator does not. */
  predicate HeaderAt(data: seq<Byte>, i: nat, masked: bool) {
    && i + 1 < |data|
    && data[i] == PID
    && (if masked then data[i + 1] % 128 else data[i + 1]) in {0x01, 0x03, 0x07}
  }

  /** Index of the first header at or after `from`, or -1. */
  function FindFrom(data: seq<Byte>, from: nat, masked: bool): (r: int)
    requires from <= |data|
    ensures r == -1 || (from <= r && HeaderAt(data, r, masked))
    ensures forall i: nat | from <= i && (r == -1 || i < r) :: !HeaderAt(data, i, masked)
    decreases |data| - from
  {
    if from == |data| then -1
    else if HeaderAt(data, from, masked) then from
    else FindFrom(data, from + 1, masked)
  }

  function FindS7(data: seq<Byte>): (r: int)
    ensures r == -1 || (0 <= r && HeaderAt(data, r, true))
    ensures forall i: nat | r == -1 || i < r :: !HeaderAt(data, i, true)
  {
    FindFrom(data, 0, true)
  }

  method ScanForS7(data: seq<Byte>) returns (r: int)
    ensures r == FindS7(data)
  {
    for i := 0 to |data|
      invariant forall k: nat | k < i :: !HeaderAt(data, k, true)
    {
      if i + 1 < |data| {
        var mt := data[i + 1] % 128;
        if data[i] == PID && (mt == 0x01 || mt == 0x03 || mt == 0x07) {
          assert HeaderAt(data, i, true);
          return i;
        }
      }
    }
    r := -1;
  }

  // ----- Responses as the client reads them -----

  function ParseResponse(data: seq<Byte>): Result<seq<seq<Byte>>> {
    var n := |data|;
    var s7 := FindS7(data);
    if s7 < 0 then Err(InvalidPdu("No S7 header"))
    else if data[s7 + 1] >= 0x80 then
      Err(PlcError(if s7 + 12 < n then U16(data[s7 + 10], data[s7 + 11]) else 0))
    else if s7 + 18 > n then Err(InvalidPdu("Too short"))
    else if data[s7 + 14] != 0xFF then Err(PlcError(data[s7 + 14]))
    else Ok([data[s7 + 18..]])
  }

  method ParseReadResponse(data: seq<Byte>) returns (r: Result<seq<seq<Byte>>>)
    ensures r == ParseResponse(data)
  {
    var n := |data|;
    var s7 := ScanForS7(data);
    if s7 < 0 {
      return Err(InvalidPdu("No S7 header"));
    }
    if s7 + 2 > n {
      return Err(InvalidPdu("Too short"));
    }
    if data[s7 + 1] / 128 % 2 != 0 {
      var err := if s7 + 12 < n then U16(data[s7 + 10], data[s7 + 11]) else 0;
      return Err(PlcError(err));
    }
    if s7 + 18 > n {
      return Err(InvalidPdu("Too short"));
    }
    var rc := data[s7 + 14];
    if rc != 0xFF {
      return Err(PlcError(rc));
    }
    var payload: seq<Byte> := [];
    for i := s7 + 18 to n
      invariant payload == data[s7 + 18..i]
    {
      payload := payload + [data[i]];
    }
    assert payload == data[s7 + 18..];
    r := Ok([payload]);
  }

  /** The return-code check at the end of `exec_write`. */
  function CheckWriteAck(resp: seq<Byte>): Result<()> {
    var s7 := FindS7(resp);
    if s7 < 0 || |resp| <= s7 + 14 then Err(InvalidPdu("Bad write response"))
    else if resp[s7 + 14] != 0xFF then Err(PlcError(resp[s7 + 14]))
    else Ok(())
  }

  // ----- Connection telegrams -----

  function CrHead(total: nat, sl: nat): (h: seq<Byte>)
    ensures |h| == 16
  {
    TpktHeader(total) + [0x11, 0xE0, 0x00, 0x00, 0x00, 0x02, 0x00, 0xC0, 0x01, 0x0A, 0xC1, Lo8(sl)]
  }

  /** COTP connection request with calling and called TSAP (RFC 905, section 13.3). */
  function CotpCr(lsap: seq<Byte>, rsap: seq<Byte>): (f: Frame)
    ensures |f| == 18 + |lsap| + |rsap|
  {
    CrHead(18 + |lsap| + |rsap|, |lsap|) + lsap + [0xC2, Lo8(|rsap|)] + rsap
  }

  method BuildCotpCr(lsap: seq<Byte>, rsap: seq<Byte>) returns (r: Frame)
    ensures r == CotpCr(lsap, rsap)
  {
    var sl, rl := |lsap|, |rsap|;
    var total := 18 + sl + rl;
    var pkt := new Byte[total](_ => 0x00);
    var head := CrHead(total, sl);
    CopyInto(pkt, 0, head);
    assert pkt[..16] == head;
    CopyInto(pkt, 16, lsap);
    var pos := 16 + sl;
    assert pkt[..pos] == head + lsap;
    CopyInto(pkt, pos, [0xC2, Lo8(rl)]);
    assert pkt[..pos + 2] == head + lsap + [0xC2, Lo8(rl)];
    CopyInto(pkt, pos + 2, rsap);
    assert pkt[..] == head + lsap + [0xC2, Lo8(rl)] + rsap;
    r := pkt[..];
  }

  function ParseCotpCc(data: seq<Byte>): Result<int> {
    if |data| < 7 then Err(InvalidPdu("Too short"))
    else if data[0] != 0x03 then Err(InvalidPdu("Bad TPKT"))
    else if data[4] != 0x11 || data[5] != 0xD0 then Err(InvalidPdu("Not CC"))
    else Ok(1024)
  }

  /** The fixed setup-communication job: PDU reference 0, requested PDU size 960. */
  function SetupFrame(): (f: Frame)
    ensures |f| == 25
  {
    JobFrame(0, [0xF0, 0x00, 0x00, 0x08, 0x00, 0x08, Hi8(960), Lo8(960)], [])
  }

  function ParseSetupResp(data: seq<Byte>): Result<int> {
    if |data| < 22 then Err(InvalidPdu("Too short"))
    else if FindS7(data) < 0 then Err(InvalidPdu("No S7 header"))
    else if |data| >= 28 then Ok(U16(data[25], data[26]))
    else Ok(480)
  }
}
