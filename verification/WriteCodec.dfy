/**
 * Write jobs across the wire: what the MAX_PDU guard guarantees about every length field, and when
 * the simulator's offset-accumulating loop recovers exactly the items the client encoded.
 */
module WriteCodec {
  import opened Bytes
  import opened Items
  import opened Telegrams
  import opened Simulator

  // ----- Where each item lies -----

  lemma {:induction false} SpecAt(items: seq<WriteItem>, i: nat)
    requires i < |items| && AllEncodable(items)
    ensures WriteSpecs(items)[12 * i..12 * i + 12] == WriteSpec(items[i])
  {
    var n := |items| - 1;
    if i < n {
      SpecAt(items[..n], i);
      assert WriteSpecs(items)[12 * i..12 * i + 12] == WriteSpecs(items[..n])[12 * i..12 * i + 12];
    }
  }

  lemma {:induction false} DataAt(items: seq<WriteItem>, i: nat)
    requires i < |items|
    ensures var o := |WriteData(items[..i])|;
      && o + |DataItem(items[i])| <= |WriteData(items)|
      && WriteData(items)[o..o + |DataItem(items[i])|] == DataItem(items[i])
      && (i + 1 < |items| ==> o + |DataItem(items[i])| + 4 <= |WriteData(items)|)
  {
    hide DataItem;
    var n := |items| - 1;
    if i < n {
      DataAt(items[..n], i);
      assert items[..n][..i] == items[..i];
      var o := |WriteData(items[..i])|;
      var e := o + |DataItem(items[i])|;
      assert WriteData(items) == WriteData(items[..n]) + DataItem(items[n]);
      assert WriteData(items)[o..e] == WriteData(items[..n])[o..e];
    }
  }

  lemma {:induction false} DataSize(items: seq<WriteItem>)
    ensures |WriteData(items)| == 4 * |items| + TotalData(items)
  {
    if items != [] {
      DataSize(items[..|items| - 1]);
    }
  }

  lemma {:induction false} ItemFits(items: seq<WriteItem>, i: nat)
    requires i < |items|
    ensures |items[i].data| <= TotalData(items)
  {
    if i < |items| - 1 {
      ItemFits(items[..|items| - 1], i);
    }
  }

  /** The builder's guard, in terms of the items alone. */
  predicate Accepted(items: seq<WriteItem>) {
    15 + 16 * |items| + TotalData(items) <= MAX_PDU
  }

  lemma {:induction false} GuardExact(items: seq<WriteItem>, refn: int)
    requires AllEncodable(items)
    ensures WriteFrame(items, refn).Ok? <==> Accepted(items)
    ensures Accepted(items)
      ==> WriteFrame(items, refn) == Ok(JobFrame(refn, WriteParams(items), WriteData(items)))
  {
    DataSize(items);
  }

  // ----- Addresses -----

  /** The 24-bit address keeps the bit and the byte offset modulo 2^21, and nothing else. */
  lemma {:induction false} AddressExact(b1: int, t1: Bit, b2: int, t2: Bit)
    ensures Address(b1, t1) / 8 == b1 % 0x20_0000 && Address(b1, t1) % 8 == t1
    ensures Address(b1, t1) == Address(b2, t2) <==> t1 == t2 && b1 % 0x20_0000 == b2 % 0x20_0000
  {
    AddressParts(b1, t1);
    AddressParts(b2, t2);
  }

  lemma {:induction false} AddressParts(b: int, t: Bit)
    ensures Address(b, t) == 8 * (b % 0x20_0000) + t
  {
    var q, r := b / 0x20_0000, b % 0x20_0000;
    assert 8 * b + t == 0x100_0000 * q + (8 * r + t);
  }

  // ----- Strict parser -----

  /** The area that a code and a data-block number name; only a data block has a number. */
  function AreaOfCode(code: Byte, db: nat): Option<Area> {
    if code == 0x84 then Some(DataBlock(db))
    else if db != 0 then None
    else if code == 0x81 then Some(ProcessInputs)
    else if code == 0x82 then Some(ProcessOutputs)
    else if code == 0x83 then Some(Flags)
    else if code == 0x85 then Some(SystemInfo)
    else if code == 0x86 then Some(TimerArea)
    else if code == 0x87 then Some(CounterArea)
    else Some(Vendor(code))
  }

  /** What is left of an area on the wire: 16 bits of a data-block number, 8 bits of a vendor code. */
  function WireArea(a: Area): Area {
    match a
    case DataBlock(n) => DataBlock(n % 65536)
    case Vendor(v) => AreaOfCode(v % 256, 0).value
    case _ => a
  }

  /** An item specification as it appears on the wire. */
  datatype WireSpec = WireSpec(wl: Byte, count: nat, area: Area, byteOffset: nat, bitOffset: nat)

  function SpecSent(wl: int, count: int, area: Area, byteOffset: int, bitOffset: Bit): WireSpec {
    WireSpec(wl % 256, count % 65536, WireArea(area), byteOffset % 0x20_0000, bitOffset)
  }

  /** An item of a write job as it appears on the wire. */
  datatype WireItem = WireItem(spec: WireSpec, transport: Byte, data: seq<Byte>)

  /** Bits travel under transport size 3, counters and timers under 9, everything else under 4. */
  function WireOf(it: WriteItem): WireItem
    requires Encodable(it)
  {
    var count := if it.data == [] then 1 else |it.data| / WordSize(it.wordLen % 256);
    var transport := if it.wordLen == 0x01 then 3 else if it.wordLen in {0x1C, 0x1D} then 9 else 4;
    WireItem(SpecSent(it.wordLen, count, it.area, it.byteOffset, it.bitOffset), transport, it.data)
  }

  /** The word-length code of every data type. */
  function TypeCode(dt: DataType): Byte {
    match dt
    case Bool => 0x01
    case Byte_ | Char_ | String_ | ByteArray(_) => 0x02
    case Word | S5Time | Counter => 0x04
    case Int_ => 0x05
    case DWord | Time | TimeOfDay | Date | IecTimer | DateAndTime => 0x06
    case DInt => 0x07
    case Real_ => 0x08
    case Timer => 0x1D
  }

  /** A new item goes out under its type's code, at bit 0, one element or as many bytes as the array has. */
  lemma {:induction false} NewItemsOnWire(area: Area, off: int, dt: DataType, data: seq<Byte>)
    ensures var it := NewReadItem(area, off, dt);
      StrictSpec(ItemSpec(it.wordLen, it.count, it.area, it.byteOffset, it.bitOffset))
      == Some(WireSpec(TypeCode(dt), if dt.ByteArray? then dt.len % 65536 else 1, WireArea(area), off % 0x20_0000, 0))
    ensures var it := NewWriteItem(area, off, dt, data);
      && Encodable(it) && it.data == data
      && WireOf(it).spec.(count := 0) == WireSpec(TypeCode(dt), 0, WireArea(area), off % 0x20_0000, 0)
  {
    hide StrictSpec, ItemSpec, WireArea, WordSize;
    var it := NewReadItem(area, off, dt);
    StrictSpecOf(it.wordLen, it.count, it.area, it.byteOffset, it.bitOffset);
  }

  function WireItems(items: seq<WriteItem>): seq<WireItem>
    requires AllEncodable(items)
  {
    seq(|items|, i requires 0 <= i < |items| => WireOf(items[i]))
  }

  /** Bytes per element of every word length, and of no other. */
  lemma {:induction false} ElementSizes(wl: int)
    ensures DataSizeByte(wl) == 1 <==> wl in {0x01, 0x02, 0x03}
    ensures DataSizeByte(wl) == 2 <==> wl in {0x04, 0x05, 0x1C, 0x1D}
    ensures DataSizeByte(wl) == 4 <==> wl in {0x06, 0x07, 0x08}
    ensures DataSizeByte(wl) in {0, 1, 2, 4}
    ensures DataSizeByte(wl) != 0 ==> WordSize(wl % 256) == DataSizeByte(wl)
    ensures 0 <= wl < 256 && DataSizeByte(wl) == 0 ==> WordSize(wl) == 4
  {
  }

  /** The byte length a data item declares: bits for transport size 4, bytes for 3 and 9. */
  function DeclaredLength(ts: Byte, field: nat): Option<nat> {
    if ts == 4 then if field % 8 == 0 then Some(field / 8) else None
    else if ts == 3 || ts == 9 then Some(field)
    else None
  }

  /** Reads the data item at `o`, trusting nothing but its own transport size and length field. */
  function StrictData(wd: seq<Byte>, o: nat): Option<(Byte, seq<Byte>)> {
    if o + 4 > |wd| || wd[o] != 0x00 then None
    else
      match DeclaredLength(wd[o + 1], U16(wd[o + 2], wd[o + 3]))
      case None => None
      case Some(len) => if o + 4 + len > |wd| then None else Some((wd[o + 1], wd[o + 4..o + 4 + len]))
  }

  /** Reads one item specification with literal codes. */
  function StrictSpec(spec: seq<Byte>): Option<WireSpec>
    requires |spec| == 12
  {
    if spec[0] != 0x12 || spec[1] != 0x0A || spec[2] != 0x10 then None
    else
      var address := 65536 * (spec[9] as int) + 256 * (spec[10] as int) + spec[11];
      match AreaOfCode(spec[8], 256 * (spec[6] as int) + spec[7])
      case None => None
      case Some(area) => Some(WireSpec(spec[3], 256 * (spec[4] as int) + spec[5], area, address / 8, address % 8))
  }

  function StrictWalk(specs: seq<Byte>, wd: seq<Byte>, n: nat): Option<(nat, seq<WireItem>)>
    requires 12 * n <= |specs|
  {
    if n == 0 then Some((0, []))
    else
      match StrictWalk(specs, wd, n - 1)
      case None => None
      case Some((o, ws)) =>
        match StrictData(wd, o)
        case None => None
        case Some((ts, data)) =>
          match StrictSpec(specs[12 * (n - 1)..12 * (n - 1) + 12])
          case None => None
          case Some(spec) => Some((o + 4 + |data|, ws + [WireItem(spec, ts, data)]))
  }

  /** The sections of a job whose length fields agree with the bytes that are there. */
  datatype StrictJob = StrictJob(refn: nat, func: Byte, count: nat, specs: seq<Byte>, data: seq<Byte>)

  /** Accepts a job only if every length field agrees with the bytes that are there. */
  function StrictSections(f: Frame): (r: Option<StrictJob>)
    ensures r.Some? ==> |r.value.specs| == 12 * r.value.count
  {
    if |f| < 19 || f[0] != 0x03 || f[1] != 0x00 || 256 * (f[2] as int) + f[3] != |f| then None
    else if f[4] != 0x02 || f[5] != 0xF0 || f[6] != 0x80 then None
    else if f[7] != 0x32 || f[8] != 0x01 || f[9] != 0x00 || f[10] != 0x00 then None
    else
      var plen, dlen := 256 * (f[13] as int) + f[14], 256 * (f[15] as int) + f[16];
      if 17 + plen + dlen != |f| || plen != 2 + 12 * (f[18] as int) then None
      else Some(StrictJob(256 * (f[11] as int) + f[12], f[17], f[18], f[19..17 + plen], f[17 + plen..]))
  }

  /** A write job, by its length fields and literal codes alone. */
  function StrictParse(f: Frame): Option<(nat, seq<WireItem>)> {
    match StrictSections(f)
    case None => None
    case Some(job) =>
      if job.func != 0x05 then None
      else
        match StrictWalk(job.specs, job.data, job.count)
        case None => None
        case Some((o, ws)) => if o != |job.data| then None else Some((job.refn, ws))
  }

  function StrictSpecs(specs: seq<Byte>, n: nat): Option<seq<WireSpec>>
    requires 12 * n <= |specs|
  {
    if n == 0 then Some([])
    else
      match (StrictSpecs(specs, n - 1), StrictSpec(specs[12 * (n - 1)..12 * (n - 1) + 12]))
      case (Some(ws), Some(w)) => Some(ws + [w])
      case _ => None
  }

  /** A read job, by its length fields and literal codes alone. */
  function StrictReadParse(f: Frame): Option<(nat, seq<WireSpec>)> {
    match StrictSections(f)
    case None => None
    case Some(job) =>
      if job.func != 0x04 || job.data != [] then None
      else match StrictSpecs(job.specs, job.count) case None => None case Some(ws) => Some((job.refn, ws))
  }

  lemma {:induction false} DataItemBytes(items: seq<WriteItem>, i: nat)
    requires i < |items|
    ensures var wd, o, it := WriteData(items), |WriteData(items[..i])|, items[i];
      var field := LengthField(it.wordLen, |it.data|);
      && o + 4 + |it.data| <= |wd|
      && wd[o] == 0x00 && wd[o + 1] == TransportSize(it.wordLen)
      && wd[o + 2] == Hi8(field) && wd[o + 3] == Lo8(field)
      && wd[o + 4..o + 4 + |it.data|] == it.data
  {
    hide Hi8, Lo8, WriteData, TransportSize, LengthField;
    DataAt(items, i);
    var wd, o, it := WriteData(items), |WriteData(items[..i])|, items[i];
    var d := DataItem(it);
    var s := wd[o..o + |d|];
    assert wd[o] == s[0] && wd[o + 1] == s[1] && wd[o + 2] == s[2] && wd[o + 3] == s[3];
    assert d[4..] == it.data;
    assert wd[o + 4..o + |d|] == s[4..];
  }

  lemma {:induction false} StrictDataAt(items: seq<WriteItem>, i: nat)
    requires i < |items| && Accepted(items)
    ensures StrictData(WriteData(items), |WriteData(items[..i])|)
      == Some((TransportSize(items[i].wordLen), items[i].data))
  {
    DataItemBytes(items, i);
    ItemFits(items, i);
    StrictDataOf(WriteData(items), |WriteData(items[..i])|, items[i].wordLen, items[i].data);
  }

  lemma {:induction false} StrictDataOf(wd: seq<Byte>, o: nat, wl: int, data: seq<Byte>)
    requires o + 4 + |data| <= |wd| && |data| < 8192
    requires wd[o] == 0x00 && wd[o + 1] == TransportSize(wl)
    requires wd[o + 2] == Hi8(LengthField(wl, |data|)) && wd[o + 3] == Lo8(LengthField(wl, |data|))
    requires wd[o + 4..o + 4 + |data|] == data
    ensures StrictData(wd, o) == Some((TransportSize(wl), data))
  {
    hide Hi8, Lo8, U16;
    SplitJoin(LengthField(wl, |data|));
  }

  lemma {:induction false} AreaRecovered(area: Area)
    ensures AreaOfCode(ACode(area), ADb(area) % 65536) == Some(WireArea(area))
  {
  }

  lemma {:induction false} SpecBytes(wl: int, count: int, area: Area, byteOffset: int, bitOffset: Bit)
    ensures var s, a := ItemSpec(wl, count, area, byteOffset, bitOffset), Address(byteOffset, bitOffset);
      && s[0] == 0x12 && s[1] == 0x0A && s[2] == 0x10 && s[3] == Lo8(wl) && s[4] == Hi8(count) && s[5] == Lo8(count)
      && s[6] == Hi8(ADb(area)) && s[7] == Lo8(ADb(area)) && s[8] == ACode(area)
      && s[9] == a / 65536 && s[10] == a / 256 % 256 && s[11] == a % 256
  {
    hide Hi8, Lo8, ACode, ADb, Address;
  }

  /** Every field of an item specification is read back from the wire. */
  lemma {:induction false} StrictSpecOf(wl: int, count: int, area: Area, byteOffset: int, bitOffset: Bit)
    ensures StrictSpec(ItemSpec(wl, count, area, byteOffset, bitOffset))
      == Some(SpecSent(wl, count, area, byteOffset, bitOffset))
  {
    hide ItemSpec, ACode, ADb, Address, AreaOfCode, WireArea, Hi8;
    SpecBytes(wl, count, area, byteOffset, bitOffset);
    Split16(count);
    Split16(ADb(area));
    SplitJoin24(Address(byteOffset, bitOffset));
    AddressExact(byteOffset, bitOffset, 0, 0);
    AreaRecovered(area);
  }

  lemma {:induction false} WireOfItem(it: WriteItem)
    requires Encodable(it) && |it.data| < 65535
    ensures StrictSpec(WriteSpec(it)) == Some(WireOf(it).spec)
    ensures TransportSize(it.wordLen) == WireOf(it).transport && it.data == WireOf(it).data
  {
    hide StrictSpec, ItemSpec, WireArea;
    CountBound(it);
    ElementSizes(it.wordLen);
    StrictSpecOf(it.wordLen, WriteCount(it), it.area, it.byteOffset, it.bitOffset);
  }

  lemma {:induction false} CountBound(it: WriteItem)
    requires Encodable(it)
    ensures WriteCount(it) <= |it.data| + 1
    ensures it.data != []
      ==> WriteCount(it) * DataSizeByte(it.wordLen) == |it.data| - |it.data| % DataSizeByte(it.wordLen)
  {
  }

  lemma {:induction false} WireSnoc(items: seq<WriteItem>, i: nat)
    requires i < |items| && AllEncodable(items)
    ensures WireItems(items[..i + 1]) == WireItems(items[..i]) + [WireOf(items[i])]
  {
  }

  lemma {:induction false} StrictWalkItems(items: seq<WriteItem>, n: nat)
    requires n <= |items| && AllEncodable(items) && Accepted(items)
    ensures StrictWalk(WriteSpecs(items), WriteData(items), n)
      == Some((|WriteData(items[..n])|, WireItems(items[..n])))
  {
    hide StrictData, StrictSpec, WriteSpec, WriteSpecs, WriteData, DataItem, WireOf, TotalData;
    if n > 0 {
      StrictWalkItems(items, n - 1);
      StrictDataAt(items, n - 1);
      SpecAt(items, n - 1);
      ItemFits(items, n - 1);
      WireOfItem(items[n - 1]);
      WriteSnoc(items, n - 1);
      WireSnoc(items, n - 1);
      hide WireItems;
    } else {
      assert items[..n] == [] && WireItems(items[..n]) == [];
      NothingWritten(items);
    }
  }

  predicate IsJobHead(h: seq<Byte>, total: nat, refn: int, plen: nat, dlen: nat)
    requires |h| >= 17
  {
    && h[0] == 0x03 && h[1] == 0x00 && U16(h[2], h[3]) == total && h[4] == 0x02 && h[5] == 0xF0 && h[6] == 0x80
    && h[7] == PID && h[8] == 0x01 && h[9] == 0x00 && h[10] == 0x00 && U16(h[11], h[12]) == refn % 65536
    && U16(h[13], h[14]) == plen && U16(h[15], h[16]) == dlen
  }

  lemma {:induction false} JobHeadBytes(total: nat, refn: int, plen: nat, dlen: nat)
    requires total < 65536 && plen < 65536 && dlen < 65536
    ensures IsJobHead(JobHead(total, refn, plen, dlen), total, refn, plen, dlen)
  {
    hide Hi8, Lo8, U16;
    SplitJoin(total);
    SplitJoin(refn);
    SplitJoin(plen);
    SplitJoin(dlen);
  }

  /** The fixed bytes, length fields and sections of a job frame that fits its 16-bit fields. */
  lemma {:induction false} JobBytes(refn: int, params: seq<Byte>, data: seq<Byte>)
    requires 17 + |params| + |data| < 65536
    ensures var f := JobFrame(refn, params, data);
      && IsJobHead(f, |f|, refn, |params|, |data|)
      && f[17..17 + |params|] == params && f[17 + |params|..] == data
  {
    hide JobHead, U16;
    var h := JobHead(17 + |params| + |data|, refn, |params|, |data|);
    JobHeadBytes(17 + |params| + |data|, refn, |params|, |data|);
    var f := JobFrame(refn, params, data);
    assert forall k: nat {:trigger f[k]} | k < 17 :: f[k] == h[k];
  }

  /**
   * The guard is exact and makes narrowing lossless: a frame is built exactly when the size fits,
   * and then a parser that walks by the length fields alone gets back every item, for any number
   * of items, element sizes and data lengths.
   */
  lemma {:induction false} NarrowingIsLossless(items: seq<WriteItem>, refn: int)
    requires AllEncodable(items)
    ensures WriteFrame(items, refn).Ok? <==> 15 + 16 * |items| + TotalData(items) <= 960
    ensures WriteFrame(items, refn).Ok?
      ==> StrictParse(WriteFrame(items, refn).value) == Some((refn % 65536, WireItems(items)))
  {
    GuardExact(items, refn);
    if Accepted(items) {
      DataSize(items);
      StrictWalkItems(items, |items|);
      assert items[..|items|] == items;
      hide WireItems, Encodable, WriteSpec, StrictParse, StrictWalk, WriteSpecs, WriteData, TotalData, JobFrame;
      StrictParseJob(refn, |items|, WriteSpecs(items), WriteData(items), WireItems(items));
    }
  }

  lemma {:induction false} StrictParseJob(refn: int, n: nat, specs: seq<Byte>, wd: seq<Byte>, ws: seq<WireItem>)
    requires n < 256 && |specs| == 12 * n && 19 + |specs| + |wd| < 65536
    requires StrictWalk(specs, wd, n) == Some((|wd|, ws))
    ensures StrictParse(JobFrame(refn, [0x05, Lo8(n)] + specs, wd)) == Some((refn % 65536, ws))
  {
    hide StrictWalk, StrictSections, JobFrame;
    SectionsOf(refn, 0x05, n, specs, wd);
  }

  lemma {:induction false} SectionsOf(refn: int, func: Byte, n: nat, specs: seq<Byte>, wd: seq<Byte>)
    requires n < 256 && |specs| == 12 * n && 19 + |specs| + |wd| < 65536
    ensures StrictSections(JobFrame(refn, [func, Lo8(n)] + specs, wd))
      == Some(StrictJob(refn % 65536, func, n, specs, wd))
  {
    hide JobFrame, Lo8;
    var params := [func, Lo8(n)] + specs;
    var f := JobFrame(refn, params, wd);
    JobBytes(refn, params, wd);
    ParamsSplit(f, [func, Lo8(n)], specs);
    ByteFits(n);
  }

  lemma {:induction false} ByteFits(n: nat)
    requires n < 256
    ensures Lo8(n) == n
  {
  }

  lemma {:induction false} ParamsSplit(f: Frame, head: seq<Byte>, specs: seq<Byte>)
    requires |head| == 2 && 19 + |specs| <= |f| && f[17..19 + |specs|] == head + specs
    ensures f[17] == head[0] && f[18] == head[1] && f[19..19 + |specs|] == specs
  {
    var params := f[17..19 + |specs|];
    assert f[17] == params[0] && f[18] == params[1] && f[19..19 + |specs|] == params[2..];
  }

  // ----- The simulator's decoder -----

  function PokeOf(it: WriteItem): Poke {
    Poke(ACode(it.area), ADb(it.area) % 65536, it.byteOffset % 0x20_0000, it.data)
  }

  function PokesOf(items: seq<WriteItem>): (ps: seq<Poke>)
    ensures |ps| == |items|
  {
    seq(|items|, i requires 0 <= i < |items| => PokeOf(items[i]))
  }

  predicate WholeElements(it: WriteItem)
    requires Encodable(it)
  {
    it.data == [] || |it.data| % DataSizeByte(it.wordLen) == 0
  }

  /** Every item holds whole elements, and only the last one may be empty. */
  predicate Aligned(items: seq<WriteItem>)
    requires AllEncodable(items)
  {
    forall i | 0 <= i < |items| :: WholeElements(items[i]) && (i + 1 < |items| ==> items[i].data != [])
  }

  lemma {:induction false} HeadOf(items: seq<WriteItem>, i: nat)
    requires i < |items| && AllEncodable(items) && Accepted(items)
    ensures HeadAt(WriteParams(items), i)
      == ItemHead(ACode(items[i].area), ADb(items[i].area) % 65536, items[i].byteOffset % 0x20_0000,
                  WriteCount(items[i]) * WordSize(Lo8(items[i].wordLen)))
  {
    hide HeadAt, ItemSpec, WriteSpecs, TotalData, WordSize, ACode, ADb;
    SpecAt(items, i);
    ItemFits(items, i);
    var it, p, o := items[i], WriteParams(items), 2 + 12 * i;
    assert p[o..o + 12] == WriteSpecs(items)[12 * i..12 * i + 12];
    CountBound(it);
    hide WriteCount;
    HeadOfSpec(p, i, it.wordLen, WriteCount(it), it.area, it.byteOffset, it.bitOffset);
  }

  /** What the simulator reads back from an item specification. */
  lemma {:induction false} HeadOfSpec(p: seq<Byte>, i: nat, wl: int, count: int, area: Area, byteOffset: int,
          bitOffset: Bit)
    requires 2 + 12 * (i + 1) <= |p|
    requires p[2 + 12 * i..2 + 12 * i + 12] == ItemSpec(wl, count, area, byteOffset, bitOffset)
    ensures HeadAt(p, i)
      == ItemHead(ACode(area), ADb(area) % 65536, byteOffset % 0x20_0000, count % 65536 * WordSize(Lo8(wl)))
  {
    hide Hi8, Lo8, U16, WordSize, Address, ACode, ADb;
    var o := 2 + 12 * i;
    var s := ItemSpec(wl, count, area, byteOffset, bitOffset);
    var a := Address(byteOffset, bitOffset);
    assert forall k: nat {:trigger s[k]} | k < 12 :: p[o..o + 12][k] == s[k];
    assert p[o + 3] == s[3] == Lo8(wl);
    var h := HeadAt(p, i);
    assert h.area == ACode(area) by {
      assert p[o + 8] == s[8];
    }
    assert h.db == ADb(area) % 65536 by {
      assert p[o + 6] == s[6] && p[o + 7] == s[7];
      SplitJoin(ADb(area));
    }
    assert h.len == count % 65536 * WordSize(Lo8(wl)) by {
      assert p[o + 4] == s[4] && p[o + 5] == s[5];
      SplitJoin(count);
    }
    assert h.off == byteOffset % 0x20_0000 by {
      assert p[o + 9] == s[9] && p[o + 10] == s[10] && p[o + 11] == s[11];
      SplitJoin24(a);
      AddressExact(byteOffset, bitOffset, 0, 0);
    }
  }

  /** The length the simulator assumes: the whole elements, or one element for an empty item. */
  lemma {:induction false} AssumedLength(it: WriteItem)
    requires Encodable(it)
    ensures var len := WriteCount(it) * WordSize(Lo8(it.wordLen));
      && (it.data == [] ==> len >= 1)
      && (it.data != [] ==> len == |it.data| - |it.data| % DataSizeByte(it.wordLen))
  {
    CountBound(it);
    if it.data != [] {
      assert WordSize(Lo8(it.wordLen)) == DataSizeByte(it.wordLen);
    }
  }

  lemma {:induction false} PokesSnoc(items: seq<WriteItem>, i: nat)
    requires i < |items|
    ensures PokesOf(items[..i + 1]) == PokesOf(items[..i]) + [PokeOf(items[i])]
  {
  }

  /** At the right offset, an item is recovered exactly when it is whole and, unless last, non-empty. */
  lemma {:induction false} DecodeStep(items: seq<WriteItem>, i: nat)
    requires i < |items| && AllEncodable(items) && Accepted(items)
    ensures var wd, o, h := WriteData(items), |WriteData(items[..i])|, HeadAt(WriteParams(items), i);
      && o + 4 <= |wd|
      && (PokeAt(h, wd, o) == PokeOf(items[i])
          <==> WholeElements(items[i]) && (i + 1 < |items| ==> items[i].data != []))
      && (WholeElements(items[i]) && items[i].data != [] ==> o + 4 + h.len == |WriteData(items[..i + 1])|)
  {
    hide HeadAt, DataItem, WriteData, WriteSpecs, WriteParams, TotalData, WordSize, WriteCount, ACode, ADb;
    hide Hi8, Lo8, TransportSize, LengthField, Accepted, DataSizeByte, Clip;
    HeadOf(items, i);
    assert i + 1 == |items| ==> items[..i + 1] == items;
    DataAt(items, i);
    DataItemBytes(items, i);
    AssumedLength(items[i]);
    WriteSnoc(items, i);
    var wd, o, h := WriteData(items), |WriteData(items[..i])|, HeadAt(WriteParams(items), i);
    ClipLength(wd, o + 4, h.len, items[i].data);
  }

  /** A clipped slice of the right length is the data; one of another length is not. */
  lemma {:induction false} ClipLength(wd: seq<Byte>, from: nat, len: nat, data: seq<Byte>)
    requires from + |data| <= |wd| && wd[from..from + |data|] == data
    ensures Clip(wd, from, len) == data <==> |data| == Min(len, |wd| - from)
  {
    if |data| == Min(len, |wd| - from) && from < |wd| {
      assert Clip(wd, from, len) == wd[from..from + |data|];
    }
  }

  lemma {:induction false} DecodeUnfold(params: seq<Byte>, wd: seq<Byte>, n: nat, o: nat, ps: seq<Poke>)
    requires 0 < n && 2 + 12 * n <= |params|
    requires DecodeWrites(params, wd, n - 1) == (o, ps)
    ensures var h := HeadAt(params, n - 1);
      DecodeWrites(params, wd, n) == if o + 4 <= |wd| then (o + 4 + h.len, ps + [PokeAt(h, wd, o)]) else (o, ps)
  {
  }

  lemma {:induction false} DecodeNone(items: seq<WriteItem>)
    requires AllEncodable(items)
    ensures DecodeWrites(WriteParams(items), WriteData(items), 0) == (|WriteData(items[..0])|, PokesOf(items[..0]))
  {
    assert items[..0] == [] && PokesOf(items[..0]) == [];
  }

  lemma {:induction false} DecodePrefix(items: seq<WriteItem>, n: nat)
    requires n <= |items| && AllEncodable(items) && Accepted(items)
    requires forall i | 0 <= i < n :: WholeElements(items[i]) && items[i].data != []
    ensures DecodeWrites(WriteParams(items), WriteData(items), n) == (|WriteData(items[..n])|, PokesOf(items[..n]))
  {
    hide *;
    if n > 0 {
      DecodePrefix(items, n - 1);
      DecodeUnfold(WriteParams(items), WriteData(items), n, |WriteData(items[..n - 1])|, PokesOf(items[..n - 1]));
      DecodeStep(items, n - 1);
      PokesSnoc(items, n - 1);
    } else {
      DecodeNone(items);
    }
  }

  lemma {:induction false} SameSnoc<T>(a: seq<T>, x: T, b: seq<T>, y: T)
    requires a + [x] == b + [y]
    ensures a == b && x == y
  {
    assert (a + [x])[|a|] == x && (b + [y])[|b|] == y;
    assert a == (a + [x])[..|a|] && b == (b + [y])[..|b|];
  }

  lemma {:induction false} DecodeForcesAlignment(items: seq<WriteItem>, n: nat)
    requires n <= |items| && AllEncodable(items) && Accepted(items)
    requires DecodeWrites(WriteParams(items), WriteData(items), n).1 == PokesOf(items[..n])
    ensures forall i | 0 <= i < n :: WholeElements(items[i]) && (i + 1 < |items| ==> items[i].data != [])
  {
    hide *;
    if n > 0 {
      var (o, ps) := DecodeWrites(WriteParams(items), WriteData(items), n - 1);
      DecodeUnfold(WriteParams(items), WriteData(items), n, o, ps);
      DecodeLength(WriteParams(items), WriteData(items), n - 1);
      PokesSnoc(items, n - 1);
      assert o + 4 <= |WriteData(items)|;
      var h := HeadAt(WriteParams(items), n - 1);
      SameSnoc(ps, PokeAt(h, WriteData(items), o), PokesOf(items[..n - 1]), PokeOf(items[n - 1]));
      DecodeForcesAlignment(items, n - 1);
      DecodePrefix(items, n - 1);
      DecodeStep(items, n - 1);
    }
  }

  lemma {:induction false} DecodeLength(params: seq<Byte>, wd: seq<Byte>, n: nat)
    requires 2 + 12 * n <= |params|
    ensures |DecodeWrites(params, wd, n).1| <= n
  {
    if n > 0 {
      DecodeLength(params, wd, n - 1);
    }
  }

  lemma {:induction false} AlignedDecodes(items: seq<WriteItem>)
    requires AllEncodable(items) && Accepted(items) && Aligned(items)
    ensures DecodeWrites(WriteParams(items), WriteData(items), |items|).1 == PokesOf(items)
  {
    var n := |items|;
    assert n == 0 ==> PokesOf(items) == [];
    if n > 0 {
      DecodePrefix(items, n - 1);
      DecodeStep(items, n - 1);
      PokesSnoc(items, n - 1);
      assert items[..n] == items;
      hide HeadAt, PokeAt, PokeOf, PokesOf, DataItem, WriteSpecs, WriteData, WriteParams, TotalData, Encodable;
      hide WholeElements;
    }
  }

  /**
   * For every accepted item list, the simulator's loop with its running offset recovers exactly the
   * encoded writes if and only if the list is aligned. An empty item that is not last, or an item
   * that is not a whole number of elements, makes the offset drift or the data shrink.
   */
  lemma {:induction false} SimulatorDecodesIffAligned(items: seq<WriteItem>)
    requires AllEncodable(items) && Accepted(items)
    ensures DecodeWrites(WriteParams(items), WriteData(items), |items|).1 == PokesOf(items)
      <==> Aligned(items)
  {
    if Aligned(items) {
      AlignedDecodes(items);
    } else if DecodeWrites(WriteParams(items), WriteData(items), |items|).1 == PokesOf(items) {
      assert items[..|items|] == items;
      DecodeForcesAlignment(items, |items|);
    }
  }

  /** An empty byte item in front of a one-byte item: the simulator decodes other writes. */
  lemma {:induction false} EmptyItemDrifts()
    ensures var items := [NewWriteItem(DataBlock(1), 0, Byte_, []), NewWriteItem(DataBlock(1), 4, Byte_, [7])];
      && AllEncodable(items) && Accepted(items)
      && DecodeWrites(WriteParams(items), WriteData(items), 2).1 != PokesOf(items)
  {
    var items := [NewWriteItem(DataBlock(1), 0, Byte_, []), NewWriteItem(DataBlock(1), 4, Byte_, [7])];
    assert items[..1][..0] == [] && items[..1] == [items[0]];
    assert TotalData(items) == 1;
    assert !Aligned(items) by {
      assert items[0].data == [];
    }
    SimulatorDecodesIffAligned(items);
  }

  /** The simulator finds the header of a job frame at index 7 and slices both sections exactly. */
  lemma {:induction false} ParseJob(refn: int, params: seq<Byte>, data: seq<Byte>)
    requires 17 + |params| + |data| < 0x3200
    ensures ParseRequest(JobFrame(refn, params, data)) == Parsed(Request(0x01, refn % 65536, params, data))
  {
    var f := JobFrame(refn, params, data);
    JobBytes(refn, params, data);
    HeaderAtSeven(f);
    SectionsClip(f, params, data);
  }

  lemma {:induction false} SectionsClip(f: Frame, params: seq<Byte>, data: seq<Byte>)
    requires |f| == 17 + |params| + |data| && f[17..17 + |params|] == params && f[17 + |params|..] == data
    ensures Clip(f, 17, |params|) == params && Clip(f, 17 + |params|, |data|) == data
  {
  }

  /** Nothing in the TPKT and COTP bytes of a frame shorter than 0x3200 looks like an S7 header. */
  lemma {:induction false} HeaderAtSeven(f: Frame)
    requires 17 <= |f| < 0x3200
    requires f[0] == 0x03 && f[1] == 0x00 && U16(f[2], f[3]) == |f| && f[4] == 0x02 && f[5] == 0xF0 && f[6] == 0x80
    requires f[7] == PID && f[8] == 0x01
    ensures FindFrom(f, 0, false) == 7
  {
    assert f[2] < 0x32;
    assert HeaderAt(f, 7, false);
  }

  /** The answer to an aligned write job, and its effect: the individual writes in list order. */
  lemma {:induction false} WriteJobEffect(mem: Memory, items: seq<WriteItem>, refn: int)
    requires AllEncodable(items) && Accepted(items) && Aligned(items)
    ensures WriteFrame(items, refn).Ok?
    ensures Respond(mem, WriteFrame(items, refn).value)
      == (ApplyPokes(mem, PokesOf(items)), Reply(WriteResp(refn % 65536, 0xFF)))
  {
    hide DecodeWrites, JobFrame, ApplyPokes, WriteSpecs, WriteData, PokesOf, WriteResp, TotalData, Aligned;
    GuardExact(items, refn);
    DataSize(items);
    var params := WriteParams(items);
    ParseJob(refn, params, WriteData(items));
    SimulatorDecodesIffAligned(items);
    assert params[1] == |items| && Visited(params) == |items|;
  }

  // ----- One job of many items equals many jobs of one item -----

  function SendEach(mem: Memory, items: seq<WriteItem>, refn: int): Memory
    requires AllEncodable(items)
  {
    if items == [] then mem
    else
      var m := SendEach(mem, items[..|items| - 1], refn);
      match WriteFrame([items[|items| - 1]], refn)
      case Err(_) => m
      case Ok(f) => Respond(m, f).0
  }

  /**
   * A multi-item write has the effect of sending its items one frame at a time in list order,
   * overlapping ranges included.
   */
  lemma {:induction false} BatchIsSequence(mem: Memory, items: seq<WriteItem>, refn: int)
    requires AllEncodable(items) && Accepted(items) && Aligned(items)
    ensures WriteFrame(items, refn).Ok?
    ensures Respond(mem, WriteFrame(items, refn).value).0 == SendEach(mem, items, refn)
  {
    hide Respond, WriteFrame, PokeOf, ApplyPoke, WholeElements, Encodable, PokesOf, TotalData;
    WriteJobEffect(mem, items, refn);
    if items != [] {
      var n := |items| - 1;
      DropLast(items);
      BatchIsSequence(mem, items[..n], refn);
      WriteJobEffect(mem, items[..n], refn);
      OneItemEffect(SendEach(mem, items[..n], refn), items[n], refn);
      PokesLast(items);
    } else {
      NoPokes();
    }
  }

  lemma {:induction false} DropLast(items: seq<WriteItem>)
    requires items != [] && AllEncodable(items) && Accepted(items) && Aligned(items)
    ensures var n := |items| - 1;
      AllEncodable(items[..n]) && Accepted(items[..n]) && Aligned(items[..n])
      && Encodable(items[n]) && WholeElements(items[n]) && 31 + |items[n].data| <= MAX_PDU
  {
  }

  lemma {:induction false} OneItemEffect(mem: Memory, it: WriteItem, refn: int)
    requires Encodable(it) && WholeElements(it) && 31 + |it.data| <= MAX_PDU
    ensures WriteFrame([it], refn).Ok?
    ensures Respond(mem, WriteFrame([it], refn).value).0 == ApplyPoke(mem, PokeOf(it))
  {
    hide Respond, WriteFrame, PokeOf, ApplyPoke;
    assert [it][..0] == [] && TotalData([it]) == |it.data|;
    WriteJobEffect(mem, [it], refn);
    assert PokesOf([it])[..0] == [];
    assert ApplyPokes(mem, PokesOf([it])) == ApplyPoke(mem, PokeOf(it));
  }

  lemma {:induction false} PokesLast(items: seq<WriteItem>)
    requires items != []
    ensures PokesOf(items)[..|items| - 1] == PokesOf(items[..|items| - 1])
    ensures PokesOf(items)[|items| - 1] == PokeOf(items[|items| - 1])
  {
  }

  lemma {:induction false} NoPokes()
    ensures PokesOf([]) == []
  {
  }
}
