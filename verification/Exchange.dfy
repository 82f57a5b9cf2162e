/**
 * One request and its answer: what the simulator replies to a read job, what the client parses out
 * of each reply, and the exact payload sizes for which it does.
 */
module Exchange {
  import opened Bytes
  import opened Items
  import opened Telegrams
  import opened Simulator
  import opened WriteCodec

  // ----- Responses -----

  /**
   * The TPKT length bytes do not pass for an S7 header. `find_s7` scans from byte 0, and bytes 2
   * and 3 are the frame length.
   */
  predicate HeaderClear(total: nat) {
    !(Hi8(total) == PID && Lo8(total) % 128 in {0x01, 0x03, 0x07})
  }

  lemma {:induction false} ReadRespBytes(data: seq<Byte>, refn: int)
    ensures var f := ReadResp(data, refn);
      && f[0] == 0x03 && f[1] == 0x00 && f[2] == Hi8(25 + |data|) && f[3] == Lo8(25 + |data|)
      && f[4] == 0x02 && f[5] == 0xF0 && f[6] == 0x80 && f[7] == PID && f[8] == 0x03
      && f[16] == Lo8(4 + |data|) && f[21] == 0xFF && f[25..] == data
  {
  }

  lemma {:induction false} FindInReadResp(data: seq<Byte>, refn: int)
    ensures FindS7(ReadResp(data, refn)) == if HeaderClear(25 + |data|) then 7 else 2
  {
    hide ReadResp, Hi8, Lo8;
    var f := ReadResp(data, refn);
    ReadRespBytes(data, refn);
    assert !HeaderAt(f, 0, true) && !HeaderAt(f, 1, true);
    assert HeaderAt(f, 2, true) <==> !HeaderClear(25 + |data|);
    assert !HeaderAt(f, 3, true) && !HeaderAt(f, 4, true) && !HeaderAt(f, 5, true) && !HeaderAt(f, 6, true);
    assert HeaderAt(f, 7, true);
  }

  /**
   * The client recovers a read payload exactly when the frame length is clear of the header pattern,
   * whatever the payload bytes are; otherwise it reports a PLC error. Every payload shorter than
   * 0x3200 - 25 bytes is safe.
   */
  lemma {:induction false} ReadResponseExact(data: seq<Byte>, refn: int)
    ensures ParseResponse(ReadResp(data, refn)) == Ok([data]) <==> HeaderClear(25 + |data|)
    ensures !HeaderClear(25 + |data|) ==> ParseResponse(ReadResp(data, refn)).Err?
    ensures 25 + |data| < 0x3200 ==> HeaderClear(25 + |data|)
  {
    FindInReadResp(data, refn);
    ReadRespBytes(data, refn);
    var f := ReadResp(data, refn);
    hide ReadResp, FindS7;
    // With the header found at byte 2, the byte taken for the return code is never 0xFF.
    assert !HeaderClear(25 + |data|) ==> Lo8(4 + |data|) != 0xFF;
  }

  lemma {:induction false} WriteAckExact(refn: int, code: Byte)
    ensures CheckWriteAck(WriteResp(refn, code)) == if code == 0xFF then Ok(()) else Err(PlcError(code))
  {
    var f := WriteResp(refn, code);
    assert HeaderAt(f, 7, true);
    assert !HeaderAt(f, 0, true) && !HeaderAt(f, 1, true) && !HeaderAt(f, 2, true) && !HeaderAt(f, 3, true);
    assert !HeaderAt(f, 4, true) && !HeaderAt(f, 5, true) && !HeaderAt(f, 6, true);
    assert FindS7(f) == 7;
  }

  // ----- Read jobs -----

  function ReadHead(it: ReadItem): ItemHead {
    ItemHead(ACode(it.area), ADb(it.area) % 65536, it.byteOffset % 0x20_0000,
             it.count % 65536 * WordSize(Lo8(it.wordLen)))
  }

  /** Data blocks touched and bytes returned by reading the items in order. */
  function ReadItems(mem: Memory, items: seq<ReadItem>): (Memory, seq<Byte>) {
    if items == [] then (mem, [])
    else
      var (m, out) := ReadItems(mem, items[..|items| - 1]);
      var h := ReadHead(items[|items| - 1]);
      (TouchHead(m, h), out + LoadHead(m, h))
  }

  lemma {:induction false} ReadSpecAt(items: seq<ReadItem>, i: nat)
    requires i < |items|
    ensures var it := items[i];
      ReadSpecs(items)[12 * i..12 * i + 12]
      == ItemSpec(it.wordLen, it.count, it.area, it.byteOffset, it.bitOffset)
  {
    hide ItemSpec;
    var n := |items| - 1;
    if i < n {
      ReadSpecAt(items[..n], i);
      assert ReadSpecs(items)[12 * i..12 * i + 12] == ReadSpecs(items[..n])[12 * i..12 * i + 12];
    }
  }

  function SpecsSent(items: seq<ReadItem>): seq<WireSpec> {
    seq(|items|, i requires 0 <= i < |items| =>
      SpecSent(items[i].wordLen, items[i].count, items[i].area, items[i].byteOffset, items[i].bitOffset))
  }

  lemma {:induction false} SpecsSnoc(items: seq<ReadItem>, n: nat)
    requires n < |items|
    ensures var it := items[n];
      SpecsSent(items[..n + 1])
      == SpecsSent(items[..n]) + [SpecSent(it.wordLen, it.count, it.area, it.byteOffset, it.bitOffset)]
  {
  }

  lemma {:induction false} StrictSpecsOf(items: seq<ReadItem>, n: nat)
    requires n <= |items|
    ensures StrictSpecs(ReadSpecs(items), n) == Some(SpecsSent(items[..n]))
  {
    hide StrictSpec, ItemSpec, SpecSent, ReadSpecs;
    if n > 0 {
      var it := items[n - 1];
      StrictSpecsOf(items, n - 1);
      ReadSpecAt(items, n - 1);
      StrictSpecOf(it.wordLen, it.count, it.area, it.byteOffset, it.bitOffset);
      SpecsSnoc(items, n - 1);
      hide SpecsSent;
    } else {
      assert SpecsSent(items[..n]) == [];
    }
  }

  /**
   * A read job is built exactly when its items fit, and then a parser that knows only length fields and
   * literal codes gets back every item's area, address, word length and count.
   */
  lemma {:induction false} ReadJobIsLossless(items: seq<ReadItem>, refn: int)
    ensures ReadFrame(items, refn).Ok? <==> 15 + 12 * |items| <= 960
    ensures ReadFrame(items, refn).Ok?
      ==> StrictReadParse(ReadFrame(items, refn).value) == Some((refn % 65536, SpecsSent(items)))
  {
    hide StrictSections, StrictSpecs, ReadSpecs, SpecsSent, JobFrame;
    if 15 + 12 * |items| <= 960 {
      StrictSpecsOf(items, |items|);
      assert items[..|items|] == items;
      SectionsOf(refn, 0x04, |items|, ReadSpecs(items), []);
    }
  }

  lemma {:induction false} ReadHeadAt(items: seq<ReadItem>, i: nat)
    requires i < |items|
    ensures HeadAt(ReadParams(items), i) == ReadHead(items[i])
  {
    hide HeadAt, ItemSpec;
    ReadSpecAt(items, i);
    var p, it := ReadParams(items), items[i];
    assert p[2 + 12 * i..2 + 12 * i + 12] == ReadSpecs(items)[12 * i..12 * i + 12];
    HeadOfSpec(p, i, it.wordLen, it.count, it.area, it.byteOffset, it.bitOffset);
  }

  lemma {:induction false} ReadLoopItems(mem: Memory, items: seq<ReadItem>, n: nat)
    requires n <= |items|
    ensures ReadLoop(mem, ReadParams(items), n) == ReadItems(mem, items[..n])
  {
    hide HeadAt, ReadHead, ReadParams, TouchHead, LoadHead;
    if n > 0 {
      ReadLoopItems(mem, items, n - 1);
      ReadHeadAt(items, n - 1);
      assert items[..n][..n - 1] == items[..n - 1];
    }
  }

  /** The answer to a read job of any number of items. */
  lemma {:induction false} ReadJobEffect(mem: Memory, items: seq<ReadItem>, refn: int)
    requires 15 + 12 * |items| <= MAX_PDU
    ensures ReadFrame(items, refn).Ok?
    ensures Respond(mem, ReadFrame(items, refn).value)
      == (ReadItems(mem, items).0, Reply(ReadResp(ReadItems(mem, items).1, refn % 65536)))
  {
    hide JobFrame, ReadSpecs, ReadResp, ReadLoop, ReadItems, ParseRequest;
    var params := ReadParams(items);
    ParseJob(refn, params, []);
    ReadLoopItems(mem, items, |items|);
    assert items[..|items|] == items;
    assert Visited(params) == |items| by {
      assert params[1] == |items|;
    }
    hide Visited;
  }

  // ----- The one-item jobs of the chunk loops -----

  function ReadChunkItem(area: Area, off: int, len: int): ReadItem {
    NewReadItem(area, off, ByteArray(len))
  }

  function WriteChunkItem(area: Area, off: int, chunk: seq<Byte>): WriteItem {
    NewWriteItem(area, off, ByteArray(|chunk|), chunk)
  }

  /** True when the simulator treats the area as a data block. */
  predicate IsDb(area: Area) {
    ACode(area) == 0x84
  }

  function DbNum(area: Area): nat {
    ADb(area) % 65536
  }

  /** `len` bytes of an area from `off`: cut at the end of a data block, zeros elsewhere. */
  function Load(mem: Memory, area: Area, off: nat, len: nat): (r: seq<Byte>)
    ensures |r| <= len
  {
    if IsDb(area) then Clip(Db(mem, DbNum(area)), off, len) else Zeros(len)
  }

  function Touch(mem: Memory, area: Area): Memory {
    if IsDb(area) then EnsureDb(mem, DbNum(area)) else mem
  }

  /** A flat write of `data` at `off`, dropping what reaches past the end of the data block. */
  function Store(mem: Memory, area: Area, off: nat, data: seq<Byte>): Memory {
    if IsDb(area) then mem[DbNum(area) := Patch(Db(mem, DbNum(area)), off, data)] else mem
  }

  lemma {:induction false} ReadChunk(mem: Memory, area: Area, off: int, len: nat, refn: int)
    requires len < 65536
    ensures ReadFrame([ReadChunkItem(area, off, len)], refn).Ok?
    ensures Respond(mem, ReadFrame([ReadChunkItem(area, off, len)], refn).value)
      == (Touch(mem, area), Reply(ReadResp(Load(mem, area, off % 0x20_0000, len), refn % 65536)))
    ensures |ReadFrame([ReadChunkItem(area, off, len)], refn).value| == 31
  {
    var items := [ReadChunkItem(area, off, len)];
    hide Respond, ReadFrame, ReadResp, ReadItems;
    ReadJobEffect(mem, items, refn);
    OneItemRead(mem, area, off, len);
    ReadFrameLength(items, refn);
  }

  lemma {:induction false} OneItemRead(mem: Memory, area: Area, off: int, len: nat)
    requires len < 65536
    ensures ReadItems(mem, [ReadChunkItem(area, off, len)])
      == (Touch(mem, area), Load(mem, area, off % 0x20_0000, len))
  {
    hide EnsureDb, Clip;
    var items := [ReadChunkItem(area, off, len)];
    assert items[..0] == [];
    assert ReadHead(items[0]) == ItemHead(ACode(area), DbNum(area), off % 0x20_0000, len);
    var part := Load(mem, area, off % 0x20_0000, len);
    assert [] + part == part;
  }

  lemma {:induction false} ReadFrameLength(items: seq<ReadItem>, refn: int)
    requires 15 + 12 * |items| <= MAX_PDU
    ensures ReadFrame(items, refn).Ok? && |ReadFrame(items, refn).value| == 19 + 12 * |items|
  {
  }

  lemma {:induction false} WriteChunk(mem: Memory, area: Area, off: int, chunk: seq<Byte>, refn: int)
    ensures AllEncodable([WriteChunkItem(area, off, chunk)])
    ensures var frame := WriteFrame([WriteChunkItem(area, off, chunk)], refn);
      && (frame.Ok? <==> |chunk| <= 929)
      && (frame.Err? ==> frame == Err(InvalidPdu("PDU too big")))
      && (frame.Ok? ==>
            && |frame.value| == 35 + |chunk|
            && Respond(mem, frame.value)
               == (Store(mem, area, off % 0x20_0000, chunk), Reply(WriteResp(refn % 65536, 0xFF))))
  {
    var items := [WriteChunkItem(area, off, chunk)];
    assert items[..0] == [];
    assert TotalData(items) == |chunk|;
    GuardExact(items, refn);
    DataSize(items);
    if Accepted(items) {
      WriteJobEffect(mem, items, refn);
      hide Respond, WriteResp, Patch, WriteParams;
      var ps := PokesOf(items);
      assert ps[..0] == [];
      assert ApplyPokes(mem, ps) == ApplyPoke(mem, PokeOf(items[0]));
    }
  }

  /** Reading or touching a data block never changes what it holds. */
  lemma {:induction false} TouchKeeps(mem: Memory, area: Area)
    ensures forall d :: Db(Touch(mem, area), d) == Db(mem, d)
    ensures Touch(Touch(mem, area), area) == Touch(mem, area)
  {
  }

  lemma {:induction false} LoadJoin(mem: Memory, area: Area, off: nat, a: nat, b: nat)
    ensures Load(mem, area, off, a) + Load(mem, area, off + a, b) == Load(mem, area, off, a + b)
  {
    if IsDb(area) {
      ClipJoin(Db(mem, DbNum(area)), off, a, b);
    }
  }

  lemma {:induction false} StoreJoin(mem: Memory, area: Area, off: nat, a: seq<Byte>, b: seq<Byte>)
    ensures Store(Store(mem, area, off, a), area, off + |a|, b) == Store(mem, area, off, a + b)
  {
    if IsDb(area) {
      PatchJoin(Db(mem, DbNum(area)), off, a, b);
    }
  }
}
