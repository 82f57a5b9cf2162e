/**
 * 32-bit integer fields (protocol/field.mbt, `DIntField` and `DWordField`) and their accessors on the
 * client: two's complement and unsigned values through the chunk loops to data-block memory and back.
 */
module Integers {
  import opened Bytes
  import opened Items
  import opened Simulator
  import opened Exchange
  import opened Peer
  import opened Transfer

  const TWO_32 := 0x1_0000_0000

  /** The library's `Int` is 32 bits wide. */
  predicate IsInt32(v: int) {
    -0x8000_0000 <= v < 0x8000_0000
  }

  function DIntBytes(v: int): (b: seq<Byte>)
    ensures |b| == 4
  {
    WordBytes(v % TWO_32)
  }

  function DIntOf(b: seq<Byte>): int
    requires |b| >= 4
  {
    var u := WordOf(b);
    if u >= 0x8000_0000 then u - TWO_32 else u
  }

  /** Signed encoding is exact on the 32-bit range and nowhere else, and reaches every byte pattern. */
  lemma {:induction false} DIntExact(v: int, b: seq<Byte>)
    requires |b| == 4
    ensures DIntOf(DIntBytes(v)) == v <==> IsInt32(v)
    ensures IsInt32(DIntOf(b)) && DIntBytes(DIntOf(b)) == b
  {
    hide WordBytes, WordOf;
    WordOfBytes(v % TWO_32);
    BytesOfWord(b);
    Residues(v, WordOf(b));
  }

  lemma {:induction false} Residues(v: int, u: nat)
    ensures v % TWO_32 % TWO_32 == v % TWO_32
    ensures IsInt32(v) ==> v % TWO_32 == if v < 0 then v + TWO_32 else v
    ensures 0x8000_0000 <= u < TWO_32 ==> (u - TWO_32) % TWO_32 == u
    ensures u < TWO_32 ==> u % TWO_32 == u
  {
  }

  // ----- Accessors -----

  function WriteDIntRun(p: Plc, refn: int, db: int, start: int, v: int, pdu: int): (Plc, Result<()>) {
    WriteRun(p, refn, DataBlock(db), start, DIntBytes(v), WriteChunkMax(pdu), 0)
  }

  /** A field that was cut short decodes to 0. */
  function ReadDIntRun(p: Plc, refn: int, db: int, start: int, pdu: int): (Plc, Result<int>) {
    match ReadRun(p, refn, DataBlock(db), start, 4, ReadChunkMax(pdu), 0, [])
    case (q, Err(e)) => (q, Err(e))
    case (q, Ok(b)) => (q, Ok(if |b| >= 4 then DIntOf(b) else 0))
  }

  /** Four bytes stored at `start` and loaded back: all of them, the part inside the block, or none. */
  lemma {:induction false} FourBytesBack(mem: Memory, d: nat, start: nat, data: seq<Byte>)
    requires d < 65536 && |data| == 4
    ensures var back := Load(Store(mem, DataBlock(d), start, data), DataBlock(d), start, 4);
      && back == data[..|back|]
      && (|back| == 4 <==> start + 4 <= |Db(mem, d)|)
      && (back == [] <==> start >= |Db(mem, d)|)
  {
  }

  /**
   * A signed 32-bit value written and read back under any two PDU sizes. The write always succeeds.
   * The read returns the value exactly when the field lies inside the data block or the value is 0 and
   * part of the field does; a field that sticks out reads as 0, and one wholly outside is an error.
   */
  lemma {:induction false} DIntSurvives(p: Plc, refn: int, d: nat, start: nat, v: int, pduW: int, pduR: nat)
    requires p.phase == Ready && p.refusals == map[] && d < 65536 && pduR < 65536
    requires start + 4 <= 0x20_0000 && IsInt32(v)
    ensures var (q, w) := WriteDIntRun(p, refn, d, start, v, pduW);
      var r := ReadDIntRun(q, refn, d, start, pduR).1;
      var len := |Db(p.mem, d)|;
      && w == Ok(())
      && q.mem == p.mem[d := Patch(Db(p.mem, d), start, DIntBytes(v))]
      && r == (if start + 4 <= len then Ok(v) else if start < len then Ok(0) else Err(ItemNotFound))
  {
    hide WriteRun, ReadRun, DIntBytes, DIntOf, Patch, Clip, AllReadable, WriteOutcome, PieceCount;
    var data := DIntBytes(v);
    ChunkedWriteSucceedsIff(p, refn, DataBlock(d), start, data, pduW);
    ChunkedWriteExact(p, refn, DataBlock(d), start, data, pduW);
    var (q, w) := WriteRun(p, refn, DataBlock(d), start, data, WriteChunkMax(pduW), 0);
    WriteOutcomeSame(p, q, w, DataBlock(d), start, data, WriteChunkMax(pduW));
    assert data[..|data|] == data;
    SmallChunksAreReadable(q.mem, DataBlock(d), start, 4, ReadChunkMax(pduR), 0);
    AllServed(q, 4, ReadChunkMax(pduR));
    ChunkedReadExact(q, refn, DataBlock(d), start, 4, pduR);
    FourBytesBack(p.mem, d, start, data);
    DIntExact(v, data);
  }
}
