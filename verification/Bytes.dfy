/** Bytes, big-endian 16-bit fields, clipped slices and the library's result type. */
module Bytes {
  type Byte = b: int | 0 <= b < 256

  /** The constructors of core/error.mbt that the modelled code can return. */
  datatype S7Error =
    | InvalidPdu(msg: string)
    | PlcError(code: int)
    | ItemNotFound
    | NotConnected
    | AlreadyConnected
    | ConnectionClosed
    | TimedOut

  datatype Result<+T> = Ok(value: T) | Err(error: S7Error)

  datatype Option<+T> = None | Some(value: T)

  /** `(v >> 8) & 0xFF`: Dafny's division by a positive number floors, as an arithmetic shift does. */
  function Hi8(v: int): Byte {
    v / 256 % 256
  }

  function Lo8(v: int): Byte {
    v % 256
  }

  /** `(hi << 8) | lo`. */
  function U16(hi: Byte, lo: Byte): (r: nat)
    ensures r < 65536
  {
    256 * hi + lo
  }

  /** Splitting a value into two bytes and joining them keeps it modulo 2^16. */
  lemma {:induction false} SplitJoin(v: int)
    ensures U16(Hi8(v), Lo8(v)) == v % 65536
    ensures 0 <= v < 65536 ==> U16(Hi8(v), Lo8(v)) == v
  {
  }

  /** The high byte counts 256s: big-endian, modulo 2^16. */
  lemma {:induction false} Split16(v: int)
    ensures 256 * (Hi8(v) as int) + Lo8(v) == v % 65536
  {
  }

  /** Four big-endian bytes as an unsigned number. */
  function WordOf(b: seq<Byte>): (w: nat)
    requires |b| >= 4
    ensures w < 0x1_0000_0000
  {
    0x100_0000 * (b[0] as int) + 65536 * (b[1] as int) + 256 * (b[2] as int) + b[3]
  }

  /** Four big-endian bytes of a number; right shifts are arithmetic, so a negative one keeps its sign bits. */
  function WordBytes(v: int): (b: seq<Byte>)
    ensures |b| == 4
  {
    [v / 0x100_0000 % 256, v / 65536 % 256, v / 256 % 256, v % 256]
  }

  /** Every four bytes are the bytes of the number they denote. */
  lemma {:induction false} BytesOfWord(b: seq<Byte>)
    requires |b| == 4
    ensures WordBytes(WordOf(b)) == b
  {
    var w := WordOf(b);
    assert w / 256 == 65536 * (b[0] as int) + 256 * (b[1] as int) + b[2];
    assert w / 65536 == 256 * (b[0] as int) + b[1];
    assert w / 0x100_0000 == b[0];
  }

  /** The bytes keep a number modulo 2^32. */
  lemma {:induction false} WordOfBytes(v: int)
    ensures WordOf(WordBytes(v)) == v % 0x1_0000_0000
    ensures 0 <= v < 0x1_0000_0000 ==> WordOf(WordBytes(v)) == v
  {
    var q1, q2, q3, q4 := v / 256, v / 65536, v / 0x100_0000, v / 0x1_0000_0000;
    assert q2 == q1 / 256 && q3 == q2 / 256 && q4 == q3 / 256;
    assert v == 256 * q1 + v % 256 && q1 == 256 * q2 + q1 % 256;
    assert q2 == 256 * q3 + q2 % 256 && q3 == 256 * q4 + q3 % 256;
  }

  lemma {:induction false} SplitJoin24(a: nat)
    requires a < 0x100_0000
    ensures 65536 * (a / 65536) + 256 * (a / 256 % 256) + a % 256 == a
  {
    var q, r := a / 65536, a % 65536;
    assert a == 256 * (256 * q + r / 256) + r % 256;
    assert a / 256 == 256 * q + r / 256;
  }

  function Min(a: int, b: int): (r: int)
    ensures r <= a && r <= b && (r == a || r == b)
  {
    if a <= b then a else b
  }

  function Zeros(n: nat): (z: seq<Byte>)
    ensures |z| == n
    ensures forall i | 0 <= i < n :: z[i] == 0
  {
    seq(n, _ => 0)
  }

  /** Python's `s[from:from + len]`: a slice that reaches past the end is cut there. */
  function Clip<T>(s: seq<T>, from: nat, len: nat): (r: seq<T>)
    ensures |r| == if from >= |s| then 0 else Min(len, |s| - from)
    ensures forall i | 0 <= i < |r| :: r[i] == s[from + i]
  {
    if from >= |s| then [] else s[from..Min(from + len, |s|)]
  }

  /** Two adjacent clipped slices join to one clipped slice. */
  lemma {:induction false} ClipJoin<T>(s: seq<T>, from: nat, a: nat, b: nat)
    ensures Clip(s, from, a) + Clip(s, from + a, b) == Clip(s, from, a + b)
  {
  }
}
