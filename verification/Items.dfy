/** Areas, data types and request items (protocol/types.mbt, items.mbt, constant.mbt). */
module Items {
  import opened Bytes

  datatype Area =
    | ProcessInputs
    | ProcessOutputs
    | Flags
    | DataBlock(db: int)
    | SystemInfo
    | TimerArea
    | CounterArea
    | Vendor(code: int)

  datatype DataType =
    | Bool | Byte_ | Word | DWord | Int_ | DInt | Real_ | S5Time | Time | Date | TimeOfDay
    | String_ | ByteArray(len: int) | Char_ | Counter | Timer | IecTimer | DateAndTime

  const WL_BIT := 0x01
  const WL_BYTE := 0x02
  const WL_CHAR := 0x03
  const WL_WORD := 0x04
  const WL_INT := 0x05
  const WL_DWORD := 0x06
  const WL_DINT := 0x07
  const WL_REAL := 0x08
  const WL_COUNTER := 0x1C
  const WL_TIMER := 0x1D

  type Bit = b: int | 0 <= b < 8

  datatype ReadItem =
    ReadItem(area: Area, byteOffset: int, bitOffset: Bit, count: int, dataType: DataType, wordLen: int)

  datatype WriteItem =
    WriteItem(area: Area, byteOffset: int, bitOffset: Bit, dataType: DataType, data: seq<Byte>, wordLen: int)

  function DtToWordLen(dt: DataType): int {
    match dt
    case Bool => WL_BIT
    case Byte_ | Char_ | String_ | ByteArray(_) => WL_BYTE
    case Word | Counter | S5Time => WL_WORD
    case Int_ => WL_INT
    case DWord | Time | TimeOfDay | Date => WL_DWORD
    case DInt => WL_DINT
    case Real_ => WL_REAL
    case Timer => WL_TIMER
    case IecTimer | DateAndTime => WL_DWORD
  }

  /** Bytes per element; 0 for a word length the library does not know. */
  function DataSizeByte(wl: int): nat {
    if wl in {WL_BIT, WL_BYTE, WL_CHAR} then 1
    else if wl in {WL_WORD, WL_INT, WL_COUNTER, WL_TIMER} then 2
    else if wl in {WL_DWORD, WL_DINT, WL_REAL} then 4
    else 0
  }

  function NewReadItem(area: Area, off: int, dt: DataType): ReadItem {
    ReadItem(area, off, 0, if dt.ByteArray? then dt.len else 1, dt, DtToWordLen(dt))
  }

  function NewWriteItem(area: Area, off: int, dt: DataType, data: seq<Byte>): WriteItem {
    WriteItem(area, off, 0, dt, data, DtToWordLen(dt))
  }
}
