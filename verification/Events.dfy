/** Descriptions of the controller's data points, and the values they stand for. */
module Events {
  import opened Bytes

  /** The values of `Parameter` the codecs distinguish. */
  datatype Parameter = SByte | SInt | SInt4 | SIntHighByteFirst | IntHighByteFirst | OtherParameter

  datatype CodecKind =
    | ValueList
    | DivMulOffset
    | Sec2Duration
    | DateTimeBCD
    | DateBCD
    | MappingTime53
    | MappingRaster152
    | MappingErrors
    | Nop

  datatype EventType = EventType(
    address: Addr,
    fcRead: byte,
    fcWrite: byte,
    parameter: Parameter,
    blockLength: byte,
    blockFactor: byte,
    bytePosition: byte,
    byteLength: byte,
    bitPosition: byte,
    bitLength: byte,
    factor: real,
    offset: real,
    lower: real,
    upper: real,
    codec: CodecKind)

  /** The civil fields of a point in time; weekdays count from Sunday = 0. */
  datatype Civil = Civil(year: nat, month: nat, day: nat, weekday: nat, hour: nat, minute: nat, second: nat)

  /** What callers hand to an encoder. */
  datatype Value = Int(n: int) | Real(r: real) | Seconds(secs: nat) | Moment(t: Civil)

  /** `Rejected` is an error return, `Panicked` an index out of range. */
  datatype Coded<+T> = Done(value: T) | Rejected | Panicked
}
