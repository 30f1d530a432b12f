/** Register descriptors and the data-type tags that say how their words are decoded. */
module Register {

  /** An unsigned 16-bit quantity: a Modbus word, an address or a length. */
  type u16 = x: int | 0 <= x < 0x1_0000

  /** The nine data-type tags a register can carry. */
  datatype DataType =
    | UInt16
    | UInt32
    | UInt64
    | UInt128
    | Int32
    | Enum16
    | Sized
    | Float32
    | Boolean

  /**
   * A register descriptor: its name, its first word address, its length in
   * 16-bit words (not bits), the tag used to decode it, and whether a dump
   * should read it. A descriptor is a value: a lookup hands out a copy.
   */
  datatype Register = Register(name: string, addr: u16, len: u16, dataType: DataType, read: bool)

  /** The tags whose decoding reads the first word directly (and panics on an empty slice). */
  predicate ReadsFirstWord(kind: DataType)
  {
    kind.UInt16? || kind.Enum16? || kind.Boolean?
  }

  /**
   * What the read paths need of a descriptor not to panic: `addr + len` fits
   * in a u16, and a tag that reads the first word has at least one word.
   */
  predicate Readable(r: Register)
  {
    r.addr + r.len <= 0xFFFF && (ReadsFirstWord(r.dataType) ==> r.len >= 1)
  }

  /** One past the last word of the register's extent. */
  function End(r: Register): int
  {
    r.addr + r.len
  }
}
