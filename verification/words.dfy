/**
 * Shared constants and small value types of the RV32I simulator model.
 *
 * The simulator computes with unbounded integers; a 32-bit "word" is just an
 * integer in [0, 2^32) and every wrap-around is written out explicitly.
 */
module Words {

  /** 2^32, the modulus of 32-bit register arithmetic. */
  const TWO_32: int := 0x1_0000_0000

  /** 2^31, the weight of the sign bit of a 32-bit word. */
  const TWO_31: int := 0x8000_0000

  /** An unsigned 32-bit value. */
  type Word = x: int | 0 <= x < 0x1_0000_0000

  /** One DRAM cell: the simulator only ever stores masked bytes. */
  type Byte = x: int | 0 <= x < 0x100

  /** A register index, as extracted from a 5-bit instruction field. */
  type Reg = r: int | 0 <= r < 32

  datatype Option<T> = None | Some(value: T)
}
