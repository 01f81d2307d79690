/** Types and functions that several models share. */
module Basics {

  datatype Option<T> = None | Some(value: T)

  type Byte = x: int | 0 <= x < 256
  type U16 = x: int | 0 <= x < 0x1_0000
  type U32 = x: int | 0 <= x < 0x1_0000_0000
  type U64 = x: int | 0 <= x < 0x1_0000_0000_0000_0000

  const TWO32: nat := 0x1_0000_0000
  const TWO64: nat := 0x1_0000_0000_0000_0000

  const MAX_HARTS: nat := 128

  function Min(a: nat, b: nat): nat { if a < b then a else b }

  function Zeros(n: nat): (z: seq<Byte>)
    ensures |z| == n
  {
    seq(n, _ => 0)
  }

  /** What the others do at the `k`-th point of a schedule. */
  function Turn<E>(schedule: seq<seq<E>>, k: nat): seq<E> { if k < |schedule| then schedule[k] else [] }

  /** A number written in bytes, most significant first. */
  function BigEndian(b: seq<Byte>): nat {
    if b == [] then 0 else 256 * BigEndian(b[..|b| - 1]) + b[|b| - 1]
  }

  /** A number written in bytes, least significant first. */
  function LittleEndian(b: seq<Byte>): nat {
    if b == [] then 0 else b[0] + 256 * LittleEndian(b[1..])
  }

  /** The control bits of a TCP segment (section 3.1 of RFC 793). */
  datatype Flags = Flags(fin: bool, syn: bool, rst: bool, psh: bool, ack: bool)

  function FlagsOf(bits: Byte): Flags {
    Flags(bits % 2 == 1, bits / 2 % 2 == 1, bits / 4 % 2 == 1, bits / 8 % 2 == 1, bits / 16 % 2 == 1)
  }
}
