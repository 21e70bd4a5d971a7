/** The conventional Some/None datatype, used wherever the server returns a
    pointer that may be NULL or a boolean "found" flag with an out-parameter. */
module Wrappers {

  datatype Option<+T> = None | Some(value: T) {

    /** The held value, or `default` when there is none. */
    function GetOr(default: T): T {
      match this
      case Some(v) => v
      case None() => default
    }
  }
}

/** Map coordinates, shared by tiles and house entry points. */
module Positions {

  datatype Position = Position(x: int, y: int, z: int)

  const Origin := Position(0, 0, 0)
}

/** Byte values. Bytes are kept as bounded integers rather than bit-vectors:
    nothing here needs bitwise operators, and integer arithmetic states the
    little-endian and length computations directly. */
module Bytes {

  type byte = x: int | 0 <= x < 0x100
}
