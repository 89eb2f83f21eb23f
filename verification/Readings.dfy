/** `dlms_reading_t`: one reading, as a value and as the structure that decoders fill in place. */
module Readings {
  import opened Bytes

  /** The value union, by the member written last. Floating-point members carry their raw bits. */
  datatype Value =
    | IntVal(i: int)
    | UintVal(u: nat)
    | BoolVal(b: bool)
    | FloatBits(f32: nat)
    | DoubleBits(f64: nat)
    | StrVal(chars: seq<byte>)

  /** A reading; names, units, scaled values and timestamps are not part of this model. */
  datatype Reading = Reading(obis: seq<byte>, obisStr: seq<char>, dataType: byte, value: Value, valid: bool) {
    /** What the cache takes for an empty slot: `!valid && data_type == 0`. */
    predicate IsNull() { !valid && dataType == 0 }
  }

  const ZERO_OBIS: seq<byte> := [0, 0, 0, 0, 0, 0]

  /** A zeroed structure. */
  const CLEARED := Reading(ZERO_OBIS, [], 0, IntVal(0), false)

  class ReadingBuffer {
    var obis: seq<byte>
    var obisStr: seq<char>
    var dataType: byte
    var value: Value
    var valid: bool

    constructor (r: Reading)
      ensures Snapshot() == r
    {
      obis, obisStr, dataType, value, valid := r.obis, r.obisStr, r.dataType, r.value, r.valid;
    }

    function Snapshot(): Reading
      reads this
    {
      Reading(obis, obisStr, dataType, value, valid)
    }
  }
}
