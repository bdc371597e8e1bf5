/** Property values and floating-point numbers as the store sees them. */
module Values {
  newtype byte = b: int | 0 <= b < 0x100

  type Bytes = seq<byte>

  const TWO_63: int := 0x8000_0000_0000_0000
  const TWO_64: int := 0x1_0000_0000_0000_0000
  const MAX_U32: nat := 0xFFFF_FFFF
  const MAX_U64: nat := 0xFFFF_FFFF_FFFF_FFFF

  type Int64 = i: int | -0x8000_0000_0000_0000 <= i < 0x8000_0000_0000_0000
  type Uint64 = n: nat | n < 0x1_0000_0000_0000_0000

  /** The 63 bits of a float64 below its sign. */
  type Magnitude = n: nat | n < 0x8000_0000_0000_0000

  /** A float64 as its bit pattern (IEEE 754-2008 section 3.4): sign, then exponent and fraction. */
  datatype F64 = F64(neg: bool, mag: Magnitude)

  datatype Value =
    | Null
    | Bool(b: bool)
    | Int(i: Int64)
    | Float(f: F64)
    | Str(s: Bytes)
    | List(elems: seq<Value>)
    | Map(entries: map<Bytes, Value>)

  /** Scalars only: lists and maps never enter an index. */
  predicate IsIndexable(v: Value)
  {
    !v.List? && !v.Map?
  }
}
