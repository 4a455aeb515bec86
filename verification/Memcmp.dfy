/** The memcomparable key encoding of values and tuples, as functions of the value. */
module Memcmp {
  import opened Bytes
  import opened Values
  import Float64

  const INIT_TAG: u8 := 0x00
  const NULL_TAG: u8 := 0x01
  const FALSE_TAG: u8 := 0x02
  const TRUE_TAG: u8 := 0x03
  const VEC_TAG: u8 := 0x04
  const NUM_TAG: u8 := 0x05
  const STR_TAG: u8 := 0x06
  const BYTES_TAG: u8 := 0x07
  const UUID_TAG: u8 := 0x08
  const LIST_TAG: u8 := 0x0A
  const SET_TAG: u8 := 0x0B
  const VLD_TAG: u8 := 0x0C
  const BOT_TAG: u8 := 0xFF

  const VEC_F32: u8 := 0x01
  const VEC_F64: u8 := 0x02

  const IS_FLOAT: u8 := 0x10
  const IS_APPROX_INT: u8 := 0x04
  const IS_EXACT_INT: u8 := 0x00
  const EXACT_INT_BOUND: int := 0x20_0000_0000_0000

  const ENC_GROUP_SIZE: nat := 8
  const ENC_MARKER: u8 := 0xFF

  // ----- machine integers -----

  /** `v as u64`. */
  function AsU64(v: i64): u64 {
    if v >= 0 then v else v + 0x1_0000_0000_0000_0000
  }

  /** `u as i64`. */
  function AsI64(u: u64): i64 {
    if u < 0x8000_0000_0000_0000 then u else u - 0x1_0000_0000_0000_0000
  }

  /** `u ^ SIGN_MARK`. */
  function FlipSign(u: u64): u64 {
    if u < 0x8000_0000_0000_0000 then u + 0x8000_0000_0000_0000 else u - 0x8000_0000_0000_0000
  }

  /** `!u`. */
  function Complement(u: u64): u64 {
    0xFFFF_FFFF_FFFF_FFFF - u
  }

  function OrderEncodeI64(v: i64): u64 {
    FlipSign(AsU64(v))
  }

  function OrderDecodeI64(u: u64): i64 {
    AsI64(FlipSign(u))
  }

  function OrderEncodeF64(b: u64): u64 {
    if !Float64.Negative(b) then FlipSign(b) else Complement(b)
  }

  function OrderDecodeF64(u: u64): u64 {
    if u >= Float64.SIGN_MARK then FlipSign(u) else Complement(u)
  }

  function U64Bytes(u: u64): (r: seq<u8>)
    ensures |r| == 8
  {
    PowWidths();
    BigEndian(8, u)
  }

  function U32Bytes(u: u32): (r: seq<u8>)
    ensures |r| == 4
  {
    PowWidths();
    BigEndian(4, u)
  }

  function U16Bytes(u: u16): (r: seq<u8>)
    ensures |r| == 2
  {
    PowWidths();
    BigEndian(2, u)
  }

  // ----- encoding -----

  function Zeros(n: nat): (r: seq<u8>)
    ensures |r| == n
  {
    if n == 0 then [] else [0] + Zeros(n - 1)
  }

  /** Groups of eight bytes, each followed by 0xFF minus its padding. */
  function EncodeBytes(key: seq<u8>): (r: seq<u8>)
    ensures |r| >= 9
  {
    if |key| >= ENC_GROUP_SIZE then key[..8] + [ENC_MARKER] + EncodeBytes(key[8..])
    else key + Zeros(8 - |key|) + [ENC_MARKER - (8 - |key|)]
  }

  function AsFloat(n: Num): u64 {
    match n
    case Int(i) => Float64.FromInt(i)
    case Float(b) => b
  }

  function EncodeNum(n: Num): seq<u8> {
    U64Bytes(OrderEncodeF64(AsFloat(n))) + NumSuffix(n)
  }

  function NumSuffix(n: Num): seq<u8> {
    match n
    case Int(i) =>
      if -EXACT_INT_BOUND < i < EXACT_INT_BOUND then [IS_EXACT_INT]
      else [IS_APPROX_INT] + U64Bytes(OrderEncodeI64(i))
    case Float(_) => [IS_FLOAT]
  }

  /** Tag, inverted order-preserving timestamp, flag. */
  function EncodeValidity(ts: i64, isAssert: bool): (r: seq<u8>)
    ensures |r| == 10
  {
    [VLD_TAG] + U64Bytes(Complement(OrderEncodeI64(ts))) + [if isAssert then 0 else 1]
  }

  function EncodeSingles(xs: seq<u32>): seq<u8> {
    if xs == [] then [] else U32Bytes(xs[0]) + EncodeSingles(xs[1..])
  }

  function EncodeDoubles(ys: seq<u64>): seq<u8> {
    if ys == [] then [] else U64Bytes(ys[0]) + EncodeDoubles(ys[1..])
  }

  function EncodeVector(v: Vector): seq<u8>
    requires WellFormed(Vec(v))
  {
    match v
    case F32(xs) => [VEC_F32] + U64Bytes(|xs|) + EncodeSingles(xs)
    case F64(ys) => [VEC_F64] + U64Bytes(|ys|) + EncodeDoubles(ys)
  }

  function EncodeUuid(v: Value): seq<u8>
    requires v.Uuid?
  {
    U16Bytes(v.hi) + U16Bytes(v.mid) + U32Bytes(v.low) + v.rest
  }

  function Encode(v: Value): (r: seq<u8>)
    requires WellFormed(v)
    ensures |r| >= 1 && r[0] != INIT_TAG
    decreases v, 1
  {
    match v
    case Null => [NULL_TAG]
    case Bool(false) => [FALSE_TAG]
    case Bool(true) => [TRUE_TAG]
    case Vec(x) => [VEC_TAG] + EncodeVector(x)
    case Number(n) => [NUM_TAG] + EncodeNum(n)
    case Str(s) => [STR_TAG] + EncodeBytes(s)
    case Blob(s) => [BYTES_TAG] + EncodeBytes(s)
    case Uuid(_, _, _, _) => [UUID_TAG] + EncodeUuid(v)
    case List(items) => [LIST_TAG] + EncodeItems(items) + [INIT_TAG]
    case Set(elems) => [SET_TAG] + EncodeItems(elems) + [INIT_TAG]
    case Validity(t, a) => EncodeValidity(t, a)
    case Bot => [BOT_TAG]
  }

  /** The encodings of the values, one after the other. */
  function EncodeItems(items: seq<Value>): seq<u8>
    requires AllWellFormed(items)
    decreases items, 0
  {
    if items == [] then [] else Encode(items[0]) + EncodeItems(items[1..])
  }

  /** Relation id, then the values of the tuple. */
  function EncodeKey(rel: u64, t: Tuple): seq<u8>
    requires AllWellFormed(t)
  {
    U64Bytes(rel) + EncodeItems(t)
  }
}
