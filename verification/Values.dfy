/** Database values and the order the engine puts on them. */
module Values {
  import opened Bytes
  import Float64

  datatype Option<+T> = None | Some(value: T)

  datatype Num = Int(i: i64) | Float(bits: u64)

  /** Vector elements are kept as their IEEE 754 bit patterns. */
  datatype Vector = F32(singles: seq<u32>) | F64(doubles: seq<u64>)

  /** Strings are their UTF-8 bytes; a set is the ascending sequence of its elements. */
  datatype Value =
    | Null
    | Bool(b: bool)
    | Number(n: Num)
    | Str(s: seq<u8>)
    | Blob(bytes: seq<u8>)
    | Uuid(low: u32, mid: u16, hi: u16, rest: seq<u8>)
    | List(items: seq<Value>)
    | Set(elems: seq<Value>)
    | Vec(v: Vector)
    | Validity(ts: i64, isAssert: bool)
    | Bot

  type Tuple = seq<Value>

  /** Declaration order of the variants. */
  function Rank(v: Value): nat {
    match v
    case Null => 0
    case Bool(_) => 1
    case Number(_) => 2
    case Str(_) => 3
    case Blob(_) => 4
    case Uuid(_, _, _, _) => 5
    case List(_) => 7
    case Set(_) => 8
    case Vec(_) => 9
    case Validity(_, _) => 11
    case Bot => 12
  }

  /** An integer goes just before the float it converts to. */
  predicate NumLess(a: Num, b: Num) {
    match (a, b)
    case (Int(i), Int(j)) => i < j
    case (Float(x), Float(y)) => Float64.TotalLess(x, y)
    case (Int(i), Float(y)) => Float64.FromInt(i) == y || Float64.TotalLess(Float64.FromInt(i), y)
    case (Float(x), Int(j)) => Float64.TotalLess(x, Float64.FromInt(j))
  }

  predicate UuidLess(a: Value, b: Value)
    requires a.Uuid? && b.Uuid?
  {
    if a.hi != b.hi then a.hi < b.hi
    else if a.mid != b.mid then a.mid < b.mid
    else if a.low != b.low then a.low < b.low
    else Lt(a.rest, b.rest)
  }

  /** Newest first; an assertion before a retraction at the same instant. */
  predicate ValidityLess(t: i64, a: bool, t': i64, a': bool) {
    t > t' || (t == t' && a && !a')
  }

  /** Position of a float of `width` magnitude bits among its kind: the zeros coincide, NaN comes last. */
  function ElementKey(bits: nat, sign: nat, infinity: nat): int {
    var m := if bits >= sign then bits - sign else bits;
    if m > infinity then sign else if bits >= sign then -m else m
  }

  predicate ElementsLess(a: seq<int>, b: seq<int>)
    requires |a| == |b|
  {
    if a == [] then false
    else if a[0] != b[0] then a[0] < b[0]
    else ElementsLess(a[1..], b[1..])
  }

  function VectorKeys(v: Vector): seq<int> {
    match v
    case F32(xs) => seq(|xs|, i requires 0 <= i < |xs| => ElementKey(xs[i], 0x8000_0000, 0x7F80_0000))
    case F64(ys) => seq(|ys|, i requires 0 <= i < |ys| => ElementKey(ys[i], Float64.SIGN_MARK, Float64.INFINITY))
  }

  predicate VectorLess(a: Vector, b: Vector) {
    if a.F32? != b.F32? then a.F32?
    else
      var x, y := VectorKeys(a), VectorKeys(b);
      if |x| != |y| then |x| < |y| else ElementsLess(x, y)
  }

  /** The order of values: variant first, then contents. */
  predicate ValueLess(v: Value, w: Value)
    decreases v, 1
  {
    if Rank(v) != Rank(w) then Rank(v) < Rank(w)
    else
      match v
      case Null => false
      case Bool(b) => !b && w.b
      case Number(n) => NumLess(n, w.n)
      case Str(s) => Lt(s, w.s)
      case Blob(s) => Lt(s, w.bytes)
      case Uuid(_, _, _, _) => UuidLess(v, w)
      case List(items) => ItemsLess(items, w.items)
      case Set(elems) => ItemsLess(elems, w.elems)
      case Vec(x) => VectorLess(x, w.v)
      case Validity(t, a) => ValidityLess(t, a, w.ts, w.isAssert)
      case Bot => false
  }

  /** Lexicographic order of value sequences: lists, sets and tuples. */
  predicate ItemsLess(a: seq<Value>, b: seq<Value>)
    decreases a, 0
  {
    if b == [] then false
    else if a == [] then true
    else if a[0] == b[0] then ItemsLess(a[1..], b[1..])
    else ValueLess(a[0], b[0])
  }

  predicate Ascending(s: seq<Value>) {
    forall i, j | 0 <= i < j < |s| :: ValueLess(s[i], s[j])
  }

  /** What the engine's own constructors guarantee of a value. */
  predicate WellFormed(v: Value)
    decreases v, 1
  {
    match v
    case Uuid(_, _, _, rest) => |rest| == 8
    case List(items) => AllWellFormed(items)
    case Set(elems) => AllWellFormed(elems) && Ascending(elems)
    case Vec(F32(xs)) => |xs| < 0x1_0000_0000_0000_0000
    case Vec(F64(ys)) => |ys| < 0x1_0000_0000_0000_0000
    case _ => true
  }

  predicate AllWellFormed(s: seq<Value>)
    decreases s, 0
  {
    s == [] || (WellFormed(s[0]) && AllWellFormed(s[1..]))
  }

  /** Contains no vector at any depth. */
  predicate VectorFree(v: Value)
    decreases v, 1
  {
    match v
    case List(items) => AllVectorFree(items)
    case Set(elems) => AllVectorFree(elems)
    case Vec(_) => false
    case _ => true
  }

  predicate AllVectorFree(s: seq<Value>)
    decreases s, 0
  {
    s == [] || (VectorFree(s[0]) && AllVectorFree(s[1..]))
  }
}
