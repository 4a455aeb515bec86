/** The ordering operators, and the range a comparison with a constant puts on a column. */
module Comparisons {
  import opened Bytes
  import opened Float64
  import opened Values
  import opened Numbers

  datatype Rel = AtLeast | Above | AtMost | Below

  /** `c r x` read as `x Flip(r) c`. */
  function Flip(r: Rel): Rel {
    match r case AtLeast => AtMost case Above => Below case AtMost => AtLeast case Below => Above
  }

  /** Only values of one kind compare, and not every kind does. */
  predicate SameType(a: Value, b: Value) {
    Rank(a) == Rank(b) && !a.Uuid? && !a.Vec? && !a.Validity?
  }

  predicate ByOrder(r: Rel, less: bool, greater: bool) {
    match r case AtLeast => !less case Above => greater case AtMost => !greater case Below => less
  }

  /** An integer against a float compares as doubles do; otherwise the storage order decides. */
  predicate NumHolds(r: Rel, a: Num, b: Num) {
    if a.Int? == b.Int? then ByOrder(r, NumLess(a, b), NumLess(b, a))
    else
      var x, y := GetFloat(a), GetFloat(b);
      !IsNaN(x) && !IsNaN(y) && ByOrder(r, Numeric(x) < Numeric(y), Numeric(y) < Numeric(x))
  }

  predicate Holds(r: Rel, a: Value, b: Value) {
    if a.Number? && b.Number? then NumHolds(r, a.n, b.n)
    else ByOrder(r, ValueLess(a, b), ValueLess(b, a))
  }

  /** `None` is the error on operands of different kinds. */
  function CompareOp(r: Rel, args: seq<Value>): Option<Value> {
    if |args| == 2 && SameType(args[0], args[1]) then Some(Bool(Holds(r, args[0], args[1]))) else None
  }

  // ----- ranges -----

  datatype Range = Range(lower: Value, upper: Value)

  const EVERYTHING: Range := Range(Null, Bot)

  function LowerOf(c: Value): Value {
    match GetInt(c) case Some(i) => Number(Int(i)) case None => c
  }

  function UpperOf(c: Value): Value {
    if c.Number? then Number(Float(GetFloat(c.n))) else c
  }

  /** What a filter `x r c` says about the column `x`. */
  function BoundFor(r: Rel, c: Value): Range {
    match r
    case AtLeast => Range(LowerOf(c), Bot)
    case Above => Range(LowerOf(c), Bot)
    case AtMost => Range(Null, UpperOf(c))
    case Below => Range(Null, UpperOf(c))
  }

  predicate Within(v: Value, range: Range) {
    !ValueLess(v, range.lower) && !ValueLess(range.upper, v)
  }

  // ----- which constants give a sound range -----

  /** The double lies below every integer by more than `slack` steps. */
  predicate BelowIntegers(g: u64, slack: int) {
    Negative(g) && Mag(g) > TOP + slack
  }

  /** Another integer, one less, converts to the same double. */
  predicate Crowded(g: u64) {
    ToInt(g) > I64_MIN && FromInt(ToInt(g) - 1) == g
  }

  predicate SoundConstant(r: Rel, c: Value) {
    match r
    case AtLeast =>
      && c != Number(Int(0))
      && (c.Number? && c.n.Float? && GetInt(c).Some? ==>
            c.n.bits != NEGATIVE_ZERO && !BelowIntegers(c.n.bits, 0) && !Crowded(c.n.bits))
    case Above => c.Number? && c.n.Float? && GetInt(c).Some? ==> !BelowIntegers(c.n.bits, 1)
    case AtMost => c != Number(Float(NEGATIVE_ZERO))
    case Below => true
  }

  ghost predicate Sound(r: Rel, c: Value) {
    forall v: Value | SameType(v, c) && Holds(r, v, c) :: Within(v, BoundFor(r, c))
  }

  lemma {:induction false} EndsAreLoose(v: Value)
    ensures !ValueLess(v, Null) && !ValueLess(Bot, v)
  {
  }

  /** Numbers on one side, as signed magnitudes. */
  lemma {:induction false} CompareSigned(x: u64, y: u64)
    ensures Numeric(x) <= Numeric(y) <==> Signed(x) <= Signed(y)
    ensures TotalLess(x, y) <==> Signed(x) < Signed(y) || (Signed(x) == Signed(y) && Negative(x) && !Negative(y))
  {
    NumericSigned(x, y);
    TotalSigned(x, y);
  }

  // upper bounds

  lemma {:induction false} UpperSound(r: Rel, v: Num, c: Num)
    requires (r.AtMost? || r.Below?) && NumHolds(r, v, c) && SoundConstant(r, Number(c))
    ensures !NumLess(Float(GetFloat(c)), v)
  {
    hide Numeric, TotalLess, FromInt, Mag;
    var x, y := GetFloat(v), GetFloat(c);
    CompareSigned(x, y);
    CompareSigned(y, x);
    match (v, c) {
      case (Int(j), Int(i)) => FromIntSigned(j, i);
      case (Float(f), Int(i)) => SignOfInt(i);
      case (Int(j), Float(g)) => SignOfInt(j); SignOfZero(g);
      case (Float(f), Float(g)) =>
    }
  }

  /** A converted integer is negative exactly when it is below zero; there is no negative zero among them. */
  lemma {:induction false} SignOfInt(i: i64)
    ensures Negative(FromInt(i)) <==> Signed(FromInt(i)) < 0
  {
    hide FromInt;
    FromIntZero(i);
    FromIntFields(i);
  }

  lemma {:induction false} SignOfZero(g: u64)
    ensures Negative(g) && Signed(g) == 0 <==> g == NEGATIVE_ZERO
  {
  }

  // lower bounds

  lemma {:induction false} LowerSoundInt(r: Rel, v: Num, i: i64)
    requires (r.AtLeast? || r.Above?) && NumHolds(r, v, Int(i)) && SoundConstant(r, Number(Int(i)))
    ensures !NumLess(v, Int(i))
  {
    hide Numeric, TotalLess, FromInt;
    if v.Float? {
      CompareSigned(v.bits, FromInt(i));
      CompareSigned(FromInt(i), v.bits);
      SignOfInt(i);
      FromIntZero(i);
    }
  }

  lemma {:induction false} FromIntIntegral(i: i64)
    ensures Integral(Mag(FromInt(i)))
  {
    hide FromInt;
    FromIntFields(i);
    RoundIntegral(Abs(i));
  }

  lemma {:induction false} LowerSoundFraction(r: Rel, v: Num, g: u64)
    requires (r.AtLeast? || r.Above?) && NumHolds(r, v, Float(g)) && GetInt(Number(Float(g))).None?
    ensures !NumLess(v, Float(g))
  {
    hide Numeric, TotalLess, FromInt, Integral;
    CompareSigned(GetFloat(v), g);
    CompareSigned(g, GetFloat(v));
    if v.Int? {
      SignOfInt(v.i);
      FromIntIntegral(v.i);
    }
  }

  lemma {:induction false} LowerSoundIntegral(r: Rel, v: Num, g: u64)
    requires (r.AtLeast? || r.Above?) && NumHolds(r, v, Float(g)) && GetInt(Number(Float(g))).Some?
    requires SoundConstant(r, Number(Float(g)))
    ensures !NumLess(v, Int(ToInt(g)))
  {
    hide Numeric, TotalLess, FromInt, Integral, ToInt;
    var i := ToInt(g);
    BackAndForth(g);
    FromIntEnds(I64_MIN, I64_MAX);
    FromIntZero(0);
    if v.Float? {
      FloatAbove(r, v.bits, g);
    } else {
      IntAbove(r, v.i, g);
    }
  }

  lemma {:induction false} FloatAbove(r: Rel, f: u64, g: u64)
    requires (r.AtLeast? || r.Above?) && NumHolds(r, Float(f), Float(g)) && GetInt(Number(Float(g))).Some?
    requires SoundConstant(r, Number(Float(g)))
    ensures !TotalLess(f, FromInt(ToInt(g)))
  {
    hide Numeric, TotalLess, FromInt, Integral, ToInt;
    BackAndForth(g);
    Ends(g);
    CompareSigned(f, g);
    CompareSigned(g, f);
    CompareSigned(f, FromInt(ToInt(g)));
    FromIntZero(0);
  }

  /** Where saturated conversions end up. */
  lemma {:induction false} Ends(g: u64)
    requires !IsNaN(g) && Integral(Mag(g))
    ensures Mag(g) > TOP ==> Signed(FromInt(ToInt(g))) == (if Negative(g) then -TOP else TOP)
    ensures Mag(g) > TOP ==> (Negative(FromInt(ToInt(g))) <==> Negative(g))
  {
    hide FromInt, Integral, ToInt;
    BackAndForth(g);
    if Mag(g) > TOP {
      if Negative(g) {
        FromIntEnds(ToInt(g), I64_MAX);
      } else {
        FromIntEnds(I64_MIN, ToInt(g));
      }
    }
  }

  /** An integer below a converted double rounds below it, or to it when the double is crowded. */
  lemma {:induction false} IntBelow(j: i64, g: u64)
    requires !IsNaN(g) && Integral(Mag(g))
    ensures j < ToInt(g) ==> Signed(FromInt(j)) < Signed(g) || Crowded(g)
    ensures j < ToInt(g) ==> Signed(FromInt(j)) <= Signed(g)
  {
    hide Numeric, TotalLess, FromInt, Integral, ToInt;
    var i := ToInt(g);
    BackAndForth(g);
    Ends(g);
    FromIntZero(j);
    FromIntZero(0);
    if j < i {
      FromIntSigned(j, i - 1);
      FromIntSigned(i - 1, i);
      SignOfInt(i - 1);
      SignOfInt(i);
      FromIntZero(i);
    }
  }

  lemma {:induction false} IntAbove(r: Rel, j: i64, g: u64)
    requires (r.AtLeast? || r.Above?) && NumHolds(r, Int(j), Float(g)) && GetInt(Number(Float(g))).Some?
    requires SoundConstant(r, Number(Float(g)))
    ensures j >= ToInt(g)
  {
    hide Numeric, TotalLess, FromInt, Integral, ToInt;
    CompareSigned(FromInt(j), g);
    CompareSigned(g, FromInt(j));
    IntBelow(j, g);
  }

  // ----- soundness, exactly -----

  lemma {:induction false} SoundNumber(r: Rel, v: Num, c: Num)
    requires NumHolds(r, v, c) && SoundConstant(r, Number(c))
    ensures Within(Number(v), BoundFor(r, Number(c)))
  {
    hide Numeric, TotalLess, FromInt, Integral, ToInt, NumLess, NumHolds;
    EndsAreLoose(Number(v));
    if r.AtMost? || r.Below? {
      UpperSound(r, v, c);
    } else if c.Int? {
      LowerSoundInt(r, v, c.i);
    } else if GetInt(Number(c)).None? {
      LowerSoundFraction(r, v, c.bits);
    } else {
      LowerSoundIntegral(r, v, c.bits);
    }
  }

  /** A value that passes the filter and lies outside the range, for each constant ruled out. */
  function Witness(r: Rel, c: Value): Value {
    match r
    case AtLeast =>
      if c == Number(Int(0)) then Number(Float(NEGATIVE_ZERO))
      else if c.Number? && c.n.Float? && !BelowIntegers(c.n.bits, 0) && c.n.bits != NEGATIVE_ZERO &&
              ToInt(c.n.bits) > I64_MIN then
        Number(Int(ToInt(c.n.bits) - 1))
      else c
    case Above => if c.Number? && c.n.Float? && BelowIntegers(c.n.bits, 1) then Number(Float(c.n.bits - 1)) else c
    case AtMost => Number(Int(0))
    case Below => c
  }

  lemma {:induction false} UnsoundGe(c: Value)
    requires !SoundConstant(AtLeast, c)
    ensures var v := Witness(AtLeast, c);
            SameType(v, c) && Holds(AtLeast, v, c) && !Within(v, BoundFor(AtLeast, c))
  {
    hide Numeric, TotalLess, FromInt, Integral, ToInt;
    var v := Witness(AtLeast, c);
    FromIntZero(0);
    ZeroFacts();
    if c != Number(Int(0)) {
      var g := c.n.bits;
      BackAndForth(g);
      Ends(g);
      CompareSigned(g, g);
      CompareSigned(g, FromInt(ToInt(g)));
      if g != NEGATIVE_ZERO && !BelowIntegers(g, 0) {
        CompareSigned(FromInt(ToInt(g) - 1), g);
      }
    }
  }

  lemma {:induction false} ZeroFacts()
    ensures !IsNaN(NEGATIVE_ZERO) && Numeric(NEGATIVE_ZERO) == Numeric(0) && TotalLess(NEGATIVE_ZERO, 0)
    ensures Mag(NEGATIVE_ZERO) == 0 && !IsNaN(0)
  {
    CompareSigned(NEGATIVE_ZERO, 0);
    CompareSigned(0, NEGATIVE_ZERO);
  }

  lemma {:induction false} UnsoundGt(c: Value)
    requires !SoundConstant(Above, c)
    ensures var v := Witness(Above, c);
            SameType(v, c) && Holds(Above, v, c) && !Within(v, BoundFor(Above, c))
  {
    hide Numeric, TotalLess, FromInt, Integral, ToInt;
    var g := c.n.bits;
    BackAndForth(g);
    Ends(g);
    CompareSigned(g, g - 1);
    CompareSigned(g - 1, FromInt(ToInt(g)));
  }

  lemma {:induction false} UnsoundLe(c: Value)
    requires !SoundConstant(AtMost, c)
    ensures var v := Witness(AtMost, c);
            SameType(v, c) && Holds(AtMost, v, c) && !Within(v, BoundFor(AtMost, c))
  {
    hide Numeric, TotalLess, FromInt;
    FromIntZero(0);
    ZeroFacts();
  }

  /**
    * A comparison with a constant bounds the column by a sound range exactly when the constant is none of
    * these: for >=, zero, an integral double below the integers, or one that two integers round to; for >,
    * an integral double below the integers; for <=, negative zero.
    */
  lemma {:induction false} SoundIff(r: Rel, c: Value)
    ensures Sound(r, c) <==> SoundConstant(r, c)
  {
    hide Numeric, TotalLess, FromInt, Integral, ToInt, NumLess, NumHolds, SoundConstant, BoundFor;
    if SoundConstant(r, c) {
      forall v: Value | SameType(v, c) && Holds(r, v, c) ensures Within(v, BoundFor(r, c)) {
        if c.Number? {
          SoundNumber(r, v.n, c.n);
        } else {
          SoundOther(r, v, c);
        }
      }
    } else {
      match r {
        case AtLeast => UnsoundGe(c);
        case Above => UnsoundGt(c);
        case AtMost => UnsoundLe(c);
        case Below => LtAlwaysSound(c);
      }
    }
  }

  lemma {:induction false} LtAlwaysSound(c: Value)
    ensures SoundConstant(Below, c)
  {
  }

  lemma {:induction false} SoundOther(r: Rel, v: Value, c: Value)
    requires !c.Number? && SameType(v, c) && Holds(r, v, c)
    ensures Within(v, BoundFor(r, c))
  {
    hide ValueLess;
    EndsAreLoose(v);
    Asymmetric(v, c);
  }

  // ----- the order of values is asymmetric -----

  lemma {:induction false} NumAsymmetric(a: Num, b: Num)
    ensures !(NumLess(a, b) && NumLess(b, a))
  {
    hide TotalLess, FromInt;
    CompareSigned(GetFloat(a), GetFloat(b));
    CompareSigned(GetFloat(b), GetFloat(a));
  }

  lemma {:induction false} BytesAsymmetric(a: seq<u8>, b: seq<u8>)
    ensures !(Lt(a, b) && Lt(b, a))
  {
    if Lt(a, b) {
      LtAsymmetric(a, b);
    }
  }

  lemma {:induction false} ElementsAsymmetric(a: seq<int>, b: seq<int>)
    requires |a| == |b|
    ensures !(ElementsLess(a, b) && ElementsLess(b, a))
  {
    if a != [] && a[0] == b[0] {
      ElementsAsymmetric(a[1..], b[1..]);
    }
  }

  lemma {:induction false} Asymmetric(a: Value, b: Value)
    ensures !(ValueLess(a, b) && ValueLess(b, a))
    decreases a, 1
  {
    if Rank(a) == Rank(b) {
      match a {
        case Number(n) => NumAsymmetric(n, b.n);
        case Str(s) => BytesAsymmetric(s, b.s);
        case Blob(s) => BytesAsymmetric(s, b.bytes);
        case Uuid(_, _, _, rest) => BytesAsymmetric(rest, b.rest);
        case List(items) => ItemsAsymmetric(items, b.items);
        case Set(elems) => ItemsAsymmetric(elems, b.elems);
        case Vec(x) =>
          if |VectorKeys(x)| == |VectorKeys(b.v)| {
            ElementsAsymmetric(VectorKeys(x), VectorKeys(b.v));
          }
        case _ =>
      }
    }
  }

  lemma {:induction false} ItemsAsymmetric(a: seq<Value>, b: seq<Value>)
    ensures !(ItemsLess(a, b) && ItemsLess(b, a))
    decreases a, 0
  {
    if a != [] && b != [] {
      if a[0] == b[0] {
        ItemsAsymmetric(a[1..], b[1..]);
      } else {
        Asymmetric(a[0], b[0]);
      }
    }
  }

  // ----- plain numbers -----

  /** Integers and doubles of magnitude below 2^53, without negative zero and NaN. */
  predicate Plain(v: Value) {
    v.Number? ==>
      match v.n
      case Int(i) => Abs(i) < 2 * HIDDEN
      case Float(b) => Mag(b) < 1076 * HIDDEN && b != NEGATIVE_ZERO
  }

  lemma {:induction false} PlainNotCrowded(g: u64)
    requires Plain(Number(Float(g))) && GetInt(Number(Float(g))).Some?
    ensures !Crowded(g)
  {
    hide FromInt, ToInt, Integral;
    BackAndForth(g);
    PlainInt(g);
    if ToInt(g) > I64_MIN {
      FromIntMonotone(ToInt(g) - 1, ToInt(g));
    }
  }

  lemma {:induction false} PlainInt(g: u64)
    requires Mag(g) < 1076 * HIDDEN
    ensures Abs(ToInt(g)) < 2 * HIDDEN
  {
    var m := Mag(g);
    var e, q: nat := m / HIDDEN, HIDDEN + m % HIDDEN;
    if 1023 <= e <= 1075 {
      DivSmaller(q, Pow2(1075 - e));
    }
  }

  /** Between plain values every comparison gives a sound range. */
  lemma {:induction false} PlainSound(r: Rel, v: Value, c: Value)
    requires Plain(v) && Plain(c) && SameType(v, c) && Holds(r, v, c)
    ensures Within(v, BoundFor(r, c))
  {
    hide Numeric, TotalLess, FromInt, Integral, ToInt, NumLess, NumHolds;
    if !c.Number? {
      SoundOther(r, v, c);
    } else if r.AtLeast? && c == Number(Int(0)) {
      PlainAtZero(v.n);
    } else {
      if c.n.Float? && GetInt(c).Some? {
        PlainNotCrowded(c.n.bits);
      }
      SoundNumber(r, v.n, c.n);
    }
  }

  lemma {:induction false} PlainAtZero(v: Num)
    requires Plain(Number(v)) && NumHolds(AtLeast, v, Int(0))
    ensures Within(Number(v), BoundFor(AtLeast, Number(Int(0))))
  {
    hide Numeric, TotalLess, FromInt;
    EndsAreLoose(Number(v));
    if v.Float? {
      FromIntZero(0);
      CompareSigned(v.bits, FromInt(0));
      CompareSigned(FromInt(0), v.bits);
      SignOfZero(v.bits);
    }
  }

  // ----- ranges are not wider than they need be -----

  /** The ordering that also admits the constant. */
  function Weak(r: Rel): Rel {
    match r case AtLeast => AtLeast case Above => AtLeast case AtMost => AtMost case Below => AtMost
  }

  lemma {:induction false} LowerTight(v: Num, c: Num)
    requires Plain(Number(v)) && Plain(Number(c)) && !NumLess(v, LowerOf(Number(c)).n)
    ensures NumHolds(AtLeast, v, c)
  {
    hide Numeric, TotalLess, FromInt, Integral, ToInt;
    var x, y := GetFloat(v), GetFloat(c);
    CompareSigned(y, x);
    CompareSigned(x, y);
    PlainIsNumber(v);
    PlainIsNumber(c);
    if c.Float? && GetInt(Number(c)).Some? {
      BackAndForth(c.bits);
      PlainBelowTop(c.bits);
      if v.Int? {
        FromIntSigned(ToInt(c.bits), v.i);
      }
    }
  }

  lemma {:induction false} UpperTight(v: Num, c: Num)
    requires Plain(Number(v)) && Plain(Number(c)) && !NumLess(UpperOf(Number(c)).n, v)
    ensures NumHolds(AtMost, v, c)
  {
    hide Numeric, TotalLess, FromInt;
    var x, y := GetFloat(v), GetFloat(c);
    CompareSigned(y, x);
    CompareSigned(x, y);
    PlainIsNumber(v);
    PlainIsNumber(c);
    if v.Int? && c.Int? && v.i > c.i {
      FromIntMonotone(c.i, v.i);
    }
  }

  lemma {:induction false} PlainIsNumber(n: Num)
    requires Plain(Number(n))
    ensures !IsNaN(GetFloat(n))
  {
  }

  lemma {:induction false} PlainBelowTop(g: u64)
    requires Plain(Number(Float(g)))
    ensures Mag(g) <= TOP && g != NEGATIVE_ZERO
  {
  }

  /** Between plain values a range holds exactly the values that are on the constant's side or equal to it. */
  lemma {:induction false} PlainExact(r: Rel, v: Value, c: Value)
    requires Plain(v) && Plain(c) && SameType(v, c)
    ensures Within(v, BoundFor(r, c)) <==> Holds(Weak(r), v, c)
  {
    hide NumLess, NumHolds, ValueLess, Plain, LowerOf, UpperOf;
    if Holds(Weak(r), v, c) {
      PlainSound(Weak(r), v, c);
    }
    if Within(v, BoundFor(r, c)) {
      WithinHolds(r, v, c);
    }
  }

  lemma {:induction false} WithinHolds(r: Rel, v: Value, c: Value)
    requires Plain(v) && Plain(c) && SameType(v, c) && Within(v, BoundFor(r, c))
    ensures Holds(Weak(r), v, c)
  {
    hide NumLess, NumHolds, Plain;
    if c.Number? {
      if r.AtLeast? || r.Above? {
        LowerTight(v.n, c.n);
      } else {
        UpperTight(v.n, c.n);
      }
    }
  }
}
