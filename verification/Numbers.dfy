/** Integers read out of numbers, and the way back. */
module Numbers {
  import opened Bytes
  import opened Float64
  import opened Values

  /** Rounding leaves the float unchanged; infinities pass. */
  predicate Integral(m: Magnitude) {
    var e, q: nat := m / HIDDEN, HIDDEN + m % HIDDEN;
    if e < 1023 then m == 0 else if e < 1075 then Mod(q, Pow2(1075 - e)) == 0 else true
  }

  function GetInt(v: Value): Option<i64> {
    match v
    case Number(Int(i)) => Some(i)
    case Number(Float(b)) => if !IsNaN(b) && Integral(Mag(b)) then Some(ToInt(b)) else None
    case _ => None
  }

  function GetFloat(n: Num): u64 {
    match n case Int(i) => FromInt(i) case Float(b) => b
  }

  const NEGATIVE_ZERO: u64 := SIGN_MARK

  // ----- integral doubles convert to integers and back -----

  lemma {:induction false} LogOf(n: nat, e: nat)
    requires n > 0 && Pow2(e) <= n < Pow2(e + 1)
    ensures Log2(n) == e
  {
    if Log2(n) < e {
      Pow2Monotone(Log2(n) + 1, e);
    } else if e < Log2(n) {
      Pow2Monotone(e + 1, Log2(n));
    }
  }

  lemma {:induction false} LogScaled(q: nat, s: nat)
    requires HIDDEN <= q < 2 * HIDDEN
    ensures Product(q, Pow2(s)) > 0 && Log2(Product(q, Pow2(s))) == 52 + s
  {
    Pow2Widths();
    Pow2Add(52, s);
    Pow2Add(53, s);
    MulLe(HIDDEN, q, Pow2(s));
    MulLt(q, 2 * HIDDEN, Pow2(s));
    LogOf(Product(q, Pow2(s)), 52 + s);
  }

  lemma {:induction false} LogShifted(n: nat, q: nat, s: nat)
    requires HIDDEN <= q < 2 * HIDDEN && s <= 52 && n * Pow2(s) == q
    ensures n > 0 && Log2(n) == 52 - s
  {
    Pow2Widths();
    Pow2Add(52 - s, s);
    Pow2Add(53 - s, s);
    if n < Pow2(52 - s) {
      MulLt(n, Pow2(52 - s), Pow2(s));
    } else if n >= Pow2(53 - s) {
      MulLe(Pow2(53 - s), n, Pow2(s));
    }
    LogOf(n, 52 - s);
  }

  lemma {:induction false} ShrinksBy(n: nat, p: nat, q: nat)
    requires n * p == q && p > 0
    ensures n <= q
  {
  }

  lemma {:induction false} RoundShort(n: nat, q: nat, s: nat)
    requires HIDDEN <= q < 2 * HIDDEN && s <= 52 && n * Pow2(s) == q
    ensures 0 < n < 2 * HIDDEN && RoundNat(n) == (1074 - s) * HIDDEN + q
  {
    hide Pow2, Log2, Div, Mod, RoundShift;
    LogShifted(n, q, s);
    ShrinksBy(n, Pow2(s), q);
    assert Significand(n) == n * Pow2(52 - Log2(n));
  }

  lemma {:induction false} RoundTruncatedSmall(m: Magnitude, e: nat, q: nat)
    requires e == m / HIDDEN && q == HIDDEN + m % HIDDEN && 1023 <= e <= 1075
    requires Mod(q, Pow2(1075 - e)) == 0
    ensures 0 < Truncated(m) < 2 * HIDDEN && RoundNat(Truncated(m)) == m
  {
    hide Pow2, Log2, Div, Mod, RoundNat;
    var n, r := Euclid(q, Pow2(1075 - e));
    RoundShort(n, q, 1075 - e);
    assert Truncated(m) == n;
  }

  lemma {:induction false} RoundTruncatedLarge(m: Magnitude, e: nat, q: nat)
    requires e == m / HIDDEN && q == HIDDEN + m % HIDDEN && 1075 < e
    requires Truncated(m) <= 0x8000_0000_0000_0000
    ensures Truncated(m) > 0 && RoundNat(Truncated(m)) == m
  {
    var s := e - 1075;
    var n := Truncated(m);
    LogScaled(q, s);
    assert n == Product(q, Pow2(s));
    QuotientOf(q, Pow2(s), 0);
    assert Div(n, Pow2(s)) == q && Mod(n, Pow2(s)) == 0;
    assert Significand(n) == RoundShift(n, s) == q;
  }

  /** An integral magnitude of at most 2^63 is the magnitude nearest to its integer. */
  lemma {:induction false} RoundTruncated(m: Magnitude)
    requires Integral(m) && m <= INFINITY && Truncated(m) <= 0x8000_0000_0000_0000
    ensures RoundNat(Truncated(m)) == m
  {
    var e, q: nat := m / HIDDEN, HIDDEN + m % HIDDEN;
    if e < 1023 {
    } else if e < 1075 {
      RoundTruncatedSmall(m, e, q);
    } else if e == 1075 {
      assert Pow2(0) == 1;
      QuotientOf(q, 1, 0);
      RoundTruncatedSmall(m, e, q);
    } else {
      RoundTruncatedLarge(m, e, q);
    }
  }

  // ----- doubles as signed magnitudes -----

  function Signed(x: u64): int {
    var m: int := Mag(x);
    if Negative(x) then -m else m
  }

  lemma {:induction false} NumericSigned(x: u64, y: u64)
    ensures Numeric(x) <= Numeric(y) <==> Signed(x) <= Signed(y)
  {
    hide Scaled;
    ScaledOrder(Mag(x), Mag(y));
    ScaledOrder(Mag(x), 0);
    ScaledOrder(Mag(y), 0);
    ScaledZero();
  }

  lemma {:induction false} ScaledZero()
    ensures Scaled(0) == 0
  {
  }

  lemma {:induction false} TotalSigned(x: u64, y: u64)
    ensures TotalLess(x, y) <==> Signed(x) < Signed(y) || (Signed(x) == Signed(y) && Negative(x) && !Negative(y))
  {
    hide TotalLess;
    TotalLessBySign(x, y);
  }

  lemma {:induction false} FromIntSigned(i: i64, j: i64)
    requires i <= j
    ensures Signed(FromInt(i)) <= Signed(FromInt(j))
  {
    hide FromInt, TotalLess;
    if i < j {
      FromIntMonotone(i, j);
      TotalSigned(FromInt(i), FromInt(j));
    }
  }

  /** Only zero converts to a zero. */
  lemma {:induction false} FromIntZero(i: i64)
    ensures Signed(FromInt(i)) == 0 <==> i == 0
    ensures FromInt(0) == 0
  {
    hide RoundNat;
    RoundZero();
    FromIntFields(i);
    if Abs(i) > 0 {
      RoundNatStrict(0, Abs(i));
    }
  }

  lemma {:induction false} RoundZero()
    ensures RoundNat(0) == 0
  {
  }

  // ----- the ends of the integer range -----

  /** Magnitude of 2^63. */
  const TOP: int := 0x43E0_0000_0000_0000

  lemma {:induction false} FromIntEnds(low: i64, high: i64)
    requires low == I64_MIN && high == I64_MAX
    ensures Signed(FromInt(low)) == -TOP && Negative(FromInt(low))
    ensures FromInt(high) == TOP
  {
    hide RoundNat, FromInt;
    FromIntFields(low);
    FromIntFields(high);
    RoundTop(Abs(low), Abs(high));
  }

  lemma {:induction false} RoundTop(n: nat, k: nat)
    requires n == 0x8000_0000_0000_0000 && k == n - 1
    ensures RoundNat(n) == TOP && RoundNat(k) == TOP
  {
    hide Pow2, Log2, Div, Mod;
    TopPowers();
    LogOf(n, 63);
    LogOf(k, 62);
    QuotientOf(HIDDEN, Pow2(11), 0);
    QuotientOf(2 * HIDDEN - 1, Pow2(10), 1023);
  }

  lemma {:induction false} TopPowers()
    ensures Pow2(9) == 0x200 && Pow2(10) == 0x400 && Pow2(11) == 0x800
    ensures Pow2(62) == 0x4000_0000_0000_0000 && Pow2(63) == 0x8000_0000_0000_0000
    ensures Pow2(64) == 0x1_0000_0000_0000_0000
  {
    Pow2Widths();
    Pow2Fifty();
    assert Pow2(64) == 2 * Pow2(63) && Pow2(63) == 2 * Pow2(62);
    assert Pow2(11) == 2 * Pow2(10) && Pow2(10) == 2 * Pow2(9);
  }

  /** What an integer rounds to is an integer. */
  lemma {:induction false} RoundIntegral(n: nat)
    requires n <= 0x8000_0000_0000_0000
    ensures Integral(RoundNat(n))
  {
    hide Pow2, Log2, Div, Mod;
    if n > 0 {
      var e := Log2(n);
      LeadingBit(n);
      SignificandBounds(n);
      if e <= 52 {
        FieldsOf(e, Significand(n));
        QuotientOf(n, Pow2(52 - e), 0);
      }
    }
  }

  lemma {:induction false} ProductBelow(q: nat, s: nat)
    requires q < 2 * HIDDEN && s <= 10
    ensures Product(q, Pow2(s)) < 0x8000_0000_0000_0000
  {
    Pow2Fifty();
    Pow2Monotone(s, 10);
    MulLe(Pow2(s), 0x400, q);
    MulLt(q, 2 * HIDDEN, 0x400);
  }

  lemma {:induction false} ProductAbove(q: nat, s: nat)
    requires q >= HIDDEN && s >= 11 && (s == 11 ==> q > HIDDEN)
    ensures Product(q, Pow2(s)) > 0x8000_0000_0000_0000
  {
    Pow2Fifty();
    assert Pow2(11) == 2 * Pow2(10) && Pow2(12) == 2 * Pow2(11);
    if s == 11 {
      MulLt(HIDDEN, q, 0x800);
    } else {
      Pow2Monotone(12, s);
      MulLe(0x1000, Pow2(s), q);
      MulLe(HIDDEN, q, 0x1000);
    }
  }

  lemma {:induction false} DivSmaller(q: nat, p: nat)
    requires p > 0
    ensures Div(q, p) <= q
  {
    var n, r := Euclid(q, p);
    ShrinksBy(n, p, n * p);
  }

  /** Magnitudes up to that of 2^63, and only those, have integer parts up to 2^63. */
  lemma {:induction false} TruncatedTop(m: Magnitude)
    ensures Truncated(m) <= 0x8000_0000_0000_0000 <==> m <= TOP
  {
    var e, q: nat := m / HIDDEN, HIDDEN + m % HIDDEN;
    if 1023 <= e <= 1075 {
      DivSmaller(q, Pow2(1075 - e));
    } else if e > 1075 {
      if e <= 1085 {
        ProductBelow(q, e - 1075);
      } else if m != TOP {
        ProductAbove(q, e - 1075);
      } else {
        TopProduct();
      }
    }
  }

  lemma {:induction false} TopProduct()
    ensures Product(HIDDEN, Pow2(11)) == 0x8000_0000_0000_0000
  {
    Pow2Fifty();
    assert Pow2(11) == 2 * Pow2(10);
  }

  /** Converting an integral double to an integer and back returns it, up to the sign of zero and saturation. */
  lemma {:induction false} BackAndForth(g: u64)
    requires !IsNaN(g) && Integral(Mag(g))
    ensures Mag(g) <= TOP && g != NEGATIVE_ZERO ==> FromInt(ToInt(g)) == g
    ensures g == NEGATIVE_ZERO ==> ToInt(g) == 0
    ensures Mag(g) > TOP ==> ToInt(g) == if Negative(g) then I64_MIN else I64_MAX
  {
    hide RoundNat, Truncated, Integral;
    TruncatedTop(Mag(g));
    TruncatedZero();
    if Mag(g) <= TOP && g != NEGATIVE_ZERO {
      RoundTruncated(Mag(g));
      FromIntFields(ToInt(g));
      if !Negative(g) && Truncated(Mag(g)) == 0x8000_0000_0000_0000 {
        RoundTop(Truncated(Mag(g)), Abs(ToInt(g)));
      }
      if Mag(g) > 0 {
        RoundPositive(Mag(g));
      }
    }
  }

  lemma {:induction false} TruncatedZero()
    ensures Truncated(0) == 0
  {
  }

  lemma {:induction false} RoundPositive(m: Magnitude)
    requires Truncated(m) <= 0x8000_0000_0000_0000 && RoundNat(Truncated(m)) == m && m > 0
    ensures Truncated(m) > 0
  {
    RoundZero();
  }
}
