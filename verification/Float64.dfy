/** IEEE 754-2008 binary64 values as 64-bit patterns: numeric value, total order, and conversion from and to i64. */
module Float64 {
  import opened Bytes

  const SIGN_MARK: int := 0x8000_0000_0000_0000
  const INFINITY: int := 0x7FF0_0000_0000_0000
  const HIDDEN: int := 0x10_0000_0000_0000  // 2^52, the implicit leading bit
  const QUIET: int := 0x8_0000_0000_0000   // 2^51, the quiet bit of a NaN

  type Magnitude = m: int | 0 <= m < 0x8000_0000_0000_0000

  predicate Negative(b: u64) {
    b >= SIGN_MARK
  }

  function Mag(b: u64): Magnitude {
    if Negative(b) then b - SIGN_MARK else b
  }

  predicate IsNaN(b: u64) {
    Mag(b) > INFINITY
  }

  function Pow2(n: nat): (p: nat)
    ensures p >= 1
  {
    if n == 0 then 1 else 2 * Pow2(n - 1)
  }

  /** The absolute value of a magnitude in units of 2^-1074; infinity continues the scale. */
  function Scaled(m: Magnitude): nat {
    var e, f := m / HIDDEN, m % HIDDEN;
    if e == 0 then f else (HIDDEN + f) * Pow2(e - 1)
  }

  function Numeric(b: u64): int {
    var v: int := Scaled(Mag(b));
    if Negative(b) then -v else v
  }

  /** Strict part of the totalOrder predicate, clause by clause (section 5.10 of IEEE 754-2008). */
  predicate TotalLess(x: u64, y: u64) {
    if !IsNaN(x) && !IsNaN(y) then
      // a), b) numeric order; c) -0 below +0
      Numeric(x) < Numeric(y) || (Numeric(x) == Numeric(y) && Negative(x) && !Negative(y))
    else if !IsNaN(y) then Negative(x)   // d.1) -NaN below every number
    else if !IsNaN(x) then !Negative(y)  // d.2) +NaN above every number
    // d.3) both NaN: sign, then signaling before quiet, then payload; reversed for negatives
    else if Negative(x) != Negative(y) then Negative(x)
    else if Negative(x) then NaNLess(Mag(y), Mag(x))
    else NaNLess(Mag(x), Mag(y))
  }

  predicate NaNLess(m: Magnitude, n: Magnitude) {
    var f, g := m % HIDDEN, n % HIDDEN;
    if (f < QUIET) != (g < QUIET) then f < QUIET
    else f % QUIET < g % QUIET
  }

  // ----- conversion from i64 -----

  /** Position of the leading bit. */
  function Log2(n: nat): (e: nat)
    requires n > 0
    ensures Pow2(e) <= n < Pow2(e + 1)
  {
    if n == 1 then 0 else 1 + Log2(n / 2)
  }

  /** `n / 2^s` rounded to nearest, ties to even. */
  function RoundShift(n: nat, s: nat): nat
    requires s > 0
  {
    RoundHalfEven(Div(n, Pow2(s)), Mod(n, Pow2(s)), Pow2(s - 1))
  }

  function RoundHalfEven(q: nat, r: nat, half: nat): nat {
    if r > half || (r == half && q % 2 == 1) then q + 1 else q
  }

  /** The 53-bit significand that `n` rounds to; 2^53 when rounding carries out. */
  function Significand(n: nat): nat
    requires n > 0
  {
    var e := Log2(n);
    if e <= 52 then n * Pow2(52 - e) else RoundShift(n, e - 52)
  }

  /** Magnitude of the binary64 number nearest to `n`. */
  function RoundNat(n: nat): (m: Magnitude)
    requires n <= 0x8000_0000_0000_0000
    ensures m < INFINITY
  {
    if n == 0 then 0
    else
      LeadingBit(n);
      SignificandBounds(n);
      (Log2(n) + 1022) * HIDDEN + Significand(n)
  }

  /** `i as f64`. */
  function FromInt(i: i64): (b: u64)
    ensures Negative(b) <==> i < 0
    ensures !IsNaN(b)
  {
    if i >= 0 then RoundNat(i) else SIGN_MARK + RoundNat(-(i as int))
  }

  /** Integer part of a magnitude. */
  function Truncated(m: Magnitude): nat {
    var e, q: nat := m / HIDDEN, HIDDEN + m % HIDDEN;
    if e < 1023 then 0
    else if e <= 1075 then Div(q, Pow2(1075 - e))
    else Product(q, Pow2(e - 1075))
  }

  function Product(q: nat, p: nat): nat {
    q * p
  }

  /** `f as i64`: truncation, saturating, NaN to zero. */
  function ToInt(b: u64): i64 {
    if IsNaN(b) then 0
    else
      var t: int := Truncated(Mag(b));
      if Negative(b) then (if t > 0x8000_0000_0000_0000 then I64_MIN else -t)
      else if t > I64_MAX then I64_MAX else t
  }

  // ----- powers of two -----

  lemma {:induction false} Pow2Add(a: nat, b: nat)
    ensures Pow2(a + b) == Pow2(a) * Pow2(b)
  {
    if a > 0 {
      Pow2Add(a - 1, b);
      assert Pow2(a + b) == 2 * Pow2((a - 1) + b);
      assert 2 * (Pow2(a - 1) * Pow2(b)) == (2 * Pow2(a - 1)) * Pow2(b);
    }
  }

  lemma {:induction false} Pow2Monotone(a: nat, b: nat)
    requires a <= b
    ensures Pow2(a) <= Pow2(b)
  {
    if a < b {
      Pow2Monotone(a, b - 1);
    }
  }

  lemma {:induction false} Pow2Fifty()
    ensures Pow2(10) == 0x400
    ensures Pow2(50) == 0x4_0000_0000_0000
  {
    assert Pow2(5) == 2 * (2 * (2 * (2 * (2 * Pow2(0)))));
    Pow2Add(5, 5);
    Pow2Add(10, 10);
    Pow2Add(20, 20);
    Pow2Add(40, 10);
  }

  lemma {:induction false} Pow2Widths()
    ensures Pow2(52) == HIDDEN
    ensures Pow2(53) == 2 * HIDDEN
    ensures Pow2(63) == 0x8000_0000_0000_0000
    ensures Pow2(64) == 0x1_0000_0000_0000_0000
  {
    Pow2Fifty();
    Pow2Add(10, 50);
    assert Pow2(52) == 2 * (2 * Pow2(50));
    assert Pow2(63) == 2 * (2 * (2 * Pow2(60)));
  }

  lemma {:induction false} LeadingBit(n: nat)
    requires 0 < n <= 0x8000_0000_0000_0000
    ensures Log2(n) <= 63
    ensures n < 2 * HIDDEN <==> Log2(n) <= 52
  {
    Pow2Widths();
    if Log2(n) >= 64 {
      Pow2Monotone(64, Log2(n));
    }
    if Log2(n) <= 52 {
      Pow2Monotone(Log2(n) + 1, 53);
    } else {
      Pow2Monotone(53, Log2(n));
    }
  }

  lemma {:induction false} MulLe(a: int, b: int, p: nat)
    ensures a <= b ==> a * p <= b * p
  {
  }

  lemma {:induction false} MulLt(a: int, b: int, p: nat)
    requires a < b && p > 0
    ensures a * p < b * p
  {
  }

  lemma {:induction false} DivRange(n: nat, p: nat, lo: nat, hi: nat)
    requires p > 0
    requires lo * p <= n < hi * p
    ensures lo <= Div(n, p) < hi
  {
    assert n == Div(n, p) * p + Mod(n, p);
    MulLe(hi, Div(n, p), p);
    MulLe(Div(n, p) + 1, lo, p);
  }

  lemma {:induction false} DivMonotone(n: nat, k: nat, p: nat)
    requires p > 0 && n <= k
    ensures Div(n, p) < Div(k, p) || (Div(n, p) == Div(k, p) && Mod(n, p) <= Mod(k, p))
  {
    assert n == Div(n, p) * p + Mod(n, p);
    assert k == Div(k, p) * p + Mod(k, p);
    MulLe(Div(k, p) + 1, Div(n, p), p);
  }

  lemma {:induction false} ShortSignificand(n: nat)
    requires n > 0 && Log2(n) <= 52
    ensures HIDDEN <= Significand(n) < 2 * HIDDEN
  {
    var e := Log2(n);
    Pow2Widths();
    Pow2Add(e, 52 - e);
    Pow2Add(e + 1, 52 - e);
    MulLe(Pow2(e), n, Pow2(52 - e));
    MulLt(n, Pow2(e + 1), Pow2(52 - e));
  }

  lemma {:induction false} ShiftedQuotient(n: nat)
    requires n > 0 && Log2(n) > 52
    ensures HIDDEN <= Div(n, Pow2(Log2(n) - 52)) < 2 * HIDDEN
  {
    var s := Log2(n) - 52;
    Pow2Widths();
    Pow2Add(52, s);
    Pow2Add(53, s);
    DivRange(n, Pow2(s), HIDDEN, 2 * HIDDEN);
  }

  lemma {:induction false} SignificandBounds(n: nat)
    requires n > 0
    ensures HIDDEN <= Significand(n) <= 2 * HIDDEN
    ensures Log2(n) <= 52 ==> Significand(n) < 2 * HIDDEN
  {
    if Log2(n) <= 52 {
      ShortSignificand(n);
    } else {
      ShiftedQuotient(n);
    }
  }

  // ----- monotonicity -----

  lemma {:induction false} RoundShiftMonotone(n: nat, k: nat, s: nat)
    requires s > 0 && n <= k
    ensures RoundShift(n, s) <= RoundShift(k, s)
  {
    DivMonotone(n, k, Pow2(s));
  }

  lemma {:induction false} LogMonotone(n: nat, k: nat)
    requires 0 < n <= k
    ensures Log2(n) <= Log2(k)
  {
    hide Pow2;
    if Log2(n) > Log2(k) {
      Pow2Monotone(Log2(k) + 1, Log2(n));
    }
  }

  lemma {:induction false} SignificandMonotone(n: nat, k: nat)
    requires 0 < n <= k && Log2(n) == Log2(k)
    ensures Significand(n) <= Significand(k)
  {
    hide Pow2, Log2, RoundShift;
    if Log2(n) <= 52 {
      MulLe(n, k, Pow2(52 - Log2(n)));
    } else {
      RoundShiftMonotone(n, k, Log2(n) - 52);
    }
  }

  /** Conversion never inverts an order, on either side of 2^53. */
  lemma {:induction false} RoundNatMonotone(n: nat, k: nat)
    requires n <= k <= 0x8000_0000_0000_0000
    ensures RoundNat(n) <= RoundNat(k)
  {
    hide Significand, Log2;
    if 0 < n {
      SignificandBounds(n);
      SignificandBounds(k);
      LogMonotone(n, k);
      if Log2(n) == Log2(k) {
        SignificandMonotone(n, k);
      }
    }
  }

  lemma {:induction false} FieldsOf(e: nat, q: nat)
    requires HIDDEN <= q < 2 * HIDDEN && e < 0x400
    ensures ((e + 1022) * HIDDEN + q) / HIDDEN == e + 1023
    ensures ((e + 1022) * HIDDEN + q) % HIDDEN == q - HIDDEN
  {
  }

  /** Integers below 2^53 convert exactly: nothing is lost by truncating back. */
  lemma {:induction false} TruncatedRoundNat(n: nat)
    requires n < 2 * HIDDEN
    ensures Truncated(RoundNat(n)) == n
  {
    if n > 0 {
      var e := Log2(n);
      LeadingBit(n);
      SignificandBounds(n);
      FieldsOf(e, Significand(n));
      QuotientOf(n, Pow2(52 - e), 0);
    }
  }

  /** Every integer strictly inside (-2^53, 2^53) survives the trip through f64. */
  lemma {:induction false} ToIntFromInt(i: i64)
    requires -2 * HIDDEN < i < 2 * HIDDEN
    ensures ToInt(FromInt(i)) == i
  {
    TruncatedRoundNat(if i >= 0 then i else -(i as int));
  }

  lemma {:induction false} RoundNatStrict(n: nat, k: nat)
    requires n < k <= 0x8000_0000_0000_0000
    ensures n < 2 * HIDDEN ==> RoundNat(n) < RoundNat(k)
  {
    if n < 2 * HIDDEN {
      RoundNatMonotone(n, k);
      TruncatedRoundNat(n);
      if k < 2 * HIDDEN {
        TruncatedRoundNat(k);
      } else if n > 0 {
        LeadingBit(n);
        LeadingBit(k);
        SignificandBounds(n);
        SignificandBounds(k);
      }
    }
  }

  lemma {:induction false} ScaledMonotone(m: Magnitude, k: Magnitude)
    requires m < k
    ensures Scaled(m) < Scaled(k)
  {
    var e, f, d, g := m / HIDDEN, m % HIDDEN, k / HIDDEN, k % HIDDEN;
    if e == d {
      if e > 0 {
        MulLt(HIDDEN + f, HIDDEN + g, Pow2(e - 1));
      }
    } else {
      ScaledBelowNext(m);
      Pow2Monotone(e, d - 1);
      MulLe(Pow2(e), Pow2(d - 1), HIDDEN);
      MulLe(HIDDEN, HIDDEN + g, Pow2(d - 1));
    }
  }

  lemma {:induction false} ScaledBelowNext(m: Magnitude)
    ensures Scaled(m) < HIDDEN * Pow2(m / HIDDEN)
  {
    var e, f := m / HIDDEN, m % HIDDEN;
    if e > 0 {
      MulLt(HIDDEN + f, 2 * HIDDEN, Pow2(e - 1));
    }
  }

  lemma {:induction false} ScaledOrder(m: Magnitude, k: Magnitude)
    ensures Scaled(m) < Scaled(k) <==> m < k
    ensures Scaled(m) == Scaled(k) <==> m == k
  {
    if m < k {
      ScaledMonotone(m, k);
    } else if k < m {
      ScaledMonotone(k, m);
    }
  }

  lemma {:induction false} NaNOrder(m: Magnitude, k: Magnitude)
    requires m > INFINITY && k > INFINITY
    ensures NaNLess(m, k) <==> m < k
  {
    assert m / HIDDEN == 0x7FF && k / HIDDEN == 0x7FF;
  }

  /** totalOrder is the order of sign and magnitude, NaNs included. */
  lemma {:induction false} TotalLessBySign(x: u64, y: u64)
    ensures TotalLess(x, y) <==>
            if Negative(x) != Negative(y) then Negative(x)
            else if Negative(x) then Mag(y) < Mag(x)
            else Mag(x) < Mag(y)
  {
    ScaledOrder(Mag(x), Mag(y));
    ScaledOrder(Mag(y), Mag(x));
    if IsNaN(x) && IsNaN(y) {
      NaNOrder(Mag(x), Mag(y));
      NaNOrder(Mag(y), Mag(x));
    }
  }

  lemma {:induction false} FromIntFields(i: i64)
    ensures Negative(FromInt(i)) <==> i < 0
    ensures Mag(FromInt(i)) == RoundNat(Abs(i))
  {
  }

  function Abs(i: i64): (n: nat)
    ensures n <= 0x8000_0000_0000_0000
  {
    if i >= 0 then i else -(i as int)
  }

  /** Conversion keeps the order of integers, strictly so as soon as one side is inside (-2^53, 2^53). */
  lemma {:induction false} FromIntMonotone(i: i64, j: i64)
    requires i < j
    ensures FromInt(i) == FromInt(j) || TotalLess(FromInt(i), FromInt(j))
    ensures Abs(i) < 2 * HIDDEN || Abs(j) < 2 * HIDDEN ==> FromInt(i) != FromInt(j)
  {
    FromIntFields(i);
    FromIntFields(j);
    TotalLessBySign(FromInt(i), FromInt(j));
    if i >= 0 {
      RoundNatMonotone(i, j);
      RoundNatStrict(i, j);
    } else if j < 0 {
      RoundNatMonotone(Abs(j), Abs(i));
      RoundNatStrict(Abs(j), Abs(i));
    }
  }

  // ----- conversion rounds to nearest, ties to even -----

  function Distance(a: int, b: int): nat {
    if a <= b then b - a else a - b
  }

  lemma {:induction false} ScaledOf(e: nat, q: nat)
    requires HIDDEN <= q <= 2 * HIDDEN && e < 0x3FF
    ensures Scaled((e + 1022) * HIDDEN + q) == q * Pow2(e + 1022)
  {
    if q < 2 * HIDDEN {
      FieldsOf(e, q);
    } else {
      FieldsOf(e + 1, HIDDEN);
      assert (e + 1022) * HIDDEN + q == (e + 1 + 1022) * HIDDEN + HIDDEN;
      assert Pow2(e + 1023) == 2 * Pow2(e + 1022);
    }
  }

  lemma {:induction false} NearerOfTwo(n: nat, q: nat, r: nat, p: nat, u: nat, w: nat)
    requires w == p * u && n == q * p + r && r <= p
    ensures n * u == q * w + r * u
    ensures (q + 1) * w == n * u + (p - r) * u
  {
    assert (q * p + r) * u == q * (p * u) + r * u;
    assert (q + 1) * w == q * w + w;
    assert p * u == r * u + (p - r) * u;
  }

  lemma {:induction false} Neighbours(m: Magnitude, lo: Magnitude)
    requires lo < 0x7FFF_FFFF_FFFF_FFFF
    ensures Scaled(m) <= Scaled(lo) || Scaled(lo + 1) <= Scaled(m)
    ensures Scaled(m) == Scaled(lo) <==> m == lo
    ensures Scaled(m) == Scaled(lo + 1) <==> m == lo + 1
  {
    ScaledOrder(m, lo);
    ScaledOrder(m, lo + 1);
  }

  lemma {:induction false} NearerWins(target: int, lo: int, hi: int, other: int, chosen: int)
    requires lo <= target <= hi && (other <= lo || hi <= other)
    requires (chosen == lo && target - lo <= hi - target) || (chosen == hi && hi - target <= target - lo)
    ensures Distance(chosen, target) <= Distance(other, target)
    ensures Distance(chosen, target) == Distance(other, target) && other != chosen ==>
              target - lo == hi - target
  {
  }

  lemma {:induction false} MulOrder(a: nat, b: nat, u: nat)
    requires u > 0
    ensures a < b <==> Product(a, u) < Product(b, u)
    ensures a == b <==> Product(a, u) == Product(b, u)
  {
    if a < b {
      MulLt(a, b, u);
    } else if b < a {
      MulLt(b, a, u);
    }
  }

  lemma {:induction false} ScaledRoundNat(n: nat)
    requires 0 < n <= 0x8000_0000_0000_0000
    ensures Scaled(RoundNat(n)) == Significand(n) * Pow2(Log2(n) + 1022)
  {
    LeadingBit(n);
    SignificandBounds(n);
    var e, q := Log2(n), Significand(n);
    ScaledOf(e, q);
  }

  lemma {:induction false} HalfEvenChoice(b: nat, q: nat, r: nat, half: nat, p: nat)
    requires p == 2 * half
    ensures var lo := b * HIDDEN + q;
            b * HIDDEN + RoundHalfEven(q, r, half) ==
            if r > p - r || (r == p - r && lo % 2 == 1) then lo + 1 else lo
  {
    assert (b * HIDDEN + q) % 2 == q % 2 by {
      assert b * HIDDEN == 2 * (b * QUIET);
    }
  }

  /** `unit` is 1074: the values of doubles are counted in units of 2^-1074, the smallest positive one. */
  predicate UnitExponent(unit: nat) {
    unit - 52 == 1022
  }

  lemma {:induction false} NeighbourValues(n: nat, q: nat, r: nat, p: nat, lo: Magnitude, unit: nat)
    requires UnitExponent(unit) && 0 < n <= 0x8000_0000_0000_0000 && Log2(n) > 52
    requires p == Pow2(Log2(n) - 52) && lo == (Log2(n) + 1022) * HIDDEN + q
    requires n == q * p + r && r <= p && HIDDEN <= q < 2 * HIDDEN
    ensures lo < INFINITY
    ensures n * Pow2(unit) == Scaled(lo) + Product(r, Pow2(unit))
    ensures Scaled(lo + 1) == n * Pow2(unit) + Product(p - r, Pow2(unit))
  {
    var e := Log2(n);
    LeadingBit(n);
    ScaledOf(e, q);
    ScaledOf(e, q + 1);
    Pow2Add(e - 52, unit);
    NearerOfTwo(n, q, r, p, Pow2(unit), Pow2(e + 1022));
  }

  lemma {:induction false} Euclid(n: nat, p: nat) returns (q: nat, r: nat)
    requires p > 0
    ensures q == Div(n, p) && r == Mod(n, p) && n == q * p + r && r < p
  {
    q, r := Div(n, p), Mod(n, p);
  }

  lemma {:induction false} RoundingParts(n: nat) returns (lo: Magnitude, q: nat, r: nat, p: nat)
    requires 0 < n <= 0x8000_0000_0000_0000 && Log2(n) > 52
    ensures p == Pow2(Log2(n) - 52) && lo == (Log2(n) + 1022) * HIDDEN + q
    ensures n == q * p + r && r < p && HIDDEN <= q < 2 * HIDDEN
    ensures RoundNat(n) == if r > p - r || (r == p - r && lo % 2 == 1) then lo + 1 else lo
  {
    p := Pow2(Log2(n) - 52);
    q, r := Euclid(n, p);
    LeadingBit(n);
    ShiftedQuotient(n);
    lo := (Log2(n) + 1022) * HIDDEN + q;
    HalfEvenChoice(Log2(n) + 1022, q, r, Pow2(Log2(n) - 53), p);
  }

  lemma {:induction false} RoundingGap(n: nat, unit: nat) returns (lo: Magnitude, r: nat, p: nat)
    requires UnitExponent(unit) && 0 < n <= 0x8000_0000_0000_0000 && Log2(n) > 52
    ensures lo < INFINITY && r < p
    ensures n * Pow2(unit) == Scaled(lo) + Product(r, Pow2(unit))
    ensures Scaled(lo + 1) == n * Pow2(unit) + Product(p - r, Pow2(unit))
    ensures RoundNat(n) == if r > p - r || (r == p - r && lo % 2 == 1) then lo + 1 else lo
  {
    var q;
    lo, q, r, p := RoundingParts(n);
    NeighbourValues(n, q, r, p, lo, unit);
  }

  /** The two magnitudes around `n`, how far they lie from it and which of them `RoundNat` takes. */
  lemma {:induction false} RoundingNeighbours(n: nat, target: nat, unit: nat)
    returns (lo: Magnitude, below: nat, above: nat)
    requires UnitExponent(unit) && 0 < n <= 0x8000_0000_0000_0000 && Log2(n) > 52
    requires target == n * Pow2(unit)
    ensures lo < INFINITY
    ensures target == Scaled(lo) + below
    ensures Scaled(lo + 1) == target + above
    ensures RoundNat(n) == if below > above || (below == above && lo % 2 == 1) then lo + 1 else lo
  {
    var r, p;
    lo, r, p := RoundingGap(n, unit);
    below, above := Product(r, Pow2(unit)), Product(p - r, Pow2(unit));
    MulOrder(r, p - r, Pow2(unit));
  }

  lemma {:induction false} RoundingNearest(n: nat, m: Magnitude, target: nat, unit: nat)
    requires UnitExponent(unit) && 0 < n <= 0x8000_0000_0000_0000 && Log2(n) > 52
    requires target == n * Pow2(unit)
    ensures Nearest(Scaled(RoundNat(n)), RoundNat(n), target, Scaled(m), m)
  {
    var lo, below, above := RoundingNeighbours(n, target, unit);
    Neighbours(m, lo);
    NearestOf(Scaled(lo), Scaled(lo + 1), Scaled(m), target, lo, RoundNat(n), m, below, above);
  }

  /** Candidate `c` of value `v` is no farther from the target than `m` of value `w`, and even if another is as near. */
  predicate Nearest(v: int, c: Magnitude, target: int, w: int, m: Magnitude) {
    && Distance(v, target) <= Distance(w, target)
    && (Distance(v, target) == Distance(w, target) ==> m == c || c % 2 == 0)
  }

  lemma {:induction false} NearestOf(vlo: int, vhi: int, w: int, target: int, lo: Magnitude, c: Magnitude, m: Magnitude,
                  below: nat, above: nat)
    requires target == vlo + below && vhi == target + above
    requires lo < 0x7FFF_FFFF_FFFF_FFFF
    requires c == if below > above || (below == above && lo % 2 == 1) then lo + 1 else lo
    requires w <= vlo || vhi <= w
    requires (w == vlo <==> m == lo) && (w == vhi <==> m == lo + 1)
    ensures Nearest(if c == lo then vlo else vhi, c, target, w, m)
  {
    NearerWins(target, vlo, vhi, w, if c == lo then vlo else vhi);
  }

  lemma {:induction false} ProductAssociates(n: nat, a: nat, b: nat)
    ensures n * a * b == n * (a * b)
  {
  }

  lemma {:induction false} ExactBelow53(n: nat, unit: nat)
    requires UnitExponent(unit) && 0 < n <= 0x8000_0000_0000_0000 && Log2(n) <= 52
    ensures Scaled(RoundNat(n)) == n * Pow2(unit)
  {
    var e := Log2(n);
    ScaledRoundNat(n);
    Pow2Add(52 - e, e + 1022);
    ProductAssociates(n, Pow2(52 - e), Pow2(e + 1022));
  }

  /**
    * `RoundNat` is roundTiesToEven of section 4.3.1 of IEEE 754-2008: no magnitude lies
    * closer to `n`, and when another lies as close the even one is chosen.
    */
  lemma {:induction false} RoundNatNearest(n: nat, m: Magnitude, target: nat, unit: nat)
    requires UnitExponent(unit) && n <= 0x8000_0000_0000_0000
    requires target == n * Pow2(unit)
    ensures Nearest(Scaled(RoundNat(n)), RoundNat(n), target, Scaled(m), m)
  {
    if n > 0 && Log2(n) > 52 {
      RoundingNearest(n, m, target, unit);
    } else {
      ScaledOrder(m, RoundNat(n));
      if n > 0 {
        ExactBelow53(n, unit);
      }
    }
  }
}
