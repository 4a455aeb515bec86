/** The `interval_coalesce` aggregate: half-open spans merged into maximal ones. */
module Coalesce {
  import opened Bytes
  import opened Float64
  import opened Values
  import opened Numbers
  import opened Permutations

  datatype Span = Span(start: Num, end: Num)

  datatype Ordering = Less | Equal | Greater

  function Compare(x: int, y: int): Ordering {
    if x < y then Less else if x == y then Equal else Greater
  }

  /** Numeric comparison of bounds; an integer met by a float is first converted to a double. */
  function IntervalNumCmp(a: Num, b: Num): Ordering {
    match (a, b)
    case (Int(x), Int(y)) => Compare(x, y)
    case (Float(x), Float(y)) => Compare(Numeric(x), Numeric(y))
    case (Int(x), Float(y)) => Compare(Numeric(FromInt(x)), Numeric(y))
    case (Float(x), Int(y)) => Compare(Numeric(x), Numeric(FromInt(y)))
  }

  predicate NotNaN(n: Num) {
    n.Float? ==> !IsNaN(n.bits)
  }

  /** `None` is the loud error on a malformed span. */
  function ToInterval(v: Value): Option<Span> {
    match v
    case List(items) =>
      if |items| != 2 || !items[0].Number? || !items[1].Number? then None
      else
        var s, e := items[0].n, items[1].n;
        if NotNaN(s) && NotNaN(e) && IntervalNumCmp(s, e) != Greater then Some(Span(s, e)) else None
    case _ => None
  }

  // ----- numeric value of a bound -----

  /** The double a bound stands for, in units of 2^-1074. */
  function Key(n: Num): int {
    match n
    case Int(x) => Numeric(FromInt(x))
    case Float(b) => Numeric(b)
  }

  /**
    * The bound comes back from its conversion to a double. The largest integer does too, although the double is one
    * more: the way back saturates.
    */
  predicate Exact(n: Num) {
    match n
    case Int(x) => ToInt(FromInt(x)) == x
    case Float(b) => !IsNaN(b)
  }

  lemma {:induction false} ExactStrict(x: i64, y: i64)
    requires Exact(Int(x)) && Exact(Int(y)) && x < y
    ensures Numeric(FromInt(x)) < Numeric(FromInt(y))
  {
    FromIntMonotone(x, y);
    assert FromInt(x) != FromInt(y);
    if Numeric(FromInt(x)) == Numeric(FromInt(y)) {
      SameValue(FromInt(x), FromInt(y));
      ZeroOnly(x);
      ZeroOnly(y);
    }
  }

  /** Distinct doubles of equal value are the two zeros. */
  lemma {:induction false} SameValue(x: u64, y: u64)
    requires Numeric(x) == Numeric(y) && x != y
    ensures Mag(x) == 0 && Mag(y) == 0
  {
    ScaledOrder(Mag(x), Mag(y));
    ScaledOrder(Mag(x), 0);
    ScaledOrder(Mag(y), 0);
    assert Scaled(0) == 0;
  }

  lemma {:induction false} ZeroOnly(x: i64)
    requires Mag(FromInt(x)) == 0 && Exact(Int(x))
    ensures x == 0
  {
    assert Truncated(0) == 0;
  }

  /** On exact bounds the comparison is the numeric one, hence a total preorder. */
  lemma {:induction false} CmpIsKey(a: Num, b: Num)
    requires Exact(a) && Exact(b)
    ensures IntervalNumCmp(a, b) == Compare(Key(a), Key(b))
  {
    if a.Int? && b.Int? {
      if a.i < b.i {
        ExactStrict(a.i, b.i);
      } else if b.i < a.i {
        ExactStrict(b.i, a.i);
      }
    }
  }

  /** Without exactness it is no preorder: 2^53 and 2^53 + 1 both equal the double 2^53, yet differ. */
  lemma {:induction false} EqualityNotTransitive()
    ensures var a, f, b := Int(0x20_0000_0000_0000), Float(FromInt(0x20_0000_0000_0000)), Int(0x20_0000_0000_0001);
            IntervalNumCmp(a, f) == Equal && IntervalNumCmp(f, b) == Equal && IntervalNumCmp(a, b) == Less
  {
    TieRoundsDown();
  }

  lemma {:induction false} TieRoundsDown()
    ensures FromInt(0x20_0000_0000_0001) == FromInt(0x20_0000_0000_0000)
  {
    var n: nat, k: nat := 0x20_0000_0000_0001, 0x20_0000_0000_0000;
    Pow2Widths();
    assert Pow2(54) == 2 * Pow2(53);
    LogOf(n, 53);
    LogOf(k, 53);
  }

  // ----- when the comparison is an order -----

  predicate NotAfter(a: Num, b: Num) {
    IntervalNumCmp(a, b) != Greater
  }

  /** Both integers become the double that lies between them in the comparison. */
  predicate Collide(a: Num, b: Num, c: Num) {
    a.Int? && b.Float? && c.Int? && a.i != c.i && Key(a) == Key(b) == Key(c)
  }

  lemma {:induction false} KeyFollowsInt(x: i64, y: i64)
    requires x <= y
    ensures Key(Int(x)) <= Key(Int(y))
  {
    FromIntSigned(x, y);
    NumericSigned(FromInt(x), FromInt(y));
  }

  /** A step never goes down in the doubles, and between integers not in the integers. */
  lemma {:induction false} NotAfterIs(a: Num, b: Num)
    requires NotNaN(a) && NotNaN(b)
    ensures NotAfter(a, b) <==> if a.Int? && b.Int? then a.i <= b.i else Key(a) <= Key(b)
    ensures NotAfter(a, b) ==> Key(a) <= Key(b)
  {
    if a.Int? && b.Int? && a.i <= b.i {
      KeyFollowsInt(a.i, b.i);
    }
  }

  /** Three bounds compare transitively exactly when no greater integer is passed off as a smaller one by a float. */
  lemma {:induction false} TransitiveIff(a: Num, b: Num, c: Num)
    requires NotNaN(a) && NotNaN(b) && NotNaN(c)
    ensures (NotAfter(a, b) && NotAfter(b, c) ==> NotAfter(a, c)) <==> !(Collide(a, b, c) && a.i > c.i)
  {
    hide Key, NotAfter;
    NotAfterIs(a, b);
    NotAfterIs(b, c);
    NotAfterIs(a, c);
    if a.Int? && c.Int? && c.i <= a.i {
      KeyFollowsInt(c.i, a.i);
    }
  }

  ghost predicate TotalPreorder(s: set<Num>) {
    && (forall a, b | a in s && b in s :: NotAfter(a, b) || NotAfter(b, a))
    && (forall a, b, c | a in s && b in s && c in s && NotAfter(a, b) && NotAfter(b, c) :: NotAfter(a, c))
  }

  /** The comparison is a total preorder on exactly those sets that hold no two integers and the float they share. */
  lemma {:induction false} PreorderIff(s: set<Num>)
    requires forall n | n in s :: NotNaN(n)
    ensures TotalPreorder(s) <==> !exists a, b, c :: a in s && b in s && c in s && Collide(a, b, c)
  {
    hide Key, NotAfter, NotNaN;
    forall a, b | a in s && b in s ensures NotAfter(a, b) || NotAfter(b, a) {
      NotAfterIs(a, b);
      NotAfterIs(b, a);
    }
    forall a, b, c | a in s && b in s && c in s
      ensures (NotAfter(a, b) && NotAfter(b, c) ==> NotAfter(a, c)) <==> !(Collide(a, b, c) && a.i > c.i)
    {
      TransitiveIff(a, b, c);
    }
    if TotalPreorder(s) {
      forall a, b, c | a in s && b in s && c in s ensures !Collide(a, b, c) {
        assert Collide(a, b, c) ==> Collide(c, b, a);
        assert NotAfter(a, b) && NotAfter(b, c) ==> NotAfter(a, c);
        assert NotAfter(c, b) && NotAfter(b, a) ==> NotAfter(c, a);
      }
    }
  }

  // ----- scales -----

  /** Bounds, and a place for each on a line. */
  datatype Scale = Scale(bounds: set<Num>, k: Num -> int)

  /** The comparison of the bounds is the order of their places. */
  ghost predicate Fits(c: Scale) {
    forall a, b | a in c.bounds && b in c.bounds :: IntervalNumCmp(a, b) == Compare(c.k(a), c.k(b))
  }

  lemma {:induction false} CmpIs(c: Scale, a: Num, b: Num)
    requires Fits(c) && a in c.bounds && b in c.bounds
    ensures IntervalNumCmp(a, b) == Compare(c.k(a), c.k(b))
  {
  }

  ghost predicate Proper(c: Scale, x: Span) {
    Fits(c) && x.start in c.bounds && x.end in c.bounds && c.k(x.start) <= c.k(x.end)
  }

  ghost predicate AllProper(c: Scale, xs: seq<Span>) {
    forall x | x in xs :: Proper(c, x)
  }

  // ----- sorting and merging -----

  predicate SpanGreater(a: Span, b: Span) {
    var c := IntervalNumCmp(a.start, b.start);
    c == Greater || (c == Equal && IntervalNumCmp(a.end, b.end) == Greater)
  }

  /** Stable insertion: after every span that is not greater. */
  function InsertSpan(x: Span, xs: seq<Span>): seq<Span> {
    if xs == [] then [x]
    else if SpanGreater(xs[|xs| - 1], x) then InsertSpan(x, xs[..|xs| - 1]) + [xs[|xs| - 1]]
    else xs + [x]
  }

  function SortSpans(xs: seq<Span>): seq<Span> {
    if xs == [] then [] else InsertSpan(xs[|xs| - 1], SortSpans(xs[..|xs| - 1]))
  }

  function MergeStep(merged: seq<Span>, x: Span): seq<Span> {
    if merged == [] then [x]
    else
      var last := merged[|merged| - 1];
      if IntervalNumCmp(x.start, last.end) == Greater then merged + [x]
      else if IntervalNumCmp(x.end, last.end) == Greater then merged[|merged| - 1 := Span(last.start, x.end)]
      else merged
  }

  function MergeAll(merged: seq<Span>, xs: seq<Span>): seq<Span>
    decreases |xs|
  {
    if xs == [] then merged else MergeAll(MergeStep(merged, xs[0]), xs[1..])
  }

  function Coalesced(xs: seq<Span>): seq<Span> {
    MergeAll([], SortSpans(xs))
  }

  function AsValue(xs: seq<Span>): Value {
    List(seq(|xs|, i requires 0 <= i < |xs| => List([Number(xs[i].start), Number(xs[i].end)])))
  }

  class AggrIntervalCoalesce {
    var accum: seq<Span>

    constructor ()
      ensures accum == []
    {
      accum := [];
    }

    method Set(value: Value) returns (ok: bool)
      modifies this
      ensures ok == ToInterval(value).Some?
      ensures accum == if ok then old(accum) + [ToInterval(value).value] else old(accum)
    {
      var span := ToInterval(value);
      if span.None? {
        return false;
      }
      accum := accum + [span.value];
      return true;
    }

    method Get() returns (r: Value)
      ensures r == AsValue(Coalesced(accum))
    {
      hide SortSpans, IntervalNumCmp;
      var spans := SortSpans(accum);
      var merged: seq<Span> := [];
      for i := 0 to |spans|
        invariant MergeAll([], spans) == MergeAll(merged, spans[i..])
      {
        var x := spans[i];
        ghost var before := merged;
        if merged != [] && IntervalNumCmp(x.start, merged[|merged| - 1].end) != Greater {
          // overlapping or adjacent: extend the open span
          if IntervalNumCmp(x.end, merged[|merged| - 1].end) == Greater {
            merged := merged[|merged| - 1 := Span(merged[|merged| - 1].start, x.end)];
          }
        } else {
          merged := merged + [x];
        }
        assert merged == MergeStep(before, x) && spans[i..][0] == x && spans[i..][1..] == spans[i + 1..];
      }
      r := AsValue(merged);
    }
  }

  // ----- sorting, on keys -----

  type KeySpan = (int, int)

  ghost function Keys(c: Scale, x: Span): KeySpan {
    (c.k(x.start), c.k(x.end))
  }

  ghost function AllKeys(c: Scale, xs: seq<Span>): (ks: seq<KeySpan>)
    ensures |ks| == |xs|
  {
    seq(|xs|, i requires 0 <= i < |xs| => Keys(c, xs[i]))
  }

  predicate KeyLe(a: KeySpan, b: KeySpan) {
    a.0 < b.0 || (a.0 == b.0 && a.1 <= b.1)
  }

  ghost predicate SortedSpans(c: Scale, xs: seq<Span>) {
    forall i, j | 0 <= i < j < |xs| :: KeyLe(Keys(c, xs[i]), Keys(c, xs[j]))
  }

  lemma {:induction false} GreaterIsKey(c: Scale, a: Span, b: Span)
    requires Proper(c, a) && Proper(c, b)
    ensures SpanGreater(a, b) <==> !KeyLe(Keys(c, a), Keys(c, b))
  {
    CmpIs(c, a.start, b.start);
    CmpIs(c, a.end, b.end);
  }

  lemma {:induction false} InsertPermutes(x: Span, xs: seq<Span>)
    ensures multiset(InsertSpan(x, xs)) == multiset(xs) + multiset{x}
    decreases |xs|
  {
    hide SpanGreater;
    if xs != [] {
      var n := |xs| - 1;
      assert xs == xs[..n] + [xs[n]];
      InsertPermutes(x, xs[..n]);
    }
  }

  lemma {:induction false} AppendSorted(c: Scale, xs: seq<Span>, x: Span)
    requires SortedSpans(c, xs) && forall y | y in xs :: KeyLe(Keys(c, y), Keys(c, x))
    ensures SortedSpans(c, xs + [x])
  {
    hide Keys, KeyLe;
    forall i | 0 <= i < |xs| ensures KeyLe(Keys(c, xs[i]), Keys(c, x)) {
      assert xs[i] in xs;
    }
  }

  lemma {:induction false} LastIsGreatest(c: Scale, xs: seq<Span>, y: Span)
    requires SortedSpans(c, xs) && y in xs
    ensures KeyLe(Keys(c, y), Keys(c, xs[|xs| - 1]))
  {
    hide Keys;
  }

  lemma {:induction false} InsertSorts(c: Scale, x: Span, xs: seq<Span>)
    requires Proper(c, x) && AllProper(c, xs) && SortedSpans(c, xs)
    ensures SortedSpans(c, InsertSpan(x, xs))
    decreases |xs|
  {
    if xs != [] {
      var n := |xs| - 1;
      var last, init := xs[n], xs[..n];
      assert last in xs;
      GreaterIsKey(c, last, x);
      if SpanGreater(last, x) {
        InsertSorts(c, x, init);
        InsertPermutes(x, init);
        forall y | y in InsertSpan(x, init) ensures KeyLe(Keys(c, y), Keys(c, last)) {
          assert y in multiset(InsertSpan(x, init));
          if y != x {
            assert y in init;
            LastIsGreatest(c, xs, y);
          }
        }
        AppendSorted(c, InsertSpan(x, init), last);
      } else {
        forall y | y in xs ensures KeyLe(Keys(c, y), Keys(c, x)) {
          LastIsGreatest(c, xs, y);
        }
        AppendSorted(c, xs, x);
      }
    }
  }

  lemma {:induction false} SortSorts(c: Scale, xs: seq<Span>)
    requires AllProper(c, xs)
    ensures multiset(SortSpans(xs)) == multiset(xs) && SortedSpans(c, SortSpans(xs)) && AllProper(c, SortSpans(xs))
  {
    hide Proper, InsertSpan;
    if xs != [] {
      var n := |xs| - 1;
      var init := xs[..n];
      assert xs == init + [xs[n]] && xs[n] in xs;
      SortSorts(c, init);
      InsertPermutes(xs[n], SortSpans(init));
      InsertSorts(c, xs[n], SortSpans(init));
    }
    forall x | x in SortSpans(xs) ensures Proper(c, x) {
      assert x in multiset(SortSpans(xs));
    }
  }

  // ----- what merging keeps -----

  /** Spans in order, each starting after the end of the one before. */
  ghost predicate Separated(c: Scale, xs: seq<Span>) {
    && AllProper(c, xs)
    && forall i, j | 0 <= i < j < |xs| :: c.k(xs[i].end) < c.k(xs[j].start)
  }

  ghost predicate Inside(c: Scale, x: Span, p: real) {
    c.k(x.start) as real <= p < c.k(x.end) as real
  }

  ghost predicate Covered(c: Scale, xs: seq<Span>, p: real) {
    exists x :: x in xs && Inside(c, x, p)
  }

  ghost predicate Endpoints(out: seq<Span>, xs: seq<Span>) {
    forall o | o in out :: (exists x :: x in xs && x.start == o.start) && (exists x :: x in xs && x.end == o.end)
  }

  /** The next span in order starts no earlier than the open one. */
  ghost predicate Follows(c: Scale, merged: seq<Span>, x: Span) {
    merged != [] ==> c.k(merged[|merged| - 1].start) <= c.k(x.start)
  }

  /** The open span after the next one is merged into it. */
  ghost function Extended(c: Scale, last: Span, x: Span): Span {
    Span(last.start, if c.k(x.end) > c.k(last.end) then x.end else last.end)
  }

  lemma {:induction false} CompareEnds(c: Scale, last: Span, x: Span)
    requires Proper(c, last) && Proper(c, x)
    ensures IntervalNumCmp(x.start, last.end) == Greater <==> c.k(x.start) > c.k(last.end)
    ensures IntervalNumCmp(x.end, last.end) == Greater <==> c.k(x.end) > c.k(last.end)
  {
    CmpIs(c, x.start, last.end);
    CmpIs(c, x.end, last.end);
  }

  lemma {:induction false} StepShape(c: Scale, merged: seq<Span>, x: Span)
    requires AllProper(c, merged) && Proper(c, x)
    ensures merged == [] ==> MergeStep(merged, x) == [x]
    ensures merged != [] ==>
              var n := |merged| - 1;
              && merged[n] in merged && merged == merged[..n] + [merged[n]]
              && MergeStep(merged, x) ==
                 if c.k(x.start) > c.k(merged[n].end) then merged + [x] else merged[..n] + [Extended(c, merged[n], x)]
  {
    hide IntervalNumCmp, Proper;
    if merged != [] {
      var n := |merged| - 1;
      CompareEnds(c, merged[n], x);
      assert merged == merged[..n] + [merged[n]];
      assert forall y :: merged[n := y] == merged[..n] + [y];
    }
  }

  lemma {:induction false} SnocSeparated(c: Scale, xs: seq<Span>, x: Span)
    requires Separated(c, xs) && Proper(c, x) && (xs != [] ==> c.k(xs[|xs| - 1].end) < c.k(x.start))
    ensures Separated(c, xs + [x])
  {
    forall i | 0 <= i < |xs| ensures c.k(xs[i].end) < c.k(x.start) {
      assert xs[|xs| - 1] in xs;
    }
  }

  lemma {:induction false} StepSeparated(c: Scale, merged: seq<Span>, x: Span)
    requires Separated(c, merged) && Proper(c, x) && Follows(c, merged, x)
    ensures Separated(c, MergeStep(merged, x))
    ensures forall y: Span | c.k(x.start) <= c.k(y.start) :: Follows(c, MergeStep(merged, x), y)
  {
    hide MergeStep;
    StepShape(c, merged, x);
    if merged == [] {
      SnocSeparated(c, [], x);
      assert [] + [x] == [x];
    } else {
      var n := |merged| - 1;
      if c.k(x.start) > c.k(merged[n].end) {
        SnocSeparated(c, merged, x);
      } else {
        SnocSeparated(c, merged[..n], Extended(c, merged[n], x));
      }
    }
  }

  lemma {:induction false} StepCovers(c: Scale, merged: seq<Span>, x: Span, p: real)
    requires Separated(c, merged) && Proper(c, x) && Follows(c, merged, x)
    ensures Covered(c, MergeStep(merged, x), p) <==> Covered(c, merged, p) || Inside(c, x, p)
  {
    hide MergeStep, Covered;
    StepShape(c, merged, x);
    if merged == [] {
      CoveredSnoc(c, [], x, p);
      assert [] + [x] == [x];
    } else {
      var n := |merged| - 1;
      CoveredSnoc(c, merged, x, p);
      CoveredSnoc(c, merged[..n], merged[n], p);
      CoveredSnoc(c, merged[..n], Extended(c, merged[n], x), p);
    }
  }

  lemma {:induction false} CoveredSnoc(c: Scale, xs: seq<Span>, x: Span, p: real)
    ensures Covered(c, xs + [x], p) <==> Covered(c, xs, p) || Inside(c, x, p)
  {
    hide Inside;
    if Inside(c, x, p) {
      assert x in xs + [x];
    }
    if Covered(c, xs, p) {
      var y :| y in xs && Inside(c, y, p);
      assert y in xs + [x];
    }
  }

  lemma {:induction false} StepEndpoints(merged: seq<Span>, x: Span, xs: seq<Span>)
    requires Endpoints(merged, xs) && x in xs
    ensures Endpoints(MergeStep(merged, x), xs)
  {
    hide IntervalNumCmp;
    var out := MergeStep(merged, x);
    forall o | o in out
      ensures (exists y :: y in xs && y.start == o.start) && (exists y :: y in xs && y.end == o.end)
    {
      if merged != [] && o !in merged && o != x {
        var last := merged[|merged| - 1];
        assert last in merged && o == Span(last.start, x.end);
      }
    }
  }

  lemma {:induction false} MergeKeeps(c: Scale, merged: seq<Span>, xs: seq<Span>, all: seq<Span>)
    requires Separated(c, merged) && AllProper(c, xs) && SortedSpans(c, xs) && (forall x | x in xs :: x in all)
    requires (xs != [] ==> Follows(c, merged, xs[0])) && Endpoints(merged, all)
    ensures Separated(c, MergeAll(merged, xs)) && Endpoints(MergeAll(merged, xs), all)
    ensures forall p: real :: Covered(c, MergeAll(merged, xs), p) <==> Covered(c, merged, p) || Covered(c, xs, p)
    decreases |xs|
  {
    hide MergeStep, Proper, Inside, Endpoints;
    if xs == [] {
    } else {
      var x, rest := xs[0], xs[1..];
      assert x in xs && xs == [x] + rest;
      StepSeparated(c, merged, x);
      StepEndpoints(merged, x, all);
      if rest != [] {
        assert KeyLe(Keys(c, xs[0]), Keys(c, xs[1]));
      }
      MergeKeeps(c, MergeStep(merged, x), rest, all);
      forall p: real ensures Covered(c, MergeAll(merged, xs), p) <==> Covered(c, merged, p) || Covered(c, xs, p) {
        StepCovers(c, merged, x, p);
        CoveredCons(c, x, rest, p);
      }
    }
  }

  lemma {:induction false} CoveredCons(c: Scale, x: Span, xs: seq<Span>, p: real)
    ensures Covered(c, [x] + xs, p) <==> Inside(c, x, p) || Covered(c, xs, p)
  {
    hide Inside;
    if Inside(c, x, p) {
      assert x in [x] + xs;
    }
    if Covered(c, xs, p) {
      var y :| y in xs && Inside(c, y, p);
      assert y in [x] + xs;
    }
  }

  /** The output covers exactly the input's points, with separated spans made of input endpoints. */
  lemma {:induction false} CoalesceCovers(c: Scale, xs: seq<Span>)
    requires AllProper(c, xs)
    ensures Separated(c, Coalesced(xs)) && Endpoints(Coalesced(xs), xs)
    ensures forall p: real :: Covered(c, Coalesced(xs), p) <==> Covered(c, xs, p)
  {
    hide Proper, Inside, Endpoints, SortSpans, MergeAll;
    SortSorts(c, xs);
    var sorted := SortSpans(xs);
    forall x ensures x in sorted <==> x in xs {
      assert x in sorted <==> x in multiset(sorted);
      assert x in xs <==> x in multiset(xs);
    }
    NothingMerged(c, xs);
    MergeKeeps(c, [], sorted, xs);
    forall p: real ensures Covered(c, sorted, p) <==> Covered(c, xs, p) {
    }
  }

  lemma {:induction false} NothingMerged(c: Scale, xs: seq<Span>)
    ensures Separated(c, []) && Endpoints([], xs)
  {
  }

  // ----- order of the input -----

  ghost predicate SortedKeys(ks: seq<KeySpan>) {
    forall i, j | 0 <= i < j < |ks| :: KeyLe(ks[i], ks[j])
  }

  lemma {:induction false} KeysSorted(c: Scale, xs: seq<Span>)
    requires SortedSpans(c, xs)
    ensures SortedKeys(AllKeys(c, xs))
  {
  }

  lemma {:induction false} LeastFirst(a: seq<KeySpan>, k: KeySpan)
    requires SortedKeys(a) && k in a
    ensures a[0] == k || KeyLe(a[0], k)
  {
  }

  /** In sorted order the copies of the least element come first, so any of them may be taken out. */
  lemma {:induction false} TakeLeast(b: seq<KeySpan>, k: nat)
    requires SortedKeys(b) && k < |b| && b[k] == b[0]
    ensures Without(b, k) == b[1..] && SortedKeys(b[1..])
  {
    hide SortedKeys, Without;
    CopiesFirst(b, k);
    WithoutCopy(b, k);
    TailSorted(b);
  }

  lemma {:induction false} WithoutCopy(b: seq<KeySpan>, k: nat)
    requires k < |b| && forall i | 0 <= i <= k :: b[i] == b[0]
    ensures Without(b, k) == b[1..]
  {
  }

  lemma {:induction false} TailSorted(b: seq<KeySpan>)
    requires SortedKeys(b) && b != []
    ensures SortedKeys(b[1..])
  {
    hide KeyLe;
    var tail := b[1..];
    forall i, j | 0 <= i < j < |tail| ensures KeyLe(tail[i], tail[j]) {
      assert tail[i] == b[i + 1] && tail[j] == b[j + 1];
    }
  }

  lemma {:induction false} CopiesFirst(b: seq<KeySpan>, k: nat)
    requires SortedKeys(b) && k < |b| && b[k] == b[0]
    ensures forall i | 0 <= i <= k :: b[i] == b[0]
  {
    forall i | 0 < i < k ensures b[i] == b[0] {
      assert KeyLe(b[0], b[i]) && KeyLe(b[i], b[k]);
    }
  }

  lemma {:induction false} SortedUnique(a: seq<KeySpan>, b: seq<KeySpan>)
    requires SortedKeys(a) && SortedKeys(b) && Rearranged(a, b)
    ensures a == b
    decreases |a|
  {
    hide SortedKeys, Without;
    if a != [] {
      var k := Head(a, b);
      TailSorted(a);
      SameElements(a, b, a[0]);
      SameElements(a, b, b[0]);
      LeastFirst(a, b[0]);
      LeastFirst(b, a[0]);
      TakeLeast(b, k);
      SortedUnique(a[1..], b[1..]);
      assert a == [a[0]] + a[1..] && b == [b[0]] + b[1..];
    }
  }

  lemma {:induction false} StepKeys(c: Scale, m: seq<Span>, m': seq<Span>, x: Span, x': Span)
    requires AllProper(c, m) && AllProper(c, m') && Proper(c, x) && Proper(c, x')
    requires AllKeys(c, m) == AllKeys(c, m') && Keys(c, x) == Keys(c, x')
    ensures AllKeys(c, MergeStep(m, x)) == AllKeys(c, MergeStep(m', x'))
  {
    hide MergeStep, Proper;
    StepShape(c, m, x);
    StepShape(c, m', x');
    if m != [] {
      var n := |m| - 1;
      assert AllKeys(c, m)[n] == Keys(c, m[n]) && AllKeys(c, m')[n] == Keys(c, m'[n]);
      assert AllKeys(c, m[..n]) == AllKeys(c, m)[..n] && AllKeys(c, m'[..n]) == AllKeys(c, m')[..n];
      KeysSnoc(c, m, x);
      KeysSnoc(c, m', x');
      KeysSnoc(c, m[..n], Extended(c, m[n], x));
      KeysSnoc(c, m'[..n], Extended(c, m'[n], x'));
    }
  }

  lemma {:induction false} KeysSnoc(c: Scale, xs: seq<Span>, x: Span)
    ensures AllKeys(c, xs + [x]) == AllKeys(c, xs) + [Keys(c, x)]
  {
  }

  lemma {:induction false} MergeKeys(c: Scale, m: seq<Span>, m': seq<Span>, xs: seq<Span>, ys: seq<Span>)
    requires Separated(c, m) && Separated(c, m') && AllProper(c, xs) && AllProper(c, ys)
    requires SortedSpans(c, xs) && SortedSpans(c, ys)
    requires (xs != [] ==> Follows(c, m, xs[0])) && (ys != [] ==> Follows(c, m', ys[0]))
    requires AllKeys(c, m) == AllKeys(c, m') && AllKeys(c, xs) == AllKeys(c, ys)
    ensures AllKeys(c, MergeAll(m, xs)) == AllKeys(c, MergeAll(m', ys))
    decreases |xs|
  {
    hide MergeStep, Proper;
    assert |xs| == |AllKeys(c, xs)| == |ys|;
    if xs != [] {
      var x, y := xs[0], ys[0];
      assert x in xs && y in ys;
      assert AllKeys(c, xs)[0] == Keys(c, x) && AllKeys(c, ys)[0] == Keys(c, y);
      StepSeparated(c, m, x);
      StepSeparated(c, m', y);
      StepKeys(c, m, m', x, y);
      assert AllKeys(c, xs[1..]) == AllKeys(c, xs)[1..] && AllKeys(c, ys[1..]) == AllKeys(c, ys)[1..];
      if |xs| > 1 {
        assert KeyLe(Keys(c, xs[0]), Keys(c, xs[1])) && KeyLe(Keys(c, ys[0]), Keys(c, ys[1]));
      }
      MergeKeys(c, MergeStep(m, x), MergeStep(m', y), xs[1..], ys[1..]);
    }
  }

  lemma {:induction false} NoneRearranged(c: Scale, xs: seq<Span>, ys: seq<Span>)
    requires xs == [] && Rearranged(xs, ys)
    ensures Rearranged(AllKeys(c, xs), AllKeys(c, ys))
  {
  }

  lemma {:induction false} KeysRearranged(c: Scale, xs: seq<Span>, ys: seq<Span>)
    requires Rearranged(xs, ys)
    ensures Rearranged(AllKeys(c, xs), AllKeys(c, ys))
    decreases |xs|
  {
    hide Keys, Rearranged;
    if xs == [] {
      NoneRearranged(c, xs, ys);
    } else {
      var k := Head(xs, ys);
      KeysRearranged(c, xs[1..], Without(ys, k));
      assert AllKeys(c, xs)[1..] == AllKeys(c, xs[1..]);
      assert Without(AllKeys(c, ys), k) == AllKeys(c, Without(ys, k));
      FromHead(AllKeys(c, xs), AllKeys(c, ys), k);
    }
  }

  /** Every order of the input gives numerically the same output. */
  lemma {:induction false} CoalesceAnyOrder(c: Scale, xs: seq<Span>, ys: seq<Span>)
    requires AllProper(c, xs) && multiset(xs) == multiset(ys)
    ensures AllKeys(c, Coalesced(xs)) == AllKeys(c, Coalesced(ys))
  {
    hide Keys, Proper, SortSpans, MergeAll;
    forall y | y in ys ensures Proper(c, y) {
      assert y in multiset(ys);
      assert y in multiset(xs);
    }
    SortSorts(c, xs);
    SortSorts(c, ys);
    SameMultiset(SortSpans(xs), SortSpans(ys));
    KeysRearranged(c, SortSpans(xs), SortSpans(ys));
    KeysSorted(c, SortSpans(xs));
    KeysSorted(c, SortSpans(ys));
    SortedUnique(AllKeys(c, SortSpans(xs)), AllKeys(c, SortSpans(ys)));
    NothingMerged(c, xs);
    MergeKeys(c, [], [], SortSpans(xs), SortSpans(ys));
  }

  // ----- which bounds have a scale -----

  function BoundsIn(xs: seq<Span>): (s: set<Num>)
    ensures forall x | x in xs :: x.start in s && x.end in s
  {
    (set x | x in xs :: x.start) + set x | x in xs :: x.end
  }

  /** Bounds that survive the conversion are placed by their numeric value. */
  lemma {:induction false} ExactFits(s: set<Num>)
    requires forall n | n in s :: Exact(n)
    ensures Fits(Scale(s, Key))
  {
    hide IntervalNumCmp, Key, Exact;
    forall a, b | a in s && b in s ensures IntervalNumCmp(a, b) == Compare(Key(a), Key(b)) {
      CmpIsKey(a, b);
    }
  }

  /** The integer among the bounds that becomes this double. */
  ghost function Sharer(s: set<Num>, key: int): int {
    if exists i: i64 :: Int(i) in s && Key(Int(i)) == key then
      var i: i64 :| Int(i) in s && Key(Int(i)) == key; i
    else 0
  }

  /** Doubles first; integers that become one double lie side by side, and the float is at the integer it shares. */
  ghost function Place(s: set<Num>, n: Num): int {
    Key(n) * 0x2_0000_0000_0000_0000 + if n.Int? then n.i as int else Sharer(s, Key(n))
  }

  lemma {:induction false} SharerIs(s: set<Num>, n: Num, f: Num)
    requires n in s && n.Int? && f in s && f.Float? && Key(n) == Key(f)
    requires forall a, b, c | a in s && b in s && c in s :: !Collide(a, b, c)
    ensures Sharer(s, Key(f)) == n.i
  {
    hide Key;
    var i: i64 :| Int(i) in s && Key(Int(i)) == Key(f) && Sharer(s, Key(f)) == i;
    assert !Collide(Int(i), f, n);
  }

  lemma {:induction false} SharerRange(s: set<Num>, key: int)
    ensures I64_MIN as int <= Sharer(s, key) <= I64_MAX as int
  {
  }

  lemma {:induction false} PlaceOrder(k: int, l: int, x: int, y: int)
    requires I64_MIN as int <= x <= I64_MAX as int && I64_MIN as int <= y <= I64_MAX as int
    ensures var b := 0x2_0000_0000_0000_0000;
            k * b + x < l * b + y <==> k < l || (k == l && x < y)
  {
  }

  lemma {:induction false} PlaceIs(s: set<Num>, a: Num, b: Num)
    requires a in s && b in s && NotNaN(a) && NotNaN(b)
    requires forall a, b, c | a in s && b in s && c in s :: !Collide(a, b, c)
    ensures IntervalNumCmp(a, b) == Compare(Place(s, a), Place(s, b))
  {
    hide Key, Sharer, Numeric, FromInt;
    SharerRange(s, Key(a));
    SharerRange(s, Key(b));
    var x := if a.Int? then a.i as int else Sharer(s, Key(a));
    var y := if b.Int? then b.i as int else Sharer(s, Key(b));
    PlaceOrder(Key(a), Key(b), x, y);
    PlaceOrder(Key(b), Key(a), y, x);
    CmpByKey(a, b);
    if a.Int? && b.Int? {
      if a.i <= b.i {
        KeyFollowsInt(a.i, b.i);
      }
      if b.i <= a.i {
        KeyFollowsInt(b.i, a.i);
      }
    } else if Key(a) == Key(b) && a.Int? {
      SharerIs(s, a, b);
    } else if Key(a) == Key(b) && b.Int? {
      SharerIs(s, b, a);
    }
  }

  lemma {:induction false} CmpByKey(a: Num, b: Num)
    ensures IntervalNumCmp(a, b) == if a.Int? && b.Int? then Compare(a.i, b.i) else Compare(Key(a), Key(b))
  {
  }

  /** Where the comparison is a total preorder, it has a scale. */
  lemma {:induction false} PreorderFits(s: set<Num>)
    requires TotalPreorder(s) && forall n | n in s :: NotNaN(n)
    ensures Fits(Scale(s, n => Place(s, n)))
  {
    hide IntervalNumCmp, Place, TotalPreorder, Collide, NotNaN;
    PreorderIff(s);
    forall a, b | a in s && b in s ensures IntervalNumCmp(a, b) == Compare(Place(s, a), Place(s, b)) {
      PlaceIs(s, a, b);
    }
  }

  // ----- the aggregate on what it accepts -----

  /** What `Set` lets through. */
  predicate Accepted(x: Span) {
    NotNaN(x.start) && NotNaN(x.end) && NotAfter(x.start, x.end)
  }

  /** The list that spells a span. */
  function SpanValue(x: Span): Value {
    List([Number(x.start), Number(x.end)])
  }

  /** Taken in are exactly the lists of two numbers that spell a span without NaN that does not end before it starts. */
  lemma {:induction false} ToIntervalIff(v: Value, x: Span)
    ensures ToInterval(v) == Some(x) <==> v == SpanValue(x) && Accepted(x)
  {
    hide IntervalNumCmp;
    if v.List? && |v.items| == 2 {
      assert v.items == [v.items[0], v.items[1]];
    }
  }

  lemma {:induction false} AcceptedProper(c: Scale, xs: seq<Span>)
    requires Fits(c) && BoundsIn(xs) <= c.bounds && forall x | x in xs :: Accepted(x)
    ensures AllProper(c, xs)
  {
    hide IntervalNumCmp;
    forall x | x in xs ensures Proper(c, x) {
      assert Accepted(x);
      CmpIs(c, x.start, x.end);
    }
  }

  /** The bound lies in the half-open span, as the comparison sees it. */
  predicate Contains(x: Span, n: Num) {
    NotAfter(x.start, n) && IntervalNumCmp(n, x.end) == Less
  }

  lemma {:induction false} ContainsIs(c: Scale, x: Span, n: Num)
    requires Proper(c, x) && n in c.bounds
    ensures Contains(x, n) <==> Inside(c, x, c.k(n) as real)
  {
    hide IntervalNumCmp, Fits;
    CmpIs(c, x.start, n);
    CmpIs(c, n, x.end);
  }

  lemma {:induction false} CoversIs(c: Scale, xs: seq<Span>, n: Num)
    requires AllProper(c, xs) && n in c.bounds
    ensures (exists x :: x in xs && Contains(x, n)) <==> Covered(c, xs, c.k(n) as real)
  {
    hide Contains, Inside, Proper;
    forall x | x in xs ensures Contains(x, n) <==> Inside(c, x, c.k(n) as real) {
      ContainsIs(c, x, n);
    }
  }

  ghost predicate BoundsNotNaN(xs: seq<Span>) {
    forall n | n in BoundsIn(xs) :: NotNaN(n)
  }

  lemma {:induction false} AcceptedBounds(xs: seq<Span>)
    requires forall x | x in xs :: Accepted(x)
    ensures BoundsNotNaN(xs)
  {
  }

  /**
    * Accepted spans on whose bounds the comparison is a total preorder, exact as doubles or not: the output contains
    * the same of the bounds as the input, its spans lie apart and in order, and it is made of input endpoints.
    */
  lemma {:induction false} CoalescePreorder(xs: seq<Span>)
    requires (forall x | x in xs :: Accepted(x)) && TotalPreorder(BoundsIn(xs))
    ensures Endpoints(Coalesced(xs), xs)
    ensures forall i, j | 0 <= i < j < |Coalesced(xs)| ::
              IntervalNumCmp(Coalesced(xs)[i].end, Coalesced(xs)[j].start) == Less
    ensures forall n | n in BoundsIn(xs) ::
              (exists x :: x in Coalesced(xs) && Contains(x, n)) <==> (exists x :: x in xs && Contains(x, n))
  {
    hide Place, TotalPreorder, BoundsIn, Accepted, Coalesced, Endpoints, Contains, IntervalNumCmp, NotNaN;
    var s, out := BoundsIn(xs), Coalesced(xs);
    var c := Scale(s, n => Place(s, n));
    AcceptedBounds(xs);
    PreorderFits(s);
    AcceptedProper(c, xs);
    CoalesceCovers(c, xs);
    forall n | n in s ensures (exists x :: x in out && Contains(x, n)) <==> (exists x :: x in xs && Contains(x, n)) {
      CoversIs(c, xs, n);
      CoversIs(c, out, n);
    }
    forall i, j | 0 <= i < j < |out| ensures IntervalNumCmp(out[i].end, out[j].start) == Less {
      assert out[i] in out && out[j] in out;
      CmpIs(c, out[i].end, out[j].start);
    }
  }

  /** For the same spans every order of the input gives an output of equal bounds. */
  lemma {:induction false} CoalescePreorderAnyOrder(xs: seq<Span>, ys: seq<Span>)
    requires (forall x | x in xs :: Accepted(x)) && TotalPreorder(BoundsIn(xs)) && multiset(xs) == multiset(ys)
    ensures |Coalesced(xs)| == |Coalesced(ys)|
    ensures forall i | 0 <= i < |Coalesced(xs)| ::
              && IntervalNumCmp(Coalesced(xs)[i].start, Coalesced(ys)[i].start) == Equal
              && IntervalNumCmp(Coalesced(xs)[i].end, Coalesced(ys)[i].end) == Equal
  {
    hide Place, TotalPreorder, BoundsIn, Accepted, Coalesced, IntervalNumCmp, NotNaN, Endpoints;
    var s, out, out' := BoundsIn(xs), Coalesced(xs), Coalesced(ys);
    var c := Scale(s, n => Place(s, n));
    AcceptedBounds(xs);
    PreorderFits(s);
    AcceptedProper(c, xs);
    forall y | y in ys ensures Proper(c, y) {
      assert y in multiset(ys) && y in multiset(xs);
    }
    CoalesceAnyOrder(c, xs, ys);
    CoalesceCovers(c, xs);
    CoalesceCovers(c, ys);
    forall i | 0 <= i < |out|
      ensures IntervalNumCmp(out[i].start, out'[i].start) == Equal && IntervalNumCmp(out[i].end, out'[i].end) == Equal
    {
      assert out[i] in out && out'[i] in out';
      assert AllKeys(c, out)[i] == AllKeys(c, out')[i];
      CmpIs(c, out[i].start, out'[i].start);
      CmpIs(c, out[i].end, out'[i].end);
    }
  }

  /** Bounds that survive the conversion to a double: the output covers the same real numbers. */
  lemma {:induction false} CoalesceNumeric(xs: seq<Span>)
    requires forall x | x in xs :: Accepted(x) && Exact(x.start) && Exact(x.end)
    ensures var c := Scale(BoundsIn(xs), Key);
            && Fits(c) && Separated(c, Coalesced(xs))
            && forall p: real :: Covered(c, Coalesced(xs), p) <==> Covered(c, xs, p)
  {
    hide Key, Exact, Accepted, Coalesced;
    ExactFits(BoundsIn(xs));
    AcceptedProper(Scale(BoundsIn(xs), Key), xs);
    CoalesceCovers(Scale(BoundsIn(xs), Key), xs);
  }

  // ----- from values to a value -----

  /** A list of two numbers that the aggregate takes in. */
  ghost predicate Interval(v: Value) {
    exists x :: v == SpanValue(x) && Accepted(x)
  }

  /** The bound lies in the half-open interval that the list spells. */
  ghost predicate Holds(v: Value, n: Num) {
    exists x :: v == SpanValue(x) && Contains(x, n)
  }

  /** The real number, in units of 2^-1074, lies in that interval. */
  ghost predicate HoldsPoint(v: Value, p: real) {
    exists x :: v == SpanValue(x) && Key(x.start) as real <= p < Key(x.end) as real
  }

  ghost predicate SomeHolds(vs: seq<Value>, n: Num) {
    exists v :: v in vs && Holds(v, n)
  }

  ghost predicate SomeHoldsPoint(vs: seq<Value>, p: real) {
    exists v :: v in vs && HoldsPoint(v, p)
  }

  ghost predicate Spells(vs: seq<Value>, xs: seq<Span>) {
    |vs| == |xs| && forall i | 0 <= i < |xs| :: vs[i] == SpanValue(xs[i])
  }

  /** Feeding values to the aggregate and asking for its result. */
  method Run(vs: seq<Value>) returns (r: Option<Value>, ghost xs: seq<Span>)
    ensures r.Some? <==> forall i | 0 <= i < |vs| :: Interval(vs[i])
    ensures r.Some? ==> Spells(vs, xs) && (forall x | x in xs :: Accepted(x)) && r.value == AsValue(Coalesced(xs))
  {
    hide Interval, Accepted, ToInterval, Coalesced;
    var a := new AggrIntervalCoalesce();
    for i := 0 to |vs|
      invariant fresh(a) && |a.accum| == i
      invariant forall j | 0 <= j < i :: Interval(vs[j]) && vs[j] == SpanValue(a.accum[j]) && Accepted(a.accum[j])
    {
      IntervalIs(vs[i]);
      var ok := a.Set(vs[i]);
      if !ok {
        return None, [];
      }
    }
    var out := a.Get();
    return Some(out), a.accum;
  }

  lemma {:induction false} IntervalIs(v: Value)
    ensures Interval(v) <==> ToInterval(v).Some?
    ensures ToInterval(v).Some? ==> v == SpanValue(ToInterval(v).value) && Accepted(ToInterval(v).value)
  {
    hide ToInterval, Accepted;
    if x :| v == SpanValue(x) && Accepted(x) {
      ToIntervalIff(v, x);
    }
    if ToInterval(v).Some? {
      ToIntervalIff(v, ToInterval(v).value);
    }
  }

  lemma {:induction false} AsValueSpells(xs: seq<Span>)
    ensures AsValue(xs).List? && Spells(AsValue(xs).items, xs)
  {
  }

  lemma {:induction false} SpelledHolds(vs: seq<Value>, xs: seq<Span>, n: Num)
    requires Spells(vs, xs)
    ensures SomeHolds(vs, n) <==> exists x :: x in xs && Contains(x, n)
  {
    hide Contains;
    if v :| v in vs && Holds(v, n) {
      var i :| 0 <= i < |vs| && vs[i] == v;
      var x :| v == SpanValue(x) && Contains(x, n);
      SpanValueIs(x, xs[i]);
      assert xs[i] in xs;
    }
    if x :| x in xs && Contains(x, n) {
      var i :| 0 <= i < |xs| && xs[i] == x;
      assert vs[i] in vs && vs[i] == SpanValue(x) && Holds(vs[i], n);
    }
  }

  lemma {:induction false} SpanValueIs(x: Span, y: Span)
    requires SpanValue(x) == SpanValue(y)
    ensures x == y
  {
    assert SpanValue(x).items[0] == Number(x.start) && SpanValue(x).items[1] == Number(x.end);
    assert SpanValue(y).items[0] == Number(y.start) && SpanValue(y).items[1] == Number(y.end);
  }

  lemma {:induction false} SpelledPoint(vs: seq<Value>, xs: seq<Span>, s: set<Num>, p: real)
    requires Spells(vs, xs)
    ensures SomeHoldsPoint(vs, p) <==> Covered(Scale(s, Key), xs, p)
  {
    hide Key;
    var c := Scale(s, Key);
    if v :| v in vs && HoldsPoint(v, p) {
      var i :| 0 <= i < |vs| && vs[i] == v;
      var x :| v == SpanValue(x) && Key(x.start) as real <= p < Key(x.end) as real;
      SpanValueIs(x, xs[i]);
      assert xs[i] in xs && Inside(c, xs[i], p);
    }
    if x :| x in xs && Inside(c, x, p) {
      var i :| 0 <= i < |xs| && xs[i] == x;
      assert vs[i] in vs && vs[i] == SpanValue(x) && HoldsPoint(vs[i], p);
    }
  }

  /**
    * The whole aggregate, from the values it is given to the value it returns. It fails exactly if some value is not an
    * interval. Where the comparison preorders the bounds, the intervals of the result lie apart and in order, and a
    * bound lies in some of them exactly if it lies in some interval given; where the bounds survive the conversion to a
    * double, so does every real number.
    */
  method Aggregate(vs: seq<Value>) returns (r: Option<Value>)
    ensures r.Some? <==> forall i | 0 <= i < |vs| :: Interval(vs[i])
    ensures r.Some? ==> exists xs :: Spells(vs, xs) && r.value.List? && Spelled(vs, xs, r.value.items)
  {
    hide Interval, Coalesced, Spells, Accepted;
    ghost var xs;
    r, xs := Run(vs);
    if r.Some? {
      AsValueSpells(Coalesced(xs));
      ResultSpelled(vs, xs, r.value.items);
    }
  }

  /** Intervals in order, each starting after the end of the one before. */
  ghost predicate Apart(out: seq<Value>) {
    exists ys: seq<Span> ::
      Spells(out, ys) && forall i, j | 0 <= i < j < |ys| :: IntervalNumCmp(ys[i].end, ys[j].start) == Less
  }

  /** What the intervals of the result hold, against those given. */
  ghost predicate Spelled(vs: seq<Value>, xs: seq<Span>, out: seq<Value>) {
    && (TotalPreorder(BoundsIn(xs)) ==>
          Apart(out) && forall n | n in BoundsIn(xs) :: SomeHolds(out, n) <==> SomeHolds(vs, n))
    && ((forall n | n in BoundsIn(xs) :: Exact(n)) ==>
          forall p: real :: SomeHoldsPoint(out, p) <==> SomeHoldsPoint(vs, p))
  }

  lemma {:induction false} ResultSpelled(vs: seq<Value>, xs: seq<Span>, out: seq<Value>)
    requires Spells(vs, xs) && (forall x | x in xs :: Accepted(x)) && Spells(out, Coalesced(xs))
    ensures Spelled(vs, xs, out)
  {
    hide Accepted, Coalesced, Spells, TotalPreorder, Exact, IntervalNumCmp, Holds, HoldsPoint, Contains, Endpoints;
    var s := BoundsIn(xs);
    if TotalPreorder(s) {
      CoalescePreorder(xs);
      forall n | n in s ensures SomeHolds(out, n) <==> SomeHolds(vs, n) {
        SpelledHolds(vs, xs, n);
        SpelledHolds(out, Coalesced(xs), n);
      }
    }
    if forall n | n in s :: Exact(n) {
      CoalesceNumeric(xs);
      forall p: real ensures SomeHoldsPoint(out, p) <==> SomeHoldsPoint(vs, p) {
        SpelledPoint(vs, xs, s, p);
        SpelledPoint(out, Coalesced(xs), s, p);
      }
    }
  }
}
