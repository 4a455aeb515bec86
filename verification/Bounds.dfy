/** Key ranges extracted from a scan's filters. */
module Bounds {
  import opened Bytes
  import opened Values
  import opened Memcmp
  import opened MemcmpOrder
  import opened Tuples
  import opened Comparisons
  import opened Expressions

  /** How a filter ties a column to a constant. */
  datatype Tie = Compared(rel: Rel) | Prefixed

  /** The column and constant of a filter, the column on the left. */
  datatype Constraint = NoConstraint | Constraint(tie: Tie, name: Symbol, pos: Option<nat>, c: Value)

  /** U+10FFFF in UTF-8, put after a prefix to reach past the strings that start with it. */
  const LARGEST_CHAR: seq<u8> := [0xF4, 0x8F, 0xBF, 0xBF]

  function ConstraintOf(e: Expr, target: Symbol): Constraint {
    if e.Apply? && |e.args| == 2 && e.op.Comparison? then
      var a, b := e.args[0], e.args[1];
      if a.Binding? && b.Const? && a.name == target then Constraint(Compared(e.op.rel), target, a.pos, b.val)
      else if b.Binding? && a.Const? && b.name == target then
        Constraint(Compared(Flip(e.op.rel)), target, b.pos, a.val)
      else NoConstraint
    else if e.Apply? && |e.args| == 2 && e.op == StringTest(StartsWith) then
      var a, b := e.args[0], e.args[1];
      if a.Binding? && b.Const? && a.name == target then Constraint(Prefixed, target, a.pos, b.val) else NoConstraint
    else NoConstraint
  }

  /** `None` is the error on a prefix that is no string. */
  function RangeFor(tie: Tie, c: Value): Option<Range> {
    match tie
    case Compared(rel) => Some(BoundFor(rel, c))
    case Prefixed => if c.Str? then Some(Range(c, Str(c.s + LARGEST_CHAR))) else None
  }

  /** `None` is an error: a call of an unknown function, or a prefix that is no string. */
  function ExtractBound(e: Expr, target: Symbol): Option<Range> {
    match e
    case Unbound => None
    case _ =>
      match ConstraintOf(e, target)
      case NoConstraint => Some(EVERYTHING)
      case Constraint(tie, _, _, c) => RangeFor(tie, c)
  }

  function Max(a: Value, b: Value): Value {
    if ValueLess(b, a) then a else b
  }

  function Min(a: Value, b: Value): Value {
    if ValueLess(b, a) then b else a
  }

  function Merge(x: Range, y: Range): Range {
    var lower, upper := Max(x.lower, y.lower), Min(x.upper, y.upper);
    if ValueLess(upper, lower) then Range(Bot, Bot) else Range(lower, upper)
  }

  function MergeFilters(filters: seq<Expr>, target: Symbol, acc: Range): Option<Range>
    decreases |filters|
  {
    if |filters| == 0 then Some(acc)
    else
      match ExtractBound(filters[0], target)
      case None => None
      case Some(next) => MergeFilters(filters[1..], target, Merge(acc, next))
  }

  /** The merged ranges of the columns, or the error of some filter. */
  function BoundsOf(filters: seq<Expr>, symbols: seq<Symbol>): (r: Option<(seq<Value>, seq<Value>)>)
    ensures r.Some? ==> |r.value.0| == |r.value.1| == |symbols|
  {
    if |symbols| == 0 then Some(([], []))
    else
      match MergeFilters(filters, symbols[0], EVERYTHING)
      case None => None
      case Some(range) =>
        match BoundsOf(filters, symbols[1..])
        case None => None
        case Some((lowers, uppers)) => Some(([range.lower] + lowers, [range.upper] + uppers))
  }

  method ComputeBounds(filters: seq<Expr>, symbols: seq<Symbol>) returns (r: Option<(seq<Value>, seq<Value>)>)
    ensures r == BoundsOf(filters, symbols)
  {
    hide ExtractBound, Merge;
    var lowers: seq<Value>, uppers: seq<Value> := [], [];
    AfterEnds([], [], BoundsOf(filters, symbols));
    assert symbols[0..] == symbols;
    for k := 0 to |symbols|
      invariant BoundsOf(filters, symbols) == After(lowers, uppers, BoundsOf(filters, symbols[k..]))
    {
      var bound := EVERYTHING;
      for i := 0 to |filters|
        invariant MergeFilters(filters, symbols[k], EVERYTHING) == MergeFilters(filters[i..], symbols[k], bound)
      {
        var nxt := ExtractBound(filters[i], symbols[k]);
        if nxt.None? {
          assert symbols[k..][0] == symbols[k];
          return None;
        }
        bound := Merge(bound, nxt.value);
      }
      BoundsStep(filters, symbols[k..], lowers, uppers, bound);
      lowers, uppers := lowers + [bound.lower], uppers + [bound.upper];
      assert symbols[k..][1..] == symbols[k + 1..];
    }
    AfterEnds(lowers, uppers, None);
    return Some((lowers, uppers));
  }

  lemma {:induction false} AfterEnds(lowers: seq<Value>, uppers: seq<Value>, r: Option<(seq<Value>, seq<Value>)>)
    ensures After([], [], r) == r && After(lowers, uppers, Some(([], []))) == Some((lowers, uppers))
  {
    assert lowers + [] == lowers && uppers + [] == uppers;
    if r.Some? {
      assert [] + r.value.0 == r.value.0 && [] + r.value.1 == r.value.1;
    }
  }

  ghost function After(lowers: seq<Value>, uppers: seq<Value>, rest: Option<(seq<Value>, seq<Value>)>):
    Option<(seq<Value>, seq<Value>)>
  {
    match rest
    case None => None
    case Some((ls, us)) => Some((lowers + ls, uppers + us))
  }

  lemma {:induction false} BoundsStep(filters: seq<Expr>, symbols: seq<Symbol>, lowers: seq<Value>,
        uppers: seq<Value>, range: Range)
    requires |symbols| > 0 && MergeFilters(filters, symbols[0], EVERYTHING) == Some(range)
    ensures After(lowers, uppers, BoundsOf(filters, symbols)) ==
            After(lowers + [range.lower], uppers + [range.upper], BoundsOf(filters, symbols[1..]))
  {
    hide MergeFilters;
    match BoundsOf(filters, symbols[1..]) {
      case None =>
      case Some((ls, us)) =>
        Associate(lowers, [range.lower], ls);
        Associate(uppers, [range.upper], us);
    }
  }

  lemma {:induction false} BoundsAt(filters: seq<Expr>, symbols: seq<Symbol>, i: nat)
    requires BoundsOf(filters, symbols).Some? && i < |symbols|
    ensures var (lowers, uppers) := BoundsOf(filters, symbols).value;
            MergeFilters(filters, symbols[i], EVERYTHING) == Some(Range(lowers[i], uppers[i]))
  {
    hide MergeFilters;
    if i > 0 {
      BoundsAt(filters, symbols[1..], i - 1);
    }
  }

  // ----- soundness for one column -----

  predicate KeyValue(v: Value) {
    WellFormed(v) && VectorFree(v)
  }

  predicate KeyRange(range: Range) {
    KeyValue(range.lower) && KeyValue(range.upper)
  }

  /** The order of key values is a linear order, read off their encodings. */
  lemma {:induction false} Between(l: Value, v: Value, u: Value)
    requires KeyValue(l) && KeyValue(v) && KeyValue(u) && ValueLess(u, l)
    ensures ValueLess(u, v) || ValueLess(v, l)
  {
    hide Encode, ValueLess, KeyValue;
    KeyLess(u, l);
    KeyLess(u, v);
    KeyLess(v, l);
    if !Lt(Encode(v), Encode(l)) {
      NotLt(Encode(l), Encode(v));
      LeTransitive(Encode(u), Encode(l), Encode(v));
    }
  }

  lemma {:induction false} KeyLess(a: Value, b: Value)
    requires KeyValue(a) && KeyValue(b)
    ensures WellFormed(a) && WellFormed(b)
    ensures ValueLess(a, b) <==> Lt(Encode(a), Encode(b))
  {
    hide Encode, ValueLess;
    if a == b {
      Asymmetric(a, a);
      LtIrreflexive(Encode(a));
    } else {
      EncodeOrder(a, b);
    }
  }

  /** Merging intersects: a value other than the bottom is in the merge exactly if it is in both ranges. */
  lemma {:induction false} MergeExact(v: Value, x: Range, y: Range)
    requires KeyValue(v) && KeyRange(x) && KeyRange(y) && !v.Bot?
    ensures Within(v, Merge(x, y)) <==> Within(v, x) && Within(v, y)
  {
    hide ValueLess, KeyValue;
    if Within(v, x) && Within(v, y) {
      MergeKeeps(v, x, y);
    } else {
      BelowBottom(v);
      MaxIs(v, x.lower, y.lower);
      MinIs(v, x.upper, y.upper);
    }
  }

  lemma {:induction false} BelowBottom(v: Value)
    requires !v.Bot?
    ensures ValueLess(v, Bot)
  {
  }

  lemma {:induction false} MaxIs(v: Value, a: Value, b: Value)
    requires KeyValue(v) && KeyValue(a) && KeyValue(b)
    ensures ValueLess(v, a) || ValueLess(v, b) ==> ValueLess(v, Max(a, b))
  {
    hide ValueLess, KeyValue;
    Asymmetric(a, b);
    if ValueLess(v, a) {
      Between(a, b, v);
    }
    if ValueLess(v, b) {
      Between(b, a, v);
    }
  }

  lemma {:induction false} MinIs(v: Value, a: Value, b: Value)
    requires KeyValue(v) && KeyValue(a) && KeyValue(b)
    ensures ValueLess(a, v) || ValueLess(b, v) ==> ValueLess(Min(a, b), v)
  {
    hide ValueLess, KeyValue;
    Asymmetric(a, b);
    if ValueLess(a, v) {
      Between(v, b, a);
    }
    if ValueLess(b, v) {
      Between(v, a, b);
    }
  }

  lemma {:induction false} MergeKeeps(v: Value, x: Range, y: Range)
    requires KeyValue(v) && KeyRange(x) && KeyRange(y) && Within(v, x) && Within(v, y)
    ensures Within(v, Merge(x, y)) && KeyRange(Merge(x, y))
  {
    hide ValueLess, KeyValue;
    var lower, upper := Max(x.lower, y.lower), Min(x.upper, y.upper);
    if ValueLess(upper, lower) {
      Between(lower, v, upper);
    }
  }

  /** The filter is true of a column value. */
  predicate Passes(tie: Tie, v: Value, c: Value) {
    match tie
    case Compared(rel) => SameType(v, c) && Holds(rel, v, c)
    case Prefixed => RunStringTest(StartsWith, v, c) == Some(Bool(true))
  }

  /** A value that passes is in the range: the constant is sound, or both are plain, or no larger text follows. */
  ghost predicate Reached(tie: Tie, v: Value, c: Value) {
    match tie
    case Compared(rel) => SoundConstant(rel, c) || (Plain(v) && Plain(c))
    case Prefixed => v.Str? && c.Str? && !Lt(c.s + LARGEST_CHAR, v.s)
  }

  ghost predicate Usable(e: Expr, target: Symbol, v: Value) {
    var k := ConstraintOf(e, target);
    k.Constraint? ==> KeyValue(k.c) && Reached(k.tie, v, k.c)
  }

  /** The target column of a filter is column `p` of the row. */
  ghost predicate Reads(e: Expr, target: Symbol, p: nat) {
    var k := ConstraintOf(e, target);
    k.Constraint? ==> k.pos == Some(p)
  }

  lemma {:induction false} FlipHolds(r: Rel, a: Value, b: Value)
    ensures Holds(r, a, b) <==> Holds(Flip(r), b, a)
    ensures SameType(a, b) <==> SameType(b, a)
  {
  }

  /** A filter that is true of a row and constrains the column really compares it with the constant. */
  lemma {:induction false} FilterSays(e: Expr, target: Symbol, p: nat, t: Tuple)
    requires Eval(e, t) == Some(Bool(true)) && Reads(e, target, p) && ConstraintOf(e, target).Constraint?
    ensures var k := ConstraintOf(e, target);
            p < |t| && Passes(k.tie, t[p], k.c)
  {
    hide Holds;
    var a, b := e.args[0], e.args[1];
    assert e.args == [a, b];
    TwoArgs(a, b, t);
    if e.op.Comparison? && !(a.Binding? && b.Const? && a.name == target) {
      FlipHolds(e.op.rel, a.val, t[p]);
    }
  }

  lemma {:induction false} FilterSound(e: Expr, target: Symbol, p: nat, t: Tuple)
    requires !e.Unbound? && (ConstraintOf(e, target).Constraint? ==> Eval(e, t) == Some(Bool(true)))
    requires Reads(e, target, p) && p < |t| && Usable(e, target, t[p])
    ensures ExtractBound(e, target).Some? && Within(t[p], ExtractBound(e, target).value)
    ensures KeyRange(ExtractBound(e, target).value)
  {
    hide ValueLess, RangeFor, Passes, Reached;
    var k := ConstraintOf(e, target);
    EndsAreLoose(t[p]);
    if k.Constraint? {
      FilterSays(e, target, p, t);
      RangeReaches(k.tie, t[p], k.c);
    }
  }

  lemma {:induction false} RangeReaches(tie: Tie, v: Value, c: Value)
    requires Passes(tie, v, c) && Reached(tie, v, c)
    ensures RangeFor(tie, c).Some? && Within(v, RangeFor(tie, c).value)
    ensures KeyValue(c) ==> KeyRange(RangeFor(tie, c).value)
  {
    hide Holds, ValueLess, SoundConstant, BoundFor;
    match tie {
      case Compared(rel) =>
        BoundIsKey(rel, c);
        if SoundConstant(rel, c) {
          SoundIff(rel, c);
        } else {
          PlainSound(rel, v, c);
        }
      case Prefixed => PrefixWithin(v.s, c.s);
    }
  }

  lemma {:induction false} BoundIsKey(r: Rel, c: Value)
    ensures KeyValue(c) ==> KeyRange(BoundFor(r, c))
  {
  }

  /** A string with the prefix is in the range exactly if it does not go past the prefix and the largest character. */
  lemma {:induction false} PrefixWithin(v: seq<u8>, s: seq<u8>)
    requires s <= v
    ensures Within(Str(v), Range(Str(s), Str(s + LARGEST_CHAR))) <==> !Lt(s + LARGEST_CHAR, v)
  {
    if s != v {
      LtOfPrefix(s, v);
      LtAsymmetric(s, v);
    } else {
      LtIrreflexive(s);
    }
  }

  /** What may follow in a UTF-8 string: no character is larger than the largest. */
  predicate StartsUtf8(rest: seq<u8>) {
    rest == [] || rest[0] < 0xF4 ||
    (rest[0] == 0xF4 && |rest| >= 4 && rest[1] <= 0x8F && rest[2] <= 0xBF && rest[3] <= 0xBF)
  }

  /** The range of a prefix loses exactly the strings that go on after the prefix and the largest character. */
  lemma {:induction false} PrefixLosesIff(s: seq<u8>, rest: seq<u8>)
    requires StartsUtf8(rest)
    ensures RunStringTest(StartsWith, Str(s + rest), Str(s)) == Some(Bool(true))
    ensures Within(Str(s + rest), Range(Str(s), Str(s + LARGEST_CHAR))) <==>
            !(LARGEST_CHAR <= rest && rest != LARGEST_CHAR)
  {
    PrefixWithin(s + rest, s);
    LtSamePrefix(s, LARGEST_CHAR, rest);
    PastLargest(rest);
  }

  lemma {:induction false} PastLargest(rest: seq<u8>)
    requires StartsUtf8(rest)
    ensures Lt(LARGEST_CHAR, rest) <==> LARGEST_CHAR <= rest && rest != LARGEST_CHAR
  {
    var a := LARGEST_CHAR;
    if LARGEST_CHAR <= rest {
      assert rest == a + rest[4..] && a == a + [];
      LtSamePrefix(a, [], rest[4..]);
    } else if |rest| >= 4 && rest[0] == 0xF4 {
      var x, y := rest[..4], rest[4..];
      assert rest == x + y && a + [] == a;
      SplitsOfLength(a, x);
      LtSplit(a, x, [], y);
      NotAbove(x, a);
    }
  }

  lemma {:induction false} NotAbove(x: seq<u8>, a: seq<u8>)
    requires |x| == |a| && forall i | 0 <= i < |x| :: x[i] <= a[i]
    ensures !Lt(a, x)
  {
    if x != [] {
      NotAbove(x[1..], a[1..]);
    }
  }

  ghost predicate Applies(filters: seq<Expr>, target: Symbol, p: nat, t: Tuple) {
    forall f | f in filters ::
      && !f.Unbound? && (ConstraintOf(f, target).Constraint? ==> Eval(f, t) == Some(Bool(true)))
      && Reads(f, target, p) && (p < |t| ==> Usable(f, target, t[p]))
  }

  /** If all filters are true of a row, its column lies in the merged range. */
  lemma {:induction false} ColumnWithin(filters: seq<Expr>, target: Symbol, p: nat, t: Tuple, acc: Range)
    requires p < |t| && KeyValue(t[p]) && KeyRange(acc) && Within(t[p], acc) && Applies(filters, target, p, t)
    ensures MergeFilters(filters, target, acc).Some?
    ensures Within(t[p], MergeFilters(filters, target, acc).value) && KeyRange(MergeFilters(filters, target, acc).value)
    decreases |filters|
  {
    hide ExtractBound, Merge, Within, KeyRange, Reads, Usable, Eval;
    if |filters| > 0 {
      assert filters[0] in filters;
      FilterSound(filters[0], target, p, t);
      MergeKeeps(t[p], acc, ExtractBound(filters[0], target).value);
      ColumnWithin(filters[1..], target, p, t, Merge(acc, ExtractBound(filters[0], target).value));
    }
  }

  // ----- the scanned key range -----

  lemma {:induction false} NotBelow(a: Tuple, lowers: Tuple)
    requires |a| == |lowers| && forall i | 0 <= i < |a| :: !ValueLess(a[i], lowers[i])
    ensures !ItemsLess(a, lowers)
  {
    if a != [] {
      NotBelow(a[1..], lowers[1..]);
    }
  }

  lemma {:induction false} SharedPrefix(p: Tuple, a: Tuple, b: Tuple)
    ensures ItemsLess(p + a, p + b) <==> ItemsLess(a, b)
  {
    if p == [] {
      assert p + a == a && p + b == b;
    } else {
      assert (p + a)[0] == p[0] && (p + b)[0] == p[0];
      assert (p + a)[1..] == p[1..] + a && (p + b)[1..] == p[1..] + b;
      SharedPrefix(p[1..], a, b);
    }
  }

  lemma {:induction false} LowerEnd(rel: u64, key: Tuple, lowerT: Tuple)
    requires KeyTuple(key) && KeyTuple(lowerT) && |key| == |lowerT| && !ItemsLess(key, lowerT)
    ensures Le(EncodeKey(rel, lowerT), EncodeKey(rel, key))
  {
    hide EncodeKey, ItemsLess;
    if key != lowerT {
      KeyOrder(rel, key, lowerT);
      NotLt(EncodeKey(rel, lowerT), EncodeKey(rel, key));
    }
  }

  lemma {:induction false} UpperEnd(rel: u64, key: Tuple, upperT: Tuple)
    requires KeyTuple(key) && KeyTuple(upperT) && |key| == |upperT| && !ItemsLess(upperT, key)
    ensures AllWellFormed(upperT + [Bot]) && Lt(EncodeKey(rel, key), EncodeKey(rel, upperT + [Bot]))
  {
    hide EncodeKey, ItemsLess, KeyTuple;
    KeyTuples(key, upperT);
    var a, b := EncodeKey(rel, key), EncodeKey(rel, upperT);
    SingleItem(Bot);
    KeyConcat(rel, upperT, [Bot]);
    BotByte();
    if key == upperT {
      LtOfPrefix(a, b + Encode(Bot));
    } else {
      KeyOrder(rel, upperT, key);
      LtTotal(a, b);
      LtConcat(a, b, [], Encode(Bot));
      assert a + [] == a;
    }
  }

  lemma {:induction false} KeyTuples(a: Tuple, b: Tuple)
    requires KeyTuple(a) && KeyTuple(b)
    ensures AllWellFormed(a) && AllWellFormed(b)
  {
  }

  lemma {:induction false} BotByte()
    ensures Encode(Bot) != []
  {
  }

  /** Every row under the prefix whose remaining key columns lie in the ranges is in the scanned byte range. */
  lemma {:induction false} KeyInScanRange(rel: u64, prefix: Tuple, cols: Tuple, lowers: Tuple, uppers: Tuple)
    requires |cols| == |lowers| == |uppers|
    requires KeyTuple(prefix + cols) && KeyTuple(prefix + lowers) && KeyTuple(prefix + uppers)
    requires forall i | 0 <= i < |cols| :: Within(cols[i], Range(lowers[i], uppers[i]))
    ensures AllWellFormed(prefix + uppers + [Bot])
    ensures Le(EncodeKey(rel, prefix + lowers), EncodeKey(rel, prefix + cols))
    ensures Lt(EncodeKey(rel, prefix + cols), EncodeKey(rel, prefix + uppers + [Bot]))
  {
    hide EncodeKey, ItemsLess, ValueLess, KeyTuple;
    NotBelow(cols, lowers);
    NotBelow(uppers, cols);
    SharedPrefix(prefix, cols, lowers);
    SharedPrefix(prefix, uppers, cols);
    LowerEnd(rel, prefix + cols, prefix + lowers);
    UpperEnd(rel, prefix + cols, prefix + uppers);
  }

  lemma {:induction false} KeyTupleIff(xs: Tuple)
    ensures KeyTuple(xs) <==> forall i | 0 <= i < |xs| :: KeyValue(xs[i])
  {
    if xs != [] {
      KeyTupleIff(xs[1..]);
      assert KeyTuple(xs) <==> KeyValue(xs[0]) && KeyTuple(xs[1..]);
      assert forall i | 0 < i < |xs| :: xs[i] == xs[1..][i - 1];
    }
  }

  lemma {:induction false} ColumnBounded(filters: seq<Expr>, target: Symbol, p: nat, t: Tuple, lower: Value,
        upper: Value)
    requires p < |t| && KeyValue(t[p]) && Applies(filters, target, p, t)
    requires MergeFilters(filters, target, EVERYTHING) == Some(Range(lower, upper))
    ensures Within(t[p], Range(lower, upper)) && KeyValue(lower) && KeyValue(upper)
  {
    hide ValueLess, MergeFilters, Applies;
    EndsAreLoose(t[p]);
    ColumnWithin(filters, target, p, t, EVERYTHING);
  }

  /**
    * No row is lost by narrowing the scan: if of a row `t`, whose columns from `at` on are the key columns not yet
    * joined, all filters are true that bound such a column, its key is in the byte range scanned instead of the
    * whole prefix.
    */
  lemma {:induction false} FilteredRowScanned(rel: u64, filters: seq<Expr>, symbols: seq<Symbol>, lowers: Tuple,
        uppers: Tuple, prefix: Tuple, at: nat, t: Tuple)
    requires BoundsOf(filters, symbols) == Some((lowers, uppers)) && at + |symbols| <= |t|
    requires KeyTuple(prefix + t[at..at + |symbols|])
    requires forall i | 0 <= i < |symbols| :: Applies(filters, symbols[i], at + i, t)
    ensures KeyTuple(prefix + lowers) && KeyTuple(prefix + uppers) && AllWellFormed(prefix + uppers + [Bot])
    ensures var key := EncodeKey(rel, prefix + t[at..at + |symbols|]);
            Le(EncodeKey(rel, prefix + lowers), key) && Lt(key, EncodeKey(rel, prefix + uppers + [Bot]))
  {
    hide ValueLess, MergeFilters, Applies, KeyTuple, KeyValue, EncodeKey, BoundsOf;
    var cols := t[at..at + |symbols|];
    KeyTupleIff(prefix + cols);
    KeyTupleIff(prefix + lowers);
    KeyTupleIff(prefix + uppers);
    forall i | 0 <= i < |cols|
      ensures Within(cols[i], Range(lowers[i], uppers[i])) && KeyValue(lowers[i]) && KeyValue(uppers[i])
    {
      assert t[at + i] == cols[i] && (prefix + cols)[|prefix| + i] == cols[i];
      BoundsAt(filters, symbols, i);
      ColumnBounded(filters, symbols[i], at + i, t, lowers[i], uppers[i]);
    }
    forall i | 0 <= i < |prefix| ensures KeyValue(prefix[i]) {
      assert (prefix + cols)[i] == prefix[i];
    }
    KeyInScanRange(rel, prefix, cols, lowers, uppers);
  }
}
