/** A lowered WHERE over one matched relation: where its filter is put, which rows are read, what becomes of each. */
module CypherScan {
  import opened Bytes
  import opened Values
  import opened Memcmp
  import opened MemcmpOrder
  import opened Tuples
  import opened Numbers
  import opened Comparisons
  import opened Expressions
  import opened Bounds
  import opened CypherWhere
  import C = Cypher
  import Float64

  /**
    * The columns of the matched relation, the first `keys` of them its key. The id property is not bound with them: it
    * is unified afterwards with the node's column, so its values come last; `late` has the columns so copied.
    */
  datatype Pattern = Pattern(symbols: seq<Symbol>, keys: nat, late: seq<nat>)

  ghost predicate Valid(pt: Pattern) {
    && pt.keys <= |pt.symbols|
    && (forall i, j | 0 <= i < j < |pt.symbols| :: pt.symbols[i] != pt.symbols[j])
    && (forall i | 0 <= i < |pt.late| :: pt.late[i] < |pt.symbols|)
  }

  /** A row with the columns bound after it. */
  function Extended(pt: Pattern, row: Tuple): Tuple {
    row + seq(|pt.late|, i requires 0 <= i < |pt.late| => if pt.late[i] < |row| then row[pt.late[i]] else Null)
  }

  /** Reading the id property is reading the column the node is bound to. */
  lemma {:induction false} PropertyIsColumn(pt: Pattern, row: Tuple, i: nat, property: Symbol, node: Symbol)
    requires Valid(pt) && |row| == |pt.symbols| && i < |pt.late|
    ensures var t := Extended(pt, row);
            && C.Bound(C.Column(property, |row| + i), t) && C.Bound(C.Column(node, pt.late[i]), t)
            && C.At(C.Column(property, |row| + i), t) == C.At(C.Column(node, pt.late[i]), t) == row[pt.late[i]]
  {
  }

  /** Columns are found by name. */
  predicate Names(x: C.Operand, symbols: seq<Symbol>) {
    x.Column? && x.at < |symbols| ==> symbols[x.at] == x.name
  }

  predicate Named(p: C.Predicate, symbols: seq<Symbol>) {
    match p
    case Both(l, r) => Named(l, symbols) && Named(r, symbols)
    case Either(l, r) => Named(l, symbols) && Named(r, symbols)
    case Not(q) => Named(q, symbols)
    case Tested(_, l, r) => Names(l, symbols) && Names(r, symbols)
    case MissingValue(x) => Names(x, symbols)
    case PresentValue(x) => Names(x, symbols)
    case Bare(x) => Names(x, symbols)
  }

  /** A row of the relation, and a predicate over the pattern. */
  ghost predicate Suits(pt: Pattern, p: C.Predicate, row: Tuple) {
    Valid(pt) && |row| == |pt.symbols| && Named(p, pt.symbols) && C.AllBound(p, Extended(pt, row))
  }

  // ----- the path of a row -----

  predicate AllAre(vs: Tuple, v: Value) {
    forall i | 0 <= i < |vs| :: vs[i] == v
  }

  /** The bounds the scan is narrowed to; there are none if extracting them fails or they exclude nothing. */
  function Window(symbols: seq<Symbol>, filters: seq<Expr>): Option<(Tuple, Tuple)> {
    match BoundsOf(filters, symbols)
    case None => None
    case Some((lowers, uppers)) => if AllAre(lowers, Null) && AllAre(uppers, Bot) then None else Some((lowers, uppers))
  }

  predicate InWindow(window: Option<(Tuple, Tuple)>, key: Tuple) {
    match window
    case None => true
    case Some((lowers, uppers)) => !ItemsLess(key, lowers) && !ItemsLess(uppers, key)
  }

  /** On the join with the unit relation: constant parts first, then the narrowed scan, then the other parts. */
  function SplitRow(pt: Pattern, f: Expr, row: Tuple): RowResult
    requires pt.keys <= |row| && pt.keys <= |pt.symbols|
  {
    var parts := ToConjunction(f);
    match RunFilters(Constants(parts), [])
    case Keep =>
      var window := Window(pt.symbols[..pt.keys], Dependents(parts));
      if InWindow(window, row[..pt.keys]) then RunFilters(Dependents(parts), row) else Drop
    case other => other
  }

  /**
    * What becomes of a stored row. Folding comes before any row. A predicate over the relation's own columns is split
    * on the join; one that needs a column bound later is put, whole, after what binds it.
    */
  function WhereRow(pt: Pattern, p: C.Predicate, row: Tuple): RowResult
    requires pt.keys <= |row| && pt.keys <= |pt.symbols|
  {
    match PartialEval(C.Truthy(p))
    case None => Abort
    case Some(f) => if C.AllBound(p, row) then SplitRow(pt, f, row) else RunFilters([f], Extended(pt, row))
  }

  method MatchRow(pt: Pattern, p: C.Predicate, row: Tuple) returns (r: RowResult)
    requires pt.keys <= |row| && pt.keys <= |pt.symbols|
    ensures r == WhereRow(pt, p, row)
  {
    var folded := RewriteInPlace(C.Truthy(p));
    if folded.None? {
      return Abort;
    }
    var f := folded.value;
    if !C.AllBound(p, row) {
      WholeRunnable(p);
      r := FilterRow([f], Extended(pt, row));
      return;
    }
    var left, right := PlaceParts(f);
    PartsRunnable(p);
    PlacedRunnable(ToConjunction(f));
    r := FilterRow(left, []);
    if r != Keep {
      return;
    }
    var bounds := ComputeBounds(right, pt.symbols[..pt.keys]);
    if bounds.Some? && !(AllAre(bounds.value.0, Null) && AllAre(bounds.value.1, Bot)) {
      if ItemsLess(row[..pt.keys], bounds.value.0) || ItemsLess(bounds.value.1, row[..pt.keys]) {
        return Drop;
      }
    }
    r := FilterRow(right, row);
  }

  lemma {:induction false} WholeRunnable(p: C.Predicate)
    requires PartialEval(C.Truthy(p)).Some?
    ensures Runnable(PartialEval(C.Truthy(p)).value)
  {
    hide PartialEval;
    EmittedTidy(p, true);
    FoldRunnable(Emitted(p, true));
  }

  // ----- the bytes scanned -----

  /** The window is the byte range between the encoded bounds, the upper one with a bottom after it. */
  lemma {:induction false} WindowIsByteRange(rel: u64, key: Tuple, lowers: Tuple, uppers: Tuple)
    requires KeyTuple(key) && KeyTuple(lowers) && KeyTuple(uppers) && |key| == |lowers| == |uppers|
    ensures AllWellFormed(uppers + [Bot])
    ensures InWindow(Some((lowers, uppers)), key) <==>
            Le(EncodeKey(rel, lowers), EncodeKey(rel, key)) && Lt(EncodeKey(rel, key), EncodeKey(rel, uppers + [Bot]))
  {
    hide EncodeKey, ItemsLess, KeyTuple, Lt;
    LowerByte(rel, key, lowers);
    UpperByte(rel, key, uppers);
  }

  lemma {:induction false} ItselfNotLess(a: Tuple)
    ensures !ItemsLess(a, a)
  {
    if a != [] {
      ItselfNotLess(a[1..]);
    }
  }

  lemma {:induction false} LowerByte(rel: u64, key: Tuple, lowers: Tuple)
    requires KeyTuple(key) && KeyTuple(lowers) && |key| == |lowers|
    ensures Le(EncodeKey(rel, lowers), EncodeKey(rel, key)) <==> !ItemsLess(key, lowers)
  {
    hide EncodeKey, ItemsLess, Lt;
    if key == lowers {
      ItselfNotLess(key);
    } else {
      KeyOrder(rel, key, lowers);
      NotLt(EncodeKey(rel, lowers), EncodeKey(rel, key));
    }
  }

  lemma {:induction false} UpperByte(rel: u64, key: Tuple, uppers: Tuple)
    requires KeyTuple(key) && KeyTuple(uppers) && |key| == |uppers|
    ensures AllWellFormed(uppers + [Bot])
    ensures Lt(EncodeKey(rel, key), EncodeKey(rel, uppers + [Bot])) <==> !ItemsLess(uppers, key)
  {
    hide EncodeKey, ItemsLess, KeyTuple, Lt;
    KeyTuples(key, uppers);
    SingleItem(Bot);
    KeyConcat(rel, uppers, [Bot]);
    BotByte();
    var a, b := EncodeKey(rel, key), EncodeKey(rel, uppers);
    assert a + [] == a;
    if key == uppers {
      ItselfNotLess(key);
      LtOfPrefix(a, b + Encode(Bot));
    } else {
      KeyOrder(rel, uppers, key);
      LtTotal(a, b);
      LtConcat(a, b, [], Encode(Bot));
      if Lt(a, b) {
        LtAsymmetric(a, b);
      }
    }
  }

  // ----- which predicates narrow the scan -----

  /** Column `at` is tied to a constant by a test that is a filter of its own. */
  datatype Bound = Bound(at: nat, tie: Tie, c: Value)

  function Tied(test: C.Test, l: C.Operand, r: C.Operand): Option<Bound> {
    match test
    case Ordered(rel) =>
      if l.Column? && r.Literal? then Some(Bound(l.at, Compared(rel), r.val))
      else if r.Column? && l.Literal? then Some(Bound(r.at, Compared(Flip(rel)), l.val))
      else None
    case OnStrings(kind) =>
      if kind.StartsWith? && l.Column? && r.Literal? && r.val.Str? then Some(Bound(l.at, Prefixed, r.val)) else None
    case _ => None
  }

  /** Only a test that is the whole predicate, not negated, becomes such a filter. */
  function BoundOf(p: C.Predicate, positive: bool): Option<Bound> {
    match p
    case Not(q) => BoundOf(q, !positive)
    case Tested(test, l, r) => if positive then Tied(test, l, r) else None
    case _ => None
  }

  function Filled(n: nat, at: nat, v: Value, other: Value): (r: Tuple)
    ensures |r| == n
  {
    seq(n, i requires 0 <= i < n => if i == at then v else other)
  }

  /** The row's key lies outside the range of its tied column, the other columns being unbounded. */
  predicate Outside(n: nat, b: Bound, key: Tuple) {
    && b.at < n && RangeFor(b.tie, b.c).Some?
    && (var range := RangeFor(b.tie, b.c).value;
        ItemsLess(key, Filled(n, b.at, range.lower, Null)) || ItemsLess(Filled(n, b.at, range.upper, Bot), key))
  }

  predicate Skipped(pt: Pattern, p: C.Predicate, row: Tuple)
    requires pt.keys <= |row|
  {
    BoundOf(p, true).Some? && Outside(pt.keys, BoundOf(p, true).value, row[..pt.keys])
  }

  // filters without a bound

  /** Nothing is extracted from the filter, for any column. */
  ghost predicate Loose(e: Expr) {
    forall target :: ExtractBound(e, target) == Some(EVERYTHING)
  }

  lemma {:induction false} LooseHead(e: Expr)
    requires !e.Unbound? && (e.Apply? ==> !e.op.Comparison? && !e.op.StringTest?)
    ensures Loose(e)
  {
  }

  lemma {:induction false} LooseMerge(fs: seq<Expr>, target: Symbol)
    requires forall f | f in fs :: Loose(f)
    ensures MergeFilters(fs, target, EVERYTHING) == Some(EVERYTHING)
  {
    hide ExtractBound;
    if |fs| > 0 {
      assert fs[0] in fs;
      LooseMerge(fs[1..], target);
    }
  }

  lemma {:induction false} BoundsFrom(fs: seq<Expr>, symbols: seq<Symbol>, lowers: Tuple, uppers: Tuple)
    requires |lowers| == |uppers| == |symbols|
    requires forall i | 0 <= i < |symbols| ::
               MergeFilters(fs, symbols[i], EVERYTHING) == Some(Range(lowers[i], uppers[i]))
    ensures BoundsOf(fs, symbols) == Some((lowers, uppers))
  {
    hide MergeFilters;
    if |symbols| > 0 {
      BoundsFrom(fs, symbols[1..], lowers[1..], uppers[1..]);
      assert [lowers[0]] + lowers[1..] == lowers && [uppers[0]] + uppers[1..] == uppers;
    }
  }

  lemma {:induction false} LooseWindow(fs: seq<Expr>, symbols: seq<Symbol>)
    requires forall f | f in fs :: Loose(f)
    ensures Window(symbols, fs) == None
  {
    hide MergeFilters, BoundsOf, Loose;
    var n := |symbols|;
    forall i | 0 <= i < n ensures MergeFilters(fs, symbols[i], EVERYTHING) == Some(Range(Null, Bot)) {
      LooseMerge(fs, symbols[i]);
    }
    BoundsFrom(fs, symbols, seq(n, _ => Null), seq(n, _ => Bot));
  }

  lemma {:induction false} DependentsAmong(fs: seq<Expr>, f: Expr)
    ensures f in Dependents(fs) ==> f in fs && !Ground(f)
  {
    hide Ground;
    if |fs| > 0 {
      DependentsAmong(fs[1..], f);
    }
  }

  lemma {:induction false} EmittedLoose(p: C.Predicate, positive: bool, f: Expr)
    requires PartialEval(Emitted(p, positive)) == Some(f)
    ensures Loose(f)
  {
    hide PartialEval, Loose;
    EmittedTidy(p, positive);
    FoldHead(Emitted(p, positive));
    EmittedHead(p, positive);
    LooseHead(f);
  }

  lemma {:induction false} EmittedHead(p: C.Predicate, positive: bool)
    ensures var e := Emitted(p, positive);
            e.Apply? && (e.op.AllOf? || e.op.AnyOf? || e.op.IsNull? || e.op.Negate?)
  {
    if p.Not? {
      EmittedHead(p.inner, !positive);
    }
  }

  lemma {:induction false} TwoLoose(a: Expr, b: Expr, f: Expr)
    requires Tidy(Apply(AllOf, [a, b])) && PartialEval(Apply(AllOf, [a, b])) == Some(f)
    requires PartialEval(a).Some? ==> Loose(PartialEval(a).value)
    requires PartialEval(b).Some? ==> Loose(PartialEval(b).value)
    ensures forall g | g in Dependents(ToConjunction(f)) :: Loose(g)
  {
    hide PartialEval, Loose, Ground, Dependents, Tidy;
    FoldShape(a, b);
    forall g | g in Dependents(ToConjunction(f)) ensures Loose(g) {
      DependentsAmong(ToConjunction(f), g);
      if f.Const? {
        LooseHead(f);
      }
    }
  }

  lemma {:induction false} OneLoose(p: C.Predicate, positive: bool, f: Expr)
    requires PartialEval(Emitted(p, positive)) == Some(f)
    requires var e := Emitted(p, positive); e.Apply? && !e.op.AllOf?
    ensures forall g | g in Dependents(ToConjunction(f)) :: Loose(g)
  {
    hide PartialEval, Loose, Ground, Dependents, Tidy;
    EmittedTidy(p, positive);
    FoldHeadOf(Emitted(p, positive), f);
    EmittedLoose(p, positive, f);
    forall g | g in Dependents(ToConjunction(f)) ensures Loose(g) {
      DependentsAmong(ToConjunction(f), g);
    }
  }

  lemma {:induction false} FoldHeadOf(e: Expr, f: Expr)
    requires Tidy(e) && PartialEval(e) == Some(f)
    ensures SameHead(e, f)
  {
    hide PartialEval;
    FoldHead(e);
  }

  // the one filter with a bound

  lemma {:induction false} MergeEverything(tie: Tie, c: Value)
    requires RangeFor(tie, c).Some?
    ensures Merge(EVERYTHING, RangeFor(tie, c).value) == RangeFor(tie, c).value
  {
    hide Lt;
    if tie.Prefixed? {
      LtOfPrefix(c.s, c.s + LARGEST_CHAR);
      LtAsymmetric(c.s, c.s + LARGEST_CHAR);
    }
  }

  lemma {:induction false} TwoMerge(g: Expr, e: Expr, target: Symbol)
    requires Loose(g)
    ensures MergeFilters([g, e], target, EVERYTHING) ==
            match ExtractBound(e, target) case None => None case Some(range) => Some(Merge(EVERYTHING, range))
  {
    hide ExtractBound, Merge;
    var fs := [g, e];
    assert fs[1..] == [e];
    MergeNothing();
    LastMerge(e, target, EVERYTHING);
  }

  lemma {:induction false} MergeNothing()
    ensures Merge(EVERYTHING, EVERYTHING) == EVERYTHING
  {
  }

  lemma {:induction false} LastMerge(e: Expr, target: Symbol, acc: Range)
    ensures MergeFilters([e], target, acc) ==
            match ExtractBound(e, target) case None => None case Some(range) => Some(Merge(acc, range))
  {
    hide ExtractBound, Merge;
    var fs := [e];
    assert fs[1..] == [];
  }

  /** The test itself is one of the parts, and folding leaves it as it is. */
  lemma {:induction false} TestPart(test: C.Test, l: C.Operand, r: C.Operand, f: Expr)
    requires l.Column? || r.Column?
    requires PartialEval(Emitted(C.Tested(test, l, r), true)) == Some(f)
    ensures var e := Apply(C.OpOf(test), [C.ExprOf(l), C.ExprOf(r)]);
            exists g :: Loose(g) && Dependents(ToConjunction(f)) == [g, e]
    ensures |ToConjunction(f)| == 2
  {
    hide PartialEval, Loose, Ground, Tidy, Dependents;
    var e := Apply(C.OpOf(test), [C.ExprOf(l), C.ExprOf(r)]);
    var guard := Apply(AllOf, [C.Present(l), C.Present(r)]);
    EmittedTidy(C.Tested(test, l, r), true);
    FoldShape(guard, e);
    SameColumns(test, l, r);
    TestGround(test, l, r);
    LeavesFold(C.OpOf(test), C.ExprOf(l), C.ExprOf(r));
    var g := PartialEval(guard).value;
    FoldHeadOf(guard, g);
    LooseHead(g);
    FoldPart(guard, []);
    FoldPart(e, []);
    NormalGround(g);
    NormalGround(e);
    BothDepend(g, e);
  }

  lemma {:induction false} TestGround(test: C.Test, l: C.Operand, r: C.Operand)
    ensures Ground(Apply(C.OpOf(test), [C.ExprOf(l), C.ExprOf(r)])) <==> l.Literal? && r.Literal?
  {
    PresentColumns(l);
    PresentColumns(r);
    TwoShape(C.ExprOf(l), C.ExprOf(r));
  }

  lemma {:induction false} BothDepend(g: Expr, e: Expr)
    requires !Ground(g) && !Ground(e)
    ensures Dependents([g, e]) == [g, e]
  {
    hide Ground;
    var fs := [g, e];
    assert fs[1..] == [e];
    PlaceOne(e);
  }

  lemma {:induction false} LeavesFold(op: Op, a: Expr, b: Expr)
    requires (a.Const? || a.Binding?) && (b.Const? || b.Binding?) && (a.Binding? || b.Binding?) && !op.Negate?
    ensures PartialEval(Apply(op, [a, b])) == Some(Apply(op, [a, b]))
  {
    var args, last := [a, b], [b];
    assert args[1..] == last && last[1..] == [];
    assert PartialEvalAll(last[1..]) == Some([]) && [b] + [] == last;
    assert PartialEvalAll(last) == Some(last);
    assert PartialEvalAll(args) == Some([a] + [b]) && [a] + [b] == args;
    assert !AllConst(args) by {
      assert args[0] == a && args[1] == b;
    }
  }

  /** What the test's filter says about a column of the relation. */
  lemma {:induction false} TestExtract(test: C.Test, l: C.Operand, r: C.Operand, symbols: seq<Symbol>, i: nat)
    requires Names(l, symbols) && Names(r, symbols) && i < |symbols|
    requires (l.Column? ==> l.at < |symbols|) && (r.Column? ==> r.at < |symbols|)
    requires forall i, j | 0 <= i < j < |symbols| :: symbols[i] != symbols[j]
    ensures var bound := Tied(test, l, r);
            var x := ExtractBound(Apply(C.OpOf(test), [C.ExprOf(l), C.ExprOf(r)]), symbols[i]);
            if bound.Some? && bound.value.at == i then x == RangeFor(bound.value.tie, bound.value.c)
            else x == Some(EVERYTHING) || (bound.None? && x == None)
  {
    hide BoundFor;
  }

  lemma {:induction false} TestWindow(test: C.Test, l: C.Operand, r: C.Operand, symbols: seq<Symbol>, n: nat, f: Expr)
    requires Names(l, symbols) && Names(r, symbols) && n <= |symbols|
    requires (l.Column? ==> l.at < |symbols|) && (r.Column? ==> r.at < |symbols|)
    requires forall i, j | 0 <= i < j < |symbols| :: symbols[i] != symbols[j]
    requires PartialEval(Emitted(C.Tested(test, l, r), true)) == Some(f)
    ensures var window := Window(symbols[..n], Dependents(ToConjunction(f)));
            match Tied(test, l, r)
            case None => window == None
            case Some(b) => forall key | |key| == n :: InWindow(window, key) <==> !Outside(n, b, key)
  {
    hide PartialEval, Emitted, Dependents, ExtractBound, MergeFilters, Loose, Merge;
    var bound := Tied(test, l, r);
    var ks := symbols[..n];
    if l.Literal? && r.Literal? {
      LiteralWindow(test, l, r, ks, f);
    } else {
      TestPart(test, l, r, f);
      var e := Apply(C.OpOf(test), [C.ExprOf(l), C.ExprOf(r)]);
      var g :| Loose(g) && Dependents(ToConjunction(f)) == [g, e];
      forall i | 0 <= i < n
        ensures MergeFilters([g, e], ks[i], EVERYTHING) ==
                if bound.Some? && bound.value.at == i then RangeFor(bound.value.tie, bound.value.c)
                else if bound.None? && ExtractBound(e, ks[i]).None? then None else Some(EVERYTHING)
      {
        TestMerge(test, l, r, symbols, i, g);
      }
      if bound.None? {
        UnboundWindow([g, e], ks);
      } else {
        BoundWindow(bound.value, [g, e], ks);
      }
    }
  }

  lemma {:induction false} LiteralWindow(test: C.Test, l: C.Operand, r: C.Operand, ks: seq<Symbol>, f: Expr)
    requires l.Literal? && r.Literal? && PartialEval(Emitted(C.Tested(test, l, r), true)) == Some(f)
    ensures Window(ks, Dependents(ToConjunction(f))) == None
  {
    hide PartialEval, Ground, Dependents, Loose, Window;
    var p := C.Tested(test, l, r);
    EmittedTidy(p, true);
    FoldPart(Emitted(p, true), []);
    EmittedGround(p, true);
    LooseHead(f);
    forall g | g in Dependents(ToConjunction(f)) ensures Loose(g) {
      DependentsAmong(ToConjunction(f), g);
    }
    LooseWindow(Dependents(ToConjunction(f)), ks);
  }

  lemma {:induction false} TestMerge(test: C.Test, l: C.Operand, r: C.Operand, symbols: seq<Symbol>, i: nat, g: Expr)
    requires Names(l, symbols) && Names(r, symbols) && i < |symbols| && Loose(g)
    requires (l.Column? ==> l.at < |symbols|) && (r.Column? ==> r.at < |symbols|)
    requires forall i, j | 0 <= i < j < |symbols| :: symbols[i] != symbols[j]
    ensures var e, bound := Apply(C.OpOf(test), [C.ExprOf(l), C.ExprOf(r)]), Tied(test, l, r);
            MergeFilters([g, e], symbols[i], EVERYTHING) ==
            if bound.Some? && bound.value.at == i then RangeFor(bound.value.tie, bound.value.c)
            else if ExtractBound(e, symbols[i]).None? then None else Some(EVERYTHING)
    ensures var e, bound := Apply(C.OpOf(test), [C.ExprOf(l), C.ExprOf(r)]), Tied(test, l, r);
            bound.Some? ==> ExtractBound(e, symbols[i]).Some? && RangeFor(bound.value.tie, bound.value.c).Some?
  {
    hide ExtractBound, MergeFilters, Loose;
    var e, bound := Apply(C.OpOf(test), [C.ExprOf(l), C.ExprOf(r)]), Tied(test, l, r);
    TestExtract(test, l, r, symbols, i);
    TwoMerge(g, e, symbols[i]);
    if bound.Some? {
      MergeEverything(bound.value.tie, bound.value.c);
    }
  }

  lemma {:induction false} UnboundWindow(fs: seq<Expr>, ks: seq<Symbol>)
    requires forall i | 0 <= i < |ks| ::
               MergeFilters(fs, ks[i], EVERYTHING) == None || MergeFilters(fs, ks[i], EVERYTHING) == Some(EVERYTHING)
    ensures Window(ks, fs) == None
  {
    hide MergeFilters;
    if BoundsOf(fs, ks).Some? {
      forall i | 0 <= i < |ks|
        ensures BoundsOf(fs, ks).value.0[i] == Null && BoundsOf(fs, ks).value.1[i] == Bot
      {
        BoundsAt(fs, ks, i);
      }
    }
  }

  lemma {:induction false} BoundWindow(b: Bound, fs: seq<Expr>, ks: seq<Symbol>)
    requires RangeFor(b.tie, b.c).Some?
    requires forall i | 0 <= i < |ks| ::
               MergeFilters(fs, ks[i], EVERYTHING) == if i == b.at then RangeFor(b.tie, b.c) else Some(EVERYTHING)
    ensures forall key | |key| == |ks| :: InWindow(Window(ks, fs), key) <==> !Outside(|ks|, b, key)
  {
    hide MergeFilters, ItemsLess, RangeFor;
    var n, range := |ks|, RangeFor(b.tie, b.c).value;
    var lowers, uppers := Filled(n, b.at, range.lower, Null), Filled(n, b.at, range.upper, Bot);
    BoundsFrom(fs, ks, lowers, uppers);
    forall key | |key| == n ensures InWindow(Window(ks, fs), key) <==> !Outside(n, b, key) {
      if AllAre(lowers, Null) && AllAre(uppers, Bot) {
        NothingBelow(key, lowers);
        NothingAbove(key, uppers);
      }
    }
  }

  lemma {:induction false} NothingBelow(key: Tuple, nulls: Tuple)
    requires |key| == |nulls| && AllAre(nulls, Null)
    ensures !ItemsLess(key, nulls)
  {
    if key != [] {
      NothingBelow(key[1..], nulls[1..]);
    }
  }

  lemma {:induction false} NothingAbove(key: Tuple, bots: Tuple)
    requires |key| == |bots| && AllAre(bots, Bot)
    ensures !ItemsLess(bots, key)
  {
    if key != [] {
      NothingAbove(key[1..], bots[1..]);
    }
  }

  /** The window of a split predicate is that of its one tied column, if it has one. */
  lemma {:induction false} SplitWindow(p: C.Predicate, positive: bool, symbols: seq<Symbol>, n: nat, f: Expr, t: Tuple)
    requires Named(p, symbols) && C.AllBound(p, t) && |t| == |symbols| && n <= |symbols|
    requires forall i, j | 0 <= i < j < |symbols| :: symbols[i] != symbols[j]
    requires PartialEval(Emitted(p, positive)) == Some(f)
    ensures var window := Window(symbols[..n], Dependents(ToConjunction(f)));
            match BoundOf(p, positive)
            case None => window == None
            case Some(b) => forall key | |key| == n :: InWindow(window, key) <==> !Outside(n, b, key)
  {
    hide PartialEval, Dependents, Window, Outside, InWindow, Loose, Tidy;
    EmittedTidy(p, positive);
    match p {
      case Not(q) => SplitWindow(q, !positive, symbols, n, f, t);
      case Tested(test, l, r) =>
        if positive {
          TestWindow(test, l, r, symbols, n, f);
        } else {
          NegatedLoose(test, l, r, f);
          LooseWindow(Dependents(ToConjunction(f)), symbols[..n]);
        }
      case _ =>
        UntestedLoose(p, positive, f);
        LooseWindow(Dependents(ToConjunction(f)), symbols[..n]);
    }
  }

  lemma {:induction false} NegatedLoose(test: C.Test, l: C.Operand, r: C.Operand, f: Expr)
    requires PartialEval(Emitted(C.Tested(test, l, r), false)) == Some(f)
    ensures forall g | g in Dependents(ToConjunction(f)) :: Loose(g)
  {
    hide PartialEval, Loose, Tidy;
    var e := Apply(C.OpOf(test), [C.ExprOf(l), C.ExprOf(r)]);
    var guard := Apply(AllOf, [C.Present(l), C.Present(r)]);
    EmittedTidy(C.Tested(test, l, r), false);
    PartsLoose(guard, Apply(Negate, [e]), f);
  }

  /** Parts whose operators are connectives, negations or null tests. */
  lemma {:induction false} PartsLoose(a: Expr, b: Expr, f: Expr)
    requires Tidy(Apply(AllOf, [a, b])) && PartialEval(Apply(AllOf, [a, b])) == Some(f)
    requires a.Apply? && !a.op.Comparison? && !a.op.StringTest?
    requires !b.Unbound? && (b.Apply? ==> !b.op.Comparison? && !b.op.StringTest?)
    ensures forall g | g in Dependents(ToConjunction(f)) :: Loose(g)
  {
    hide PartialEval, Loose, Tidy, Dependents;
    FoldShape(a, b);
    FoldHeadOf(a, PartialEval(a).value);
    FoldHeadOf(b, PartialEval(b).value);
    LooseHead(PartialEval(a).value);
    LooseHead(PartialEval(b).value);
    TwoLoose(a, b, f);
  }

  lemma {:induction false} UntestedLoose(p: C.Predicate, positive: bool, f: Expr)
    requires !p.Not? && !p.Tested? && PartialEval(Emitted(p, positive)) == Some(f)
    ensures forall g | g in Dependents(ToConjunction(f)) :: Loose(g)
  {
    hide PartialEval, Loose, Tidy, Dependents;
    EmittedTidy(p, positive);
    var e := Emitted(p, positive);
    if e.Apply? && e.op.AllOf? {
      match p {
        case Both(l, r) =>
          EmittedHead(l, positive);
          EmittedHead(r, positive);
          PartsLoose(Emitted(l, positive), Emitted(r, positive), f);
        case Either(l, r) =>
          EmittedHead(l, positive);
          EmittedHead(r, positive);
          PartsLoose(Emitted(l, positive), Emitted(r, positive), f);
        case Bare(x) =>
          PartsLoose(C.Present(x), if positive then C.ExprOf(x) else Apply(Negate, [C.ExprOf(x)]), f);
      }
    } else {
      EmittedHead(p, positive);
      OneLoose(p, positive, f);
    }
  }

  // ----- the row, exactly -----

  lemma {:induction false} SameOnRow(p: C.Predicate, row: Tuple, t: Tuple)
    requires C.AllBound(p, row) && row <= t
    ensures C.AllBound(p, t) && C.Meaning(p, t) == C.Meaning(p, row)
  {
    match p {
      case Both(l, r) => SameOnRow(l, row, t); SameOnRow(r, row, t);
      case Either(l, r) => SameOnRow(l, row, t); SameOnRow(r, row, t);
      case Not(q) => SameOnRow(q, row, t);
      case _ =>
    }
  }

  lemma {:induction false} PlacedAll(fs: seq<Expr>)
    ensures |Constants(fs)| + |Dependents(fs)| == |fs|
  {
    hide Ground;
    if |fs| > 0 {
      PlacedAll(fs[1..]);
    }
  }

  /** A predicate that narrows the scan has no constant part. */
  lemma {:induction false} TiedNoConstants(p: C.Predicate, positive: bool, f: Expr)
    requires BoundOf(p, positive).Some? && PartialEval(Emitted(p, positive)) == Some(f)
    ensures Constants(ToConjunction(f)) == []
  {
    hide PartialEval, Constants, Dependents, Loose;
    match p {
      case Not(q) => TiedNoConstants(q, !positive, f);
      case Tested(test, l, r) =>
        TestPart(test, l, r, f);
        PlacedAll(ToConjunction(f));
    }
  }

  lemma {:induction false} SplitExact(pt: Pattern, p: C.Predicate, row: Tuple)
    requires Valid(pt) && |row| == |pt.symbols| && Named(p, pt.symbols) && C.AllBound(p, row)
    requires PartialEval(C.Truthy(p)).Some?
    ensures SplitRow(pt, PartialEval(C.Truthy(p)).value, row) ==
            if Skipped(pt, p, row) then Drop else Verdict(PartRaises(p, true, row), C.Meaning(p, row) == C.True)
  {
    hide PartialEval, RunFilters, Constants, Dependents, Window, InWindow, Outside, PartRaises, Verdict;
    var f := PartialEval(Emitted(p, true)).value;
    PartsExact(p, true, row);
    SplitWindow(p, true, pt.symbols, pt.keys, f, row);
    if BoundOf(p, true).Some? {
      TiedNoConstants(p, true, f);
      NoFilters();
    } else {
      NoWindow(row[..pt.keys]);
    }
  }

  lemma {:induction false} NoFilters()
    ensures RunFilters([], []) == Keep
  {
  }

  lemma {:induction false} NoWindow(key: Tuple)
    ensures InWindow(None, key)
  {
  }

  /**
    * Every stored row, exactly. The query fails if a test of literals alone raises. A row whose key lies outside the
    * range of a tied key column is never read. Of the others a row is kept if the predicate is TRUE of it and dropped
    * if not, unless the query fails: split, on `PartRaises`; put whole after a column bound later, on any operator that
    * raises.
    */
  lemma {:induction false} WhereExact(pt: Pattern, p: C.Predicate, row: Tuple)
    requires Suits(pt, p, row)
    ensures WhereRow(pt, p, row) ==
            if LiteralRaises(p, true) then Abort
            else if C.AllBound(p, row) && Skipped(pt, p, row) then Drop
            else Verdict(if C.AllBound(p, row) then PartRaises(p, true, row) else C.Raises(p, true, Extended(pt, row)),
                         C.Meaning(p, Extended(pt, row)) == C.True)
  {
    hide PartialEval, SplitRow, PartRaises, Skipped, RunFilters, Verdict;
    EmittedTidy(p, true);
    EmittedFolds(p, true);
    FoldFailsIff(Emitted(p, true));
    if PartialEval(Emitted(p, true)).Some? {
      if C.AllBound(p, row) {
        SplitExact(pt, p, row);
        SameOnRow(p, row, Extended(pt, row));
      } else {
        WholeExact(p, Extended(pt, row));
      }
    }
  }

  // ----- rows that are lost -----

  lemma {:induction false} FilledTail(n: nat, at: nat, v: Value, other: Value)
    requires 0 < at < n
    ensures Filled(n, at, v, other)[1..] == Filled(n - 1, at - 1, v, other)
  {
  }

  lemma {:induction false} BelowFilled(n: nat, at: nat, v: Value, key: Tuple)
    requires |key| == n && at < n
    ensures ItemsLess(key, Filled(n, at, v, Null)) <==>
            (forall j | 0 <= j < at :: key[j].Null?) && ValueLess(key[at], v)
  {
    var ls := Filled(n, at, v, Null);
    if at == 0 {
      Asymmetric(v, v);
      NothingBelow(key[1..], ls[1..]);
    } else {
      FilledTail(n, at, v, Null);
      BelowFilled(n - 1, at - 1, v, key[1..]);
      assert (forall j | 0 <= j < at :: key[j].Null?) <==>
             key[0].Null? && forall j | 0 <= j < at - 1 :: key[1..][j].Null?;
    }
  }

  lemma {:induction false} AboveFilled(n: nat, at: nat, v: Value, key: Tuple)
    requires |key| == n && at < n && Bot !in key
    ensures ItemsLess(Filled(n, at, v, Bot), key) <==> at == 0 && ValueLess(v, key[0])
  {
    var us := Filled(n, at, v, Bot);
    assert key[0] in key;
    if at == 0 {
      Asymmetric(v, v);
      NothingAbove(key[1..], us[1..]);
    }
  }

  /**
    * Keys compare column by column, so a bound on a later key column matters only after nulls, and an upper one only on
    * the first column.
    */
  lemma {:induction false} OutsideIs(n: nat, b: Bound, key: Tuple)
    requires |key| == n && Bot !in key && b.at < n && RangeFor(b.tie, b.c).Some?
    ensures var range := RangeFor(b.tie, b.c).value;
            Outside(n, b, key) <==>
            || ((forall j | 0 <= j < b.at :: key[j].Null?) && ValueLess(key[b.at], range.lower))
            || (b.at == 0 && ValueLess(range.upper, key[0]))
  {
    hide ItemsLess, ValueLess, RangeFor;
    BelowFilled(n, b.at, RangeFor(b.tie, b.c).value.lower, key);
    AboveFilled(n, b.at, RangeFor(b.tie, b.c).value.upper, key);
  }

  /** A tied predicate is TRUE exactly if the column passes the filter and nothing is null. */
  lemma {:induction false} TiedMeaning(p: C.Predicate, positive: bool, t: Tuple)
    requires BoundOf(p, positive).Some? && C.AllBound(p, t)
    ensures var b := BoundOf(p, positive).value;
            && b.at < |t| && RangeFor(b.tie, b.c).Some?
            && (Decided(p, positive, t) <==> !t[b.at].Null? && !b.c.Null? && Passes(b.tie, t[b.at], b.c))
  {
    hide Holds, BoundFor, TestBytes;
    match p {
      case Not(q) => TiedMeaning(q, !positive, t);
      case Tested(test, l, r) =>
        var b := BoundOf(p, positive).value;
        if test.Ordered? && l.Literal? {
          FlipHolds(test.rel, l.val, t[b.at]);
        }
    }
  }

  lemma {:induction false} TiedBound(p: C.Predicate, positive: bool, t: Tuple)
    requires BoundOf(p, positive).Some?
    ensures C.AllBound(p, t) <==> BoundOf(p, positive).value.at < |t|
    ensures !LiteralRaises(p, positive)
  {
    if p.Not? {
      TiedBound(p.inner, !positive, t);
    }
  }

  /** Key columns of a stored row hold neither vectors nor the bottom. */
  ghost predicate StoredRow(pt: Pattern, row: Tuple) {
    |row| == |pt.symbols| && pt.keys <= |row| && KeyTuple(row[..pt.keys]) && Bot !in row[..pt.keys]
  }

  ghost predicate LosesTrue(pt: Pattern, p: C.Predicate, row: Tuple) {
    && StoredRow(pt, row) && Suits(pt, p, row)
    && C.Meaning(p, Extended(pt, row)) == C.True && WhereRow(pt, p, row) == Drop
  }

  /** The tie cannot lose a row that passes. */
  predicate NothingLost(keys: nat, b: Bound) {
    b.at < keys ==>
      match b.tie
      case Compared(rel) => SoundConstant(rel, b.c) || (b.at > 0 && (rel.AtMost? || rel.Below?))
      case Prefixed => b.at > 0
  }

  lemma {:induction false} LosesTrueIs(pt: Pattern, p: C.Predicate, row: Tuple)
    requires StoredRow(pt, row) && Suits(pt, p, row)
    ensures LosesTrue(pt, p, row) <==>
            C.Meaning(p, Extended(pt, row)) == C.True && C.AllBound(p, row) && Skipped(pt, p, row)
  {
    hide WhereRow, Suits, StoredRow, Skipped, PartRaises;
    SuitsParts(pt, p, row);
    WhereExact(pt, p, row);
    if BoundOf(p, true).Some? {
      TiedBound(p, true, row);
    } else {
      NotTied(pt, p, row);
    }
  }

  lemma {:induction false} SuitsParts(pt: Pattern, p: C.Predicate, row: Tuple)
    requires StoredRow(pt, row) && Suits(pt, p, row)
    ensures |row| == |pt.symbols| && pt.keys <= |row| && C.AllBound(p, Extended(pt, row))
  {
  }

  lemma {:induction false} NotTied(pt: Pattern, p: C.Predicate, row: Tuple)
    requires BoundOf(p, true).None? && pt.keys <= |row|
    ensures !Skipped(pt, p, row)
  {
  }

  lemma {:induction false} NothingLostHolds(b: Bound, n: nat, key: Tuple)
    requires |key| == n && Bot !in key && b.at < n && NothingLost(n, b) && Passes(b.tie, key[b.at], b.c)
    requires RangeFor(b.tie, b.c).Some?
    ensures !Outside(n, b, key)
  {
    hide ValueLess, Outside, Holds, SoundConstant;
    var v := key[b.at];
    OutsideIs(n, b, key);
    EndsAreLoose(v);
    match b.tie {
      case Compared(rel) =>
        if SoundConstant(rel, b.c) {
          SoundIff(rel, b.c);
        }
      case Prefixed => NotBelowPrefix(v.s, b.c.s);
    }
  }

  lemma {:induction false} NotBelowPrefix(v: seq<u8>, s: seq<u8>)
    requires s <= v
    ensures !ValueLess(Str(v), Str(s))
  {
    if s == v {
      LtIrreflexive(s);
    } else {
      LtOfPrefix(s, v);
      LtAsymmetric(s, v);
    }
  }

  /** A value that passes the filter and is outside, where the tie can lose one. */
  lemma {:induction false} LostValue(b: Bound, n: nat) returns (v: Value)
    requires b.at < n && !NothingLost(n, b) && RangeFor(b.tie, b.c).Some?
    ensures KeyValue(v) && !v.Bot? && !v.Null? && !b.c.Null? && Passes(b.tie, v, b.c)
    ensures Outside(n, b, Filled(n, b.at, v, Null))
  {
    hide ValueLess, Outside, Holds;
    match b.tie {
      case Compared(rel) =>
        SoundIff(rel, b.c);
        v :| SameType(v, b.c) && Holds(rel, v, b.c) && !Within(v, BoundFor(rel, b.c));
      case Prefixed => v := PastPrefix(b.c.s);
    }
    EndsAreLoose(v);
    OutsideIs(n, b, Filled(n, b.at, v, Null));
  }

  lemma {:induction false} PastPrefix(s: seq<u8>) returns (v: Value)
    ensures v.Str? && s <= v.s && ValueLess(Str(s + LARGEST_CHAR), v)
  {
    v := Str(s + LARGEST_CHAR + [120]);
    LtOfPrefix(s + LARGEST_CHAR, v.s);
  }

  lemma {:induction false} LostRow(pt: Pattern, p: C.Predicate) returns (row: Tuple)
    requires Valid(pt) && Named(p, pt.symbols) && BoundOf(p, true).Some?
    requires !NothingLost(pt.keys, BoundOf(p, true).value)
    ensures LosesTrue(pt, p, row)
  {
    hide WhereRow, Outside, NothingLost, Passes, KeyTuple, C.Meaning, Skipped;
    var b := BoundOf(p, true).value;
    LostAt(pt, b);
    row := Filled(|pt.symbols|, b.at, Null, Null);
    TiedBound(p, true, row);
    TiedMeaning(p, true, row);
    var v := LostValue(b, pt.keys);
    row := Filled(|pt.symbols|, b.at, v, Null);
    var key := Filled(pt.keys, b.at, v, Null);
    assert row[..pt.keys] == key;
    FilledKey(key, b.at, v);
    TiedBound(p, true, row);
    TiedMeaning(p, true, row);
    SameOnRow(p, row, Extended(pt, row));
    SkippedIs(pt, p, row);
    LosesTrueIs(pt, p, row);
  }

  lemma {:induction false} LostAt(pt: Pattern, b: Bound)
    requires !NothingLost(pt.keys, b)
    ensures b.at < pt.keys
  {
  }

  lemma {:induction false} SkippedIs(pt: Pattern, p: C.Predicate, row: Tuple)
    requires BoundOf(p, true).Some? && pt.keys <= |row|
    ensures Skipped(pt, p, row) <==> Outside(pt.keys, BoundOf(p, true).value, row[..pt.keys])
  {
  }

  lemma {:induction false} FilledKey(key: Tuple, at: nat, v: Value)
    requires key == Filled(|key|, at, v, Null) && KeyValue(v) && !v.Bot?
    ensures KeyTuple(key) && Bot !in key
  {
    KeyTupleIff(key);
  }

  /**
    * A predicate loses a row of which it is TRUE, for some row, exactly if it is a test that ties a key column in a way
    * that can lose one: by a constant whose range is not sound, on the first key column or from below, or by
    * `STARTS WITH` on the first key column.
    */
  lemma {:induction false} NoRowLostIff(pt: Pattern, p: C.Predicate)
    requires Valid(pt) && Named(p, pt.symbols)
    ensures (exists row :: LosesTrue(pt, p, row)) <==>
            BoundOf(p, true).Some? && !NothingLost(pt.keys, BoundOf(p, true).value)
  {
    hide LosesTrue, NothingLost;
    if BoundOf(p, true).Some? && !NothingLost(pt.keys, BoundOf(p, true).value) {
      var row := LostRow(pt, p);
    } else {
      forall row ensures !LosesTrue(pt, p, row) {
        RowNotLost(pt, p, row);
      }
    }
  }

  lemma {:induction false} RowNotLost(pt: Pattern, p: C.Predicate, row: Tuple)
    requires BoundOf(p, true).Some? ==> NothingLost(pt.keys, BoundOf(p, true).value)
    ensures !LosesTrue(pt, p, row)
  {
    hide WhereRow, Outside, NothingLost, Passes, C.Meaning, KeyTuple;
    if StoredRow(pt, row) && Suits(pt, p, row) {
      LosesTrueIs(pt, p, row);
      if LosesTrue(pt, p, row) {
        var b := BoundOf(p, true).value;
        SameOnRow(p, row, Extended(pt, row));
        TiedMeaning(p, true, row);
        OutsideAt(pt.keys, b, row[..pt.keys]);
        NothingLostHolds(b, pt.keys, row[..pt.keys]);
      }
    }
  }

  lemma {:induction false} OutsideAt(n: nat, b: Bound, key: Tuple)
    requires Outside(n, b, key)
    ensures b.at < n
  {
  }

  // ----- null operands -----

  /** An operand over the pattern. */
  ghost predicate Uses(pt: Pattern, x: C.Operand, row: Tuple) {
    Valid(pt) && |row| == |pt.symbols| && Names(x, pt.symbols) && C.Bound(x, Extended(pt, row))
  }

  /** The predicate is one test, or its negation. */
  function One(p: C.Predicate, negated: bool): C.Predicate {
    if negated then C.Not(p) else p
  }

  /**
    * A null operand of a test that is the whole predicate, negated or not: over the relation's own columns the row is
    * dropped; with a column bound later the guards do not come first, and the query fails if the test raises on null.
    */
  lemma {:induction false} NullInTest(pt: Pattern, test: C.Test, x: C.Operand, y: C.Operand, negated: bool, row: Tuple)
    requires Uses(pt, x, row) && Uses(pt, y, row) && (x.Column? || y.Column?)
    requires var t := Extended(pt, row); C.At(x, t).Null? || C.At(y, t).Null?
    ensures var p, t := One(C.Tested(test, x, y), negated), Extended(pt, row);
            WhereRow(pt, p, row) ==
            if !C.AllBound(p, row) && C.Unfit(test, C.At(x, t), C.At(y, t)) then Abort else Drop
  {
    hide WhereRow, C.Unfit, C.Outcome, Skipped;
    var q, t := C.Tested(test, x, y), Extended(pt, row);
    assert C.AllBound(q, t) && Named(q, pt.symbols);
    WhereExact(pt, One(q, negated), row);
    OutcomeUnknown(test, C.At(x, t), C.At(y, t));
    assert !LiteralRaises(q, !negated);
    if C.AllBound(q, row) {
      SameOnRow(q, row, t);
      assert !PartRaises(q, !negated, row);
    }
  }

  /** The same of a bare column. */
  lemma {:induction false} NullInBare(pt: Pattern, x: C.Operand, negated: bool, row: Tuple)
    requires Uses(pt, x, row) && x.Column? && C.At(x, Extended(pt, row)).Null?
    ensures WhereRow(pt, One(C.Bare(x), negated), row) == if negated && x.at >= |row| then Abort else Drop
  {
    hide WhereRow, Skipped;
    var q := C.Bare(x);
    assert C.AllBound(q, Extended(pt, row)) && Named(q, pt.symbols);
    WhereExact(pt, One(q, negated), row);
    assert !LiteralRaises(q, !negated) && BoundOf(q, !negated).None?;
    NotTied(pt, One(q, negated), row);
    if C.AllBound(q, row) {
      assert !PartRaises(q, !negated, row);
    }
  }

  /** Below a connective an ordering test of a null column fails the query, wherever the filter is put. */
  lemma {:induction false} NestedNullAborts(pt: Pattern, rel: Rel, x: C.Operand, n: Num, q: C.Predicate, row: Tuple)
    requires x.Column? && Uses(pt, x, row) && C.At(x, Extended(pt, row)).Null? && Suits(pt, q, row)
    ensures var age, t := C.Tested(C.Ordered(rel), x, C.Literal(Number(n))), Extended(pt, row);
            && (!NoColumns(q) ==> WhereRow(pt, C.Both(age, q), row) == Abort && C.Meaning(C.Both(age, q), t) != C.True)
            && WhereRow(pt, C.Either(age, q), row) == Abort
            && C.Meaning(C.Either(age, q), t) == if C.Meaning(q, t) == C.True then C.True else C.Unknown
  {
    hide WhereRow;
    var age, t := C.Tested(C.Ordered(rel), x, C.Literal(Number(n))), Extended(pt, row);
    assert C.Raises(age, true, t) && !NoColumns(age) && C.Meaning(age, t) == C.Unknown;
    assert C.AllBound(age, row) ==> C.Raises(age, true, row);
    JoinSuits(pt, age, q, row);
    WhereExact(pt, C.Both(age, q), row);
    WhereExact(pt, C.Either(age, q), row);
  }

  lemma {:induction false} JoinSuits(pt: Pattern, p: C.Predicate, q: C.Predicate, row: Tuple)
    requires Suits(pt, p, row) && Suits(pt, q, row)
    ensures Suits(pt, C.Both(p, q), row) && Suits(pt, C.Either(p, q), row)
  {
  }

  lemma {:induction false} SafeNotTied(p: C.Predicate, positive: bool)
    requires C.Safe(p)
    ensures BoundOf(p, positive).None?
  {
    if p.Not? {
      SafeNotTied(p.inner, !positive);
    }
  }

  /** Equality and null tests, however combined, never fail the query and lose no row. */
  lemma {:induction false} SafeDecides(pt: Pattern, p: C.Predicate, row: Tuple)
    requires Suits(pt, p, row) && C.Safe(p)
    ensures WhereRow(pt, p, row) == if C.Meaning(p, Extended(pt, row)) == C.True then Keep else Drop
  {
    hide WhereRow, PartRaises, C.Raises, LiteralRaises;
    WhereExact(pt, p, row);
    SafeNotTied(p, true);
    SafeParts(p, true, Extended(pt, row));
    C.SafeNeverRaises(p, true, Extended(pt, row));
    if C.AllBound(p, row) {
      SafeParts(p, true, row);
    }
  }

  // ----- rows the range decides about -----

  /** `a >= 0` over an id of -0.0 is TRUE, and the row is never read. */
  lemma {:induction false} NegativeZeroLost(pt: Pattern, row: Tuple)
    requires Valid(pt) && pt.keys > 0 && |row| == |pt.symbols| && Bot !in row[..pt.keys]
    requires row[0] == Number(Float(NEGATIVE_ZERO))
    ensures var p := C.Tested(C.Ordered(AtLeast), C.Column(pt.symbols[0], 0), C.Literal(Number(Int(0))));
            C.Meaning(p, row) == C.True && WhereRow(pt, p, row) == Drop
  {
    hide WhereRow, Float64.Numeric, Float64.TotalLess, Float64.FromInt;
    var p := C.Tested(C.Ordered(AtLeast), C.Column(pt.symbols[0], 0), C.Literal(Number(Int(0))));
    UnsoundGe(Number(Int(0)));
    EndsAreLoose(row[0]);
    OutsideIs(pt.keys, Bound(0, Compared(AtLeast), Number(Int(0))), row[..pt.keys]);
    WhereExact(pt, p, row);
  }

  /** `a > 5` over an id that is a boolean does not fail the query: the row sorts below the range and is not read. */
  lemma {:induction false} OtherKindSkipped(pt: Pattern, row: Tuple, i: i64)
    requires Valid(pt) && pt.keys > 0 && |row| == |pt.symbols| && Bot !in row[..pt.keys] && row[0].Bool?
    ensures var p := C.Tested(C.Ordered(Above), C.Column(pt.symbols[0], 0), C.Literal(Number(Int(i))));
            PartRaises(p, true, row) && WhereRow(pt, p, row) == Drop
  {
    hide WhereRow;
    var p := C.Tested(C.Ordered(Above), C.Column(pt.symbols[0], 0), C.Literal(Number(Int(i))));
    OutsideIs(pt.keys, Bound(0, Compared(Above), Number(Int(i))), row[..pt.keys]);
    WhereExact(pt, p, row);
  }
}
