/** Filters split to any depth and run in any order, as joins lead to. */
module CypherPlans {
  import opened Bytes
  import opened Values
  import opened Memcmp
  import opened Tuples
  import opened Comparisons
  import opened Expressions
  import opened Bounds
  import opened CypherWhere
  import S = CypherScan
  import C = Cypher

  // ----- any number of splits, in any order -----

  /** Where joins are nested, parts are split again and handed to different inputs. */
  datatype Cut = Whole | Parts(parts: seq<Cut>)

  function Split(e: Expr, cut: Cut): seq<Expr>
    decreases cut, 1
  {
    if cut.Parts? && e.Apply? && e.op.AllOf? && |cut.parts| == |e.args| then SplitAll(e.args, cut.parts) else [e]
  }

  function SplitAll(args: seq<Expr>, cuts: seq<Cut>): seq<Expr>
    requires |args| == |cuts|
    decreases cuts, 0
  {
    if |args| == 0 then [] else Split(args[0], cuts[0]) + SplitAll(args[1..], cuts[1..])
  }

  ghost predicate AllTrue(fs: seq<Expr>, t: Tuple) {
    forall f | f in fs :: Eval(f, t) == Some(Bool(true))
  }

  lemma {:induction false} RunFiltersSays(fs: seq<Expr>, t: Tuple)
    ensures RunFilters(fs, t) == Keep <==> AllTrue(fs, t)
    ensures RunFilters(fs, t) == Drop ==> exists f :: f in fs && Eval(f, t) == Some(Bool(false))
  {
    hide Eval;
    if |fs| > 0 {
      assert fs[0] in fs && forall f | f in fs[1..] :: f in fs;
      assert forall f | f in fs :: f == fs[0] || f in fs[1..];
      RunFiltersSays(fs[1..], t);
    }
  }

  /** If every part is true, so is the whole expression. */
  lemma {:induction false} PartsTrue(e: Expr, cut: Cut, t: Tuple)
    requires AllTrue(Split(e, cut), t)
    ensures Eval(e, t) == Some(Bool(true))
    decreases cut, 1
  {
    if cut.Parts? && e.Apply? && e.op.AllOf? && |cut.parts| == |e.args| {
      AllPartsTrue(e.args, cut.parts, t);
    } else {
      assert e in Split(e, cut);
    }
  }

  lemma {:induction false} AllPartsTrue(args: seq<Expr>, cuts: seq<Cut>, t: Tuple)
    requires |args| == |cuts| && AllTrue(SplitAll(args, cuts), t)
    ensures EvalAll(args, t).Some? && Connect(EvalAll(args, t).value, true) == Some(Bool(true))
    decreases cuts, 0
  {
    if |args| > 0 {
      assert forall f | f in Split(args[0], cuts[0]) :: f in SplitAll(args, cuts);
      assert forall f | f in SplitAll(args[1..], cuts[1..]) :: f in SplitAll(args, cuts);
      PartsTrue(args[0], cuts[0], t);
      AllPartsTrue(args[1..], cuts[1..], t);
      var vs := EvalAll(args[1..], t).value;
      assert EvalAll(args, t).value == [Bool(true)] + vs && ([Bool(true)] + vs)[1..] == vs;
    }
  }

  /** No conjunct at any depth is false. */
  ghost predicate NoFalse(e: Expr, t: Tuple)
    decreases e, 1
  {
    Eval(e, t) != Some(Bool(false)) && (e.Apply? && e.op.AllOf? ==> NoneFalse(e.args, t))
  }

  ghost predicate NoneFalse(args: seq<Expr>, t: Tuple)
    decreases args, 0
  {
    |args| == 0 || (NoFalse(args[0], t) && NoneFalse(args[1..], t))
  }

  lemma {:induction false} PartNotFalse(e: Expr, cut: Cut, t: Tuple, f: Expr)
    requires NoFalse(e, t) && f in Split(e, cut)
    ensures Eval(f, t) != Some(Bool(false))
    decreases cut, 1
  {
    if cut.Parts? && e.Apply? && e.op.AllOf? && |cut.parts| == |e.args| {
      AnyPartNotFalse(e.args, cut.parts, t, f);
    }
  }

  lemma {:induction false} AnyPartNotFalse(args: seq<Expr>, cuts: seq<Cut>, t: Tuple, f: Expr)
    requires |args| == |cuts| && NoneFalse(args, t) && f in SplitAll(args, cuts)
    ensures Eval(f, t) != Some(Bool(false))
    decreases cuts, 0
  {
    hide Eval;
    if f in Split(args[0], cuts[0]) {
      PartNotFalse(args[0], cuts[0], t, f);
    } else {
      AnyPartNotFalse(args[1..], cuts[1..], t, f);
    }
  }

  lemma {:induction false} FoldNoFalse(e: Expr, t: Tuple)
    requires NoDoubleNegation(e) && PartialEval(e).Some? && NoFalse(e, t)
    ensures NoFalse(PartialEval(e).value, t)
    decreases e, 1
  {
    hide Eval;
    FoldExact(e, t);
    FoldHead(e);
    var f := PartialEval(e).value;
    if f.Apply? && f.op.AllOf? {
      FoldAllNoFalse(e.args, t);
    }
  }

  lemma {:induction false} FoldAllNoFalse(args: seq<Expr>, t: Tuple)
    requires NoneDoubleNegated(args) && PartialEvalAll(args).Some? && NoneFalse(args, t)
    ensures NoneFalse(PartialEvalAll(args).value, t)
    decreases args, 0
  {
    hide Eval;
    if |args| > 0 {
      FoldNoFalse(args[0], t);
      FoldAllNoFalse(args[1..], t);
    }
  }

  lemma {:induction false} TwoNoFalse(a: Expr, b: Expr, t: Tuple)
    requires NoFalse(a, t) && NoFalse(b, t) && Eval(Apply(AllOf, [a, b]), t) != Some(Bool(false))
    ensures NoFalse(Apply(AllOf, [a, b]), t)
  {
    var args, last := [a, b], [b];
    assert args[1..] == last && last[1..] == [];
    assert NoneFalse(last[1..], t);
    assert NoneFalse(last, t);
  }

  lemma {:induction false} TestNoFalse(test: C.Test, l: C.Operand, r: C.Operand, positive: bool, t: Tuple)
    requires C.Bound(l, t) && C.Bound(r, t) && Decided(C.Tested(test, l, r), positive, t)
    ensures NoFalse(Emitted(C.Tested(test, l, r), positive), t)
  {
    hide Eval, C.Unfit, C.Outcome;
    var a, b := C.At(l, t), C.At(r, t);
    var e := Apply(C.OpOf(test), [C.ExprOf(l), C.ExprOf(r)]);
    OutcomeUnknown(test, a, b);
    EmittedEval(C.Tested(test, l, r), positive, t);
    C.EvalOperand(l, t);
    C.EvalOperand(r, t);
    C.EvalTwo(AllOf, C.Present(l), C.Present(r), t);
    C.ConnectTwo(!a.Null?, Bool(!b.Null?));
    C.EvalTest(test, l, r, t);
    C.EvalOne(Negate, e, t);
    var guard := Apply(AllOf, [C.Present(l), C.Present(r)]);
    TwoNoFalse(C.Present(l), C.Present(r), t);
    TwoNoFalse(guard, if positive then e else Apply(Negate, [e]), t);
  }

  lemma {:induction false} BareNoFalse(x: C.Operand, positive: bool, t: Tuple)
    requires C.Bound(x, t) && Decided(C.Bare(x), positive, t)
    ensures NoFalse(Emitted(C.Bare(x), positive), t)
  {
    hide Eval;
    EmittedEval(C.Bare(x), positive, t);
    C.EvalOperand(x, t);
    C.EvalOne(Negate, C.ExprOf(x), t);
    TwoNoFalse(C.Present(x), if positive then C.ExprOf(x) else Apply(Negate, [C.ExprOf(x)]), t);
  }

  lemma {:induction false} DecidedNoFalse(p: C.Predicate, positive: bool, t: Tuple)
    requires C.AllBound(p, t) && Decided(p, positive, t)
    ensures NoFalse(Emitted(p, positive), t)
  {
    hide Eval;
    EmittedEval(p, positive, t);
    match p {
      case Both(l, r) =>
        if positive {
          DecidedNoFalse(l, positive, t);
          DecidedNoFalse(r, positive, t);
          TwoNoFalse(Emitted(l, positive), Emitted(r, positive), t);
        }
      case Either(l, r) =>
        if !positive {
          DecidedNoFalse(l, positive, t);
          DecidedNoFalse(r, positive, t);
          TwoNoFalse(Emitted(l, positive), Emitted(r, positive), t);
        }
      case Not(q) => DecidedNoFalse(q, !positive, t);
      case Tested(test, l, r) => TestNoFalse(test, l, r, positive, t);
      case Bare(x) => BareNoFalse(x, positive, t);
      case _ =>
    }
  }

  /**
    * Whatever plan the joins lead to, no row that the filters see is kept or dropped wrongly: one that is kept has the
    * predicate TRUE, one that is dropped has not.
    */
  lemma {:induction false} AnyPlanSound(p: C.Predicate, cut: Cut, plan: seq<Expr>, t: Tuple)
    requires C.AllBound(p, t) && PartialEval(C.Truthy(p)).Some?
    requires var parts := Split(PartialEval(C.Truthy(p)).value, cut); forall f :: f in plan <==> f in parts
    ensures RunFilters(plan, t) == Keep ==> C.Meaning(p, t) == C.True
    ensures RunFilters(plan, t) == Drop ==> C.Meaning(p, t) != C.True
  {
    hide Eval, PartialEval, Tidy, Split, RunFilters;
    var e := Emitted(p, true);
    var f := PartialEval(e).value;
    RunFiltersSays(plan, t);
    PlanParts(p, t);
    if RunFilters(plan, t) == Keep {
      PartsTrue(f, cut, t);
    }
    if RunFilters(plan, t) == Drop {
      var part :| part in plan && Eval(part, t) == Some(Bool(false));
      if NoFalse(f, t) {
        PartNotFalse(f, cut, t, part);
      }
    }
  }

  lemma {:induction false} PlanParts(p: C.Predicate, t: Tuple)
    requires C.AllBound(p, t) && PartialEval(C.Truthy(p)).Some?
    ensures var f := PartialEval(C.Truthy(p)).value;
            && (Eval(f, t) == Some(Bool(true)) ==> C.Meaning(p, t) == C.True)
            && (C.Meaning(p, t) == C.True ==> NoFalse(f, t))
  {
    hide Eval, PartialEval, NoFalse;
    EmittedTidy(p, true);
    EmittedEval(p, true, t);
    FoldExact(Emitted(p, true), t);
    if Decided(p, true, t) {
      DecidedNoFalse(p, true, t);
      FoldNoFalse(Emitted(p, true), t);
    }
  }

  // ----- rows the filters see -----

  predicate IsTest(e: Expr) {
    e.Apply? && (e.op.Comparison? || e.op.StringTest?)
  }

  predicate Leaves(e: Expr) {
    e.Apply? && |e.args| == 2 && forall i | 0 <= i < 2 :: e.args[i].Const? || e.args[i].Binding?
  }

  /** Where a test bounds one of the columns from `at` on, it is true of the row and its range reaches the row. */
  ghost predicate TestGood(e: Expr, symbols: seq<Symbol>, at: nat, t: Tuple)
    requires at + |symbols| <= |t|
  {
    forall i | 0 <= i < |symbols| && ConstraintOf(e, symbols[i]).Constraint? ::
      var k := ConstraintOf(e, symbols[i]);
      && Eval(e, t) == Some(Bool(true)) && k.pos == Some(at + i)
      && (RangeFor(k.tie, k.c).Some? ==> KeyValue(k.c) && Reached(k.tie, t[at + i], k.c))
  }

  /** So it is of every test that is a conjunct, at any depth. */
  ghost predicate Good(e: Expr, symbols: seq<Symbol>, at: nat, t: Tuple)
    requires at + |symbols| <= |t|
    decreases e, 1
  {
    && !e.Unbound? && (IsTest(e) ==> Leaves(e) && TestGood(e, symbols, at, t))
    && (e.Apply? && e.op.AllOf? ==> AllGood(e.args, symbols, at, t))
  }

  ghost predicate AllGood(args: seq<Expr>, symbols: seq<Symbol>, at: nat, t: Tuple)
    requires at + |symbols| <= |t|
    decreases args, 0
  {
    |args| == 0 || (Good(args[0], symbols, at, t) && AllGood(args[1..], symbols, at, t))
  }

  lemma {:induction false} PartGood(e: Expr, cut: Cut, symbols: seq<Symbol>, at: nat, t: Tuple, f: Expr)
    requires at + |symbols| <= |t| && Good(e, symbols, at, t) && f in Split(e, cut)
    ensures Good(f, symbols, at, t)
    decreases cut, 1
  {
    hide Eval, TestGood;
    if cut.Parts? && e.Apply? && e.op.AllOf? && |cut.parts| == |e.args| {
      AnyPartGood(e.args, cut.parts, symbols, at, t, f);
    }
  }

  lemma {:induction false} AnyPartGood(args: seq<Expr>, cuts: seq<Cut>, symbols: seq<Symbol>, at: nat, t: Tuple,
        f: Expr)
    requires at + |symbols| <= |t| && |args| == |cuts| && AllGood(args, symbols, at, t) && f in SplitAll(args, cuts)
    ensures Good(f, symbols, at, t)
    decreases cuts, 0
  {
    hide Eval, TestGood, Good;
    if f in Split(args[0], cuts[0]) {
      PartGood(args[0], cuts[0], symbols, at, t, f);
    } else {
      AnyPartGood(args[1..], cuts[1..], symbols, at, t, f);
    }
  }

  lemma {:induction false} FoldGood(e: Expr, symbols: seq<Symbol>, at: nat, t: Tuple)
    requires at + |symbols| <= |t| && NoDoubleNegation(e) && PartialEval(e).Some? && Good(e, symbols, at, t)
    ensures Good(PartialEval(e).value, symbols, at, t)
    decreases e, 1
  {
    hide Eval, TestGood, RunOp;
    var f := PartialEval(e).value;
    FoldHead(e);
    if IsTest(e) {
      TestFolds(e);
    } else if f.Apply? && f.op.AllOf? {
      FoldAllGood(e.args, symbols, at, t);
    }
  }

  lemma {:induction false} TestFolds(e: Expr)
    requires IsTest(e) && Leaves(e) && PartialEval(e).Some?
    ensures PartialEval(e).value.Const? || PartialEval(e).value == e
  {
    var a, b := e.args[0], e.args[1];
    assert e == Apply(e.op, [a, b]);
    if a.Binding? || b.Binding? {
      S.LeavesFold(e.op, a, b);
    } else {
      var args, last := [a, b], [b];
      assert args[1..] == last && last[1..] == [] && PartialEvalAll(last[1..]) == Some([]) && [b] + [] == last;
      assert PartialEvalAll(last) == Some(last);
      assert PartialEvalAll(args) == Some([a] + last) && [a] + last == args;
    }
  }

  lemma {:induction false} FoldAllGood(args: seq<Expr>, symbols: seq<Symbol>, at: nat, t: Tuple)
    requires at + |symbols| <= |t| && NoneDoubleNegated(args) && PartialEvalAll(args).Some?
    requires AllGood(args, symbols, at, t)
    ensures AllGood(PartialEvalAll(args).value, symbols, at, t)
    decreases args, 0
  {
    hide Eval, TestGood;
    if |args| > 0 {
      FoldGood(args[0], symbols, at, t);
      FoldAllGood(args[1..], symbols, at, t);
    }
  }

  // ----- from the predicate -----

  /** A column of that name is the column of the relation at its place in the row. */
  predicate Placed(x: C.Operand, symbols: seq<Symbol>, at: nat) {
    x.Column? ==> forall i | 0 <= i < |symbols| && symbols[i] == x.name :: x.at == at + i
  }

  /**
    * Every test that can become a filter of its own has its columns in place and, where it ties one to a constant, a
    * range that reaches the row's value.
    */
  ghost predicate Reaching(p: C.Predicate, positive: bool, symbols: seq<Symbol>, at: nat, t: Tuple)
    requires C.AllBound(p, t)
  {
    match p
    case Both(l, r) => positive ==> Reaching(l, positive, symbols, at, t) && Reaching(r, positive, symbols, at, t)
    case Either(l, r) => !positive ==> Reaching(l, positive, symbols, at, t) && Reaching(r, positive, symbols, at, t)
    case Not(q) => Reaching(q, !positive, symbols, at, t)
    case Tested(test, l, r) =>
      positive ==>
        && Placed(l, symbols, at) && Placed(r, symbols, at)
        && (match S.Tied(test, l, r)
            case None => true
            case Some(b) => KeyValue(b.c) && Reached(b.tie, t[b.at], b.c))
    case _ => true
  }

  lemma {:induction false} TwoGood(op: Op, a: Expr, b: Expr, symbols: seq<Symbol>, at: nat, t: Tuple)
    requires at + |symbols| <= |t| && !op.Comparison? && !op.StringTest?
    requires op.AllOf? ==> Good(a, symbols, at, t) && Good(b, symbols, at, t)
    ensures Good(Apply(op, [a, b]), symbols, at, t)
  {
    hide Eval, TestGood;
    var args, last := [a, b], [b];
    assert args[1..] == last && last[1..] == [];
    assert AllGood(last[1..], symbols, at, t);
    assert op.AllOf? ==> AllGood(last, symbols, at, t);
  }

  lemma {:induction false} HeadGood(e: Expr, symbols: seq<Symbol>, at: nat, t: Tuple)
    requires at + |symbols| <= |t| && !e.Unbound? && !IsTest(e) && !(e.Apply? && e.op.AllOf?)
    ensures Good(e, symbols, at, t)
  {
  }

  lemma {:induction false} TestIsGood(test: C.Test, l: C.Operand, r: C.Operand, symbols: seq<Symbol>, at: nat, t: Tuple)
    requires at + |symbols| <= |t| && C.Bound(l, t) && C.Bound(r, t)
    requires Decided(C.Tested(test, l, r), true, t) && Reaching(C.Tested(test, l, r), true, symbols, at, t)
    ensures Good(Apply(C.OpOf(test), [C.ExprOf(l), C.ExprOf(r)]), symbols, at, t)
  {
    hide Eval, Reached, KeyValue, C.Unfit;
    var e := Apply(C.OpOf(test), [C.ExprOf(l), C.ExprOf(r)]);
    OutcomeUnknown(test, C.At(l, t), C.At(r, t));
    C.EvalTest(test, l, r, t);
    UnfitUnknown(test, C.At(l, t), C.At(r, t));
    forall i | 0 <= i < |symbols| && ConstraintOf(e, symbols[i]).Constraint?
      ensures var k := ConstraintOf(e, symbols[i]);
              && Eval(e, t) == Some(Bool(true)) && k.pos == Some(at + i)
              && (RangeFor(k.tie, k.c).Some? ==> KeyValue(k.c) && Reached(k.tie, t[at + i], k.c))
    {
      TiedConstraint(test, l, r, symbols[i]);
    }
  }

  lemma {:induction false} UnfitUnknown(test: C.Test, a: Value, b: Value)
    ensures C.Unfit(test, a, b) ==> C.Outcome(test, a, b) == C.Unknown
  {
  }

  lemma {:induction false} TiedConstraint(test: C.Test, l: C.Operand, r: C.Operand, target: Symbol)
    ensures var e := Apply(C.OpOf(test), [C.ExprOf(l), C.ExprOf(r)]);
            var k := ConstraintOf(e, target);
            k.Constraint? ==>
              && (|| (l.Column? && l.name == target && k.pos == Some(l.at))
                  || (r.Column? && r.name == target && k.pos == Some(r.at)))
              && (RangeFor(k.tie, k.c).Some? ==>
                    S.Tied(test, l, r).Some? && S.Tied(test, l, r).value == S.Bound(k.pos.value, k.tie, k.c))
  {
  }

  lemma {:induction false} AtomGood(test: C.Test, l: C.Operand, r: C.Operand, positive: bool, symbols: seq<Symbol>,
        at: nat, t: Tuple)
    requires at + |symbols| <= |t| && C.Bound(l, t) && C.Bound(r, t)
    requires Decided(C.Tested(test, l, r), positive, t) && Reaching(C.Tested(test, l, r), positive, symbols, at, t)
    ensures Good(Emitted(C.Tested(test, l, r), positive), symbols, at, t)
  {
    hide Eval, Good, Reaching, Decided;
    var e := Apply(C.OpOf(test), [C.ExprOf(l), C.ExprOf(r)]);
    HeadGood(C.Present(l), symbols, at, t);
    HeadGood(C.Present(r), symbols, at, t);
    TwoGood(AllOf, C.Present(l), C.Present(r), symbols, at, t);
    var guard := Apply(AllOf, [C.Present(l), C.Present(r)]);
    if positive {
      TestIsGood(test, l, r, symbols, at, t);
      TwoGood(AllOf, guard, e, symbols, at, t);
    } else {
      HeadGood(Apply(Negate, [e]), symbols, at, t);
      TwoGood(AllOf, guard, Apply(Negate, [e]), symbols, at, t);
    }
  }

  lemma {:induction false} EmittedGood(p: C.Predicate, positive: bool, symbols: seq<Symbol>, at: nat, t: Tuple)
    requires at + |symbols| <= |t| && C.AllBound(p, t)
    requires Decided(p, positive, t) && Reaching(p, positive, symbols, at, t)
    ensures Good(Emitted(p, positive), symbols, at, t)
  {
    hide Eval, Good;
    match p {
      case Both(l, r) =>
        if positive {
          EmittedGood(l, positive, symbols, at, t);
          EmittedGood(r, positive, symbols, at, t);
        }
        TwoGood(if positive then AllOf else AnyOf, Emitted(l, positive), Emitted(r, positive), symbols, at, t);
      case Either(l, r) =>
        if !positive {
          EmittedGood(l, positive, symbols, at, t);
          EmittedGood(r, positive, symbols, at, t);
        }
        TwoGood(if positive then AnyOf else AllOf, Emitted(l, positive), Emitted(r, positive), symbols, at, t);
      case Not(q) => EmittedGood(q, !positive, symbols, at, t);
      case Tested(test, l, r) => AtomGood(test, l, r, positive, symbols, at, t);
      case Bare(x) =>
        HeadGood(C.Present(x), symbols, at, t);
        HeadGood(if positive then C.ExprOf(x) else Apply(Negate, [C.ExprOf(x)]), symbols, at, t);
        TwoGood(AllOf, C.Present(x), if positive then C.ExprOf(x) else Apply(Negate, [C.ExprOf(x)]), symbols, at, t);
      case MissingValue(x) => HeadGood(Emitted(p, positive), symbols, at, t);
      case PresentValue(x) => HeadGood(Emitted(p, positive), symbols, at, t);
    }
  }

  lemma {:induction false} MergedExtracts(fs: seq<Expr>, target: Symbol, acc: Range, f: Expr)
    requires MergeFilters(fs, target, acc).Some? && f in fs
    ensures ExtractBound(f, target).Some?
    decreases |fs|
  {
    hide ExtractBound, Merge;
    if f != fs[0] {
      MergedExtracts(fs[1..], target, Merge(acc, ExtractBound(fs[0], target).value), f);
    }
  }

  lemma {:induction false} GoodApplies(filters: seq<Expr>, symbols: seq<Symbol>, at: nat, t: Tuple, i: nat)
    requires at + |symbols| <= |t| && i < |symbols| && BoundsOf(filters, symbols).Some?
    requires forall f | f in filters :: Good(f, symbols, at, t)
    ensures Applies(filters, symbols[i], at + i, t)
  {
    hide Eval, Reached, KeyValue, AllGood, BoundsOf, MergeFilters;
    BoundsAt(filters, symbols, i);
    forall f | f in filters
      ensures !f.Unbound? && (ConstraintOf(f, symbols[i]).Constraint? ==> Eval(f, t) == Some(Bool(true)))
      ensures Reads(f, symbols[i], at + i) && Usable(f, symbols[i], t[at + i])
    {
      MergedExtracts(filters, symbols[i], EVERYTHING, f);
    }
  }

  /**
    * Whatever parts of the predicate a plan hands to a stored relation, and whatever key columns are joined before: a
    * row of which the predicate is TRUE is in the byte range the scan is narrowed to, as long as the ranges of the
    * tests that can become filters reach its values.
    */
  lemma {:induction false} AnyPlanScanned(p: C.Predicate, cut: Cut, filters: seq<Expr>, t: Tuple, rel: u64,
        symbols: seq<Symbol>, at: nat, prefix: Tuple, lowers: Tuple, uppers: Tuple)
    requires C.AllBound(p, t) && PartialEval(C.Truthy(p)).Some? && C.Meaning(p, t) == C.True
    requires forall f | f in filters :: f in Split(PartialEval(C.Truthy(p)).value, cut)
    requires BoundsOf(filters, symbols) == Some((lowers, uppers)) && at + |symbols| <= |t|
    requires KeyTuple(prefix + t[at..at + |symbols|]) && Reaching(p, true, symbols, at, t)
    ensures KeyTuple(prefix + lowers) && KeyTuple(prefix + uppers) && AllWellFormed(prefix + uppers + [Bot])
    ensures var key := EncodeKey(rel, prefix + t[at..at + |symbols|]);
            Le(EncodeKey(rel, prefix + lowers), key) && Lt(key, EncodeKey(rel, prefix + uppers + [Bot]))
  {
    hide Eval, PartialEval, Good, Split, BoundsOf, Applies, Reaching, Tidy, KeyTuple, EncodeKey, Lt;
    PlanGood(p, symbols, at, t);
    forall f | f in filters ensures Good(f, symbols, at, t) {
      PartGood(PartialEval(C.Truthy(p)).value, cut, symbols, at, t, f);
    }
    forall i | 0 <= i < |symbols| ensures Applies(filters, symbols[i], at + i, t) {
      GoodApplies(filters, symbols, at, t, i);
    }
    FilteredRowScanned(rel, filters, symbols, lowers, uppers, prefix, at, t);
  }

  lemma {:induction false} PlanGood(p: C.Predicate, symbols: seq<Symbol>, at: nat, t: Tuple)
    requires C.AllBound(p, t) && PartialEval(C.Truthy(p)).Some? && C.Meaning(p, t) == C.True
    requires at + |symbols| <= |t| && Reaching(p, true, symbols, at, t)
    ensures Good(PartialEval(C.Truthy(p)).value, symbols, at, t)
  {
    hide Eval, PartialEval, Good, Reaching;
    EmittedTidy(p, true);
    EmittedGood(p, true, symbols, at, t);
    FoldGood(Emitted(p, true), symbols, at, t);
  }
}
