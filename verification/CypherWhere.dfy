/** How a lowered WHERE predicate is run on a row: folded, split at its top conjunction, part by part, or whole. */
module CypherWhere {
  import opened Values
  import opened Comparisons
  import opened Expressions
  import opened Bytecodes
  import opened BytecodeEmit
  import opened BytecodeLimits
  import C = Cypher

  /** What happens to a row: it passes, it is filtered out, or the query fails. */
  datatype RowResult = Keep | Drop | Abort

  function ToConjunction(e: Expr): seq<Expr> {
    if e.Apply? && e.op.AllOf? then e.args else [e]
  }

  /** Filters are run in order up to the first that is false. */
  function RunFilters(fs: seq<Expr>, t: Tuple): RowResult {
    if |fs| == 0 then Keep
    else
      match Eval(fs[0], t)
      case Some(Bool(b)) => if b then RunFilters(fs[1..], t) else Drop
      case _ => Abort
  }

  /** The parts without columns, in order: a lowered predicate has no conditional, so such a part is ground. */
  function Constants(fs: seq<Expr>): seq<Expr> {
    if |fs| == 0 then [] else (if Ground(fs[0]) then [fs[0]] else []) + Constants(fs[1..])
  }

  function Dependents(fs: seq<Expr>): seq<Expr> {
    if |fs| == 0 then [] else (if Ground(fs[0]) then [] else [fs[0]]) + Dependents(fs[1..])
  }

  /**
    * The filter over the join of the unit relation with the matched one: it is split once, constant parts go to the
    * unit row, the others to the rows of the relation.
    */
  function JoinedRow(f: Expr, t: Tuple): RowResult {
    var parts := ToConjunction(f);
    match RunFilters(Constants(parts), [])
    case Keep => RunFilters(Dependents(parts), t)
    case other => other
  }

  // ----- the loop over compiled filters -----

  predicate Runnable(e: Expr) {
    Compiles(e) && Closed(e)
  }

  method FilterRow(fs: seq<Expr>, t: Tuple) returns (r: RowResult)
    requires forall f | f in fs :: Runnable(f)
    ensures r == RunFilters(fs, t)
  {
    for i := 0 to |fs|
      invariant RunFilters(fs, t) == RunFilters(fs[i..], t)
    {
      assert fs[i] in fs && fs[i..][0] == fs[i] && fs[i..][1..] == fs[i + 1..];
      var outcome := CompileAndRun(fs[i], t);
      ParsedAgrees(fs[i], t);
      if outcome.None? || !outcome.value.Ok? || !outcome.value.val.Bool? {
        return Abort;
      }
      if !outcome.value.val.b {
        return Drop;
      }
    }
    return Keep;
  }

  lemma {:induction false} PlaceFirst(fs: seq<Expr>)
    requires |fs| > 0
    ensures Ground(fs[0]) ==> Constants(fs) == [fs[0]] + Constants(fs[1..]) && Dependents(fs) == Dependents(fs[1..])
    ensures !Ground(fs[0]) ==> Constants(fs) == Constants(fs[1..]) && Dependents(fs) == [fs[0]] + Dependents(fs[1..])
  {
  }

  /** The loop that hands the parts of a filter to the two sides of the join. */
  method PlaceParts(f: Expr) returns (left: seq<Expr>, right: seq<Expr>)
    ensures left == Constants(ToConjunction(f)) && right == Dependents(ToConjunction(f))
  {
    hide Ground;
    var parts := ToConjunction(f);
    left, right := [], [];
    assert parts[0..] == parts;
    for i := 0 to |parts|
      invariant left + Constants(parts[i..]) == Constants(parts)
      invariant right + Dependents(parts[i..]) == Dependents(parts)
    {
      PlaceFirst(parts[i..]);
      assert parts[i..][1..] == parts[i + 1..];
      if Ground(parts[i]) {
        assert left + ([parts[i]] + Constants(parts[i + 1..])) == (left + [parts[i]]) + Constants(parts[i + 1..]);
        left := left + [parts[i]];
      } else {
        assert right + ([parts[i]] + Dependents(parts[i + 1..])) == (right + [parts[i]]) + Dependents(parts[i + 1..]);
        right := right + [parts[i]];
      }
    }
  }

  lemma {:induction false} OneFilter(e: Expr, t: Tuple)
    ensures RunFilters([e], t) ==
            match Eval(e, t) case Some(Bool(b)) => (if b then Keep else Drop) case _ => Abort
  {
    var fs := [e];
    assert fs[1..] == [];
  }

  // ----- folding and placing the parts -----

  /** What is left of a folded expression without columns is one constant. */
  lemma {:induction false} NormalGround(f: Expr)
    requires Normal(f)
    ensures Ground(f) <==> f.Const?
    decreases f, 1
  {
    if f.Apply? && AllGround(f.args) {
      AllNormalGround(f.args);
    }
  }

  lemma {:induction false} AllNormalGround(args: seq<Expr>)
    requires AllNormal(args) && AllGround(args)
    ensures AllConst(args)
    decreases args, 0
  {
    if |args| > 0 {
      NormalGround(args[0]);
      AllNormalGround(args[1..]);
      assert args == [args[0]] + args[1..];
      AllConstCons(args[0], args[1..]);
    }
  }

  lemma {:induction false} PlaceOne(f: Expr)
    ensures Constants([f]) == if Ground(f) then [f] else []
    ensures Dependents([f]) == if Ground(f) then [] else [f]
  {
    var parts := [f];
    assert parts[1..] == [] && Constants([]) == [] && Dependents([]) == [];
  }

  lemma {:induction false} JoinedOne(f: Expr, t: Tuple)
    requires Normal(f) && !(f.Apply? && f.op.AllOf?)
    ensures JoinedRow(f, t) == RunFilters([f], t)
    ensures f.Const? ==> Eval(f, t).Some?
  {
    hide Normal, Ground;
    NormalGround(f);
    var parts := [f];
    PlaceOne(f);
    OneFilter(f, t);
    OneFilter(f, []);
  }

  lemma {:induction false} JoinedTwo(a: Expr, b: Expr, t: Tuple)
    requires Normal(a) && Normal(b) && !(a.Const? && b.Const?)
    ensures JoinedRow(Apply(AllOf, [a, b]), t) == RunFilters(if b.Const? then [b, a] else [a, b], t)
  {
    hide Normal, Ground;
    NormalGround(a);
    NormalGround(b);
    var parts, fs := [a, b], if b.Const? then [b, a] else [a, b];
    PlaceOne(b);
    assert parts[1..] == [b] && fs[1..] == [fs[1]];
    assert Constants(parts) == if a.Const? || b.Const? then [fs[0]] else [];
    assert Dependents(parts) == if a.Const? || b.Const? then [fs[1]] else fs;
    OneFilter(fs[0], t);
    OneFilter(fs[0], []);
    OneFilter(fs[1], t);
  }

  /** A part is false, true or raising as a filter. */
  ghost predicate Says(e: Expr, t: Tuple, raises: bool, x: bool) {
    if raises then Eval(e, t).None? || !Eval(e, t).value.Bool? else Eval(e, t) == Some(Bool(x))
  }

  function Verdict(aborts: bool, b: bool): RowResult {
    if aborts then Abort else if b then Keep else Drop
  }

  lemma {:induction false} TwoFilters(a: Expr, b: Expr, t: Tuple, ra: bool, x: bool, rb: bool, y: bool)
    requires Says(a, t, ra, x) && Says(b, t, rb, y)
    ensures RunFilters([a, b], t) == Verdict(ra || (x && rb), x && y)
  {
    hide Eval;
    var fs := [a, b];
    assert fs[1..] == [b];
    OneFilter(b, t);
  }

  /** A conjunction with a boolean value does what its two parts do in order. */
  lemma {:induction false} WholeIsParts(a: Expr, b: Expr, t: Tuple)
    requires Eval(Apply(AllOf, [a, b]), t).Some?
    ensures RunFilters([Apply(AllOf, [a, b])], t) == RunFilters([a, b], t)
  {
    hide Eval;
    C.EvalTwo(AllOf, a, b, t);
    var v, w, fs := Eval(a, t).value, Eval(b, t).value, [a, b];
    assert fs[1..] == [b];
    if v.Bool? {
      C.ConnectTwo(v.b, w);
    }
    OneFilter(Apply(AllOf, [a, b]), t);
    OneFilter(b, t);
  }

  /** Exact outcome of a folded conjunction of two parts. */
  lemma {:induction false} FoldedTwo(a: Expr, b: Expr, t: Tuple, ra: bool, x: bool, rb: bool, y: bool)
    requires Tidy(Apply(AllOf, [a, b])) && PartialEval(Apply(AllOf, [a, b])).Some?
    requires Says(a, t, ra, x) && Says(b, t, rb, y)
    ensures JoinedRow(PartialEval(Apply(AllOf, [a, b])).value, t) ==
            if Ground(b) && !Ground(a) then Verdict(rb || (y && ra), x && y) else Verdict(ra || (x && rb), x && y)
  {
    hide Eval, Ground, JoinedRow, RunFilters, Normal;
    var e := Apply(AllOf, [a, b]);
    var f := PartialEval(e).value;
    FoldShape(a, b);
    FoldExact(e, t);
    FoldNormal(e);
    if f.Const? {
      JoinedOne(f, t);
      WholeIsParts(a, b, t);
      OneFilter(f, t);
      OneFilter(e, t);
      TwoFilters(a, b, t, ra, x, rb, y);
    } else {
      FoldPart(a, t);
      FoldPart(b, t);
      var fa, fb := PartialEval(a).value, PartialEval(b).value;
      JoinedTwo(fa, fb, t);
      TwoFilters(fa, fb, t, ra, x, rb, y);
      TwoFilters(fb, fa, t, rb, y, ra, x);
    }
  }

  lemma {:induction false} FoldShape(a: Expr, b: Expr)
    requires Tidy(Apply(AllOf, [a, b])) && PartialEval(Apply(AllOf, [a, b])).Some?
    ensures Tidy(a) && Tidy(b) && PartialEval(a).Some? && PartialEval(b).Some?
    ensures var f := PartialEval(Apply(AllOf, [a, b])).value;
            && (f.Const? <==> Ground(a) && Ground(b))
            && (!f.Const? ==> f == Apply(AllOf, [PartialEval(a).value, PartialEval(b).value]))
  {
    hide Eval, RunOp;
    TwoShape(a, b);
    var args := [a, b];
    assert args[1..] == [b] && args[1..][1..] == [];
    assert PartialEvalAll([b]).Some? ==> PartialEvalAll([b]).value == [PartialEval(b).value];
    FoldFailsIff(Apply(AllOf, [a, b]));
  }

  lemma {:induction false} FoldPart(a: Expr, t: Tuple)
    requires Tidy(a) && PartialEval(a).Some?
    ensures var f := PartialEval(a).value;
            Normal(f) && Eval(f, t) == Eval(a, t) && (f.Const? <==> Ground(a))
  {
    FoldNormal(a);
    FoldExact(a, t);
    FoldFailsIff(a);
  }

  // ----- the emitted expressions -----

  function Emitted(p: C.Predicate, positive: bool): Expr {
    if positive then C.Truthy(p) else C.Falsy(p)
  }

  ghost predicate Decided(p: C.Predicate, positive: bool, t: Tuple)
    requires C.AllBound(p, t)
  {
    C.Meaning(p, t) == if positive then C.True else C.False
  }

  lemma {:induction false} EmittedEval(p: C.Predicate, positive: bool, t: Tuple)
    requires C.AllBound(p, t)
    ensures Eval(Emitted(p, positive), t) ==
            if C.Raises(p, positive, t) then None else Some(Bool(Decided(p, positive, t)))
  {
    hide Eval;
    C.Lowering(p, t);
  }

  lemma {:induction false} OneShape(x: Expr)
    ensures NoneDoubleNegated([x]) <==> NoDoubleNegation(x)
    ensures AllUnaryNegations([x]) <==> UnaryNegations(x)
    ensures AllGround([x]) <==> Ground(x)
    ensures AnyConstantRaises([x]) <==> ConstantRaises(x)
    ensures AllCompile([x]) <==> Compiles(x)
    ensures AllClosed([x]) <==> Closed(x)
  {
    var args := [x];
    assert args[1..] == [];
  }

  lemma {:induction false} TwoShape(x: Expr, y: Expr)
    ensures NoneDoubleNegated([x, y]) <==> NoDoubleNegation(x) && NoDoubleNegation(y)
    ensures AllUnaryNegations([x, y]) <==> UnaryNegations(x) && UnaryNegations(y)
    ensures AllGround([x, y]) <==> Ground(x) && Ground(y)
    ensures AnyConstantRaises([x, y]) <==> ConstantRaises(x) || ConstantRaises(y)
    ensures AllCompile([x, y]) <==> Compiles(x) && Compiles(y)
    ensures AllClosed([x, y]) <==> Closed(x) && Closed(y)
  {
    var args := [x, y];
    assert args[1..] == [y];
    OneShape(y);
  }

  /** Without double negations, with unary negations, and without conditionals. */
  ghost predicate Tidy(e: Expr) {
    NoDoubleNegation(e) && UnaryNegations(e) && Runnable(e)
  }

  lemma {:induction false} TidyApply(op: Op, a: Expr, b: Expr)
    requires Tidy(a) && Tidy(b) && !op.Negate?
    ensures Tidy(Apply(op, [a, b])) && Tidy(Apply(op, [a]))
  {
    OneShape(a);
    TwoShape(a, b);
  }

  lemma {:induction false} TidyNegate(a: Expr)
    requires Tidy(a) && !(a.Apply? && a.op.Negate?)
    ensures Tidy(Apply(Negate, [a]))
  {
    OneShape(a);
  }

  lemma {:induction false} TidyOperand(x: C.Operand)
    ensures Tidy(C.ExprOf(x)) && Tidy(Apply(IsNull, [C.ExprOf(x)])) && Tidy(C.Present(x))
  {
    hide Tidy;
    TidyLeaf(C.ExprOf(x));
    TidyApply(IsNull, C.ExprOf(x), C.ExprOf(x));
    TidyNegate(Apply(IsNull, [C.ExprOf(x)]));
  }

  lemma {:induction false} TidyLeaf(e: Expr)
    requires e.Const? || e.Binding?
    ensures Tidy(e)
  {
  }

  lemma {:induction false} TidyTest(test: C.Test, l: C.Operand, r: C.Operand)
    ensures Tidy(C.Truthy(C.Tested(test, l, r))) && Tidy(C.Falsy(C.Tested(test, l, r)))
  {
    hide Tidy;
    var e := Apply(C.OpOf(test), [C.ExprOf(l), C.ExprOf(r)]);
    TidyOperand(l);
    TidyOperand(r);
    TidyApply(C.OpOf(test), C.ExprOf(l), C.ExprOf(r));
    TidyNegate(e);
    TidyApply(AllOf, C.Present(l), C.Present(r));
    TidyApply(AllOf, Apply(AllOf, [C.Present(l), C.Present(r)]), e);
    TidyApply(AllOf, Apply(AllOf, [C.Present(l), C.Present(r)]), Apply(Negate, [e]));
  }

  lemma {:induction false} EmittedTidy(p: C.Predicate, positive: bool)
    ensures Tidy(Emitted(p, positive))
  {
    hide Tidy;
    match p {
      case Both(l, r) =>
        EmittedTidy(l, positive);
        EmittedTidy(r, positive);
        TidyApply(if positive then AllOf else AnyOf, Emitted(l, positive), Emitted(r, positive));
      case Either(l, r) =>
        EmittedTidy(l, positive);
        EmittedTidy(r, positive);
        TidyApply(if positive then AnyOf else AllOf, Emitted(l, positive), Emitted(r, positive));
      case Not(q) => EmittedTidy(q, !positive);
      case Tested(test, l, r) => TidyTest(test, l, r);
      case MissingValue(x) => TidyOperand(x);
      case PresentValue(x) => TidyOperand(x);
      case Bare(x) =>
        TidyOperand(x);
        TidyNegate(C.ExprOf(x));
        TidyApply(AllOf, C.Present(x), C.ExprOf(x));
        TidyApply(AllOf, C.Present(x), Apply(Negate, [C.ExprOf(x)]));
    }
  }

  // ----- when the query fails -----

  /** A test or bare value whose operands are all literals raises; it is evaluated before any row is read. */
  predicate LiteralRaises(p: C.Predicate, positive: bool) {
    match p
    case Both(l, r) => LiteralRaises(l, positive) || LiteralRaises(r, positive)
    case Either(l, r) => LiteralRaises(l, positive) || LiteralRaises(r, positive)
    case Not(q) => LiteralRaises(q, !positive)
    case Tested(test, l, r) => l.Literal? && r.Literal? && C.Unfit(test, l.val, r.val)
    case MissingValue(_) => false
    case PresentValue(_) => false
    case Bare(x) => x.Literal? && !x.val.Bool? && !(positive && x.val.Null?)
  }

  predicate NoColumns(p: C.Predicate) {
    match p
    case Both(l, r) => NoColumns(l) && NoColumns(r)
    case Either(l, r) => NoColumns(l) && NoColumns(r)
    case Not(q) => NoColumns(q)
    case Tested(_, l, r) => l.Literal? && r.Literal?
    case MissingValue(x) => x.Literal?
    case PresentValue(x) => x.Literal?
    case Bare(x) => x.Literal?
  }

  /** Two parts in order, a constant one first. */
  ghost predicate InOrder(l: C.Predicate, r: C.Predicate, positive: bool, t: Tuple)
    requires C.AllBound(l, t) && C.AllBound(r, t)
  {
    var (first, second) := if NoColumns(r) && !NoColumns(l) then (r, l) else (l, r);
    C.Raises(first, positive, t) || (Decided(first, positive, t) && C.Raises(second, positive, t))
  }

  /**
    * The null guards of a top-level test come first and hide it; below a connective a test is evaluated together
    * with its guards.
    */
  ghost predicate PartRaises(p: C.Predicate, positive: bool, t: Tuple)
    requires C.AllBound(p, t)
  {
    match p
    case Both(l, r) => if positive then InOrder(l, r, positive, t) else C.Raises(p, positive, t)
    case Either(l, r) => if positive then C.Raises(p, positive, t) else InOrder(l, r, positive, t)
    case Not(q) => PartRaises(q, !positive, t)
    case Tested(test, l, r) =>
      !C.At(l, t).Null? && !C.At(r, t).Null? && C.Unfit(test, C.At(l, t), C.At(r, t))
    case MissingValue(_) => false
    case PresentValue(_) => false
    case Bare(x) => !C.At(x, t).Null? && !C.At(x, t).Bool?
  }

  // ----- what folding does to the emitted expressions -----

  /** Groundness and raising of the constant parts of an emitted piece. */
  ghost predicate Folds(e: Expr, ground: bool, raises: bool) {
    (Ground(e) <==> ground) && (ConstantRaises(e) <==> raises)
  }

  lemma {:induction false} FoldsTwo(op: Op, a: Expr, b: Expr, ga: bool, ra: bool, gb: bool, rb: bool)
    requires Folds(a, ga, ra) && Folds(b, gb, rb)
    ensures Folds(Apply(op, [a, b]), ga && gb, ra || rb || (ga && gb && Eval(Apply(op, [a, b]), []).None?))
  {
    hide Eval;
    TwoShape(a, b);
  }

  lemma {:induction false} FoldsOne(op: Op, a: Expr, ga: bool, ra: bool)
    requires Folds(a, ga, ra)
    ensures Folds(Apply(op, [a]), ga, ra || (ga && Eval(Apply(op, [a]), []).None?))
  {
    hide Eval;
    OneShape(a);
  }

  lemma {:induction false} FoldsOperand(x: C.Operand)
    ensures Folds(C.ExprOf(x), x.Literal?, false)
    ensures Folds(Apply(IsNull, [C.ExprOf(x)]), x.Literal?, false)
    ensures Folds(C.Present(x), x.Literal?, false)
  {
    FoldsOne(IsNull, C.ExprOf(x), x.Literal?, false);
    if x.Literal? {
      C.EvalOperand(x, []);
    }
    FoldsOne(Negate, Apply(IsNull, [C.ExprOf(x)]), x.Literal?, false);
  }

  lemma {:induction false} FoldsTest(test: C.Test, l: C.Operand, r: C.Operand, positive: bool)
    ensures var p := C.Tested(test, l, r);
            Folds(Emitted(p, positive), NoColumns(p), LiteralRaises(p, positive))
  {
    hide Eval, Folds, C.Unfit;
    var lit := l.Literal? && r.Literal?;
    var e := Apply(C.OpOf(test), [C.ExprOf(l), C.ExprOf(r)]);
    var guard := Apply(AllOf, [C.Present(l), C.Present(r)]);
    FoldsOperand(l);
    FoldsOperand(r);
    FoldsTwo(C.OpOf(test), C.ExprOf(l), C.ExprOf(r), l.Literal?, false, r.Literal?, false);
    FoldsTwo(AllOf, C.Present(l), C.Present(r), l.Literal?, false, r.Literal?, false);
    var re := lit && Eval(e, []).None?;
    FoldsOne(Negate, e, lit, re);
    if lit {
      C.EvalTest(test, l, r, []);
      C.EvalOne(Negate, e, []);
      C.EvalOperand(l, []);
      C.EvalOperand(r, []);
      C.EvalTwo(AllOf, C.Present(l), C.Present(r), []);
      C.ConnectTwo(!C.At(l, []).Null?, Bool(!C.At(r, []).Null?));
      C.EvalGuarded(l, r, e, []);
      C.EvalGuarded(l, r, Apply(Negate, [e]), []);
    }
    FoldsTwo(AllOf, guard, e, lit, false, lit, re);
    FoldsTwo(AllOf, guard, Apply(Negate, [e]), lit, false, lit, re);
  }

  lemma {:induction false} FoldsBare(x: C.Operand, positive: bool)
    ensures var p := C.Bare(x);
            Folds(Emitted(p, positive), NoColumns(p), LiteralRaises(p, positive))
  {
    hide Eval, Folds;
    var p, lit := C.Bare(x), x.Literal?;
    FoldsOperand(x);
    FoldsOne(Negate, C.ExprOf(x), lit, false);
    var rn := lit && Eval(Apply(Negate, [C.ExprOf(x)]), []).None?;
    FoldsTwo(AllOf, C.Present(x), C.ExprOf(x), lit, false, lit, false);
    FoldsTwo(AllOf, C.Present(x), Apply(Negate, [C.ExprOf(x)]), lit, false, lit, rn);
    if lit {
      C.EvalOperand(x, []);
      C.EvalOne(Negate, C.ExprOf(x), []);
      EmittedEval(p, positive, []);
    }
  }

  /** A ground emitted expression raises exactly when a literal atom of it does. */
  lemma {:induction false} GroundRaises(p: C.Predicate, positive: bool)
    requires NoColumns(p)
    ensures C.AllBound(p, []) && (C.Raises(p, positive, []) <==> LiteralRaises(p, positive))
  {
    match p {
      case Both(l, r) => GroundRaises(l, positive); GroundRaises(r, positive);
      case Either(l, r) => GroundRaises(l, positive); GroundRaises(r, positive);
      case Not(q) => GroundRaises(q, !positive);
      case _ =>
    }
  }

  lemma {:induction false} EmittedFolds(p: C.Predicate, positive: bool)
    ensures Folds(Emitted(p, positive), NoColumns(p), LiteralRaises(p, positive))
    decreases p, 1
  {
    hide Eval, Folds;
    match p {
      case Both(l, r) =>
        FoldsJoin(if positive then AllOf else AnyOf, p, l, r, positive);
      case Either(l, r) =>
        FoldsJoin(if positive then AnyOf else AllOf, p, l, r, positive);
      case Not(q) => EmittedFolds(q, !positive);
      case Tested(test, l, r) => FoldsTest(test, l, r, positive);
      case MissingValue(x) => FoldsOperand(x);
      case PresentValue(x) => FoldsOperand(x);
      case Bare(x) => FoldsBare(x, positive);
    }
  }

  lemma {:induction false} FoldsJoin(op: Op, p: C.Predicate, l: C.Predicate, r: C.Predicate, positive: bool)
    requires p == C.Both(l, r) || p == C.Either(l, r)
    requires Emitted(p, positive) == Apply(op, [Emitted(l, positive), Emitted(r, positive)])
    ensures Folds(Emitted(p, positive), NoColumns(p), LiteralRaises(p, positive))
    decreases p, 0
  {
    hide Eval, Folds, Emitted;
    EmittedFolds(l, positive);
    EmittedFolds(r, positive);
    FoldsTwo(op, Emitted(l, positive), Emitted(r, positive),
             NoColumns(l), LiteralRaises(l, positive), NoColumns(r), LiteralRaises(r, positive));
    if NoColumns(p) {
      GroundRaises(p, positive);
      EmittedEval(p, positive, []);
    }
  }

  // ----- parts of a conjunction -----

  /** What the folded form of an emitted expression does to a row. */
  ghost predicate RowIs(p: C.Predicate, positive: bool, t: Tuple, aborts: bool)
    requires C.AllBound(p, t) && PartialEval(Emitted(p, positive)).Some?
  {
    JoinedRow(PartialEval(Emitted(p, positive)).value, t) == Verdict(aborts, Decided(p, positive, t))
  }

  lemma {:induction false} TestParts(test: C.Test, l: C.Operand, r: C.Operand, positive: bool, t: Tuple)
    requires C.Bound(l, t) && C.Bound(r, t) && PartialEval(Emitted(C.Tested(test, l, r), positive)).Some?
    ensures RowIs(C.Tested(test, l, r), positive, t, PartRaises(C.Tested(test, l, r), positive, t))
  {
    hide Eval, PartialEval, JoinedRow, Tidy, C.Unfit, C.Outcome;
    var a, b := C.At(l, t), C.At(r, t);
    var e := Apply(C.OpOf(test), [C.ExprOf(l), C.ExprOf(r)]);
    var guard := Apply(AllOf, [C.Present(l), C.Present(r)]);
    EmittedTidy(C.Tested(test, l, r), positive);
    C.EvalOperand(l, t);
    C.EvalOperand(r, t);
    C.EvalTwo(AllOf, C.Present(l), C.Present(r), t);
    C.ConnectTwo(!a.Null?, Bool(!b.Null?));
    C.EvalTest(test, l, r, t);
    C.EvalOne(Negate, e, t);
    OutcomeUnknown(test, a, b);
    SameColumns(test, l, r);
    var present, unfit := !a.Null? && !b.Null?, C.Unfit(test, a, b);
    var v := Eval(e, t).Some? && Eval(e, t).value.b;
    if positive {
      FoldedTwo(guard, e, t, false, present, unfit, v);
    } else {
      FoldedTwo(guard, Apply(Negate, [e]), t, false, present, unfit, !v);
    }
  }

  lemma {:induction false} SameColumns(test: C.Test, l: C.Operand, r: C.Operand)
    ensures var e := Apply(C.OpOf(test), [C.ExprOf(l), C.ExprOf(r)]);
            Ground(Apply(AllOf, [C.Present(l), C.Present(r)])) == Ground(e) == Ground(Apply(Negate, [e]))
  {
    hide Eval;
    PresentColumns(l);
    PresentColumns(r);
    TwoShape(C.ExprOf(l), C.ExprOf(r));
    TwoShape(C.Present(l), C.Present(r));
    OneShape(Apply(C.OpOf(test), [C.ExprOf(l), C.ExprOf(r)]));
  }

  lemma {:induction false} PresentColumns(x: C.Operand)
    ensures Ground(C.Present(x)) == Ground(C.ExprOf(x)) == Ground(Apply(Negate, [C.ExprOf(x)])) == x.Literal?
  {
    OneShape(C.ExprOf(x));
    OneShape(Apply(IsNull, [C.ExprOf(x)]));
  }

  lemma {:induction false} OutcomeUnknown(test: C.Test, a: Value, b: Value)
    ensures a.Null? || b.Null? ==> C.Outcome(test, a, b) == C.Unknown
  {
  }

  lemma {:induction false} BareParts(x: C.Operand, positive: bool, t: Tuple)
    requires C.Bound(x, t) && PartialEval(Emitted(C.Bare(x), positive)).Some?
    ensures RowIs(C.Bare(x), positive, t, PartRaises(C.Bare(x), positive, t))
  {
    hide Eval, PartialEval, JoinedRow, Tidy;
    var v := C.At(x, t);
    EmittedTidy(C.Bare(x), positive);
    C.EvalOperand(x, t);
    C.EvalOne(Negate, C.ExprOf(x), t);
    PresentColumns(x);
    if positive {
      FoldedTwo(C.Present(x), C.ExprOf(x), t, false, !v.Null?, !v.Bool?, v == Bool(true));
    } else {
      FoldedTwo(C.Present(x), Apply(Negate, [C.ExprOf(x)]), t, false, !v.Null?, !v.Bool?, v == Bool(false));
    }
  }

  lemma {:induction false} WholePart(p: C.Predicate, positive: bool, t: Tuple)
    requires C.AllBound(p, t) && PartialEval(Emitted(p, positive)).Some?
    requires var e := Emitted(p, positive); e.Apply? && !e.op.AllOf?
    ensures RowIs(p, positive, t, C.Raises(p, positive, t))
  {
    hide Eval, Emitted, PartialEval, RunFilters, JoinedRow;
    var e := Emitted(p, positive);
    var f := PartialEval(e).value;
    EmittedTidy(p, positive);
    EmittedEval(p, positive, t);
    FoldExact(e, t);
    FoldHead(e);
    FoldNormal(e);
    JoinedOne(f, t);
    OneFilter(f, t);
  }

  lemma {:induction false} JoinParts(p: C.Predicate, l: C.Predicate, r: C.Predicate, positive: bool, t: Tuple)
    requires C.AllBound(p, t) && PartialEval(Emitted(p, positive)).Some?
    requires p == if positive then C.Both(l, r) else C.Either(l, r)
    ensures RowIs(p, positive, t, InOrder(l, r, positive, t))
  {
    hide Eval, PartialEval, JoinedRow, Tidy, Ground, Folds;
    EmittedTidy(p, positive);
    EmittedEval(l, positive, t);
    EmittedEval(r, positive, t);
    EmittedGround(l, positive);
    EmittedGround(r, positive);
    FoldedTwo(Emitted(l, positive), Emitted(r, positive), t, C.Raises(l, positive, t), Decided(l, positive, t),
              C.Raises(r, positive, t), Decided(r, positive, t));
  }

  lemma {:induction false} EmittedGround(p: C.Predicate, positive: bool)
    ensures Ground(Emitted(p, positive)) <==> NoColumns(p)
  {
    EmittedFolds(p, positive);
  }

  /** The folded parts fail the query exactly when `PartRaises`, and else decide the row. */
  lemma {:induction false} PartsExact(p: C.Predicate, positive: bool, t: Tuple)
    requires C.AllBound(p, t) && PartialEval(Emitted(p, positive)).Some?
    ensures RowIs(p, positive, t, PartRaises(p, positive, t))
  {
    hide PartialEval, JoinedRow, InOrder;
    match p {
      case Both(l, r) =>
        if positive {
          JoinParts(p, l, r, positive, t);
        } else {
          WholePart(p, positive, t);
        }
      case Either(l, r) =>
        if positive {
          WholePart(p, positive, t);
        } else {
          JoinParts(p, l, r, positive, t);
        }
      case Not(q) => PartsExact(q, !positive, t);
      case Tested(test, l, r) => TestParts(test, l, r, positive, t);
      case Bare(x) => BareParts(x, positive, t);
      case MissingValue(x) => WholePart(p, positive, t);
      case PresentValue(x) => WholePart(p, positive, t);
    }
  }

  /** Put after the relation instead, the folded predicate is one filter: it fails exactly when an operator raises. */
  lemma {:induction false} WholeExact(p: C.Predicate, t: Tuple)
    requires C.AllBound(p, t) && PartialEval(C.Truthy(p)).Some?
    ensures RunFilters([PartialEval(C.Truthy(p)).value], t) == Verdict(C.Raises(p, true, t), C.Meaning(p, t) == C.True)
  {
    hide Eval, PartialEval, RunFilters;
    var e := Emitted(p, true);
    EmittedTidy(p, true);
    EmittedEval(p, true, t);
    FoldExact(e, t);
    OneFilter(PartialEval(e).value, t);
  }

  // ----- predicates without ordering or string tests, and what can be compiled -----

  lemma {:induction false} SafeParts(p: C.Predicate, positive: bool, t: Tuple)
    requires C.AllBound(p, t) && C.Safe(p)
    ensures !LiteralRaises(p, positive) && !PartRaises(p, positive, t)
    decreases p, 1
  {
    match p {
      case Both(l, r) => SafeBoth(p, l, r, positive, t);
      case Either(l, r) => SafeBoth(p, l, r, positive, t);
      case Not(q) => SafeParts(q, !positive, t);
      case _ =>
    }
  }

  lemma {:induction false} SafeBoth(p: C.Predicate, l: C.Predicate, r: C.Predicate, positive: bool, t: Tuple)
    requires p == C.Both(l, r) || p == C.Either(l, r)
    requires C.AllBound(p, t) && C.Safe(p)
    ensures !LiteralRaises(p, positive) && !PartRaises(p, positive, t)
    decreases p, 0
  {
    SafeParts(l, positive, t);
    SafeParts(r, positive, t);
    C.SafeNeverRaises(l, positive, t);
    C.SafeNeverRaises(r, positive, t);
  }

  lemma {:induction false} FoldRunnable(e: Expr)
    requires NoDoubleNegation(e) && Runnable(e) && PartialEval(e).Some?
    ensures Runnable(PartialEval(e).value)
    decreases e, 1
  {
    FoldHead(e);
    if e.Apply? {
      FoldAllRunnable(e.args);
    }
  }

  lemma {:induction false} FoldAllRunnable(args: seq<Expr>)
    requires NoneDoubleNegated(args) && AllCompile(args) && AllClosed(args) && PartialEvalAll(args).Some?
    ensures AllCompile(PartialEvalAll(args).value) && AllClosed(PartialEvalAll(args).value)
    decreases args, 0
  {
    if |args| > 0 {
      FoldRunnable(args[0]);
      FoldAllRunnable(args[1..]);
    }
  }

  lemma {:induction false} ArgRunnable(args: seq<Expr>, f: Expr)
    requires AllCompile(args) && AllClosed(args) && f in args
    ensures Runnable(f)
  {
    if f != args[0] {
      ArgRunnable(args[1..], f);
    }
  }

  lemma {:induction false} PartsRunnable(p: C.Predicate)
    requires PartialEval(C.Truthy(p)).Some?
    ensures forall f | f in ToConjunction(PartialEval(C.Truthy(p)).value) :: Runnable(f)
  {
    hide PartialEval;
    var e := PartialEval(C.Truthy(p)).value;
    EmittedTidy(p, true);
    FoldRunnable(Emitted(p, true));
    forall f | f in ToConjunction(e) ensures Runnable(f) {
      if e.Apply? && e.op.AllOf? {
        ArgRunnable(e.args, f);
      }
    }
  }

  lemma {:induction false} PlacedRunnable(fs: seq<Expr>)
    requires forall f | f in fs :: Runnable(f)
    ensures forall f | f in Constants(fs) :: Runnable(f)
    ensures forall f | f in Dependents(fs) :: Runnable(f)
  {
    hide Runnable, Ground;
    if |fs| > 0 {
      assert fs[0] in fs && forall f | f in fs[1..] :: f in fs;
      PlacedRunnable(fs[1..]);
    }
  }
}
