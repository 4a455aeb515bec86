/** WHERE predicates of the Cypher front end, lowered to boolean expressions without nulls. */
module Cypher {
  import opened Bytes
  import opened Values
  import opened Comparisons
  import opened Expressions

  /** Literals and parameters are constants; variables and properties are bound columns. */
  datatype Operand = Literal(val: Value) | Column(name: Symbol, at: nat)

  datatype Test = Equal | NotEqual | Ordered(rel: Rel) | OnStrings(kind: StringKind)

  datatype Predicate =
    | Both(left: Predicate, right: Predicate)
    | Either(left: Predicate, right: Predicate)
    | Not(inner: Predicate)
    | Tested(test: Test, lhs: Operand, rhs: Operand)
    | MissingValue(operand: Operand)
    | PresentValue(operand: Operand)
    | Bare(operand: Operand)

  // ----- what is emitted -----

  function ExprOf(x: Operand): Expr {
    match x
    case Literal(val) => Const(val)
    case Column(name, at) => Binding(name, Some(at))
  }

  function OpOf(test: Test): Op {
    match test
    case Equal => Equality(true)
    case NotEqual => Equality(false)
    case Ordered(rel) => Comparison(rel)
    case OnStrings(kind) => StringTest(kind)
  }

  function Present(x: Operand): Expr {
    Apply(Negate, [Apply(IsNull, [ExprOf(x)])])
  }

  function BothPresentAnd(l: Operand, r: Operand, e: Expr): Expr {
    Apply(AllOf, [Apply(AllOf, [Present(l), Present(r)]), e])
  }

  /** True exactly when the predicate is true. */
  function Truthy(p: Predicate): Expr {
    match p
    case Both(l, r) => Apply(AllOf, [Truthy(l), Truthy(r)])
    case Either(l, r) => Apply(AnyOf, [Truthy(l), Truthy(r)])
    case Not(q) => Falsy(q)
    case Tested(test, l, r) => BothPresentAnd(l, r, Apply(OpOf(test), [ExprOf(l), ExprOf(r)]))
    case MissingValue(x) => Apply(IsNull, [ExprOf(x)])
    case PresentValue(x) => Present(x)
    case Bare(x) => Apply(AllOf, [Present(x), ExprOf(x)])
  }

  /** True exactly when the predicate is false. */
  function Falsy(p: Predicate): Expr {
    match p
    case Both(l, r) => Apply(AnyOf, [Falsy(l), Falsy(r)])
    case Either(l, r) => Apply(AllOf, [Falsy(l), Falsy(r)])
    case Not(q) => Truthy(q)
    case Tested(test, l, r) => BothPresentAnd(l, r, Apply(Negate, [Apply(OpOf(test), [ExprOf(l), ExprOf(r)])]))
    case MissingValue(x) => Present(x)
    case PresentValue(x) => Apply(IsNull, [ExprOf(x)])
    case Bare(x) => Apply(AllOf, [Present(x), Apply(Negate, [ExprOf(x)])])
  }

  // ----- three-valued logic -----

  datatype Truth = True | False | Unknown

  function Negation(a: Truth): Truth {
    match a case True => False case False => True case Unknown => Unknown
  }

  function Conjunction(a: Truth, b: Truth): Truth {
    if a.False? || b.False? then False else if a.True? && b.True? then True else Unknown
  }

  function Disjunction(a: Truth, b: Truth): Truth {
    if a.True? || b.True? then True else if a.False? && b.False? then False else Unknown
  }

  function Decide(b: bool): Truth {
    if b then True else False
  }

  predicate Bound(x: Operand, t: Tuple) {
    x.Column? ==> x.at < |t|
  }

  function At(x: Operand, t: Tuple): Value
    requires Bound(x, t)
  {
    match x case Literal(val) => val case Column(_, at) => t[at]
  }

  /** A test on a null operand is unknown, and so is one its operands are not fit for. */
  function Outcome(test: Test, a: Value, b: Value): Truth {
    if a.Null? || b.Null? then Unknown
    else
      match test
      case Equal => Decide(Equals(a, b))
      case NotEqual => Decide(!Equals(a, b))
      case Ordered(rel) => if SameType(a, b) then Decide(Holds(rel, a, b)) else Unknown
      case OnStrings(kind) =>
        match RunStringTest(kind, a, b)
        case Some(Bool(v)) => Decide(v)
        case _ => Unknown
  }

  predicate AllBound(p: Predicate, t: Tuple) {
    match p
    case Both(l, r) => AllBound(l, t) && AllBound(r, t)
    case Either(l, r) => AllBound(l, t) && AllBound(r, t)
    case Not(q) => AllBound(q, t)
    case Tested(_, l, r) => Bound(l, t) && Bound(r, t)
    case MissingValue(x) => Bound(x, t)
    case PresentValue(x) => Bound(x, t)
    case Bare(x) => Bound(x, t)
  }

  /** The meaning of a predicate, clause by clause. */
  function Meaning(p: Predicate, t: Tuple): Truth
    requires AllBound(p, t)
  {
    match p
    case Both(l, r) => Conjunction(Meaning(l, t), Meaning(r, t))
    case Either(l, r) => Disjunction(Meaning(l, t), Meaning(r, t))
    case Not(q) => Negation(Meaning(q, t))
    case Tested(test, l, r) => Outcome(test, At(l, t), At(r, t))
    case MissingValue(x) => Decide(At(x, t).Null?)
    case PresentValue(x) => Decide(!At(x, t).Null?)
    case Bare(x) => match At(x, t) case Bool(b) => Decide(b) case _ => Unknown
  }

  // ----- when evaluation raises -----

  /** Operands of an operator that raises on them. */
  predicate Unfit(test: Test, a: Value, b: Value) {
    match test
    case Ordered(_) => !SameType(a, b)
    case OnStrings(kind) => RunStringTest(kind, a, b).None?
    case _ => false
  }

  /** Some operator of the emitted expression raises: all operands are evaluated before a connective looks at them. */
  predicate Raises(p: Predicate, positive: bool, t: Tuple)
    requires AllBound(p, t)
  {
    match p
    case Both(l, r) => Raises(l, positive, t) || Raises(r, positive, t)
    case Either(l, r) => Raises(l, positive, t) || Raises(r, positive, t)
    case Not(q) => Raises(q, !positive, t)
    case Tested(test, l, r) => Unfit(test, At(l, t), At(r, t))
    case MissingValue(_) => false
    case PresentValue(_) => false
    case Bare(x) => !At(x, t).Bool? && !(positive && At(x, t).Null?)
  }

  // ----- evaluation of the emitted pieces -----

  lemma {:induction false} EvalOne(op: Op, a: Expr, t: Tuple)
    ensures Eval(Apply(op, [a]), t) == match Eval(a, t) case None => None case Some(x) => RunOp(op, [x])
  {
    OneArg(a, t);
  }

  lemma {:induction false} EvalTwo(op: Op, a: Expr, b: Expr, t: Tuple)
    ensures Eval(Apply(op, [a, b]), t) ==
            if Eval(a, t).Some? && Eval(b, t).Some? then RunOp(op, [Eval(a, t).value, Eval(b, t).value]) else None
  {
    TwoArgs(a, b, t);
  }

  lemma {:induction false} ConnectTwo(x: bool, y: Value)
    ensures Connect([Bool(x), y], true) == if !x then Some(Bool(false)) else if y.Bool? then Some(y) else None
    ensures Connect([Bool(x), y], false) == if x then Some(Bool(true)) else if y.Bool? then Some(y) else None
  {
    var args := [Bool(x), y];
    assert args[1..] == [y] && args[1..][1..] == [];
    assert Connect([y], true) == if y.Bool? then Some(y) else None;
    assert Connect([y], false) == if y.Bool? then Some(y) else None;
  }

  lemma {:induction false} EvalOperand(x: Operand, t: Tuple)
    requires Bound(x, t)
    ensures Eval(ExprOf(x), t) == Some(At(x, t))
    ensures Eval(Apply(IsNull, [ExprOf(x)]), t) == Some(Bool(At(x, t).Null?))
    ensures Eval(Present(x), t) == Some(Bool(!At(x, t).Null?))
  {
    EvalOne(IsNull, ExprOf(x), t);
    EvalOne(Negate, Apply(IsNull, [ExprOf(x)]), t);
  }

  /** A guarded test: false on a null operand, and raising whenever the guarded expression raises. */
  lemma {:induction false} EvalGuarded(l: Operand, r: Operand, e: Expr, t: Tuple)
    requires Bound(l, t) && Bound(r, t) && (Eval(e, t).Some? ==> Eval(e, t).value.Bool?)
    ensures Eval(BothPresentAnd(l, r, e), t) ==
            match Eval(e, t)
            case None => None
            case Some(v) => if At(l, t).Null? || At(r, t).Null? then Some(Bool(false)) else Some(v)
  {
    hide Eval;
    EvalOperand(l, t);
    EvalOperand(r, t);
    EvalTwo(AllOf, Present(l), Present(r), t);
    ConnectTwo(!At(l, t).Null?, Bool(!At(r, t).Null?));
    EvalTwo(AllOf, Apply(AllOf, [Present(l), Present(r)]), e, t);
    if Eval(e, t).Some? {
      ConnectTwo(!At(l, t).Null? && !At(r, t).Null?, Eval(e, t).value);
    }
  }

  lemma {:induction false} EvalTest(test: Test, l: Operand, r: Operand, t: Tuple)
    requires Bound(l, t) && Bound(r, t)
    ensures var e := Apply(OpOf(test), [ExprOf(l), ExprOf(r)]);
            && (Eval(e, t).None? <==> Unfit(test, At(l, t), At(r, t)))
            && (Eval(e, t).Some? ==> Eval(e, t).value.Bool?)
            && (Eval(e, t).Some? && !At(l, t).Null? && !At(r, t).Null? ==>
                  Outcome(test, At(l, t), At(r, t)) == Decide(Eval(e, t).value.b))
  {
    hide Eval, Holds, Equals, TestBytes;
    EvalOperand(l, t);
    EvalOperand(r, t);
    EvalTwo(OpOf(test), ExprOf(l), ExprOf(r), t);
  }

  // ----- correctness -----

  /** What an emitted expression evaluates to: the boolean, unless some operator raises. */
  ghost predicate Delivers(e: Expr, t: Tuple, raises: bool, b: bool) {
    Eval(e, t) == if raises then None else Some(Bool(b))
  }

  lemma {:induction false} AtomDelivers(test: Test, l: Operand, r: Operand, t: Tuple)
    requires Bound(l, t) && Bound(r, t)
    ensures var p := Tested(test, l, r);
            && Delivers(Truthy(p), t, Raises(p, true, t), Meaning(p, t) == True)
            && Delivers(Falsy(p), t, Raises(p, false, t), Meaning(p, t) == False)
  {
    hide Eval, BothPresentAnd, Unfit;
    var e := Apply(OpOf(test), [ExprOf(l), ExprOf(r)]);
    EvalTest(test, l, r, t);
    EvalGuarded(l, r, e, t);
    EvalOne(Negate, e, t);
    EvalGuarded(l, r, Apply(Negate, [e]), t);
  }

  lemma {:induction false} BareDelivers(x: Operand, t: Tuple)
    requires Bound(x, t)
    ensures var p := Bare(x);
            && Delivers(Truthy(p), t, Raises(p, true, t), Meaning(p, t) == True)
            && Delivers(Falsy(p), t, Raises(p, false, t), Meaning(p, t) == False)
  {
    hide Eval;
    var v := At(x, t);
    EvalOperand(x, t);
    EvalOne(Negate, ExprOf(x), t);
    EvalTwo(AllOf, Present(x), ExprOf(x), t);
    EvalTwo(AllOf, Present(x), Apply(Negate, [ExprOf(x)]), t);
    ConnectTwo(!v.Null?, v);
    if v.Bool? {
      ConnectTwo(!v.Null?, Bool(!v.b));
    }
  }

  lemma {:induction false} JoinDelivers(op: Op, a: Expr, b: Expr, t: Tuple, ra: bool, rb: bool, x: bool, y: bool)
    requires (op.AllOf? || op.AnyOf?) && Delivers(a, t, ra, x) && Delivers(b, t, rb, y)
    ensures Delivers(Apply(op, [a, b]), t, ra || rb, if op.AllOf? then x && y else x || y)
  {
    hide Eval;
    EvalTwo(op, a, b, t);
    ConnectTwo(x, Bool(y));
  }

  /**
    * `Truthy` is true exactly when the predicate is TRUE, `Falsy` exactly when it is FALSE, and each raises
    * exactly when an operator in it does.
    */
  lemma {:induction false} Lowering(p: Predicate, t: Tuple)
    requires AllBound(p, t)
    ensures Delivers(Truthy(p), t, Raises(p, true, t), Meaning(p, t) == True)
    ensures Delivers(Falsy(p), t, Raises(p, false, t), Meaning(p, t) == False)
  {
    hide Eval, Delivers;
    match p {
      case Both(l, r) =>
        Lowering(l, t);
        Lowering(r, t);
        JoinDelivers(AllOf, Truthy(l), Truthy(r), t, Raises(l, true, t), Raises(r, true, t),
                     Meaning(l, t) == True, Meaning(r, t) == True);
        JoinDelivers(AnyOf, Falsy(l), Falsy(r), t, Raises(l, false, t), Raises(r, false, t),
                     Meaning(l, t) == False, Meaning(r, t) == False);
      case Either(l, r) =>
        Lowering(l, t);
        Lowering(r, t);
        JoinDelivers(AnyOf, Truthy(l), Truthy(r), t, Raises(l, true, t), Raises(r, true, t),
                     Meaning(l, t) == True, Meaning(r, t) == True);
        JoinDelivers(AllOf, Falsy(l), Falsy(r), t, Raises(l, false, t), Raises(r, false, t),
                     Meaning(l, t) == False, Meaning(r, t) == False);
      case Not(q) => Lowering(q, t);
      case Tested(test, l, r) => AtomDelivers(test, l, r, t);
      case Bare(x) => BareDelivers(x, t);
      case MissingValue(x) => NullTestDelivers(x, t);
      case PresentValue(x) => NullTestDelivers(x, t);
    }
  }

  lemma {:induction false} NullTestDelivers(x: Operand, t: Tuple)
    requires Bound(x, t)
    ensures Delivers(Apply(IsNull, [ExprOf(x)]), t, false, At(x, t).Null?)
    ensures Delivers(Present(x), t, false, !At(x, t).Null?)
  {
    EvalOperand(x, t);
  }

  /** Evaluated as one expression, it is safe exactly when no operator meets operands it raises on. */
  lemma {:induction false} EvaluatesIff(p: Predicate, t: Tuple)
    requires AllBound(p, t)
    ensures Eval(Truthy(p), t).Some? <==> !Raises(p, true, t)
    ensures Eval(Falsy(p), t).Some? <==> !Raises(p, false, t)
  {
    Lowering(p, t);
  }

  /** The whole guard-free fragment: equality and null tests never raise. */
  predicate Safe(p: Predicate) {
    match p
    case Both(l, r) => Safe(l) && Safe(r)
    case Either(l, r) => Safe(l) && Safe(r)
    case Not(q) => Safe(q)
    case Tested(test, _, _) => test.Equal? || test.NotEqual?
    case Bare(_) => false
    case _ => true
  }

  lemma {:induction false} SafeNeverRaises(p: Predicate, positive: bool, t: Tuple)
    requires AllBound(p, t) && Safe(p)
    ensures !Raises(p, positive, t)
  {
    match p {
      case Both(l, r) => SafeNeverRaises(l, positive, t); SafeNeverRaises(r, positive, t);
      case Either(l, r) => SafeNeverRaises(l, positive, t); SafeNeverRaises(r, positive, t);
      case Not(q) => SafeNeverRaises(q, !positive, t);
      case _ =>
    }
  }
}
