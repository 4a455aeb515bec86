/** Expressions, their evaluation, and constant folding. */
module Expressions {
  import opened Bytes
  import opened Values
  import opened Comparisons
  import opened Numbers
  import Float64

  /**
    * Deterministic operators: total functions of their arguments, `None` being an error.
    * Negation and the comparisons are singled out because rewriting looks for them by name.
    */
  datatype Op =
    | Negate
    | AllOf
    | AnyOf
    | IsNull
    | Equality(same: bool)
    | Comparison(rel: Rel)
    | StringTest(kind: StringKind)
    | Other(inner: seq<Value> -> Option<Value>)

  datatype StringKind = StartsWith | EndsWith | Contains

  type Symbol = string

  datatype Expr =
    | Binding(name: Symbol, pos: Option<nat>)
    | Const(val: Value)
    | Apply(op: Op, args: seq<Expr>)
    | Cond(clauses: seq<Clause>)
    | Unbound

  datatype Clause = Clause(cond: Expr, val: Expr)

  function RunOp(op: Op, args: seq<Value>): Option<Value> {
    match op
    case Negate => if args != [] && args[0].Bool? then Some(Bool(!args[0].b)) else None
    case AllOf => Connect(args, true)
    case AnyOf => Connect(args, false)
    case IsNull => if |args| > 0 then Some(Bool(args[0].Null?)) else None
    case Equality(same) => if |args| == 2 then Some(Bool(Equals(args[0], args[1]) == same)) else None
    case Comparison(rel) => CompareOp(rel, args)
    case StringTest(kind) => if |args| == 2 then RunStringTest(kind, args[0], args[1]) else None
    case Other(inner) => inner(args)
  }

  /** `and` and `or` stop at the first operand that decides; earlier operands must be booleans. */
  function Connect(args: seq<Value>, neutral: bool): Option<Value> {
    if |args| == 0 then Some(Bool(neutral))
    else if !args[0].Bool? then None
    else if args[0].b != neutral then Some(args[0])
    else Connect(args[1..], neutral)
  }

  /** An integer equals the float it converts to. */
  predicate Equals(a: Value, b: Value) {
    if a.Number? && b.Number? && a.n.Int? != b.n.Int? then
      var x, y := GetFloat(a.n), GetFloat(b.n);
      !Float64.IsNaN(x) && !Float64.IsNaN(y) && Float64.Numeric(x) == Float64.Numeric(y)
    else a == b
  }

  function RunStringTest(kind: StringKind, a: Value, b: Value): Option<Value> {
    match (a, b)
    case (Str(l), Str(r)) => Some(Bool(TestBytes(kind, l, r)))
    case (Blob(l), Blob(r)) => if kind.Contains? then None else Some(Bool(TestBytes(kind, l, r)))
    case _ => None
  }

  predicate TestBytes(kind: StringKind, l: seq<u8>, r: seq<u8>) {
    match kind
    case StartsWith => r <= l
    case EndsWith => |r| <= |l| && l[|l| - |r|..] == r
    case Contains => Includes(l, r)
  }

  predicate Includes(l: seq<u8>, r: seq<u8>) {
    r <= l || (l != [] && Includes(l[1..], r))
  }

  function Eval(e: Expr, t: Tuple): Option<Value>
    decreases e, 1
  {
    match e
    case Binding(_, pos) => if pos.Some? && pos.value < |t| then Some(t[pos.value]) else None
    case Const(val) => Some(val)
    case Apply(op, args) =>
      (match EvalAll(args, t)
       case None => None
       case Some(vs) => RunOp(op, vs))
    case Cond(clauses) => EvalClauses(clauses, t)
    case Unbound => None
  }

  function EvalAll(args: seq<Expr>, t: Tuple): Option<seq<Value>>
    decreases args, 0
  {
    if args == [] then Some([])
    else
      match Eval(args[0], t)
      case None => None
      case Some(v) =>
        match EvalAll(args[1..], t)
        case None => None
        case Some(vs) => Some([v] + vs)
  }

  /** The value of the first clause whose condition is true; `Null` when there is none. */
  function EvalClauses(clauses: seq<Clause>, t: Tuple): Option<Value>
    decreases clauses, 0
  {
    if clauses == [] then Some(Null)
    else
      match EvalIf(clauses[0], t)
      case Some(Bool(b)) => if b then EvalThen(clauses[0], t) else EvalClauses(clauses[1..], t)
      case _ => None
  }

  function EvalIf(c: Clause, t: Tuple): Option<Value>
    decreases c, 0
  {
    Eval(c.cond, t)
  }

  function EvalThen(c: Clause, t: Tuple): Option<Value>
    decreases c, 0
  {
    Eval(c.val, t)
  }

  // ----- constant folding -----

  predicate AllConst(args: seq<Expr>) {
    forall i | 0 <= i < |args| :: args[i].Const?
  }

  function ConstValues(args: seq<Expr>): (vs: seq<Value>)
    requires AllConst(args)
    ensures |vs| == |args|
  {
    seq(|args|, i requires 0 <= i < |args| => args[i].val)
  }

  predicate DoubleNegation(op: Op, args: seq<Expr>) {
    op.Negate? && |args| > 0 && args[0].Apply? && args[0].op.Negate? && |args[0].args| > 0
  }

  /** `not not x` becomes `x`. */
  function DropNegations(op: Op, args: seq<Expr>): Expr {
    if DoubleNegation(op, args) then args[0].args[0] else Apply(op, args)
  }

  /** `None` when a constant part raises. */
  function PartialEval(e: Expr): Option<Expr>
    decreases e, 1
  {
    match e
    case Apply(op, args) =>
      (match PartialEvalAll(args)
       case None => None
       case Some(folded) => Folded(op, folded))
    case _ => Some(e)
  }

  /** An application whose arguments are already folded. */
  function Folded(op: Op, args: seq<Expr>): Option<Expr> {
    if AllConst(args) then
      (match RunOp(op, ConstValues(args)) case None => None case Some(v) => Some(Const(v)))
    else Some(DropNegations(op, args))
  }

  function PartialEvalAll(args: seq<Expr>): (r: Option<seq<Expr>>)
    ensures r.Some? ==> |r.value| == |args|
    decreases args, 0
  {
    if args == [] then Some([])
    else
      match PartialEval(args[0])
      case None => None
      case Some(a) =>
        match PartialEvalAll(args[1..])
        case None => None
        case Some(rest) => Some([a] + rest)
  }

  /** The source's form: arguments rewritten one by one, then the node itself. */
  method RewriteInPlace(e: Expr) returns (r: Option<Expr>)
    ensures r == PartialEval(e)
    decreases e
  {
    if !e.Apply? {
      return Some(e);
    }
    var args := e.args;
    var allEvaluated := true;
    assert args[..0] == [] && e.args[0..] == e.args;
    FrontNil(PartialEvalAll(e.args));
    for i := 0 to |args|
      invariant |args| == |e.args| && args[i..] == e.args[i..]
      invariant allEvaluated == AllConst(args[..i])
      invariant PartialEvalAll(e.args) == Front(args[..i], PartialEvalAll(e.args[i..]))
    {
      assert e.args[i..][0] == e.args[i] && e.args[i..][1..] == e.args[i + 1..];
      var arg := RewriteInPlace(args[i]);
      if arg.None? {
        return None;
      }
      ghost var before := args[..i];
      args := args[i := arg.value];
      assert args[..i + 1] == before + [arg.value];
      FrontStep(before, arg.value, PartialEvalAll(e.args[i + 1..]));
      AllConstSnoc(before, arg.value);
      allEvaluated := allEvaluated && arg.value.Const?;
    }
    assert args[..|args|] == args && e.args[|args|..] == [];
    assert args + [] == args;
    if allEvaluated {
      var v := RunOp(e.op, ConstValues(args));
      return if v.Some? then Some(Const(v.value)) else None;
    }
    return Some(DropNegations(e.op, args));
  }

  function Front(done: seq<Expr>, rest: Option<seq<Expr>>): Option<seq<Expr>> {
    match rest case None => None case Some(es) => Some(done + es)
  }

  lemma {:induction false} FrontNil(rest: Option<seq<Expr>>)
    ensures Front([], rest) == rest
  {
    if rest.Some? {
      assert [] + rest.value == rest.value;
    }
  }

  lemma {:induction false} AllConstSnoc(xs: seq<Expr>, x: Expr)
    ensures AllConst(xs + [x]) <==> AllConst(xs) && x.Const?
  {
    assert (xs + [x])[|xs|] == x;
    assert forall i | 0 <= i < |xs| :: (xs + [x])[i] == xs[i];
  }

  lemma {:induction false} FrontStep(done: seq<Expr>, x: Expr, rest: Option<seq<Expr>>)
    ensures rest.Some? ==> done + ([x] + rest.value) == (done + [x]) + rest.value
  {
  }

  // ----- folding preserves meaning -----

  lemma {:induction false} ConstsEval(args: seq<Expr>, t: Tuple)
    requires AllConst(args)
    ensures EvalAll(args, t) == Some(ConstValues(args))
  {
    if args != [] {
      ConstsEval(args[1..], t);
      assert ConstValues(args) == [args[0].val] + ConstValues(args[1..]);
    }
  }

  lemma {:induction false} EvalAllAt(args: seq<Expr>, t: Tuple, i: nat)
    requires EvalAll(args, t).Some? && i < |args|
    ensures |EvalAll(args, t).value| == |args| && Eval(args[i], t) == Some(EvalAll(args, t).value[i])
  {
    if i > 0 {
      EvalAllAt(args[1..], t, i - 1);
    } else if |args| > 1 {
      EvalAllAt(args[1..], t, 0);
    }
  }

  /** If the original evaluates, folding succeeds and the folded expression evaluates to the same value. */
  lemma {:induction false} FoldPreserves(e: Expr, t: Tuple)
    requires Eval(e, t).Some?
    ensures PartialEval(e).Some? && Eval(PartialEval(e).value, t) == Eval(e, t)
    decreases e, 1
  {
    if e.Apply? {
      FoldAllPreserves(e.args, t);
      FoldedPreserves(e.op, PartialEvalAll(e.args).value, t);
    }
  }

  lemma {:induction false} FoldAllPreserves(args: seq<Expr>, t: Tuple)
    requires EvalAll(args, t).Some?
    ensures PartialEvalAll(args).Some? && EvalAll(PartialEvalAll(args).value, t) == EvalAll(args, t)
    decreases args, 0
  {
    if args != [] {
      FoldPreserves(args[0], t);
      FoldAllPreserves(args[1..], t);
    }
  }

  lemma {:induction false} FoldedPreserves(op: Op, args: seq<Expr>, t: Tuple)
    requires EvalAll(args, t).Some? && RunOp(op, EvalAll(args, t).value).Some?
    ensures Folded(op, args).Some? && Eval(Folded(op, args).value, t) == RunOp(op, EvalAll(args, t).value)
  {
    if AllConst(args) {
      ConstsEval(args, t);
    } else if DropNegations(op, args) != Apply(op, args) {
      EvalAllAt(args, t, 0);
      EvalAllAt(args[0].args, t, 0);
    }
  }

  // ----- the folded form -----

  /** No application of constants only and no double negation, above the first conditional. */
  predicate Normal(e: Expr)
    decreases e, 1
  {
    e.Apply? ==> AllNormal(e.args) && !AllConst(e.args) && !DoubleNegation(e.op, e.args)
  }

  predicate AllNormal(args: seq<Expr>)
    decreases args, 0
  {
    |args| == 0 || (Normal(args[0]) && AllNormal(args[1..]))
  }

  /** Folding reaches the normal form... */
  lemma {:induction false} FoldNormal(e: Expr)
    requires PartialEval(e).Some?
    ensures Normal(PartialEval(e).value)
    decreases e, 1
  {
    if e.Apply? {
      FoldAllNormal(e.args);
      var args := PartialEvalAll(e.args).value;
      if !AllConst(args) && DoubleNegation(e.op, args) {
        assert Normal(args[0]) && AllNormal(args[0].args);
      }
    }
  }

  lemma {:induction false} FoldAllNormal(args: seq<Expr>)
    requires PartialEvalAll(args).Some?
    ensures AllNormal(PartialEvalAll(args).value)
    decreases args, 0
  {
    if |args| > 0 {
      FoldNormal(args[0]);
      FoldAllNormal(args[1..]);
    }
  }

  /** ... and leaves it alone, so folding twice is folding once. */
  lemma {:induction false} NormalFixed(e: Expr)
    requires Normal(e)
    ensures PartialEval(e) == Some(e)
    decreases e, 1
  {
    if e.Apply? {
      AllNormalFixed(e.args);
    }
  }

  lemma {:induction false} AllNormalFixed(args: seq<Expr>)
    requires AllNormal(args)
    ensures PartialEvalAll(args) == Some(args)
    decreases args, 0
  {
    if |args| > 0 {
      NormalFixed(args[0]);
      AllNormalFixed(args[1..]);
      assert args == [args[0]] + args[1..];
    }
  }

  // ----- the other direction -----

  /** Dropping a double negation is exact except over a value that is not a boolean. */
  lemma {:induction false} DoubleNegationIff(x: Expr, t: Tuple)
    ensures Eval(Apply(Negate, [Apply(Negate, [x])]), t) == Eval(x, t) <==>
            (Eval(x, t).Some? ==> Eval(x, t).value.Bool?)
  {
    var inner := Apply(Negate, [x]);
    OneArg(x, t);
    OneArg(inner, t);
  }

  lemma {:induction false} OneArg(x: Expr, t: Tuple)
    ensures EvalAll([x], t) == match Eval(x, t) case None => None case Some(v) => Some([v])
  {
    var args := [x];
    assert args[1..] == [] && EvalAll(args[1..], t) == Some([]);
    if Eval(x, t).Some? {
      assert [Eval(x, t).value] + [] == [Eval(x, t).value];
    }
  }

  lemma {:induction false} TwoArgs(a: Expr, b: Expr, t: Tuple)
    ensures EvalAll([a, b], t) ==
            match (Eval(a, t), Eval(b, t))
            case (Some(x), Some(y)) => Some([x, y])
            case _ => None
  {
    var args := [a, b];
    assert args[1..] == [b];
    OneArg(b, t);
    if Eval(a, t).Some? && Eval(b, t).Some? {
      assert [Eval(a, t).value] + [Eval(b, t).value] == [Eval(a, t).value, Eval(b, t).value];
    }
  }

  lemma {:induction false} FoldOneArg(x: Expr)
    ensures PartialEvalAll([x]) == match PartialEval(x) case None => None case Some(y) => Some([y])
  {
    var args := [x];
    assert args[1..] == [] && PartialEvalAll(args[1..]) == Some([]);
    if PartialEval(x).Some? {
      assert [PartialEval(x).value] + [] == [PartialEval(x).value];
    }
  }

  /** `not not 5` raises; folded it is 5. */
  lemma {:induction false} FoldedMayEvaluateMore()
    ensures var e, t := Apply(Negate, [Apply(Negate, [Binding("x", Some(0))])]), [Number(Int(5))];
            && Eval(e, t) == None && PartialEval(e) == Some(Binding("x", Some(0)))
            && Eval(Binding("x", Some(0)), t) == Some(Number(Int(5)))
  {
    var x, t := Binding("x", Some(0)), [Number(Int(5))];
    var args := [x];
    var outer := [Apply(Negate, args)];
    OneArg(x, t);
    OneArg(outer[0], t);
    FoldOneArg(x);
    assert !args[0].Const? && !outer[0].Const?;
    FoldOneArg(outer[0]);
  }

  predicate NoDoubleNegation(e: Expr)
    decreases e, 1
  {
    e.Apply? ==> !DoubleNegation(e.op, e.args) && NoneDoubleNegated(e.args)
  }

  predicate NoneDoubleNegated(args: seq<Expr>)
    decreases args, 0
  {
    |args| == 0 || (NoDoubleNegation(args[0]) && NoneDoubleNegated(args[1..]))
  }

  /** Folding replaces an application by a constant or keeps its operator. */
  ghost predicate SameHead(e: Expr, f: Expr) {
    f.Const? || (if e.Apply? then f.Apply? && f.op == e.op && |f.args| == |e.args| else f == e)
  }

  lemma {:induction false} FoldHead(e: Expr)
    requires NoDoubleNegation(e) && PartialEval(e).Some?
    ensures SameHead(e, PartialEval(e).value)
    decreases e, 1
  {
    if e.Apply? && |e.args| > 0 {
      FoldHead(e.args[0]);
    }
  }

  /** Without double negations folding is exact: same value, or both raise. */
  lemma {:induction false} FoldExact(e: Expr, t: Tuple)
    requires NoDoubleNegation(e) && PartialEval(e).Some?
    ensures Eval(PartialEval(e).value, t) == Eval(e, t)
    decreases e, 1
  {
    if e.Apply? {
      FoldAllExact(e.args, t);
      var args := PartialEvalAll(e.args).value;
      if AllConst(args) {
        ConstsEval(args, t);
      } else if |args| > 0 {
        FoldHead(e.args[0]);
      }
    }
  }

  lemma {:induction false} FoldAllExact(args: seq<Expr>, t: Tuple)
    requires NoneDoubleNegated(args) && PartialEvalAll(args).Some?
    ensures EvalAll(PartialEvalAll(args).value, t) == EvalAll(args, t)
    decreases args, 0
  {
    if |args| > 0 {
      FoldExact(args[0], t);
      FoldAllExact(args[1..], t);
    }
  }

  // ----- exactly when folding changes an outcome -----

  /** The operator takes one argument. */
  predicate UnaryNegations(e: Expr)
    decreases e, 1
  {
    e.Apply? ==> (e.op.Negate? ==> |e.args| == 1) && AllUnaryNegations(e.args)
  }

  predicate AllUnaryNegations(args: seq<Expr>)
    decreases args, 0
  {
    |args| == 0 || (UnaryNegations(args[0]) && AllUnaryNegations(args[1..]))
  }

  /** Folding drops a double negation whose operand has a value that is not a boolean. */
  predicate DropsCheck(e: Expr, t: Tuple)
    decreases e, 1
  {
    && e.Apply?
    && (|| DropsAnyCheck(e.args, t)
        || (match PartialEvalAll(e.args)
            case None => false
            case Some(args) =>
              && DoubleNegation(e.op, args)
              && Eval(args[0].args[0], t).Some? && !Eval(args[0].args[0], t).value.Bool?))
  }

  predicate DropsAnyCheck(args: seq<Expr>, t: Tuple)
    decreases args, 0
  {
    |args| > 0 && (DropsCheck(args[0], t) || DropsAnyCheck(args[1..], t))
  }

  lemma {:induction false} FoldKeepsUnary(e: Expr)
    requires UnaryNegations(e) && PartialEval(e).Some?
    ensures UnaryNegations(PartialEval(e).value)
    decreases e, 1
  {
    if e.Apply? {
      FoldAllKeepsUnary(e.args);
      var args := PartialEvalAll(e.args).value;
      if DoubleNegation(e.op, args) {
        assert UnaryNegations(args[0]) && AllUnaryNegations(args[0].args);
      }
    }
  }

  lemma {:induction false} FoldAllKeepsUnary(args: seq<Expr>)
    requires AllUnaryNegations(args) && PartialEvalAll(args).Some?
    ensures AllUnaryNegations(PartialEvalAll(args).value)
    decreases args, 0
  {
    if |args| > 0 {
      FoldKeepsUnary(args[0]);
      FoldAllKeepsUnary(args[1..]);
    }
  }

  /** The outcomes differ exactly when the folded form has a value and a check for a boolean was dropped. */
  lemma {:induction false} FoldExactIff(e: Expr, t: Tuple)
    requires UnaryNegations(e) && PartialEval(e).Some?
    ensures Eval(PartialEval(e).value, t) == Eval(e, t) <==>
            (Eval(PartialEval(e).value, t).Some? ==> !DropsCheck(e, t))
    decreases e, 1
  {
    if Eval(e, t).Some? {
      FoldPreserves(e, t);
    }
    if e.Apply? {
      FoldAllExactIff(e.args, t);
      FoldAllKeepsUnary(e.args);
      if EvalAll(e.args, t).Some? {
        FoldAllPreserves(e.args, t);
      }
      FoldedExactIff(e, PartialEvalAll(e.args).value, t);
    }
  }

  lemma {:induction false} FoldedExactIff(e: Expr, args: seq<Expr>, t: Tuple)
    requires UnaryNegations(e) && e.Apply? && PartialEvalAll(e.args) == Some(args) && Folded(e.op, args).Some?
    requires AllUnaryNegations(args)
    requires EvalAll(args, t) == EvalAll(e.args, t) <==> (EvalAll(args, t).Some? ==> !DropsAnyCheck(e.args, t))
    requires EvalAll(e.args, t).Some? ==> EvalAll(args, t) == EvalAll(e.args, t)
    requires Eval(e, t).Some? ==> Eval(Folded(e.op, args).value, t) == Eval(e, t)
    ensures Eval(Folded(e.op, args).value, t) == Eval(e, t) <==>
            (Eval(Folded(e.op, args).value, t).Some? ==> !DropsCheck(e, t))
  {
    if AllConst(args) {
      ConstsEval(args, t);
    } else if DoubleNegation(e.op, args) {
      var x := args[0].args[0];
      assert args == [args[0]] && args[0].args == [x];
      OneArg(args[0], t);
      OneArg(x, t);
    }
  }

  lemma {:induction false} FoldAllExactIff(args: seq<Expr>, t: Tuple)
    requires AllUnaryNegations(args) && PartialEvalAll(args).Some?
    ensures EvalAll(PartialEvalAll(args).value, t) == EvalAll(args, t) <==>
            (EvalAll(PartialEvalAll(args).value, t).Some? ==> !DropsAnyCheck(args, t))
    decreases args, 0
  {
    if EvalAll(args, t).Some? {
      FoldAllPreserves(args, t);
    }
    if |args| > 0 {
      FoldExactIff(args[0], t);
      FoldAllExactIff(args[1..], t);
      var a, rest := PartialEval(args[0]).value, PartialEvalAll(args[1..]).value;
      var folded := PartialEvalAll(args).value;
      assert folded == [a] + rest && folded[0] == a && folded[1..] == rest;
      if Eval(args[0], t).Some? {
        FoldPreserves(args[0], t);
      }
      if EvalAll(args[1..], t).Some? {
        FoldAllPreserves(args[1..], t);
      }
    }
  }

  // ----- exactly when folding fails -----

  /** Built from constants alone, without conditionals. */
  predicate Ground(e: Expr)
    decreases e, 1
  {
    e.Const? || (e.Apply? && AllGround(e.args))
  }

  predicate AllGround(args: seq<Expr>)
    decreases args, 0
  {
    |args| == 0 || (Ground(args[0]) && AllGround(args[1..]))
  }

  /** Some part built from constants raises. */
  predicate ConstantRaises(e: Expr)
    decreases e, 1
  {
    e.Apply? && (AnyConstantRaises(e.args) || (AllGround(e.args) && Eval(e, []).None?))
  }

  predicate AnyConstantRaises(args: seq<Expr>)
    decreases args, 0
  {
    |args| > 0 && (ConstantRaises(args[0]) || AnyConstantRaises(args[1..]))
  }

  /** Folding fails exactly if a constant part raises; what it turns into a constant is exactly what is ground. */
  lemma {:induction false} FoldFailsIff(e: Expr)
    requires UnaryNegations(e)
    ensures PartialEval(e).None? <==> ConstantRaises(e)
    ensures PartialEval(e).Some? ==> (PartialEval(e).value.Const? <==> Ground(e))
    ensures PartialEval(e).Some? && Ground(e) ==> Eval(e, []) == Some(PartialEval(e).value.val)
    decreases e, 1
  {
    if e.Apply? {
      FoldAllFailsIff(e.args);
      if PartialEvalAll(e.args).Some? {
        var args := PartialEvalAll(e.args).value;
        if DoubleNegation(e.op, args) {
          FoldNormalDrop(e, args);
        }
      }
    }
  }

  /** What a dropped double negation leaves is not a constant. */
  lemma {:induction false} FoldNormalDrop(e: Expr, args: seq<Expr>)
    requires UnaryNegations(e) && e.Apply? && PartialEvalAll(e.args) == Some(args) && DoubleNegation(e.op, args)
    ensures !AllConst(args) && !args[0].args[0].Const?
  {
    FoldAllNormal(e.args);
    FoldAllKeepsUnary(e.args);
    assert Normal(args[0]) && UnaryNegations(args[0]);
  }

  lemma {:induction false} FoldAllFailsIff(args: seq<Expr>)
    requires AllUnaryNegations(args)
    ensures PartialEvalAll(args).None? <==> AnyConstantRaises(args)
    ensures PartialEvalAll(args).Some? ==> (AllConst(PartialEvalAll(args).value) <==> AllGround(args))
    ensures PartialEvalAll(args).Some? && AllGround(args) ==>
              EvalAll(args, []) == Some(ConstValues(PartialEvalAll(args).value))
    decreases args, 0
  {
    if |args| > 0 {
      FoldFailsIff(args[0]);
      FoldAllFailsIff(args[1..]);
      if PartialEvalAll(args).Some? {
        var a, rest := PartialEval(args[0]).value, PartialEvalAll(args[1..]).value;
        assert PartialEvalAll(args).value == [a] + rest;
        AllConstCons(a, rest);
        if AllGround(args) {
          assert ConstValues([a] + rest) == [a.val] + ConstValues(rest);
        }
      }
    }
  }

  lemma {:induction false} AllConstCons(x: Expr, xs: seq<Expr>)
    ensures AllConst([x] + xs) <==> x.Const? && AllConst(xs)
  {
    assert ([x] + xs)[0] == x;
    assert forall i | 0 <= i < |xs| :: ([x] + xs)[i + 1] == xs[i];
  }
}
