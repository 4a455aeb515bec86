/** Exactly when the machine agrees with evaluation, and why parsed expressions always do. */
module BytecodeLimits {
  import opened Values
  import opened Expressions
  import opened Bytecodes

  /** The run from `pc` does not produce a value, or it comes by `pc'` with at most `bound` values on the stack. */
  ghost predicate Passes(code: seq<Code>, t: Tuple, pc: nat, st: seq<Value>, pc': nat, bound: int) {
    || !Exec(code, t, pc, st).Ok?
    || exists st' :: |st'| <= bound && Exec(code, t, pc, st) == Exec(code, t, pc', st')
  }

  lemma {:induction false} Chain(code: seq<Code>, t: Tuple, pc: nat, st: seq<Value>, mid: nat, bound: int, pc': nat,
        bound': int)
    requires Passes(code, t, pc, st, mid, bound)
    requires forall st' | |st'| <= bound :: Passes(code, t, mid, st', pc', bound')
    ensures Passes(code, t, pc, st, pc', bound')
  {
    hide Exec;
    if Exec(code, t, pc, st).Ok? {
      var st' :| |st'| <= bound && Exec(code, t, pc, st) == Exec(code, t, mid, st');
      assert Passes(code, t, mid, st', pc', bound');
    }
  }

  lemma {:induction false} Lands(code: seq<Code>, t: Tuple, pc: nat, st: seq<Value>, pc': nat, st': seq<Value>)
    requires Exec(code, t, pc, st) == Exec(code, t, pc', st')
    ensures Passes(code, t, pc, st, pc', |st'|)
  {
  }

  lemma {:induction false} GotoPasses(code: seq<Code>, t: Tuple, at: nat, bound: int, target: nat)
    requires at < |code| && code[at] == Goto(target) && at < target
    ensures forall s: seq<Value> | |s| <= bound :: Passes(code, t, at, s, target, bound)
  {
    forall s: seq<Value> | |s| <= bound ensures Passes(code, t, at, s, target, bound) {
      Lands(code, t, at, s, target, s);
      Weaken(code, t, at, s, target, |s|, bound);
    }
  }

  lemma {:induction false} LeafPasses(e: Expr, code: seq<Code>, base: nat, t: Tuple, st: seq<Value>)
    requires (e.Binding? || e.Const?) && At(code, base, Compile(e, base))
    ensures Passes(code, t, base, st, base + Len(e), |st| + 1)
  {
    hide Exec, Compile, At;
    LeafStep(e, code, base, t, st);
    if Eval(e, t).Some? {
      Lands(code, t, base, st, base + Len(e), st + [Eval(e, t).value]);
    }
  }

  /** Whatever is on the stack, a piece of compiled code leaves at most one value more. */
  lemma {:induction false} AtMostOneMore(e: Expr, code: seq<Code>, base: nat, t: Tuple, st: seq<Value>)
    requires Compiles(e) && At(code, base, Compile(e, base))
    ensures Passes(code, t, base, st, base + Len(e), |st| + 1)
    decreases e, 1
  {
    hide Exec, Compile, CompileAll, At, Passes;
    match e {
      case Binding(_, _) =>
        LeafPasses(e, code, base, t, st);
      case Const(_) =>
        LeafPasses(e, code, base, t, st);
      case Apply(op, args) =>
        ApplyParts(code, base, op, args);
        AtMostAllMore(args, code, base, t, st);
        CallAfter(code, t, base, st, base + LenAll(args), op, |args|, |st| + |args|);
      case Cond(clauses) =>
        CondParts(code, base, clauses);
        AtMostOneChosen(clauses, code, base, base + LenClauses(clauses), t, st);
      case Unbound =>
    }
  }

  lemma {:induction false} CallAfter(code: seq<Code>, t: Tuple, pc: nat, st: seq<Value>, at: nat, op: Op, arity: nat,
        bound: int)
    requires Passes(code, t, pc, st, at, bound) && at < |code| && code[at] == Call(op, arity)
    ensures Passes(code, t, pc, st, at + 1, bound - arity + 1)
  {
    forall s: seq<Value> | |s| <= bound ensures Passes(code, t, at, s, at + 1, bound - arity + 1) {
      if arity <= |s| && RunOp(op, s[|s| - arity..]).Some? {
        var s' := s[..|s| - arity] + [RunOp(op, s[|s| - arity..]).value];
        assert Exec(code, t, at, s) == Exec(code, t, at + 1, s');
        assert |s'| <= bound - arity + 1;
      }
    }
    Chain(code, t, pc, st, at, bound, at + 1, bound - arity + 1);
  }

  lemma {:induction false} AtMostAllMore(args: seq<Expr>, code: seq<Code>, base: nat, t: Tuple, st: seq<Value>)
    requires AllCompile(args) && At(code, base, CompileAll(args, base))
    ensures Passes(code, t, base, st, base + LenAll(args), |st| + |args|)
    decreases args, 0
  {
    hide Exec, Compile, CompileAll, At;
    if |args| == 0 {
      Lands(code, t, base, st, base, st);
    } else {
      var next := base + Len(args[0]);
      ArgsParts(code, base, args);
      AtMostOneMore(args[0], code, base, t, st);
      forall s: seq<Value> | |s| <= |st| + 1 ensures Passes(code, t, next, s, base + LenAll(args), |st| + |args|) {
        AtMostAllMore(args[1..], code, next, t, s);
        Weaken(code, t, next, s, base + LenAll(args), |s| + |args| - 1, |st| + |args|);
      }
      Chain(code, t, base, st, next, |st| + 1, base + LenAll(args), |st| + |args|);
    }
  }

  lemma {:induction false} Weaken(code: seq<Code>, t: Tuple, pc: nat, st: seq<Value>, pc': nat, bound: int, bound': int)
    requires Passes(code, t, pc, st, pc', bound) && bound <= bound'
    ensures Passes(code, t, pc, st, pc', bound')
  {
    hide Exec;
  }

  lemma {:induction false} AtMostOneChosen(cs: seq<Clause>, code: seq<Code>, base: nat, end: nat, t: Tuple,
        st: seq<Value>)
    requires ClausesCompile(cs) && end == base + LenClauses(cs) && At(code, base, CompileClauses(cs, base, end))
    ensures Passes(code, t, base, st, end, |st| + 1)
    decreases cs, 0, 1
  {
    hide Exec, Compile, CompileClauses, At, Passes;
    if |cs| == 0 {
      Lands(code, t, base, st, end, st);
      Weaken(code, t, base, st, end, |st|, |st| + 1);
    } else {
      ClausesParts(code, base, cs, end);
      AtMostOneIf(cs[0], code, base, t, st);
      forall s: seq<Value> | |s| <= |st| + 1 ensures Passes(code, t, base + Len(cs[0].cond), s, end, |st| + 1) {
        ClauseGarbage(cs, code, base, end, t, s);
        Weaken(code, t, base + Len(cs[0].cond), s, end, |s|, |st| + 1);
      }
      Chain(code, t, base, st, base + Len(cs[0].cond), |st| + 1, end, |st| + 1);
    }
  }

  lemma {:induction false} AtMostOneIf(c: Clause, code: seq<Code>, base: nat, t: Tuple, st: seq<Value>)
    requires ClauseCompiles(c) && At(code, base, Compile(c.cond, base))
    ensures Passes(code, t, base, st, base + Len(c.cond), |st| + 1)
    decreases c, 0
  {
    AtMostOneMore(c.cond, code, base, t, st);
  }

  lemma {:induction false} AtMostOneThen(c: Clause, code: seq<Code>, base: nat, t: Tuple, st: seq<Value>)
    requires ClauseCompiles(c) && At(code, base, Compile(c.val, base))
    ensures Passes(code, t, base, st, base + Len(c.val), |st| + 1)
    decreases c, 0
  {
    AtMostOneMore(c.val, code, base, t, st);
  }

  /** From the first clause's jump on: whichever way it goes, the rest leaves the stack no longer. */
  lemma {:induction false} ClauseGarbage(cs: seq<Clause>, code: seq<Code>, base: nat, end: nat, t: Tuple, s: seq<Value>)
    requires |cs| > 0 && ClausesCompile(cs) && end == base + LenClauses(cs)
    requires At(code, base, CompileClauses(cs, base, end))
    ensures Passes(code, t, base + Len(cs[0].cond), s, end, |s|)
    decreases cs, 0, 0
  {
    hide Exec, Compile, CompileClauses, At;
    var c, next, jump := cs[0], base + LenClause(cs[0]), base + Len(cs[0].cond);
    ClausesParts(code, base, cs, end);
    JumpStep(code, t, jump, s, next);
    if |s| > 0 && s[|s| - 1].Bool? {
      var rest, done := s[..|s| - 1], jump + 1 + Len(c.val);
      if s[|s| - 1].b {
        AtMostOneThen(c, code, jump + 1, t, rest);
        GotoPasses(code, t, done, |s|, end);
        Chain(code, t, jump + 1, rest, done, |s|, end, |s|);
      } else {
        AtMostOneChosen(cs[1..], code, next, end, t, rest);
      }
    }
  }

  // ----- a conditional without a true clause -----

  /** When evaluation falls through a conditional, a value is missing from the stack from then on. */
  lemma {:induction false} OneShort(e: Expr, code: seq<Code>, base: nat, t: Tuple, st: seq<Value>)
    requires Compiles(e) && At(code, base, Compile(e, base)) && Falls(e, t)
    ensures Passes(code, t, base, st, base + Len(e), |st|)
    decreases e, 1
  {
    hide Exec, Compile, CompileAll, At, Passes;
    match e {
      case Apply(op, args) =>
        ApplyParts(code, base, op, args);
        AllShort(args, code, base, t, st);
        CallAfter(code, t, base, st, base + LenAll(args), op, |args|, |st| + |args| - 1);
      case Cond(clauses) =>
        CondParts(code, base, clauses);
        ClausesShort(clauses, code, base, base + LenClauses(clauses), t, st);
      case _ =>
    }
  }

  lemma {:induction false} AllShort(args: seq<Expr>, code: seq<Code>, base: nat, t: Tuple, st: seq<Value>)
    requires AllCompile(args) && At(code, base, CompileAll(args, base)) && FallsAny(args, t)
    ensures Passes(code, t, base, st, base + LenAll(args), |st| + |args| - 1)
    decreases args, 0
  {
    hide Exec, Compile, CompileAll, At;
    var next, end := base + Len(args[0]), base + LenAll(args);
    ArgsParts(code, base, args);
    if Falls(args[0], t) {
      OneShort(args[0], code, base, t, st);
      forall s: seq<Value> | |s| <= |st| ensures Passes(code, t, next, s, end, |st| + |args| - 1) {
        AtMostAllMore(args[1..], code, next, t, s);
        Weaken(code, t, next, s, end, |s| + |args| - 1, |st| + |args| - 1);
      }
      Chain(code, t, base, st, next, |st|, end, |st| + |args| - 1);
    } else {
      Runs(args[0], code, base, t, st);
      AllShort(args[1..], code, next, t, st + [Eval(args[0], t).value]);
    }
  }

  lemma {:induction false} ClausesShort(cs: seq<Clause>, code: seq<Code>, base: nat, end: nat, t: Tuple, st: seq<Value>)
    requires ClausesCompile(cs) && end == base + LenClauses(cs) && At(code, base, CompileClauses(cs, base, end))
    requires FallsThrough(cs, t)
    ensures Passes(code, t, base, st, end, |st|)
    decreases cs, 0, 1
  {
    hide Exec, Compile, CompileClauses, At, Passes;
    if |cs| == 0 {
      Lands(code, t, base, st, end, st);
    } else {
      var c, next, jump := cs[0], base + LenClause(cs[0]), base + Len(cs[0].cond);
      ClausesParts(code, base, cs, end);
      if FallsIf(c, t) {
        IfShort(c, code, base, t, st);
        ClausesGarbage(cs, code, base, end, t, |st|);
        Chain(code, t, base, st, jump, |st|, end, |st|);
      } else {
        ChosenShort(cs, code, base, end, t, st);
      }
    }
  }

  lemma {:induction false} ClausesGarbage(cs: seq<Clause>, code: seq<Code>, base: nat, end: nat, t: Tuple, bound: nat)
    requires |cs| > 0 && ClausesCompile(cs) && end == base + LenClauses(cs)
    requires At(code, base, CompileClauses(cs, base, end))
    ensures forall s: seq<Value> | |s| <= bound :: Passes(code, t, base + Len(cs[0].cond), s, end, bound)
  {
    hide Exec, CompileClauses, At;
    forall s: seq<Value> | |s| <= bound ensures Passes(code, t, base + Len(cs[0].cond), s, end, bound) {
      ClauseGarbage(cs, code, base, end, t, s);
      Weaken(code, t, base + Len(cs[0].cond), s, end, |s|, bound);
    }
  }

  /** The first condition evaluates; the clause chosen by it falls through. */
  lemma {:induction false} ChosenShort(cs: seq<Clause>, code: seq<Code>, base: nat, end: nat, t: Tuple, st: seq<Value>)
    requires |cs| > 0 && ClausesCompile(cs) && end == base + LenClauses(cs)
    requires At(code, base, CompileClauses(cs, base, end)) && FallsThrough(cs, t) && !FallsIf(cs[0], t)
    ensures Passes(code, t, base, st, end, |st|)
    decreases cs, 0, 0
  {
    hide Exec, Compile, CompileClauses, At;
    var c, next, jump := cs[0], base + LenClause(cs[0]), base + Len(cs[0].cond);
    ClausesParts(code, base, cs, end);
    var b := EvalIf(c, t).value.b;
    RunsIf(c, code, base, t, st);
    JumpStep(code, t, jump, st + [Bool(b)], next);
    assert (st + [Bool(b)])[..|st|] == st;
    if b {
      ThenShort(c, code, jump + 1, t, st);
      GotoPasses(code, t, jump + 1 + Len(c.val), |st|, end);
      Chain(code, t, jump + 1, st, jump + 1 + Len(c.val), |st|, end, |st|);
    } else {
      ClausesShort(cs[1..], code, next, end, t, st);
    }
  }

  lemma {:induction false} IfShort(c: Clause, code: seq<Code>, base: nat, t: Tuple, st: seq<Value>)
    requires ClauseCompiles(c) && At(code, base, Compile(c.cond, base)) && FallsIf(c, t)
    ensures Passes(code, t, base, st, base + Len(c.cond), |st|)
    decreases c, 0
  {
    OneShort(c.cond, code, base, t, st);
  }

  lemma {:induction false} ThenShort(c: Clause, code: seq<Code>, base: nat, t: Tuple, st: seq<Value>)
    requires ClauseCompiles(c) && At(code, base, Compile(c.val, base)) && FallsThen(c, t)
    ensures Passes(code, t, base, st, base + Len(c.val), |st|)
    decreases c, 0
  {
    OneShort(c.val, code, base, t, st);
  }

  // ----- the whole program -----

  lemma {:induction false} AtEnd(code: seq<Code>, t: Tuple)
    ensures Exec(code, t, |code|, []) == Crash && forall v :: Exec(code, t, |code|, [v]) == Ok(v)
  {
  }

  /** Where evaluation yields a value, the compiled code yields it too, exactly unless evaluation falls through. */
  lemma {:induction false} AgreesIff(e: Expr, t: Tuple)
    requires Compiles(e)
    ensures Exec(Compile(e, 0), t, 0, []).Ok? ==> Eval(e, t) == Some(Exec(Compile(e, 0), t, 0, []).val)
    ensures Eval(e, t).Some? ==> (Exec(Compile(e, 0), t, 0, []) == Ok(Eval(e, t).value) <==> !Falls(e, t))
    ensures !Falls(e, t) && Eval(e, t).None? ==> Exec(Compile(e, 0), t, 0, []) == Raised
  {
    hide Exec, Compile, Eval, Falls;
    var code := Compile(e, 0);
    assert code[0..0 + |code|] == code;
    AtEnd(code, t);
    if Falls(e, t) {
      OneShort(e, code, 0, t, []);
    } else {
      Runs(e, code, 0, t, []);
      if Eval(e, t).Some? {
        assert [] + [Eval(e, t).value] == [Eval(e, t).value];
      }
    }
  }

  /** A conditional whose only condition is false: evaluation gives null, the machine has nothing to return. */
  lemma {:induction false} FallingCond()
    ensures var e := Cond([Clause(Const(Bool(false)), Const(Bot))]);
            Compiles(e) && Eval(e, []) == Some(Null) && !Exec(Compile(e, 0), [], 0, []).Ok?
  {
    hide Exec, Compile;
    var cs := [Clause(Const(Bool(false)), Const(Bot))];
    var e := Cond(cs);
    assert cs[1..] == [] && EvalIf(cs[0], []) == Some(Bool(false));
    assert FallsThrough(cs[1..], []) && FallsThrough(cs, []);
    assert EvalClauses(cs[1..], []) == Some(Null) && ClausesCompile(cs[1..]);
    AgreesIff(e, []);
  }

  // ----- what the parser builds -----

  predicate IsTrue(e: Expr) {
    e.Const? && e.val == Bool(true)
  }

  /** Every conditional ends with a clause whose condition is the constant `true`. */
  predicate Closed(e: Expr)
    decreases e, 1
  {
    match e
    case Apply(_, args) => AllClosed(args)
    case Cond(cs) => |cs| > 0 && IsTrue(cs[|cs| - 1].cond) && ClausesClosed(cs)
    case _ => true
  }

  predicate AllClosed(args: seq<Expr>)
    decreases args, 0
  {
    |args| == 0 || (Closed(args[0]) && AllClosed(args[1..]))
  }

  predicate ClausesClosed(cs: seq<Clause>)
    decreases cs, 0
  {
    |cs| == 0 || (ClauseClosed(cs[0]) && ClausesClosed(cs[1..]))
  }

  predicate ClauseClosed(c: Clause)
    decreases c, 0
  {
    Closed(c.cond) && Closed(c.val)
  }

  lemma {:induction false} ClosedNeverFalls(e: Expr, t: Tuple)
    requires Closed(e)
    ensures !Falls(e, t)
    decreases e, 1
  {
    match e {
      case Apply(_, args) => ClosedArgs(args, t);
      case Cond(cs) => ClosedClauses(cs, t);
      case _ =>
    }
  }

  lemma {:induction false} ClosedArgs(args: seq<Expr>, t: Tuple)
    requires AllClosed(args)
    ensures !FallsAny(args, t)
    decreases args, 0
  {
    if |args| > 0 {
      ClosedNeverFalls(args[0], t);
      ClosedArgs(args[1..], t);
    }
  }

  lemma {:induction false} ClosedClauses(cs: seq<Clause>, t: Tuple)
    requires |cs| > 0 && IsTrue(cs[|cs| - 1].cond) && ClausesClosed(cs)
    ensures !FallsThrough(cs, t)
    decreases cs, 0
  {
    ClosedClause(cs[0], t);
    assert EvalIf(cs[|cs| - 1], t) == Some(Bool(true));
    if |cs| > 1 {
      ClosedClauses(cs[1..], t);
    }
  }

  lemma {:induction false} ClosedClause(c: Clause, t: Tuple)
    requires ClauseClosed(c)
    ensures !FallsIf(c, t) && !FallsThen(c, t)
    decreases c, 0
  {
    ClosedNeverFalls(c.cond, t);
    ClosedNeverFalls(c.val, t);
  }

  /** `cond(c1, v1, c2, v2, ...)`: a null is put before an odd last argument, and a catch-all is added. */
  function BuildCond(args: seq<Expr>): Option<Expr> {
    if |args| == 0 then None
    else
      var cs := Pairs(Evened(args));
      Some(Cond(if IsTrue(cs[|cs| - 1].cond) then cs else cs + [Clause(Const(Bool(true)), Const(Null))]))
  }

  /** `if(c, v)` and `if(c, v, w)`: the second clause always applies. */
  function BuildIf(args: seq<Expr>): Option<Expr> {
    if |args| != 2 && |args| != 3 then None
    else
      var otherwise := if |args| == 3 then args[2] else Const(Null);
      Some(Cond([Clause(args[0], args[1]), Clause(Const(Bool(true)), otherwise)]))
  }

  function Evened(args: seq<Expr>): (r: seq<Expr>)
    requires |args| > 0
    ensures |r| % 2 == 0 && |r| > 0
  {
    var n := |args|;
    if n % 2 == 1 then args[..n - 1] + [Const(Null)] + args[n - 1..] else args
  }

  function Pairs(args: seq<Expr>): (cs: seq<Clause>)
    requires |args| % 2 == 0
    ensures |cs| == |args| / 2
  {
    if |args| == 0 then [] else [Clause(args[0], args[1])] + Pairs(args[2..])
  }

  lemma {:induction false} PairsClosed(args: seq<Expr>)
    requires |args| % 2 == 0 && AllClosed(args)
    ensures ClausesClosed(Pairs(args))
  {
    if |args| > 0 {
      assert AllClosed(args[1..]) && args[1..][0] == args[1] && args[1..][1..] == args[2..];
      PairsClosed(args[2..]);
    }
  }

  lemma {:induction false} ClosedConcat(a: seq<Expr>, b: seq<Expr>)
    ensures AllClosed(a + b) <==> AllClosed(a) && AllClosed(b)
  {
    if |a| == 0 {
      assert a + b == b;
    } else {
      assert (a + b)[0] == a[0] && (a + b)[1..] == a[1..] + b;
      ClosedConcat(a[1..], b);
    }
  }

  lemma {:induction false} ClausesSnoc(cs: seq<Clause>, c: Clause)
    requires ClausesClosed(cs) && ClauseClosed(c)
    ensures ClausesClosed(cs + [c])
  {
    if |cs| == 0 {
      assert cs + [c] == [c];
    } else {
      assert (cs + [c])[0] == cs[0] && (cs + [c])[1..] == cs[1..] + [c];
      ClausesSnoc(cs[1..], c);
    }
  }

  /** Conditionals as parsed are closed, so code compiled from a parsed expression agrees with evaluation. */
  lemma {:induction false} ParsedClosed(args: seq<Expr>)
    requires AllClosed(args)
    ensures BuildCond(args).Some? ==> Closed(BuildCond(args).value)
    ensures BuildIf(args).Some? ==> Closed(BuildIf(args).value)
  {
    hide AllClosed, Pairs;
    if |args| > 0 {
      EvenedClosed(args);
      PairsClosed(Evened(args));
      ClausesSnoc(Pairs(Evened(args)), Clause(Const(Bool(true)), Const(Null)));
    }
    if BuildIf(args).Some? {
      IfClosed(args);
    }
  }

  lemma {:induction false} IfClosed(args: seq<Expr>)
    requires AllClosed(args) && BuildIf(args).Some?
    ensures Closed(BuildIf(args).value)
  {
    assert AllClosed(args[1..]) && args[1..][0] == args[1] && args[1..][1..] == args[2..];
    assert AllClosed(args[2..]) && (|args| == 3 ==> args[2..][0] == args[2]);
    var first, second := BuildIf(args).value.clauses[0], BuildIf(args).value.clauses[1];
    var cs, last := [first, second], [second];
    assert cs[1..] == last && last[1..] == [];
    assert ClauseClosed(first) && ClauseClosed(second);
    assert ClausesClosed(last[1..]);
    assert ClausesClosed(last);
  }

  // ----- what the built conditionals mean -----

  /**
    * The pairs of `cond` in order: the value at the first true condition, null if there is none. An odd last argument
    * is no default: it stands behind a null condition, so reaching it is an error.
    */
  function CondValue(args: seq<Expr>, t: Tuple): Option<Value>
    decreases |args|
  {
    if |args| == 0 then Some(Null)
    else if |args| == 1 then None
    else
      match Eval(args[0], t)
      case Some(Bool(b)) => if b then Eval(args[1], t) else CondValue(args[2..], t)
      case _ => None
  }

  lemma {:induction false} PairsMean(args: seq<Expr>, t: Tuple, rest: seq<Clause>)
    requires |args| % 2 == 0 && EvalClauses(rest, t) == Some(Null)
    ensures EvalClauses(Pairs(args) + rest, t) == CondValue(args, t)
    decreases |args|
  {
    hide Eval;
    if |args| == 0 {
      assert Pairs(args) + rest == rest;
    } else {
      var c, cs := Clause(args[0], args[1]), Pairs(args) + rest;
      assert cs[0] == c && cs[1..] == Pairs(args[2..]) + rest;
      assert EvalIf(c, t) == Eval(args[0], t) && EvalThen(c, t) == Eval(args[1], t);
      PairsMean(args[2..], t, rest);
    }
  }

  lemma {:induction false} EvenedMeans(args: seq<Expr>, t: Tuple)
    requires |args| > 0
    ensures CondValue(Evened(args), t) == CondValue(args, t)
    decreases |args|
  {
    hide Eval;
    if |args| == 1 {
      NullCondition(t);
      assert Evened(args) == [Const(Null), args[0]];
    } else if |args| > 2 {
      assert Evened(args)[0] == args[0] && Evened(args)[1] == args[1] && Evened(args)[2..] == Evened(args[2..]);
      EvenedMeans(args[2..], t);
    }
  }

  lemma {:induction false} NullCondition(t: Tuple)
    ensures Eval(Const(Null), t) == Some(Null)
  {
  }

  lemma {:induction false} CatchAll(t: Tuple)
    ensures EvalClauses([], t) == Some(Null) && EvalClauses([Clause(Const(Bool(true)), Const(Null))], t) == Some(Null)
  {
    var c := Clause(Const(Bool(true)), Const(Null));
    assert EvalIf(c, t) == Some(Bool(true)) && EvalThen(c, t) == Some(Null);
  }

  /** `cond` evaluates to the value of its pairs. */
  lemma {:induction false} CondMeans(args: seq<Expr>, t: Tuple)
    requires |args| > 0
    ensures BuildCond(args).Some? && Eval(BuildCond(args).value, t) == CondValue(args, t)
  {
    hide CondValue;
    var cs, all := Pairs(Evened(args)), [Clause(Const(Bool(true)), Const(Null))];
    CatchAll(t);
    EvenedMeans(args, t);
    PairsMean(Evened(args), t, []);
    PairsMean(Evened(args), t, all);
    assert cs + [] == cs;
  }

  /** `if` evaluates one of its branches, the second being null if it is not given. */
  lemma {:induction false} IfMeans(args: seq<Expr>, t: Tuple)
    requires |args| == 2 || |args| == 3
    ensures BuildIf(args).Some? && Eval(BuildIf(args).value, t) ==
            match Eval(args[0], t)
            case Some(Bool(b)) => if b then Eval(args[1], t) else if |args| == 3 then Eval(args[2], t) else Some(Null)
            case _ => None
  {
    var cs := BuildIf(args).value.clauses;
    assert EvalIf(cs[0], t) == Eval(args[0], t) && EvalThen(cs[0], t) == Eval(args[1], t);
    assert EvalIf(cs[1], t) == Some(Bool(true)) && cs[1..][0] == cs[1];
    assert EvalThen(cs[1], t) == if |args| == 3 then Eval(args[2], t) else Some(Null);
    assert EvalClauses(cs[1..], t) == EvalThen(cs[1], t);
  }

  lemma {:induction false} OneClosed(e: Expr)
    requires Closed(e)
    ensures AllClosed([e])
  {
    var args := [e];
    assert args[1..] == [];
  }

  lemma {:induction false} EvenedClosed(args: seq<Expr>)
    requires |args| > 0 && AllClosed(args)
    ensures AllClosed(Evened(args))
  {
    hide AllClosed;
    var n := |args|;
    var init, last, gap := args[..n - 1], args[n - 1..], [Const(Null)];
    assert args == init + last;
    OneClosed(Const(Null));
    ClosedConcat(init, last);
    ClosedConcat(init + gap, last);
    ClosedConcat(init, gap);
  }

  lemma {:induction false} ParsedAgrees(e: Expr, t: Tuple)
    requires Compiles(e) && Closed(e)
    ensures Exec(Compile(e, 0), t, 0, []) == match Eval(e, t) case Some(v) => Ok(v) case None => Raised
  {
    ClosedNeverFalls(e, t);
    AgreesIff(e, t);
  }
}
