/** Compilation of expressions to stack code, and the machine that runs it. */
module Bytecodes {
  import opened Values
  import opened Expressions

  datatype Code =
    | Load(pos: Option<nat>)
    | Push(val: Value)
    | Call(op: Op, arity: nat)
    | JumpIfFalse(target: nat)
    | Goto(target: nat)

  // ----- compilation -----

  predicate Compiles(e: Expr)
    decreases e, 1
  {
    match e
    case Apply(_, args) => AllCompile(args)
    case Cond(clauses) => ClausesCompile(clauses)
    case Unbound => false
    case _ => true
  }

  predicate AllCompile(args: seq<Expr>)
    decreases args, 0
  {
    |args| == 0 || (Compiles(args[0]) && AllCompile(args[1..]))
  }

  predicate ClausesCompile(cs: seq<Clause>)
    decreases cs, 0
  {
    |cs| == 0 || (ClauseCompiles(cs[0]) && ClausesCompile(cs[1..]))
  }

  predicate ClauseCompiles(c: Clause)
    decreases c, 0
  {
    Compiles(c.cond) && Compiles(c.val)
  }

  function Len(e: Expr): nat
    decreases e, 1
  {
    match e
    case Apply(_, args) => LenAll(args) + 1
    case Cond(clauses) => LenClauses(clauses)
    case _ => 1
  }

  function LenAll(args: seq<Expr>): nat
    decreases args, 0
  {
    if |args| == 0 then 0 else Len(args[0]) + LenAll(args[1..])
  }

  function LenClauses(cs: seq<Clause>): nat
    decreases cs, 0
  {
    if |cs| == 0 then 0 else LenClause(cs[0]) + LenClauses(cs[1..])
  }

  function LenClause(c: Clause): nat
    decreases c, 0
  {
    Len(c.cond) + Len(c.val) + 2
  }

  /** The code of an expression placed at `base`; jump targets are absolute. */
  function Compile(e: Expr, base: nat): (code: seq<Code>)
    requires Compiles(e)
    ensures |code| == Len(e)
    decreases e, 1
  {
    match e
    case Binding(_, pos) => [Load(pos)]
    case Const(val) => [Push(val)]
    case Apply(op, args) => CompileAll(args, base) + [Call(op, |args|)]
    case Cond(clauses) => CompileClauses(clauses, base, base + LenClauses(clauses))
  }

  function CompileAll(args: seq<Expr>, base: nat): (code: seq<Code>)
    requires AllCompile(args)
    ensures |code| == LenAll(args)
    decreases args, 0
  {
    if |args| == 0 then [] else Compile(args[0], base) + CompileAll(args[1..], base + Len(args[0]))
  }

  function CompileClauses(cs: seq<Clause>, base: nat, end: nat): (code: seq<Code>)
    requires ClausesCompile(cs)
    ensures |code| == LenClauses(cs)
    decreases cs, 0
  {
    if |cs| == 0 then []
    else CompileClause(cs[0], base, end) + CompileClauses(cs[1..], base + LenClause(cs[0]), end)
  }

  function CompileClause(c: Clause, base: nat, end: nat): (code: seq<Code>)
    requires ClauseCompiles(c)
    ensures |code| == LenClause(c)
    decreases c, 0
  {
    var n := base + Len(c.cond);
    (Compile(c.cond, base) + [JumpIfFalse(base + LenClause(c))]) + (Compile(c.val, n + 1) + [Goto(end)])
  }

  // ----- the machine -----

  /** A value, an error, or a panic of the machine itself. */
  datatype Outcome = Ok(val: Value) | Raised | Crash

  /** Runs from `pc`; a jump that does not go forward is not produced by the compiler and counts as a crash. */
  function Exec(code: seq<Code>, t: Tuple, pc: nat, stack: seq<Value>): Outcome
    decreases |code| - pc
  {
    var n := |stack|;
    if pc > |code| then Crash
    else if pc == |code| then (if n == 0 then Crash else Ok(stack[n - 1]))
    else
      match code[pc]
      case Load(pos) =>
        if pos.Some? && pos.value < |t| then Exec(code, t, pc + 1, stack + [t[pos.value]]) else Raised
      case Push(val) => Exec(code, t, pc + 1, stack + [val])
      case Call(op, arity) =>
        if arity > n then Crash
        else
          (match RunOp(op, stack[n - arity..])
           case None => Raised
           case Some(r) => Exec(code, t, pc + 1, stack[..n - arity] + [r]))
      case JumpIfFalse(target) =>
        if n == 0 || target <= pc then Crash
        else
          (match stack[n - 1]
           case Bool(b) => Exec(code, t, if b then pc + 1 else target, stack[..n - 1])
           case _ => Raised)
      case Goto(target) => if target <= pc then Crash else Exec(code, t, target, stack)
  }

  predicate Forward(code: seq<Code>) {
    forall i | 0 <= i < |code| ::
      match code[i] case JumpIfFalse(target) => i < target case Goto(target) => i < target case _ => true
  }

  /** The interpreter loop over a mutable stack. */
  method EvalBytecode(code: seq<Code>, t: Tuple) returns (r: Outcome)
    requires Forward(code)
    ensures r == Exec(code, t, 0, [])
  {
    var stack: seq<Value> := [];
    var pointer := 0;
    while pointer < |code|
      invariant Exec(code, t, 0, []) == Exec(code, t, pointer, stack)
      decreases |code| - pointer
    {
      match code[pointer] {
        case Load(pos) =>
          if pos.None? || pos.value >= |t| {
            return Raised;
          }
          stack := stack + [t[pos.value]];
          pointer := pointer + 1;
        case Push(val) =>
          stack := stack + [val];
          pointer := pointer + 1;
        case Call(op, arity) =>
          if arity > |stack| {
            return Crash;
          }
          var frame := |stack| - arity;
          var result := RunOp(op, stack[frame..]);
          if result.None? {
            return Raised;
          }
          stack := stack[..frame] + [result.value];
          pointer := pointer + 1;
        case JumpIfFalse(target) =>
          if |stack| == 0 {
            return Crash;
          }
          var val := stack[|stack| - 1];
          stack := stack[..|stack| - 1];
          if !val.Bool? {
            return Raised;
          }
          pointer := if val.b then pointer + 1 else target;
        case Goto(target) =>
          pointer := target;
      }
    }
    return if pointer > |code| || |stack| == 0 then Crash else Ok(stack[|stack| - 1]);
  }

  // ----- agreement -----

  /** Evaluation meets a conditional none of whose conditions is true. */
  predicate Falls(e: Expr, t: Tuple)
    decreases e, 1
  {
    match e
    case Apply(_, args) => FallsAny(args, t)
    case Cond(clauses) => FallsThrough(clauses, t)
    case _ => false
  }

  predicate FallsAny(args: seq<Expr>, t: Tuple)
    decreases args, 0
  {
    |args| > 0 && (Falls(args[0], t) || (Eval(args[0], t).Some? && FallsAny(args[1..], t)))
  }

  predicate FallsThrough(cs: seq<Clause>, t: Tuple)
    decreases cs, 0
  {
    |cs| == 0 || FallsIf(cs[0], t) ||
    match EvalIf(cs[0], t)
    case Some(Bool(b)) => if b then FallsThen(cs[0], t) else FallsThrough(cs[1..], t)
    case _ => false
  }

  predicate FallsIf(c: Clause, t: Tuple)
    decreases c, 0
  {
    Falls(c.cond, t)
  }

  predicate FallsThen(c: Clause, t: Tuple)
    decreases c, 0
  {
    Falls(c.val, t)
  }

  /** `frag` stands in `code` at `base`. */
  ghost predicate At(code: seq<Code>, base: nat, frag: seq<Code>) {
    base + |frag| <= |code| && code[base..base + |frag|] == frag
  }

  lemma {:induction false} AtSplit(code: seq<Code>, base: nat, a: seq<Code>, b: seq<Code>)
    requires At(code, base, a + b)
    ensures At(code, base, a) && At(code, base + |a|, b)
  {
    var all := code[base..base + |a + b|];
    assert code[base..base + |a|] == all[..|a|] && code[base + |a|..base + |a| + |b|] == all[|a|..];
    assert (a + b)[..|a|] == a && (a + b)[|a|..] == b;
  }

  lemma {:induction false} AtOne(code: seq<Code>, base: nat, c: Code)
    requires At(code, base, [c])
    ensures base < |code| && code[base] == c
  {
    assert code[base..base + 1][0] == c;
  }

  /** Where the parts of a clause's code stand. */
  lemma {:induction false} AtClause(code: seq<Code>, base: nat, c: Clause, end: nat)
    requires ClauseCompiles(c) && At(code, base, CompileClause(c, base, end))
    ensures var n := base + Len(c.cond);
            && At(code, base, Compile(c.cond, base))
            && n < |code| && code[n] == JumpIfFalse(base + LenClause(c))
            && At(code, n + 1, Compile(c.val, n + 1))
            && n + 1 + Len(c.val) < |code| && code[n + 1 + Len(c.val)] == Goto(end)
  {
    hide Compile;
    var n := base + Len(c.cond);
    var cond, val := Compile(c.cond, base), Compile(c.val, n + 1);
    var jump, goto := [JumpIfFalse(base + LenClause(c))], [Goto(end)];
    AtSplit(code, base, cond + jump, val + goto);
    AtSplit(code, base, cond, jump);
    AtSplit(code, n + 1, val, goto);
    AtOne(code, n, jump[0]);
    AtOne(code, n + 1 + Len(c.val), goto[0]);
  }

  lemma {:induction false} ClausesParts(code: seq<Code>, base: nat, cs: seq<Clause>, end: nat)
    requires |cs| > 0 && ClausesCompile(cs) && end == base + LenClauses(cs)
    requires At(code, base, CompileClauses(cs, base, end))
    ensures var c := cs[0];
            var n, next := base + Len(c.cond), base + LenClause(c);
            && ClauseCompiles(c) && ClausesCompile(cs[1..]) && next == n + 2 + Len(c.val)
            && At(code, base, Compile(c.cond, base))
            && n < |code| && code[n] == JumpIfFalse(next)
            && At(code, n + 1, Compile(c.val, n + 1))
            && n + 1 + Len(c.val) < |code| && code[n + 1 + Len(c.val)] == Goto(end)
            && At(code, next, CompileClauses(cs[1..], next, end)) && end == next + LenClauses(cs[1..])
  {
    hide CompileClause, Compile;
    AtSplit(code, base, CompileClause(cs[0], base, end), CompileClauses(cs[1..], base + LenClause(cs[0]), end));
    AtClause(code, base, cs[0], end);
  }

  lemma {:induction false} ArgsParts(code: seq<Code>, base: nat, args: seq<Expr>)
    requires |args| > 0 && AllCompile(args) && At(code, base, CompileAll(args, base))
    ensures var next := base + Len(args[0]);
            && Compiles(args[0]) && AllCompile(args[1..]) && At(code, base, Compile(args[0], base))
            && At(code, next, CompileAll(args[1..], next)) && base + LenAll(args) == next + LenAll(args[1..])
  {
    hide Compile;
    AtSplit(code, base, Compile(args[0], base), CompileAll(args[1..], base + Len(args[0])));
  }

  lemma {:induction false} ApplyParts(code: seq<Code>, base: nat, op: Op, args: seq<Expr>)
    requires AllCompile(args) && At(code, base, Compile(Apply(op, args), base))
    ensures var n := base + LenAll(args);
            At(code, base, CompileAll(args, base)) && n < |code| && code[n] == Call(op, |args|)
  {
    hide CompileAll;
    AtSplit(code, base, CompileAll(args, base), [Call(op, |args|)]);
    AtOne(code, base + LenAll(args), Call(op, |args|));
  }

  lemma {:induction false} CondParts(code: seq<Code>, base: nat, cs: seq<Clause>)
    requires ClausesCompile(cs) && At(code, base, Compile(Cond(cs), base))
    ensures At(code, base, CompileClauses(cs, base, base + LenClauses(cs)))
  {
  }

  // single steps

  lemma {:induction false} LeafStep(e: Expr, code: seq<Code>, base: nat, t: Tuple, st: seq<Value>)
    requires (e.Binding? || e.Const?) && At(code, base, Compile(e, base))
    ensures Exec(code, t, base, st) ==
            match Eval(e, t) case Some(v) => Exec(code, t, base + Len(e), st + [v]) case None => Raised
  {
    AtOne(code, base, Compile(e, base)[0]);
  }

  lemma {:induction false} CallStep(code: seq<Code>, t: Tuple, at: nat, st: seq<Value>, vs: seq<Value>, op: Op)
    requires at < |code| && code[at] == Call(op, |vs|)
    ensures Exec(code, t, at, st + vs) ==
            match RunOp(op, vs) case Some(r) => Exec(code, t, at + 1, st + [r]) case None => Raised
  {
    Popped(st, vs);
  }

  lemma {:induction false} JumpStep(code: seq<Code>, t: Tuple, at: nat, s: seq<Value>, target: nat)
    requires at < |code| && code[at] == JumpIfFalse(target) && at < target
    ensures if |s| > 0 && s[|s| - 1].Bool?
            then Exec(code, t, at, s) == Exec(code, t, if s[|s| - 1].b then at + 1 else target, s[..|s| - 1])
            else !Exec(code, t, at, s).Ok? && (|s| > 0 ==> Exec(code, t, at, s) == Raised)
  {
  }

  lemma {:induction false} GotoStep(code: seq<Code>, t: Tuple, at: nat, s: seq<Value>, target: nat)
    requires at < |code| && code[at] == Goto(target) && at < target
    ensures Exec(code, t, at, s) == Exec(code, t, target, s)
  {
  }

  /** Running compiled code pushes the expression's value, or raises as evaluation does. */
  lemma {:induction false} Runs(e: Expr, code: seq<Code>, base: nat, t: Tuple, st: seq<Value>)
    requires Compiles(e) && At(code, base, Compile(e, base)) && !Falls(e, t)
    ensures Exec(code, t, base, st) ==
            match Eval(e, t) case Some(v) => Exec(code, t, base + Len(e), st + [v]) case None => Raised
    decreases e, 1
  {
    hide Exec, Compile, CompileAll, At;
    match e {
      case Binding(_, _) => LeafStep(e, code, base, t, st);
      case Const(_) => LeafStep(e, code, base, t, st);
      case Apply(op, args) =>
        ApplyParts(code, base, op, args);
        RunsAll(args, code, base, t, st);
        if EvalAll(args, t).Some? {
          EvalAllLength(args, t);
          CallStep(code, t, base + LenAll(args), st, EvalAll(args, t).value, op);
        }
      case Cond(clauses) =>
        CondParts(code, base, clauses);
        RunsClauses(clauses, code, base, base + LenClauses(clauses), t, st);
      case Unbound =>
    }
  }

  lemma {:induction false} EvalAllLength(args: seq<Expr>, t: Tuple)
    requires EvalAll(args, t).Some?
    ensures |EvalAll(args, t).value| == |args|
  {
    if |args| > 0 {
      EvalAllLength(args[1..], t);
    }
  }

  lemma {:induction false} Popped(st: seq<Value>, vs: seq<Value>)
    ensures (st + vs)[|st + vs| - |vs|..] == vs && (st + vs)[..|st + vs| - |vs|] == st
  {
  }

  lemma {:induction false} Regrouped(st: seq<Value>, v: Value, vs: seq<Value>)
    ensures (st + [v]) + vs == st + ([v] + vs)
  {
  }

  lemma {:induction false} RunsAll(args: seq<Expr>, code: seq<Code>, base: nat, t: Tuple, st: seq<Value>)
    requires AllCompile(args) && At(code, base, CompileAll(args, base)) && !FallsAny(args, t)
    ensures Exec(code, t, base, st) ==
            match EvalAll(args, t) case Some(vs) => Exec(code, t, base + LenAll(args), st + vs) case None => Raised
    decreases args, 0
  {
    hide Exec, Compile, CompileAll, At, Compiles, AllCompile, Eval, Falls;
    if |args| == 0 {
      assert st + [] == st;
    } else {
      ArgsParts(code, base, args);
      Runs(args[0], code, base, t, st);
      if Eval(args[0], t).Some? {
        var v := Eval(args[0], t).value;
        RunsAll(args[1..], code, base + Len(args[0]), t, st + [v]);
        if EvalAll(args[1..], t).Some? {
          Regrouped(st, v, EvalAll(args[1..], t).value);
        }
      }
    }
  }

  lemma {:induction false} RunsClauses(cs: seq<Clause>, code: seq<Code>, base: nat, end: nat, t: Tuple, st: seq<Value>)
    requires ClausesCompile(cs) && end == base + LenClauses(cs) && At(code, base, CompileClauses(cs, base, end))
    requires !FallsThrough(cs, t)
    ensures Exec(code, t, base, st) ==
            match EvalClauses(cs, t) case Some(v) => Exec(code, t, end, st + [v]) case None => Raised
    decreases cs, 0
  {
    hide Exec, Compile, CompileClauses, At;
    var c, n, next := cs[0], base + Len(cs[0].cond), base + LenClause(cs[0]);
    ClausesParts(code, base, cs, end);
    RunsIf(c, code, base, t, st);
    if EvalIf(c, t).Some? {
      var v := EvalIf(c, t).value;
      JumpStep(code, t, n, st + [v], next);
      assert (st + [v])[..|st|] == st;
      if v == Bool(true) {
        RunsThen(c, code, n + 1, t, st);
        if EvalThen(c, t).Some? {
          GotoStep(code, t, n + 1 + Len(c.val), st + [EvalThen(c, t).value], end);
        }
      } else if v == Bool(false) {
        RunsClauses(cs[1..], code, next, end, t, st);
      }
    }
  }

  lemma {:induction false} RunsIf(c: Clause, code: seq<Code>, base: nat, t: Tuple, st: seq<Value>)
    requires ClauseCompiles(c) && At(code, base, Compile(c.cond, base)) && !FallsIf(c, t)
    ensures Exec(code, t, base, st) ==
            match EvalIf(c, t) case Some(v) => Exec(code, t, base + Len(c.cond), st + [v]) case None => Raised
    decreases c, 0
  {
    Runs(c.cond, code, base, t, st);
  }

  lemma {:induction false} RunsThen(c: Clause, code: seq<Code>, base: nat, t: Tuple, st: seq<Value>)
    requires ClauseCompiles(c) && At(code, base, Compile(c.val, base)) && !FallsThen(c, t)
    ensures Exec(code, t, base, st) ==
            match EvalThen(c, t) case Some(v) => Exec(code, t, base + Len(c.val), st + [v]) case None => Raised
    decreases c, 0
  {
    Runs(c.val, code, base, t, st);
  }
}
