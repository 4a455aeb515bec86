/** The compiler as it runs: code appended to a vector, jump targets filled in afterwards. */
module BytecodeEmit {
  import opened Values
  import opened Expressions
  import opened Bytecodes

  /** `code` with the instructions at `ps` replaced by jumps to `end`. */
  function Patched(code: seq<Code>, ps: seq<nat>, end: nat): (r: seq<Code>)
    ensures |r| == |code|
  {
    seq(|code|, i requires 0 <= i < |code| => if i in ps then Goto(end) else code[i])
  }

  predicate Below(ps: seq<nat>, n: nat) {
    forall p | p in ps :: p < n
  }

  lemma {:induction false} PatchNothing(code: seq<Code>, end: nat)
    ensures Patched(code, [], end) == code
  {
  }

  lemma {:induction false} PatchAppend(code: seq<Code>, ps: seq<nat>, more: seq<Code>, end: nat)
    requires Below(ps, |code|) && |more| > 0
    ensures Patched(code + more, ps + [|code| + |more| - 1], end) ==
            Patched(code, ps, end) + more[|more| - 1 := Goto(end)]
  {
    var lhs := Patched(code + more, ps + [|code| + |more| - 1], end);
    var rhs := Patched(code, ps, end) + more[|more| - 1 := Goto(end)];
    forall i | 0 <= i < |lhs| ensures lhs[i] == rhs[i] {
      assert i in ps ==> i < |code|;
    }
  }

  lemma {:induction false} PatchOne(code: seq<Code>, ps: seq<nat>, k: nat, end: nat)
    requires Below(ps, |code|) && k < |ps|
    ensures ps[k] < |code|
    ensures Patched(code, ps[..k + 1], end) == Patched(code, ps[..k], end)[ps[k] := Goto(end)]
  {
    assert ps[k] in ps;
    assert ps[..k + 1] == ps[..k] + [ps[k]];
  }

  lemma {:induction false} ClauseEnd(c: Clause, base: nat, end: nat)
    requires ClauseCompiles(c)
    ensures CompileClause(c, base, 0)[LenClause(c) - 1 := Goto(end)] == CompileClause(c, base, end)
  {
    hide Compile;
    var n := base + Len(c.cond);
    var head, val := Compile(c.cond, base) + [JumpIfFalse(base + LenClause(c))], Compile(c.val, n + 1);
    assert CompileClause(c, base, 0) == head + (val + [Goto(0)]);
    assert CompileClause(c, base, end) == head + (val + [Goto(end)]);
  }

  lemma {:induction false} ClausesUnfold(cs: seq<Clause>)
    requires |cs| > 0
    ensures ClausesCompile(cs) == (ClauseCompiles(cs[0]) && ClausesCompile(cs[1..]))
    ensures LenClauses(cs) == LenClause(cs[0]) + LenClauses(cs[1..])
  {
  }

  lemma {:induction false} ClausesNone(base: nat, end: nat)
    ensures ClausesCompile([]) && LenClauses([]) == 0 && CompileClauses([], base, end) == []
  {
  }

  /** One more clause emitted and its jump recorded: what remains to be emitted shrinks by that clause. */
  lemma {:induction false} ClausesStep(before: seq<Code>, jumps: seq<nat>, cs: seq<Clause>, end: nat)
    requires |cs| > 0 && ClausesCompile(cs) && Below(jumps, |before|)
    ensures var code := before + CompileClause(cs[0], |before|, 0);
            Patched(before, jumps, end) + CompileClauses(cs, |before|, end) ==
            Patched(code, jumps + [|code| - 1], end) + CompileClauses(cs[1..], |code|, end)
  {
    hide Patched, CompileClause;
    var n := |before|;
    PatchAppend(before, jumps, CompileClause(cs[0], n, 0), end);
    ClauseEnd(cs[0], n, end);
    Regroup(Patched(before, jumps, end), CompileClause(cs[0], n, end),
            CompileClauses(cs[1..], n + LenClause(cs[0]), end));
  }

  class Collector {
    var code: seq<Code>

    constructor ()
      ensures code == []
    {
      code := [];
    }

    /** Fails on a call of an unknown function anywhere in the expression. */
    method Emit(e: Expr) returns (ok: bool)
      modifies this
      ensures ok == Compiles(e)
      ensures ok ==> code == old(code) + Compile(e, |old(code)|)
      decreases e, 1
    {
      match e {
        case Binding(_, pos) =>
          code := code + [Load(pos)];
          return true;
        case Const(val) =>
          code := code + [Push(val)];
          return true;
        case Apply(op, args) =>
          ok := EmitArgs(args);
          if ok {
            code := code + [Call(op, |args|)];
            assert code == old(code) + (CompileAll(args, |old(code)|) + [Call(op, |args|)]);
          }
        case Cond(clauses) =>
          ok := EmitClauses(clauses);
        case Unbound =>
          return false;
      }
    }

    method EmitArgs(args: seq<Expr>) returns (ok: bool)
      modifies this
      ensures ok == AllCompile(args)
      ensures ok ==> code == old(code) + CompileAll(args, |old(code)|)
      decreases args, 0
    {
      ghost var was := code;
      assert args[0..] == args;
      for i := 0 to |args|
        invariant AllCompile(args) == AllCompile(args[i..])
        invariant AllCompile(args) ==> was + CompileAll(args, |was|) == code + CompileAll(args[i..], |code|)
      {
        assert args[i..][0] == args[i] && args[i..][1..] == args[i + 1..];
        ghost var before := code;
        var sub := Emit(args[i]);
        if !sub {
          return false;
        }
        if AllCompile(args) {
          Regroup(before, Compile(args[i], |before|), CompileAll(args[i + 1..], |code|));
        }
      }
      assert args[|args|..] == [] && code + [] == code;
      return true;
    }

    method EmitClauses(cs: seq<Clause>) returns (ok: bool)
      modifies this
      ensures ok == ClausesCompile(cs)
      ensures ok ==> code == old(code) + CompileClauses(cs, |old(code)|, |old(code)| + LenClauses(cs))
      decreases cs, 0
    {
      hide Patched, CompileClause, CompileClauses, LenClauses, ClausesCompile;
      ghost var was, end := code, |code| + LenClauses(cs);
      var returnJumps: seq<nat> := [];
      assert cs[0..] == cs;
      PatchNothing(code, end);
      for i := 0 to |cs|
        invariant ClausesCompile(cs) == ClausesCompile(cs[i..])
        invariant Below(returnJumps, |code|) && |code| + LenClauses(cs[i..]) == end
        invariant ClausesCompile(cs) ==>
                    was + CompileClauses(cs, |was|, end) ==
                    Patched(code, returnJumps, end) + CompileClauses(cs[i..], |code|, end)
      {
        assert cs[i..][0] == cs[i] && cs[i..][1..] == cs[i + 1..];
        ClausesUnfold(cs[i..]);
        ghost var before, jumps := code, returnJumps;
        var sub := EmitClause(cs[i]);
        if !sub {
          return false;
        }
        returnJumps := returnJumps + [|code| - 1];
        if ClausesCompile(cs) {
          ClausesStep(before, jumps, cs[i..], end);
        }
      }
      assert cs[|cs|..] == [];
      ClausesNone(|code|, end);
      PatchJumps(returnJumps, |code|);
      assert code + [] == code;
      return true;
    }

    method PatchJumps(ps: seq<nat>, totalLen: nat)
      requires Below(ps, |code|)
      modifies this
      ensures code == Patched(old(code), ps, totalLen)
    {
      PatchNothing(code, totalLen);
      assert ps[..0] == [];
      for k := 0 to |ps|
        invariant code == Patched(old(code), ps[..k], totalLen)
      {
        PatchOne(old(code), ps, k, totalLen);
        code := code[ps[k] := Goto(totalLen)];
      }
      assert ps[..|ps|] == ps;
    }

    method EmitClause(c: Clause) returns (ok: bool)
      modifies this
      ensures ok == ClauseCompiles(c)
      ensures ok ==> code == old(code) + CompileClause(c, |old(code)|, 0)
      decreases c, 0
    {
      ghost var was, n := code, |code| + Len(c.cond);
      ok := Emit(c.cond);
      if !ok {
        return;
      }
      ghost var cond := Compile(c.cond, |was|);
      code := code + [JumpIfFalse(0)];
      var amend := |code| - 1;
      ok := Emit(c.val);
      if !ok {
        return;
      }
      ghost var val := Compile(c.val, n + 1);
      code := code + [Goto(0)];
      code := code[amend := JumpIfFalse(|code|)];
      AmendJump(was, cond, val, |was| + LenClause(c));
    }
  }

  lemma {:induction false} Regroup(a: seq<Code>, b: seq<Code>, c: seq<Code>)
    ensures a + (b + c) == (a + b) + c
  {
  }

  lemma {:induction false} AmendJump(was: seq<Code>, cond: seq<Code>, val: seq<Code>, target: nat)
    ensures (was + cond + [JumpIfFalse(0)] + val + [Goto(0)])[|was| + |cond| := JumpIfFalse(target)] ==
            was + ((cond + [JumpIfFalse(target)]) + (val + [Goto(0)]))
  {
  }

  // ----- compiled code only jumps forward -----

  ghost predicate ForwardFrom(code: seq<Code>, base: nat) {
    forall i | 0 <= i < |code| ::
      match code[i]
      case JumpIfFalse(target) => base + i < target
      case Goto(target) => base + i < target
      case _ => true
  }

  lemma {:induction false} ForwardConcat(a: seq<Code>, b: seq<Code>, base: nat)
    requires ForwardFrom(a, base) && ForwardFrom(b, base + |a|)
    ensures ForwardFrom(a + b, base)
  {
    forall i | 0 <= i < |a + b|
      ensures match (a + b)[i]
              case JumpIfFalse(target) => base + i < target
              case Goto(target) => base + i < target
              case _ => true
    {
      assert (a + b)[i] == if i < |a| then a[i] else b[i - |a|];
    }
  }

  lemma {:induction false} CompiledForward(e: Expr, base: nat)
    requires Compiles(e)
    ensures ForwardFrom(Compile(e, base), base)
    decreases e, 1
  {
    match e {
      case Apply(op, args) =>
        ArgsForward(args, base);
        ForwardConcat(CompileAll(args, base), [Call(op, |args|)], base);
      case Cond(cs) => ClausesForward(cs, base, base + LenClauses(cs));
      case _ =>
    }
  }

  lemma {:induction false} ArgsForward(args: seq<Expr>, base: nat)
    requires AllCompile(args)
    ensures ForwardFrom(CompileAll(args, base), base)
    decreases args, 0
  {
    if |args| > 0 {
      CompiledForward(args[0], base);
      ArgsForward(args[1..], base + Len(args[0]));
      ForwardConcat(Compile(args[0], base), CompileAll(args[1..], base + Len(args[0])), base);
    }
  }

  lemma {:induction false} ClausesForward(cs: seq<Clause>, base: nat, end: nat)
    requires ClausesCompile(cs) && end == base + LenClauses(cs)
    ensures ForwardFrom(CompileClauses(cs, base, end), base)
    decreases cs, 0
  {
    if |cs| > 0 {
      ClauseForward(cs[0], base, end);
      ClausesForward(cs[1..], base + LenClause(cs[0]), end);
      ForwardConcat(CompileClause(cs[0], base, end), CompileClauses(cs[1..], base + LenClause(cs[0]), end), base);
    }
  }

  lemma {:induction false} ClauseForward(c: Clause, base: nat, end: nat)
    requires ClauseCompiles(c) && base + LenClause(c) <= end
    ensures ForwardFrom(CompileClause(c, base, end), base)
    decreases c, 0
  {
    var n := base + Len(c.cond);
    var cond, val := Compile(c.cond, base), Compile(c.val, n + 1);
    CompiledForward(c.cond, base);
    CompiledForward(c.val, n + 1);
    ForwardConcat(cond, [JumpIfFalse(base + LenClause(c))], base);
    ForwardConcat(val, [Goto(end)], n + 1);
    ForwardConcat(cond + [JumpIfFalse(base + LenClause(c))], val + [Goto(end)], base);
  }

  /** Compile, then run: the outcome is that of the machine on the compiled code, which terminates. */
  method CompileAndRun(e: Expr, t: Tuple) returns (r: Option<Outcome>)
    ensures r == if Compiles(e) then Some(Exec(Compile(e, 0), t, 0, [])) else None
  {
    var collector := new Collector();
    var ok := collector.Emit(e);
    if !ok {
      return None;
    }
    assert [] + Compile(e, 0) == Compile(e, 0);
    CompiledForward(e, 0);
    var outcome := EvalBytecode(collector.code, t);
    return Some(outcome);
  }
}
