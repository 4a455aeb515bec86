/** Invariants of the two-level walk and what each of its turns does to them. */
module BitemporalWalk {
  import opened Bytes
  import opened Values
  import opened Bitemporal

  datatype Phase =
    /** Probing an assert run; without a group the bound is only positional. */
    | ProbeAssert(fromKey: Option<seq<u8>>, aim: Option<i64>)
    /** An assert candidate, if any, is held while the retract run is probed. */
    | ProbeRetract(key: seq<u8>, group: i64, cand: Option<Landing>)
    | Done

  function AssertBound(k: seq<u8>, g: i64, t: i64): Pos { Pos(k, g, true, t, true) }
  function RetractBound(k: seq<u8>, g: i64, t: i64): Pos { Pos(k, g, false, t, true) }
  function GroupEnd(k: seq<u8>, g: i64): Pos { Pos(k, g, false, I64_MIN, false) }

  /** Where `advance` goes: past the key when resolving keys, past the group when resolving groups. */
  function Stop(at: Option<i64>, k: seq<u8>, g: i64): Pos {
    GroupEnd(k, if at.Some? then I64_MIN else g)
  }

  predicate InGroup(l: Landing, k: seq<u8>, g: i64) {
    l.Plain() == k && l.vt == g
  }

  /** No key (or, resolving groups, no group) has records on both sides of `n`. */
  ghost predicate Boundary(cs: seq<Landing>, at: Option<i64>, n: nat) {
    && n <= |cs|
    && forall j, k | 0 <= j < n <= k < |cs| && cs[j].Plain() == cs[k].Plain() :: at.None? && cs[j].vt > cs[k].vt
  }

  /** The walk is deciding group `g` of key `k`, whose records start at `n`; every newer group is invisible. */
  ghost predicate Resolving(cs: seq<Landing>, at: Option<i64>, t: i64, k: seq<u8>, g: i64, n: nat) {
    && n < |cs| && Boundary(cs, at, n) && cs[n].Plain() == k
    && match at
       case None => cs[n].vt == g
       case Some(v) =>
         && g <= v
         && forall j | 0 <= j < |cs| && cs[j].Plain() == k && g < cs[j].vt <= v :: cs[j].tt > t
  }

  /** `c` is the newest record at or before `t` in one run of the group, if there is any. */
  ghost predicate Best(cs: seq<Landing>, t: i64, k: seq<u8>, g: i64, assertRun: bool, c: Option<Landing>) {
    match c
    case None => forall j | 0 <= j < |cs| && InGroup(cs[j], k, g) && cs[j].vtAssert == assertRun :: cs[j].tt > t
    case Some(l) =>
      && l in cs && InGroup(l, k, g) && l.vtAssert == assertRun && l.tt <= t
      && forall j | 0 <= j < |cs| && InGroup(cs[j], k, g) && cs[j].vtAssert == assertRun && cs[j].tt <= t ::
           cs[j].tt <= l.tt
  }

  // ----- order of records -----

  lemma {:induction false} InOrder(cs: seq<Landing>, i: nat, j: nat)
    requires Ordered(cs) && i <= j < |cs|
    ensures Le(cs[i].Plain(), cs[j].Plain())
    ensures cs[i].Plain() == cs[j].Plain() ==> cs[i].vt >= cs[j].vt
    ensures InGroup(cs[i], cs[j].Plain(), cs[j].vt) ==> (cs[j].vtAssert ==> cs[i].vtAssert)
    ensures InGroup(cs[i], cs[j].Plain(), cs[j].vt) && cs[i].vtAssert == cs[j].vtAssert ==> cs[i].tt >= cs[j].tt
  {
    if i < j {
      assert PosLess(At(cs[i]), At(cs[j]));
      LtIrreflexive(cs[i].Plain());
    }
  }

  lemma {:induction false} SamePlace(cs: seq<Landing>, i: nat, j: nat)
    requires Ordered(cs) && i < |cs| && j < |cs| && At(cs[i]) == At(cs[j])
    ensures i == j
  {
    PosTotal(At(cs[i]), At(cs[j]));
  }

  /** From a cut on, records of the bound's key are within its axes; the first of another key ends the key. */
  lemma {:induction false} AfterCut(cs: seq<Landing>, p: Pos, m: nat, j: nat)
    requires Ordered(cs) && PosCut(cs, p, m) && m <= j < |cs|
    ensures Le(p.plain, cs[j].Plain())
    ensures cs[j].Plain() == p.plain ==> cs[m].Plain() == p.plain && cs[j].vt <= p.vt
  {
    LtTotal(p.plain, cs[j].Plain());
    LtTotal(p.plain, cs[m].Plain());
    InOrder(cs, m, j);
    assert !PosLess(At(cs[j]), p) && !PosLess(At(cs[m]), p);
    NotLt(cs[m].Plain(), p.plain);
  }

  lemma {:induction false} BeforeCut(cs: seq<Landing>, p: Pos, m: nat, j: nat)
    requires Ordered(cs) && PosCut(cs, p, m) && 0 <= j < m
    ensures Le(cs[j].Plain(), p.plain)
    ensures cs[j].Plain() == p.plain ==> cs[j].vt >= p.vt
  {
    assert PosLess(At(cs[j]), p);
    LtIrreflexive(p.plain);
  }

  // ----- the two runs of a group -----

  lemma {:induction false} AssertRunAt(cs: seq<Landing>, t: i64, k: seq<u8>, g: i64, m: nat, j: nat)
    requires Ordered(cs) && PosCut(cs, AssertBound(k, g, t), m)
    requires 0 <= j < |cs| && InGroup(cs[j], k, g) && cs[j].vtAssert && cs[j].tt <= t
    ensures m <= j && InGroup(cs[m], k, g) && cs[m].vtAssert && cs[j].tt <= cs[m].tt
  {
    LtIrreflexive(k);
    assert !PosLess(At(cs[j]), AssertBound(k, g, t));
    AfterCut(cs, AssertBound(k, g, t), m, j);
    AfterCut(cs, AssertBound(k, g, t), m, m);
    InOrder(cs, m, j);
  }

  lemma {:induction false} RetractRunAt(cs: seq<Landing>, t: i64, k: seq<u8>, g: i64, m: nat, j: nat)
    requires Ordered(cs) && PosCut(cs, RetractBound(k, g, t), m)
    requires 0 <= j < |cs| && InGroup(cs[j], k, g) && !cs[j].vtAssert && cs[j].tt <= t
    ensures m <= j && InGroup(cs[m], k, g) && !cs[m].vtAssert && cs[m].tt <= t && cs[j].tt <= cs[m].tt
  {
    LtIrreflexive(k);
    assert !PosLess(At(cs[j]), RetractBound(k, g, t));
    AfterCut(cs, RetractBound(k, g, t), m, j);
    AfterCut(cs, RetractBound(k, g, t), m, m);
    assert !PosLess(At(cs[m]), RetractBound(k, g, t));
    InOrder(cs, m, j);
  }

  /** The first record at or after the T-bounded start of the assert run decides that run. */
  lemma {:induction false} BestAssert(cs: seq<Landing>, t: i64, k: seq<u8>, g: i64, m: nat)
    requires Ordered(cs) && PosCut(cs, AssertBound(k, g, t), m)
    ensures var hit := m < |cs| && InGroup(cs[m], k, g) && cs[m].vtAssert;
            Best(cs, t, k, g, true, if hit then Some(cs[m]) else None)
  {
    forall j | 0 <= j < |cs| && InGroup(cs[j], k, g) && cs[j].vtAssert && cs[j].tt <= t
      ensures m < |cs| && InGroup(cs[m], k, g) && cs[m].vtAssert && cs[j].tt <= cs[m].tt
    {
      AssertRunAt(cs, t, k, g, m, j);
    }
    if m < |cs| && InGroup(cs[m], k, g) && cs[m].vtAssert {
      LtIrreflexive(k);
      assert !PosLess(At(cs[m]), AssertBound(k, g, t));
    }
  }

  lemma {:induction false} BestRetract(cs: seq<Landing>, t: i64, k: seq<u8>, g: i64, m: nat)
    requires Ordered(cs) && PosCut(cs, RetractBound(k, g, t), m)
    ensures var hit := m < |cs| && InGroup(cs[m], k, g) && !cs[m].vtAssert && cs[m].tt <= t;
            Best(cs, t, k, g, false, if hit then Some(cs[m]) else None)
  {
    forall j | 0 <= j < |cs| && InGroup(cs[j], k, g) && !cs[j].vtAssert && cs[j].tt <= t
      ensures m < |cs| && InGroup(cs[m], k, g) && !cs[m].vtAssert && cs[m].tt <= t && cs[j].tt <= cs[m].tt
    {
      RetractRunAt(cs, t, k, g, m, j);
    }
  }

  /** Landing in the retract run while looking for assertions already shows its newest visible record. */
  lemma {:induction false} BestRetractEarly(cs: seq<Landing>, t: i64, k: seq<u8>, g: i64, m: nat)
    requires Ordered(cs) && PosCut(cs, AssertBound(k, g, t), m)
    requires m < |cs| && InGroup(cs[m], k, g) && !cs[m].vtAssert && cs[m].tt <= t
    ensures Best(cs, t, k, g, false, Some(cs[m]))
  {
    forall j | 0 <= j < |cs| && InGroup(cs[j], k, g) && !cs[j].vtAssert && cs[j].tt <= t
      ensures cs[j].tt <= cs[m].tt
    {
      LtIrreflexive(k);
      assert !PosLess(At(cs[j]), AssertBound(k, g, t));
      InOrder(cs, m, j);
    }
  }

  // ----- deciding a group -----

  /** The better of the two runs; an assertion wins a tie. */
  function Better(c: Option<Landing>, r: Option<Landing>): Option<Landing> {
    if c.Some? && (r.None? || r.value.tt <= c.value.tt) then c else r
  }

  lemma {:induction false} BetterWins(cs: seq<Landing>, t: i64, k: seq<u8>, g: i64, c: Option<Landing>,
        r: Option<Landing>)
    requires Ordered(cs) && Best(cs, t, k, g, true, c) && Best(cs, t, k, g, false, r)
    requires Better(c, r).Some?
    ensures var w := Better(c, r).value; w in cs && InGroup(w, k, g) && WinsGroup(cs, t, w)
  {
    var w := Better(c, r).value;
    var x :| 0 <= x < |cs| && cs[x] == w;
    forall i | 0 <= i < |cs| && cs[i].Plain() == k && cs[i].vt == g && cs[i].tt <= t
      ensures cs[i].tt < w.tt || (cs[i].tt == w.tt && (cs[i] == w || w.vtAssert))
    {
      if cs[i].tt == w.tt && !w.vtAssert && !cs[i].vtAssert {
        SamePlace(cs, i, x);
      }
    }
  }

  /** What lies between the frontier and the place `advance` moves it to. */
  lemma {:induction false} StopCut(cs: seq<Landing>, at: Option<i64>, t: i64, k: seq<u8>, g: i64, n: nat, e: nat,
        j: nat)
    requires Ordered(cs) && Resolving(cs, at, t, k, g, n) && PosCut(cs, Stop(at, k, g), e)
    requires 0 <= j < |cs|
    ensures n <= j < e <==> cs[j].Plain() == k && (at.None? ==> cs[j].vt == g)
  {
    LtIrreflexive(k);
    if cs[j].Plain() == k && (at.None? ==> cs[j].vt == g) {
      assert PosLess(At(cs[j]), Stop(at, k, g));
    }
    if n <= j < e {
      InOrder(cs, n, j);
      BeforeCut(cs, Stop(at, k, g), e, j);
      NotLt(k, cs[j].Plain());
    }
  }

  lemma {:induction false} StopBoundary(cs: seq<Landing>, at: Option<i64>, t: i64, k: seq<u8>, g: i64, n: nat, e: nat)
    requires Ordered(cs) && Resolving(cs, at, t, k, g, n) && PosCut(cs, Stop(at, k, g), e)
    ensures n < e && Boundary(cs, at, e)
  {
    StopCut(cs, at, t, k, g, n, e, n);
    forall i, j | 0 <= i < e <= j < |cs| && cs[i].Plain() == cs[j].Plain()
      ensures at.None? && cs[i].vt > cs[j].vt
    {
      BeforeCut(cs, Stop(at, k, g), e, i);
      AfterCut(cs, Stop(at, k, g), e, j);
      NotLt(k, cs[i].Plain());
      assert cs[i].Plain() == k;
      StopCut(cs, at, t, k, g, n, e, j);
    }
  }

  lemma {:induction false} GroupWinnerUnique(cs: seq<Landing>, t: i64, x: nat, j: nat)
    requires Ordered(cs) && x < |cs| && j < |cs|
    requires WinsGroup(cs, t, cs[x]) && WinsGroup(cs, t, cs[j])
    requires InGroup(cs[j], cs[x].Plain(), cs[x].vt)
    ensures j == x
  {
    SamePlace(cs, x, if At(cs[x]) == At(cs[j]) then j else x);
  }

  lemma {:induction false} KeyWinner(cs: seq<Landing>, v: i64, t: i64, k: seq<u8>, g: i64, n: nat, x: nat)
    requires Ordered(cs) && Resolving(cs, Some(v), t, k, g, n)
    requires x < |cs| && InGroup(cs[x], k, g) && WinsGroup(cs, t, cs[x])
    ensures forall j | 0 <= j < |cs| && cs[j].Plain() == k :: WinsKey(cs, v, t, cs[j]) <==> j == x && cs[x].vtAssert
  {
    forall j | 0 <= j < |cs| && cs[j].Plain() == k && WinsKey(cs, v, t, cs[j])
      ensures j == x && cs[x].vtAssert
    {
      assert VisibleAt(cs[x], v, t);
      assert cs[j].vt == g && cs[x].tt == cs[j].tt;
      assert cs[j] == cs[x] || cs[x].vtAssert;
      SamePlace(cs, x, j);
    }
  }

  /** Deciding a group moves the frontier over exactly the winner the definition names, or over none. */
  lemma {:induction false} Decided(cs: seq<Landing>, at: Option<i64>, t: i64, k: seq<u8>, g: i64, n: nat, e: nat,
        w: Landing)
    requires Ordered(cs) && Resolving(cs, at, t, k, g, n) && PosCut(cs, Stop(at, k, g), e)
    requires w in cs && InGroup(w, k, g) && WinsGroup(cs, t, w)
    ensures WinnersUpTo(cs, at, t, e) == WinnersUpTo(cs, at, t, n) + if at.None? || w.vtAssert then [w] else []
  {
    var x :| 0 <= x < |cs| && cs[x] == w;
    StopBoundary(cs, at, t, k, g, n, e);
    StopCut(cs, at, t, k, g, n, e, x);
    forall j | n <= j < e
      ensures Wins(cs, at, t, cs[j]) <==> j == x && (at.None? || w.vtAssert)
    {
      StopCut(cs, at, t, k, g, n, e, j);
      match at {
        case Some(v) => KeyWinner(cs, v, t, k, g, n, x);
        case None =>
          if WinsGroup(cs, t, cs[j]) {
            GroupWinnerUnique(cs, t, x, j);
          }
      }
    }
    if at.None? || w.vtAssert {
      OneWinner(cs, at, t, n, x, e);
    } else {
      NoWinners(cs, at, t, n, e);
    }
  }

  // ----- leaving a group undecided -----

  /** A group with nothing visible: the walk falls through to the record at `m`, or off the end. */
  ghost predicate Exhausted(cs: seq<Landing>, at: Option<i64>, t: i64, k: seq<u8>, g: i64, n: nat, p: Pos, m: nat) {
    && Resolving(cs, at, t, k, g, n) && p.plain == k && p.vt == g && PosCut(cs, p, m)
    && (forall j | 0 <= j < |cs| && InGroup(cs[j], k, g) :: cs[j].tt > t)
    && (m < |cs| ==> !InGroup(cs[m], k, g))
  }

  lemma {:induction false} FellThrough(cs: seq<Landing>, at: Option<i64>, t: i64, k: seq<u8>, g: i64, n: nat, p: Pos,
        m: nat)
    requires Ordered(cs) && Exhausted(cs, at, t, k, g, n, p, m)
    ensures n <= m
    ensures forall j | n <= j < m :: cs[j].Plain() == k && (at.None? ==> cs[j].vt == g)
    ensures forall j | m <= j < |cs| && cs[j].Plain() == k :: cs[m].Plain() == k && cs[j].vt < g
  {
    forall j | m <= j < |cs| && cs[j].Plain() == k
      ensures cs[m].Plain() == k && cs[j].vt < g
    {
      AfterCut(cs, p, m, j);
      AfterCut(cs, p, m, m);
      InOrder(cs, m, j);
    }
    forall j | n <= j < m
      ensures cs[j].Plain() == k && (at.None? ==> cs[j].vt == g)
    {
      InOrder(cs, n, j);
      BeforeCut(cs, p, m, j);
      NotLt(k, cs[j].Plain());
    }
    if m < n {
      InOrder(cs, m, n);
      AfterCut(cs, p, m, n);
    }
  }

  /** When the key (or, resolving groups, the group) is over, nothing in it won. */
  lemma {:induction false} NothingWon(cs: seq<Landing>, at: Option<i64>, t: i64, k: seq<u8>, g: i64, n: nat, p: Pos,
        m: nat)
    requires Ordered(cs) && Exhausted(cs, at, t, k, g, n, p, m)
    requires m == |cs| || at.None? || cs[m].Plain() != k
    ensures n <= m && Boundary(cs, at, m)
    ensures WinnersUpTo(cs, at, t, m) == WinnersUpTo(cs, at, t, n)
  {
    FellThrough(cs, at, t, k, g, n, p, m);
    forall j | n <= j < m ensures !Wins(cs, at, t, cs[j]) {
      BeforeCut(cs, p, m, j);
    }
    NoWinners(cs, at, t, n, m);
    forall i, j | 0 <= i < m <= j < |cs| && cs[i].Plain() == cs[j].Plain()
      ensures at.None? && cs[i].vt > cs[j].vt
    {
      BeforeCut(cs, p, m, i);
      AfterCut(cs, p, m, j);
      NotLt(k, cs[i].Plain());
    }
  }

  /** Resolving keys, an older group of the same key becomes the one to decide. */
  lemma {:induction false} OlderGroup(cs: seq<Landing>, v: i64, t: i64, k: seq<u8>, g: i64, n: nat, p: Pos, m: nat)
    requires Ordered(cs) && Exhausted(cs, Some(v), t, k, g, n, p, m)
    requires m < |cs| && cs[m].Plain() == k
    ensures cs[m].vt < g && Resolving(cs, Some(v), t, k, cs[m].vt, n)
  {
    FellThrough(cs, Some(v), t, k, g, n, p, m);
    forall j | 0 <= j < |cs| && cs[j].Plain() == k && cs[m].vt < cs[j].vt <= v
      ensures cs[j].tt > t
    {
      if m <= j {
        InOrder(cs, m, j);
      } else {
        BeforeCut(cs, p, m, j);
      }
    }
  }

  // ----- fresh positions -----

  /** The group to start with at a fresh record: the record's own, or V when the record is newer. */
  function FreshGroup(at: Option<i64>, l: Landing): i64 {
    if at.Some? && l.vt > at.value then at.value else l.vt
  }

  lemma {:induction false} Fresh(cs: seq<Landing>, at: Option<i64>, t: i64, n: nat)
    requires Ordered(cs) && n < |cs| && Boundary(cs, at, n)
    ensures Resolving(cs, at, t, cs[n].Plain(), FreshGroup(at, cs[n]), n)
  {
    forall j | 0 <= j < |cs| && cs[j].Plain() == cs[n].Plain() && at.Some?
      ensures cs[j].vt <= cs[n].vt
    {
      if n <= j {
        InOrder(cs, n, j);
      }
    }
  }

  // ----- progress -----

  /** Records strictly past the group being decided, or not yet behind the positional bound. */
  ghost function Remaining(cs: seq<Landing>, phase: Phase, n: nat): int {
    match phase
    case ProbeAssert(Some(k), Some(g)) => |cs| - PosSeek(cs, GroupEnd(k, g))
    case ProbeRetract(k, g, _) => |cs| - PosSeek(cs, GroupEnd(k, g))
    case _ => |cs| - n
  }

  function PhaseRank(phase: Phase): nat {
    match phase
    case ProbeAssert(_, Some(_)) => 2
    case ProbeRetract(_, _, _) => 1
    case _ => 0
  }

  /** A group at or after record `m` ends beyond `m`. */
  lemma {:induction false} GroupEndsPast(cs: seq<Landing>, k: seq<u8>, g: i64, m: nat)
    requires Ordered(cs) && m < |cs| && cs[m].Plain() == k && g <= cs[m].vt
    ensures PosSeek(cs, GroupEnd(k, g)) > m
  {
    PosSeekCut(cs, GroupEnd(k, g));
    assert PosLess(At(cs[m]), GroupEnd(k, g));
  }

  /** A record outside the group and after its bound is past its end. */
  lemma {:induction false} GroupEndsBy(cs: seq<Landing>, k: seq<u8>, g: i64, p: Pos, m: nat)
    requires Ordered(cs) && p.plain == k && p.vt == g && PosCut(cs, p, m)
    requires m < |cs| ==> !InGroup(cs[m], k, g)
    ensures PosSeek(cs, GroupEnd(k, g)) <= m
  {
    PosSeekCut(cs, GroupEnd(k, g));
    if m < |cs| {
      AfterCut(cs, p, m, m);
      NotLt(k, cs[m].Plain());
      assert !PosLess(At(cs[m]), GroupEnd(k, g));
    }
  }

  lemma {:induction false} StopPastGroup(cs: seq<Landing>, at: Option<i64>, k: seq<u8>, g: i64, e: nat)
    requires Ordered(cs) && PosCut(cs, Stop(at, k, g), e)
    ensures PosSeek(cs, GroupEnd(k, g)) <= e
  {
    PosSeekCut(cs, GroupEnd(k, g));
    var i := PosSeek(cs, GroupEnd(k, g));
    if e < i {
      assert PosLess(At(cs[e]), GroupEnd(k, g));
      LtIrreflexive(k);
      if GroupEnd(k, g) != Stop(at, k, g) {
        PosTransitive(At(cs[e]), GroupEnd(k, g), Stop(at, k, g));
      }
    }
  }
}
