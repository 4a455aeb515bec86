/** Laws of bitemporal answers. */
module BitemporalLaws {
  import opened Bytes
  import opened Values
  import opened Store
  import opened Bitemporal
  import opened BitemporalScan

  // ----- sorted answers are determined by their members -----

  ghost predicate SameMembers(a: seq<Landing>, b: seq<Landing>) {
    forall x :: x in a <==> x in b
  }

  lemma {:induction false} SmallestFirst(a: seq<Landing>, x: Landing)
    requires Ordered(a) && x in a
    ensures a[0] == x || PosLess(At(a[0]), At(x))
  {
  }

  lemma {:induction false} FirstOnlyOnce(a: seq<Landing>, x: Landing)
    requires Ordered(a) && a != []
    ensures x in a[1..] <==> x in a && x != a[0]
  {
    if x in a[1..] {
      var i :| 0 <= i < |a[1..]| && a[1..][i] == x;
      assert PosLess(At(a[0]), At(a[i + 1]));
      PosTotal(At(a[0]), At(x));
    }
  }

  lemma {:induction false} EmptyTogether(a: seq<Landing>, b: seq<Landing>)
    requires SameMembers(a, b)
    ensures a == [] <==> b == []
  {
    assert a != [] ==> a[0] in b;
    assert b != [] ==> b[0] in a;
  }

  /** An answer in key order is determined by which records it holds. */
  lemma {:induction false} OrderedUnique(a: seq<Landing>, b: seq<Landing>)
    requires Ordered(a) && Ordered(b) && SameMembers(a, b)
    ensures a == b
  {
    EmptyTogether(a, b);
    if a != [] {
      assert a[0] in b && b[0] in a;
      SmallestFirst(a, b[0]);
      SmallestFirst(b, a[0]);
      PosTotal(At(a[0]), At(b[0]));
      forall x ensures x in a[1..] <==> x in b[1..] {
        FirstOnlyOnce(a, x);
        FirstOnlyOnce(b, x);
      }
      OrderedUnique(a[1..], b[1..]);
    }
  }

  lemma {:induction false} WinnersMembers(cs: seq<Landing>, at: Option<i64>, t: i64, n: nat, x: Landing)
    requires n <= |cs|
    ensures x in WinnersUpTo(cs, at, t, n) <==> x in cs[..n] && Wins(cs, at, t, x)
  {
    if n > 0 {
      WinnersMembers(cs, at, t, n - 1, x);
      assert cs[..n] == cs[..n - 1] + [cs[n - 1]];
    }
  }

  lemma {:induction false} AppendOrdered(w: seq<Landing>, cs: seq<Landing>, n: nat)
    requires Ordered(w) && Ordered(cs) && n < |cs| && forall x | x in w :: x in cs[..n]
    ensures Ordered(w + [cs[n]])
  {
    forall i | 0 <= i < |w| ensures PosLess(At(w[i]), At(cs[n])) {
      assert w[i] in cs[..n];
    }
  }

  lemma {:induction false} WinnersOrdered(cs: seq<Landing>, at: Option<i64>, t: i64, n: nat)
    requires Ordered(cs) && n <= |cs|
    ensures Ordered(WinnersUpTo(cs, at, t, n))
  {
    hide Ordered, Wins;
    if n == 0 {
      NothingOrdered();
    } else {
      WinnersOrdered(cs, at, t, n - 1);
      var w := WinnersUpTo(cs, at, t, n - 1);
      forall x | x in w ensures x in cs[..n - 1] {
        WinnersMembers(cs, at, t, n - 1, x);
      }
      AppendOrdered(w, cs, n - 1);
      assert w + [] == w;
    }
  }

  lemma {:induction false} NothingOrdered()
    ensures Ordered([])
  {
  }

  /** The answer as a set: exactly the records that win. */
  lemma {:induction false} AnswerMembers(cs: seq<Landing>, at: Option<i64>, t: i64)
    requires Ordered(cs)
    ensures Ordered(Winners(cs, at, t))
    ensures forall x :: x in Winners(cs, at, t) <==> x in cs && Wins(cs, at, t, x)
  {
    WinnersOrdered(cs, at, t, |cs|);
    assert cs[..|cs|] == cs;
    forall x ensures x in Winners(cs, at, t) <==> x in cs && Wins(cs, at, t, x) {
      WinnersMembers(cs, at, t, |cs|, x);
    }
  }

  // ----- as-of reads are stable -----

  /** `cs'` is `cs` with records added, all of them recorded after `t`. */
  ghost predicate AddedAfter(cs: seq<Landing>, cs': seq<Landing>, t: i64) {
    && (forall x | x in cs :: x in cs')
    && (forall x | x in cs' && x !in cs :: x.tt > t)
  }

  lemma {:induction false} WinsIgnoresLater(cs: seq<Landing>, cs': seq<Landing>, at: Option<i64>, t: i64, x: Landing)
    requires AddedAfter(cs, cs', t)
    ensures x in cs && Wins(cs, at, t, x) <==> x in cs' && Wins(cs', at, t, x)
  {
    if x in cs && Wins(cs, at, t, x) {
      forall i | 0 <= i < |cs'| && cs'[i].tt <= t ensures cs'[i] in cs {
      }
    }
    if x in cs' && Wins(cs', at, t, x) {
      forall i | 0 <= i < |cs| ensures cs[i] in cs' {
      }
    }
  }

  /** Records written after T change neither kind of answer at T, for any V. */
  lemma {:induction false} AsOfStable(cs: seq<Landing>, cs': seq<Landing>, at: Option<i64>, t: i64)
    requires Ordered(cs) && Ordered(cs') && AddedAfter(cs, cs', t)
    ensures Winners(cs, at, t) == Winners(cs', at, t)
  {
    AnswerMembers(cs, at, t);
    AnswerMembers(cs', at, t);
    forall x ensures x in Winners(cs, at, t) <==> x in Winners(cs', at, t) {
      WinsIgnoresLater(cs, cs', at, t, x);
    }
    OrderedUnique(Winners(cs, at, t), Winners(cs', at, t));
  }

  lemma {:induction false} CleanMembers(rows: seq<Row>, l: Landing)
    ensures l in Clean(rows) <==> l.row in rows && Parse(l.row) == Some(l)
  {
    if rows != [] {
      CleanMembers(rows[1..], l);
      assert rows == [rows[0]] + rows[1..];
    }
  }

  /** The same of the stored rows that a scan reads. */
  lemma {:induction false} StoredReadStable(rows: seq<Row>, rows': seq<Row>, lower: seq<u8>, at: Option<i64>, t: i64)
    requires BitemporalRange(rows, lower) && BitemporalRange(rows', lower)
    requires forall r | r in rows :: r in rows'
    requires forall r | r in rows' && r !in rows && Parse(r).Some? :: Parse(r).value.tt > t
    ensures Winners(Clean(rows), at, t) == Winners(Clean(rows'), at, t)
  {
    CleanRecords(rows, lower);
    CleanRecords(rows', lower);
    forall x ensures x in Clean(rows) ==> x in Clean(rows')
             ensures x in Clean(rows') && x !in Clean(rows) ==> x.tt > t
    {
      CleanMembers(rows, x);
      CleanMembers(rows', x);
    }
    AsOfStable(Clean(rows), Clean(rows'), at, t);
  }

  // ----- the two modes -----

  /** Position of a key's first row with vt <= V among the group answers. */
  ghost predicate FirstOfKey(gs: seq<Landing>, v: i64, i: nat)
    requires i < |gs|
  {
    gs[i].vt <= v && forall j | 0 <= j < i && gs[j].Plain() == gs[i].Plain() :: gs[j].vt > v
  }

  /** Each key's first group row with vt <= V, kept if it is an assertion. */
  ghost function KeepFirst(gs: seq<Landing>, v: i64, n: nat): seq<Landing>
    requires n <= |gs|
  {
    if n == 0 then []
    else KeepFirst(gs, v, n - 1) + if FirstOfKey(gs, v, n - 1) && gs[n - 1].vtAssert then [gs[n - 1]] else []
  }

  lemma {:induction false} KeepFirstMembers(gs: seq<Landing>, v: i64, n: nat, x: Landing)
    requires n <= |gs|
    ensures x in KeepFirst(gs, v, n) <==> exists i: nat :: i < n && gs[i] == x && FirstOfKey(gs, v, i) && x.vtAssert
  {
    if n > 0 {
      KeepFirstMembers(gs, v, n - 1, x);
      assert FirstOfKey(gs, v, n - 1) || !FirstOfKey(gs, v, n - 1);
    }
  }

  lemma {:induction false} KeepFirstOrdered(gs: seq<Landing>, v: i64, n: nat)
    requires Ordered(gs) && n <= |gs|
    ensures Ordered(KeepFirst(gs, v, n))
  {
    hide Ordered, FirstOfKey;
    if n == 0 {
      NothingOrdered();
    } else {
      KeepFirstOrdered(gs, v, n - 1);
      var w := KeepFirst(gs, v, n - 1);
      forall x | x in w ensures x in gs[..n - 1] {
        KeepFirstMembers(gs, v, n - 1, x);
      }
      AppendOrdered(w, gs, n - 1);
      assert w + [] == w;
    }
  }

  /** Among all visible records of one group there is a winner. */
  lemma {:induction false} GroupHasWinner(cs: seq<Landing>, t: i64, y: Landing, n: nat) returns (w: Landing)
    requires n <= |cs| && y in cs && y.tt <= t
    ensures w in cs && w.Plain() == y.Plain() && w.vt == y.vt && y.tt <= w.tt <= t
    ensures forall i | 0 <= i < n && cs[i].Plain() == y.Plain() && cs[i].vt == y.vt && cs[i].tt <= t ::
              cs[i].tt < w.tt || (cs[i].tt == w.tt && (cs[i].vtAssert ==> w.vtAssert))
  {
    if n == 0 {
      w := y;
    } else {
      w := GroupHasWinner(cs, t, y, n - 1);
      var c := cs[n - 1];
      if c.Plain() == y.Plain() && c.vt == y.vt && c.tt <= t && (w.tt < c.tt || (w.tt == c.tt && c.vtAssert)) {
        w := c;
      }
    }
  }

  lemma {:induction false} GroupWinner(cs: seq<Landing>, t: i64, y: Landing) returns (w: Landing)
    requires Ordered(cs) && y in cs && y.tt <= t && Distinct(cs)
    ensures w in cs && WinsGroup(cs, t, w) && w.Plain() == y.Plain() && w.vt == y.vt && y.tt <= w.tt
  {
    w := GroupHasWinner(cs, t, y, |cs|);
    forall i | 0 <= i < |cs| && cs[i].Plain() == w.Plain() && cs[i].vt == w.vt && cs[i].tt <= t
      ensures cs[i].tt < w.tt || (cs[i].tt == w.tt && (cs[i] == w || w.vtAssert))
    {
      if cs[i].tt == w.tt && !w.vtAssert {
        assert At(cs[i]) == At(w);
      }
    }
  }

  /** A position names one record. */
  ghost predicate Distinct(cs: seq<Landing>) {
    forall x, y | x in cs && y in cs && At(x) == At(y) :: x == y
  }

  lemma {:induction false} OrderedDistinct(cs: seq<Landing>)
    requires Ordered(cs)
    ensures Distinct(cs)
  {
    forall x, y | x in cs && y in cs && At(x) == At(y) ensures x == y {
      var i :| 0 <= i < |cs| && cs[i] == x;
      var j :| 0 <= j < |cs| && cs[j] == y;
      PosTotal(At(x), At(y));
    }
  }

  /** A key's answer at V is the winner of its newest group at or before V, if that is an assertion. */
  lemma {:induction false} KeyWinnerIsNewestGroup(cs: seq<Landing>, v: i64, t: i64, x: Landing)
    requires Ordered(cs) && x in cs
    ensures WinsKey(cs, v, t, x) <==>
            && x.vtAssert && x.vt <= v && WinsGroup(cs, t, x)
            && forall y | y in cs && WinsGroup(cs, t, y) && y.Plain() == x.Plain() && y.vt <= v :: y.vt <= x.vt
  {
    OrderedDistinct(cs);
    if x.vtAssert && x.vt <= v && WinsGroup(cs, t, x)
       && forall y | y in cs && WinsGroup(cs, t, y) && y.Plain() == x.Plain() && y.vt <= v :: y.vt <= x.vt
    {
      forall i | 0 <= i < |cs| && cs[i].Plain() == x.Plain() && VisibleAt(cs[i], v, t)
        ensures cs[i].vt < x.vt || (cs[i].vt == x.vt && cs[i].tt <= x.tt)
      {
        var w := GroupWinner(cs, t, cs[i]);
      }
    }
  }

  lemma {:induction false} FirstIsNewest(gs: seq<Landing>, v: i64, i: nat)
    requires Ordered(gs) && i < |gs| && gs[i].vt <= v
    requires forall j, k | 0 <= j < k < |gs| && gs[j].Plain() == gs[k].Plain() :: gs[j].vt != gs[k].vt
    ensures FirstOfKey(gs, v, i) <==>
            forall y | y in gs && y.Plain() == gs[i].Plain() && y.vt <= v :: y.vt <= gs[i].vt
  {
    LtIrreflexive(gs[i].Plain());
    if FirstOfKey(gs, v, i) {
      forall j | 0 <= j < |gs| && gs[j].Plain() == gs[i].Plain() && gs[j].vt <= v ensures gs[j].vt <= gs[i].vt {
        if j > i {
          assert PosLess(At(gs[i]), At(gs[j]));
        }
      }
    } else {
      var j :| 0 <= j < i && gs[j].Plain() == gs[i].Plain() && gs[j].vt <= v;
      assert PosLess(At(gs[j]), At(gs[i]));
      assert gs[j] in gs;
    }
  }

  /** One row per (key, vt) group that holds any record at T. */
  lemma {:induction false} OneRowPerGroup(cs: seq<Landing>, t: i64)
    requires Ordered(cs)
    ensures var gs := Winners(cs, None, t);
            && (forall j, k | 0 <= j < k < |gs| && gs[j].Plain() == gs[k].Plain() :: gs[j].vt != gs[k].vt)
            && (forall y | y in cs && y.tt <= t :: exists w :: w in gs && w.Plain() == y.Plain() && w.vt == y.vt)
  {
    var gs := Winners(cs, None, t);
    AnswerMembers(cs, None, t);
    OrderedDistinct(cs);
    forall j, k | 0 <= j < k < |gs| && gs[j].Plain() == gs[k].Plain() ensures gs[j].vt != gs[k].vt {
      assert gs[j] in gs && gs[k] in gs && PosLess(At(gs[j]), At(gs[k]));
      PosTotal(At(gs[j]), At(gs[k]));
      if gs[j].vt == gs[k].vt {
        OneGroupWinner(cs, t, gs[j], gs[k]);
      }
    }
    forall y | y in cs && y.tt <= t ensures exists w :: w in gs && w.Plain() == y.Plain() && w.vt == y.vt {
      var w := GroupWinner(cs, t, y);
    }
  }

  lemma {:induction false} OneGroupWinner(cs: seq<Landing>, t: i64, x: Landing, y: Landing)
    requires Distinct(cs) && x in cs && y in cs && WinsGroup(cs, t, x) && WinsGroup(cs, t, y)
    requires x.Plain() == y.Plain() && x.vt == y.vt
    ensures x == y
  {
    var i :| 0 <= i < |cs| && cs[i] == x;
    var j :| 0 <= j < |cs| && cs[j] == y;
    if x.vtAssert && y.vtAssert {
      assert At(x) == At(y);
    }
  }

  /** Resolve-groups, then each key's first row with vt <= V kept if asserted, is resolve-key. */
  lemma {:induction false} ModesAgree(cs: seq<Landing>, v: i64, t: i64)
    requires Ordered(cs)
    ensures var gs := Winners(cs, None, t);
            KeepFirst(gs, v, |gs|) == Winners(cs, Some(v), t)
  {
    var gs := Winners(cs, None, t);
    AnswerMembers(cs, None, t);
    AnswerMembers(cs, Some(v), t);
    OneRowPerGroup(cs, t);
    KeepFirstOrdered(gs, v, |gs|);
    forall x ensures x in KeepFirst(gs, v, |gs|) <==> x in Winners(cs, Some(v), t) {
      ModesAgreeOn(cs, v, t, gs, x);
    }
    OrderedUnique(KeepFirst(gs, v, |gs|), Winners(cs, Some(v), t));
  }

  lemma {:induction false} ModesAgreeOn(cs: seq<Landing>, v: i64, t: i64, gs: seq<Landing>, x: Landing)
    requires Ordered(cs) && Ordered(gs)
    requires forall y :: y in gs <==> y in cs && Wins(cs, None, t, y)
    requires forall y :: y in Winners(cs, Some(v), t) <==> y in cs && Wins(cs, Some(v), t, y)
    requires forall j, k | 0 <= j < k < |gs| && gs[j].Plain() == gs[k].Plain() :: gs[j].vt != gs[k].vt
    ensures x in KeepFirst(gs, v, |gs|) <==> x in Winners(cs, Some(v), t)
  {
    KeepFirstMembers(gs, v, |gs|, x);
    if x in cs {
      KeyWinnerIsNewestGroup(cs, v, t, x);
    }
    if x in gs {
      var i: nat :| i < |gs| && gs[i] == x;
      if x.vt <= v {
        FirstIsNewest(gs, v, i);
      }
      forall k: nat | k < |gs| && gs[k] == x ensures k == i {
        PosTotal(At(x), At(x));
      }
    }
  }
}
