/** The resumable two-level scan over a probed key range. */
module BitemporalScan {
  import opened Bytes
  import opened Values
  import opened Store
  import opened Memcmp
  import opened Bitemporal
  import opened BitemporalWalk

  // ----- the records of a range -----

  /** The rows of a range whose keys parse, in key order. */
  function Clean(rows: seq<Row>): seq<Landing> {
    if rows == [] then []
    else (match Parse(rows[0]) case Some(l) => [l] case None => []) + Clean(rows[1..])
  }

  predicate AllClean(rows: seq<Row>) {
    forall i | 0 <= i < |rows| :: Parse(rows[i]).Some?
  }

  ghost predicate Compatible(x: seq<u8>, y: seq<u8>) {
    x == y || Splits(x, y)
  }

  /**
    * One relation, one key arity: plain keys are prefix-free, keys that parse are spelled as the
    * encoder spells them, and the range starts no later than the first temporal axis of any of them.
    */
  ghost predicate BitemporalRange(rows: seq<Row>, lower: seq<u8>) {
    && Sorted(rows)
    && (forall i | 0 <= i < |rows| && Parse(rows[i]).Some? ::
          rows[i].key == Raw(At(Parse(rows[i]).value)) && Le(lower, Parse(rows[i]).value.Plain()))
    && (forall i, j | 0 <= i < |rows| && 0 <= j < |rows| && Parse(rows[i]).Some? && Parse(rows[j]).Some? ::
          Compatible(Parse(rows[i]).value.Plain(), Parse(rows[j]).value.Plain()))
  }

  /** What the scan relies on, said of the records. */
  ghost predicate Records(cs: seq<Landing>, lower: seq<u8>) {
    && Ordered(cs)
    && (forall i | 0 <= i < |cs| :: cs[i].row.key == Raw(At(cs[i])) && Le(lower, cs[i].Plain()))
    && (forall i, j | 0 <= i < |cs| && 0 <= j < |cs| :: Compatible(cs[i].Plain(), cs[j].Plain()))
  }

  ghost predicate KeyCut(cs: seq<Landing>, bound: seq<u8>, i: nat) {
    && i <= |cs|
    && (forall j | 0 <= j < i :: Lt(cs[j].row.key, bound))
    && (forall j | i <= j < |cs| :: Le(bound, cs[j].row.key))
  }

  lemma {:induction false} CleanIndex(rows: seq<Row>, i: nat) returns (k: nat)
    requires i < |Clean(rows)|
    ensures k < |rows| && Parse(rows[k]) == Some(Clean(rows)[i]) && Clean(rows)[i].row == rows[k]
    ensures i == |Clean(rows[..k])|
  {
    var head: seq<Landing> := match Parse(rows[0]) case Some(l) => [l] case None => [];
    if i < |head| {
      k := 0;
    } else {
      var k' := CleanIndex(rows[1..], i - |head|);
      k := k' + 1;
      assert rows[..k][1..] == rows[1..][..k'];
    }
  }

  lemma {:induction false} CleanConcat(a: seq<Row>, b: seq<Row>)
    ensures Clean(a + b) == Clean(a) + Clean(b)
  {
    if a == [] {
      assert a + b == b;
    } else {
      assert (a + b)[1..] == a[1..] + b;
      CleanConcat(a[1..], b);
    }
  }

  lemma {:induction false} CleanPrefix(rows: seq<Row>, i: nat, j: nat)
    requires i <= j <= |rows|
    ensures |Clean(rows[..i])| <= |Clean(rows[..j])| <= |Clean(rows)|
  {
    assert rows[..j] == rows[..i] + rows[i..j] && rows == rows[..j] + rows[j..];
    CleanConcat(rows[..i], rows[i..j]);
    CleanConcat(rows[..j], rows[j..]);
  }

  /** Later records come from later rows. */
  lemma {:induction false} CleanMonotone(rows: seq<Row>, i: nat, j: nat) returns (k: nat, l: nat)
    requires i < j < |Clean(rows)|
    ensures k < l < |rows|
    ensures Parse(rows[k]) == Some(Clean(rows)[i]) && Parse(rows[l]) == Some(Clean(rows)[j])
    ensures Clean(rows)[i].row == rows[k] && Clean(rows)[j].row == rows[l]
  {
    k := CleanIndex(rows, i);
    l := CleanIndex(rows, j);
    if l <= k {
      CleanPrefix(rows, l, k);
    }
  }

  lemma {:induction false} CleanRecords(rows: seq<Row>, lower: seq<u8>)
    requires BitemporalRange(rows, lower)
    ensures Records(Clean(rows), lower)
  {
    var cs := Clean(rows);
    forall i | 0 <= i < |cs| ensures cs[i].row.key == Raw(At(cs[i])) && Le(lower, cs[i].Plain()) && cs[i].tt > I64_MIN {
      var k := CleanIndex(rows, i);
    }
    forall i, j | 0 <= i < |cs| && 0 <= j < |cs| ensures Compatible(cs[i].Plain(), cs[j].Plain()) {
      var k := CleanIndex(rows, i);
      var l := CleanIndex(rows, j);
    }
    forall i, j | 0 <= i < j < |cs| ensures PosLess(At(cs[i]), At(cs[j])) {
      var k, l := CleanMonotone(rows, i, j);
      RawOrder(At(cs[i]), At(cs[j]));
    }
  }

  lemma {:induction false} CleanHead(rows: seq<Row>, i: nat)
    requires i < |rows| && Parse(rows[i]).Some?
    ensures Clean(rows[i..]) != [] && Clean(rows[i..])[0] == Parse(rows[i]).value
  {
  }

  /** The first row at or after a bound, when it parses, is the first record at or after it. */
  lemma {:induction false} ProbeFindsRecord(rows: seq<Row>, bound: seq<u8>) returns (m: nat)
    requires Sorted(rows)
    requires First(rows, bound).Some? ==> Parse(First(rows, bound).value).Some?
    ensures KeyCut(Clean(rows), bound, m)
    ensures match First(rows, bound)
            case None => m == |Clean(rows)|
            case Some(row) => m < |Clean(rows)| && Parse(row) == Some(Clean(rows)[m])
  {
    hide Clean, Parse, Seek;
    var cs, i := Clean(rows), Seek(rows, bound);
    SeekCut(rows, bound);
    if i < |rows| {
      CleanHead(rows, i);
    } else {
      assert rows[..i] == rows;
    }
    m := |Clean(rows[..i])|;
    assert rows == rows[..i] + rows[i..];
    CleanConcat(rows[..i], rows[i..]);
    forall j | 0 <= j < m ensures Lt(cs[j].row.key, bound) {
      var k := CleanIndex(rows[..i], j);
    }
    forall j | m <= j < |cs| ensures Le(bound, cs[j].row.key) {
      var k := CleanIndex(rows[i..], j - m);
    }
  }

  // ----- bounds as bytes -----

  ghost predicate FitsPlain(cs: seq<Landing>, k: seq<u8>) {
    forall i | 0 <= i < |cs| :: Compatible(cs[i].Plain(), k)
  }

  lemma {:induction false} KeyCutIsPosCut(cs: seq<Landing>, lower: seq<u8>, p: Pos, m: nat)
    requires Records(cs, lower) && FitsPlain(cs, p.plain)
    ensures KeyCut(cs, Raw(p), m) <==> PosCut(cs, p, m)
  {
    forall j | 0 <= j < |cs|
      ensures Lt(cs[j].row.key, Raw(p)) <==> PosLess(At(cs[j]), p)
      ensures Le(Raw(p), cs[j].row.key) <==> !PosLess(At(cs[j]), p)
    {
      RawOrder(At(cs[j]), p);
    }
  }

  lemma {:induction false} KeyCutUnique(cs: seq<Landing>, bound: seq<u8>, i: nat, k: nat)
    requires KeyCut(cs, bound, i) && KeyCut(cs, bound, k)
    ensures i == k
  {
    if i < k {
      NotLt(bound, cs[i].row.key);
    } else if k < i {
      NotLt(bound, cs[k].row.key);
    }
  }

  // ----- the invariant of the walk -----

  /** A kept landing still answers the current bound, if the bound has not passed it. */
  ghost predicate PendingFits(cs: seq<Landing>, bound: seq<u8>, pending: Option<Landing>) {
    pending.Some? && Le(bound, pending.value.row.key) ==>
      exists m: nat :: m < |cs| && KeyCut(cs, bound, m) && cs[m] == pending.value
  }

  /** Positional bounds: the start of the range, or the end of a key or group already behind the frontier. */
  ghost predicate Positional(cs: seq<Landing>, at: Option<i64>, lower: seq<u8>, bound: seq<u8>, anchor: Option<Pos>) {
    match anchor
    case None => bound == lower
    case Some(p) => bound == Raw(p) && FitsPlain(cs, p.plain) && p == Stop(at, p.plain, p.vt)
  }

  ghost predicate PhaseFits(cs: seq<Landing>, at: Option<i64>, t: i64, lower: seq<u8>,
                            phase: Phase, bound: seq<u8>, n: nat, anchor: Option<Pos>)
  {
    match phase
    case ProbeAssert(key, None) =>
      && Boundary(cs, at, n) && KeyCut(cs, bound, n)
      && Positional(cs, at, lower, bound, anchor)
      && (at.Some? ==> key.None?)
    case ProbeAssert(Some(k), Some(g)) =>
      Resolving(cs, at, t, k, g, n) && bound == Raw(AssertBound(k, g, t))
    case ProbeAssert(None, Some(_)) => false
    case ProbeRetract(k, g, cand) =>
      Resolving(cs, at, t, k, g, n) && bound == Raw(RetractBound(k, g, t)) && Best(cs, t, k, g, true, cand)
    case Done => true
  }

  /** Same record, and the bound moved strictly up: the record is kept for the next turn. */
  lemma {:induction false} KeepPending(cs: seq<Landing>, lower: seq<u8>, was: seq<u8>, bound: seq<u8>, m: nat)
    requires Records(cs, lower) && m < |cs| && KeyCut(cs, was, m) && Lt(was, bound)
    ensures PendingFits(cs, bound, Some(cs[m]))
  {
    if Le(bound, cs[m].row.key) {
      forall j | 0 <= j < m ensures Lt(cs[j].row.key, bound) {
        LtTransitive(cs[j].row.key, was, bound);
      }
      forall j | m <= j < |cs| ensures Le(bound, cs[j].row.key) {
        if m < j {
          RawOrder(At(cs[m]), At(cs[j]));
          LeTransitive(bound, cs[m].row.key, cs[j].row.key);
        }
      }
      assert KeyCut(cs, bound, m);
    }
  }

  /** Moving on to a record outside the bound's group raises the bound. */
  lemma {:induction false} FreshRaises(cs: seq<Landing>, lower: seq<u8>, t: i64, p: Pos, m: nat, g: i64)
    requires Records(cs, lower) && FitsPlain(cs, p.plain) && PosCut(cs, p, m) && m < |cs|
    requires !InGroup(cs[m], p.plain, p.vt) && g <= cs[m].vt
    ensures Lt(Raw(p), Raw(AssertBound(cs[m].Plain(), g, t)))
  {
    AfterCut(cs, p, m, m);
    RawOrder(p, AssertBound(cs[m].Plain(), g, t));
  }

  lemma {:induction false} LowerRaises(lower: seq<u8>, p: Pos)
    requires Le(lower, p.plain)
    ensures Lt(lower, Raw(p))
  {
    Associate(p.plain, EncodeValidity(p.vt, p.vtAssert), EncodeValidity(p.tt, p.ttAssert));
    LtOfPrefix(p.plain, Raw(p));
    LeTransitive(lower, p.plain, Raw(p));
  }

  lemma {:induction false} AxesRaise(p: Pos, q: Pos)
    requires p.plain == q.plain && AxesLess(p, q)
    ensures Lt(Raw(p), Raw(q))
  {
    RawOrder(p, q);
  }

  /** A positional landing opens the group it names. */
  lemma {:induction false} OpenFresh(cs: seq<Landing>, at: Option<i64>, t: i64, lower: seq<u8>, bound: seq<u8>,
        n: nat, anchor: Option<Pos>)
    requires Records(cs, lower) && n < |cs| && Boundary(cs, at, n) && KeyCut(cs, bound, n)
    requires Positional(cs, at, lower, bound, anchor)
    ensures var k, g := cs[n].Plain(), FreshGroup(at, cs[n]);
            && Resolving(cs, at, t, k, g, n)
            && Lt(bound, Raw(AssertBound(k, g, t)))
            && PendingFits(cs, Raw(AssertBound(k, g, t)), Some(cs[n]))
            && PosSeek(cs, GroupEnd(k, g)) > n
  {
    var k, g := cs[n].Plain(), FreshGroup(at, cs[n]);
    Fresh(cs, at, t, n);
    GroupEndsPast(cs, k, g, n);
    match anchor {
      case None => LowerRaises(lower, AssertBound(k, g, t));
      case Some(p) =>
        KeyCutIsPosCut(cs, lower, p, n);
        AfterCut(cs, p, n, n);
        assert !PosLess(At(cs[n]), p);
        FreshRaises(cs, lower, t, p, n, g);
    }
    KeepPending(cs, lower, bound, Raw(AssertBound(k, g, t)), n);
  }

  /** A record outside an exhausted group opens the next group: its own, or its key's first. */
  lemma {:induction false} OpenNext(cs: seq<Landing>, at: Option<i64>, t: i64, lower: seq<u8>, k: seq<u8>, g: i64,
        n: nat, p: Pos, m: nat)
    returns (n': nat)
    requires Records(cs, lower) && Exhausted(cs, at, t, k, g, n, p, m) && m < |cs|
    ensures var k', g' := cs[m].Plain(), if cs[m].Plain() == k then cs[m].vt else FreshGroup(at, cs[m]);
            && n' <= |cs| && Resolving(cs, at, t, k', g', n')
            && WinnersUpTo(cs, at, t, n') == WinnersUpTo(cs, at, t, n)
            && Lt(Raw(p), Raw(AssertBound(k', g', t)))
            && PendingFits(cs, Raw(AssertBound(k', g', t)), Some(cs[m]))
            && PosSeek(cs, GroupEnd(k', g')) > PosSeek(cs, GroupEnd(k, g))
  {
    var k', g' := cs[m].Plain(), if cs[m].Plain() == k then cs[m].vt else FreshGroup(at, cs[m]);
    assert FitsPlain(cs, k);
    if at.Some? && k' == k {
      OlderGroup(cs, at.value, t, k, g, n, p, m);
      n' := n;
    } else {
      NothingWon(cs, at, t, k, g, n, p, m);
      Fresh(cs, at, t, m);
      n' := m;
    }
    GroupEndsBy(cs, k, g, p, m);
    GroupEndsPast(cs, k', g', m);
    FreshRaises(cs, lower, t, p, m, g');
    KeyCutIsPosCut(cs, lower, p, m);
    KeepPending(cs, lower, Raw(p), Raw(AssertBound(k', g', t)), m);
  }

  /** Where `advance` leaves the walk once `w` has decided the group. */
  lemma {:induction false} Advanced(cs: seq<Landing>, at: Option<i64>, t: i64, lower: seq<u8>, k: seq<u8>, g: i64,
        n: nat, w: Landing)
    returns (e: nat)
    requires Records(cs, lower) && Resolving(cs, at, t, k, g, n)
    requires w in cs && InGroup(w, k, g) && WinsGroup(cs, t, w)
    ensures e <= |cs| && Boundary(cs, at, e) && KeyCut(cs, Raw(Stop(at, k, g)), e)
    ensures Positional(cs, at, lower, Raw(Stop(at, k, g)), Some(Stop(at, k, g)))
    ensures WinnersUpTo(cs, at, t, e) == WinnersUpTo(cs, at, t, n) + if at.None? || w.vtAssert then [w] else []
    ensures |cs| - e <= |cs| - PosSeek(cs, GroupEnd(k, g))
    ensures Lt(Raw(AssertBound(k, g, t)), Raw(Stop(at, k, g)))
    ensures Lt(Raw(RetractBound(k, g, t)), Raw(Stop(at, k, g)))
  {
    e := PosSeek(cs, Stop(at, k, g));
    assert FitsPlain(cs, k);
    PosSeekCut(cs, Stop(at, k, g));
    StopBoundary(cs, at, t, k, g, n, e);
    Decided(cs, at, t, k, g, n, e, w);
    KeyCutIsPosCut(cs, lower, Stop(at, k, g), e);
    StopPastGroup(cs, at, k, g, e);
    AxesRaise(AssertBound(k, g, t), Stop(at, k, g));
    AxesRaise(RetractBound(k, g, t), Stop(at, k, g));
  }

  // ----- one turn, on values -----

  /** What every turn keeps; it does not depend on the backend. */
  ghost predicate Walking(cs: seq<Landing>, at: Option<i64>, t: i64, lower: seq<u8>, phase: Phase, bound: seq<u8>,
                          pending: Option<Landing>, n: nat, anchor: Option<Pos>, emitted: seq<Landing>)
  {
    && Records(cs, lower)
    && n <= |cs|
    && emitted == WinnersUpTo(cs, at, t, n)
    && PhaseFits(cs, at, t, lower, phase, bound, n, anchor)
    && PendingFits(cs, bound, pending)
  }

  ghost predicate Lands(cs: seq<Landing>, bound: seq<u8>, landing: Landing, m: nat) {
    m < |cs| && KeyCut(cs, bound, m) && cs[m] == landing
  }

  /** (records remaining, phase) goes down lexicographically. */
  ghost predicate Closer(cs: seq<Landing>, phase: Phase, n: nat, phase': Phase, n': nat) {
    || Remaining(cs, phase', n') < Remaining(cs, phase, n)
    || (Remaining(cs, phase', n') == Remaining(cs, phase, n) && PhaseRank(phase') < PhaseRank(phase))
  }

  lemma {:induction false} FreshStep(cs: seq<Landing>, at: Option<i64>, t: i64, lower: seq<u8>, phase: Phase,
        bound: seq<u8>, n: nat, anchor: Option<Pos>, emitted: seq<Landing>, landing: Landing, m: nat)
    requires Walking(cs, at, t, lower, phase, bound, None, n, anchor, emitted) && Lands(cs, bound, landing, m)
    requires phase.ProbeAssert? && phase.aim.None?
    ensures var same := phase.fromKey == Some(landing.Plain());
            var g := if same then landing.vt else FreshGroup(at, landing);
            var bound', phase' := Raw(AssertBound(landing.Plain(), g, t)), ProbeAssert(Some(landing.Plain()), Some(g));
            && Walking(cs, at, t, lower, phase', bound', Some(landing), n, anchor, emitted)
            && Lt(bound, bound') && Closer(cs, phase, n, phase', n)
  {
    KeyCutUnique(cs, bound, n, m);
    OpenFresh(cs, at, t, lower, bound, n, anchor);
  }

  /** From the assert run to the retract run of the same group, keeping the landing if it lies past the group. */
  lemma {:induction false} RetractStep(cs: seq<Landing>, at: Option<i64>, t: i64, lower: seq<u8>, bound: seq<u8>,
        n: nat, anchor: Option<Pos>, emitted: seq<Landing>, k: seq<u8>, g: i64, landing: Landing, m: nat)
    requires Walking(cs, at, t, lower, ProbeAssert(Some(k), Some(g)), bound, None, n, anchor, emitted)
    requires Lands(cs, bound, landing, m)
    ensures var cand := if InGroup(landing, k, g) && landing.vtAssert then Some(landing) else None;
            var bound', phase' := Raw(RetractBound(k, g, t)), ProbeRetract(k, g, cand);
            && Walking(cs, at, t, lower, phase', bound', None, n, anchor, emitted)
            && Walking(cs, at, t, lower, phase', bound', Some(landing), n, anchor, emitted)
            && Lt(bound, bound') && Closer(cs, ProbeAssert(Some(k), Some(g)), n, phase', n)
  {
    assert FitsPlain(cs, k);
    KeyCutIsPosCut(cs, lower, AssertBound(k, g, t), m);
    BestAssert(cs, t, k, g, m);
    AxesRaise(AssertBound(k, g, t), RetractBound(k, g, t));
    KeepPending(cs, lower, bound, Raw(RetractBound(k, g, t)), m);
  }

  ghost predicate Deciding(phase: Phase, k: seq<u8>, g: i64) {
    phase == ProbeAssert(Some(k), Some(g)) || (phase.ProbeRetract? && phase.key == k && phase.group == g)
  }

  function Emission(at: Option<i64>, w: Landing): seq<Landing> {
    if at.None? || w.vtAssert then [w] else []
  }

  /** The winner of the group is known: the frontier passes the key or group, over the winner alone. */
  lemma {:induction false} DecideStep(cs: seq<Landing>, at: Option<i64>, t: i64, lower: seq<u8>, phase: Phase,
        bound: seq<u8>, n: nat, anchor: Option<Pos>, emitted: seq<Landing>, k: seq<u8>, g: i64, cand: Option<Landing>,
        retract: Option<Landing>, landing: Landing, m: nat) returns (n': nat)
    requires Walking(cs, at, t, lower, phase, bound, None, n, anchor, emitted) && Deciding(phase, k, g)
    requires Lands(cs, bound, landing, m)
    requires Best(cs, t, k, g, true, cand) && Best(cs, t, k, g, false, retract) && Better(cand, retract).Some?
    ensures var w := Better(cand, retract).value;
            var bound', phase' := Raw(Stop(at, k, g)), ProbeAssert(if at.Some? then None else Some(k), None);
            var emitted' := emitted + Emission(at, w);
            && Walking(cs, at, t, lower, phase', bound', None, n', Some(Stop(at, k, g)), emitted')
            && Walking(cs, at, t, lower, phase', bound', Some(landing), n', Some(Stop(at, k, g)), emitted')
            && Lt(bound, bound') && Closer(cs, phase, n, phase', n')
  {
    BetterWins(cs, t, k, g, cand, retract);
    n' := Advanced(cs, at, t, lower, k, g, n, Better(cand, retract).value);
    KeepPending(cs, lower, bound, Raw(Stop(at, k, g)), m);
  }

  /** Nothing in the group is visible: the landing names what to decide next. */
  lemma {:induction false} FallStep(cs: seq<Landing>, at: Option<i64>, t: i64, lower: seq<u8>, phase: Phase,
        bound: seq<u8>, n: nat, anchor: Option<Pos>, emitted: seq<Landing>, k: seq<u8>, g: i64, p: Pos,
        landing: Landing, m: nat)
    returns (n': nat)
    requires Walking(cs, at, t, lower, phase, bound, None, n, anchor, emitted) && Deciding(phase, k, g)
    requires Lands(cs, bound, landing, m) && bound == Raw(p) && Exhausted(cs, at, t, k, g, n, p, m)
    ensures var same := landing.Plain() == k;
            var g' := if same then landing.vt else FreshGroup(at, landing);
            var bound' := Raw(AssertBound(landing.Plain(), g', t));
            var phase' := ProbeAssert(Some(landing.Plain()), Some(g'));
            && Walking(cs, at, t, lower, phase', bound', Some(landing), n', anchor, emitted)
            && Lt(bound, bound') && Closer(cs, phase, n, phase', n')
  {
    n' := OpenNext(cs, at, t, lower, k, g, n, p, m);
  }

  /** Range exhausted: a held assert candidate still wins; otherwise nothing more does. */
  lemma {:induction false} EndStep(cs: seq<Landing>, at: Option<i64>, t: i64, lower: seq<u8>, phase: Phase,
        bound: seq<u8>, n: nat, anchor: Option<Pos>, emitted: seq<Landing>)
    requires Walking(cs, at, t, lower, phase, bound, None, n, anchor, emitted) && !phase.Done?
    requires KeyCut(cs, bound, |cs|)
    ensures Winners(cs, at, t) ==
            if phase.ProbeRetract? && phase.cand.Some? then emitted + [phase.cand.value] else emitted
    ensures Walking(cs, at, t, lower, Done, bound, None, |cs|, anchor, Winners(cs, at, t))
  {
    match phase {
      case ProbeAssert(_, None) =>
        KeyCutUnique(cs, bound, n, |cs|);
      case ProbeAssert(Some(k), Some(g)) =>
        assert FitsPlain(cs, k);
        KeyCutIsPosCut(cs, lower, AssertBound(k, g, t), |cs|);
        EmptyAtEndOfKey(cs, t, k, g, AssertBound(k, g, t), |cs|);
        NothingWon(cs, at, t, k, g, n, AssertBound(k, g, t), |cs|);
      case ProbeRetract(k, g, cand) =>
        assert FitsPlain(cs, k);
        KeyCutIsPosCut(cs, lower, RetractBound(k, g, t), |cs|);
        BestRetract(cs, t, k, g, |cs|);
        if cand.Some? {
          EndWithCandidate(cs, at, t, lower, k, g, n, cand);
        } else {
          EmptyAtRetract(cs, t, k, g, |cs|);
          NothingWon(cs, at, t, k, g, n, RetractBound(k, g, t), |cs|);
        }
    }
  }

  lemma {:induction false} EndWithCandidate(cs: seq<Landing>, at: Option<i64>, t: i64, lower: seq<u8>, k: seq<u8>,
        g: i64, n: nat, cand: Option<Landing>)
    requires Records(cs, lower) && Resolving(cs, at, t, k, g, n) && PosCut(cs, RetractBound(k, g, t), |cs|)
    requires cand.Some? && Best(cs, t, k, g, true, cand) && Best(cs, t, k, g, false, None)
    ensures Winners(cs, at, t) == WinnersUpTo(cs, at, t, n) + [cand.value]
  {
    BetterWins(cs, t, k, g, cand, None);
    var e := Advanced(cs, at, t, lower, k, g, n, cand.value);
    PosSeekCut(cs, Stop(at, k, g));
    forall j | 0 <= j < |cs| ensures PosLess(At(cs[j]), Stop(at, k, g)) {
      PosTransitive(At(cs[j]), RetractBound(k, g, t), Stop(at, k, g));
    }
    assert FitsPlain(cs, k);
    KeyCutIsPosCut(cs, lower, Stop(at, k, g), |cs|);
    KeyCutUnique(cs, Raw(Stop(at, k, g)), e, |cs|);
  }

  lemma {:induction false} EmptyAtEndOfKey(cs: seq<Landing>, t: i64, k: seq<u8>, g: i64, p: Pos, m: nat)
    requires Ordered(cs) && p == AssertBound(k, g, t) && PosCut(cs, p, m)
    requires m < |cs| ==> cs[m].Plain() != k
    ensures forall j | 0 <= j < |cs| && InGroup(cs[j], k, g) :: cs[j].tt > t
  {
    forall j | 0 <= j < |cs| && InGroup(cs[j], k, g) ensures cs[j].tt > t {
      if m <= j {
        AfterCut(cs, p, m, j);
      } else {
        assert PosLess(At(cs[j]), p);
        LtIrreflexive(k);
      }
    }
  }

  lemma {:induction false} EmptyAtRetract(cs: seq<Landing>, t: i64, k: seq<u8>, g: i64, m: nat)
    requires Ordered(cs) && PosCut(cs, RetractBound(k, g, t), m)
    requires Best(cs, t, k, g, true, None) && Best(cs, t, k, g, false, None)
    ensures forall j | 0 <= j < |cs| && InGroup(cs[j], k, g) :: cs[j].tt > t
    ensures m < |cs| ==> !InGroup(cs[m], k, g)
  {
    if m < |cs| && InGroup(cs[m], k, g) {
      LtIrreflexive(k);
      assert !PosLess(At(cs[m]), RetractBound(k, g, t));
    }
  }

  /** The facts the assert turn and the retract turn branch on. */
  lemma {:induction false} AssertFacts(cs: seq<Landing>, at: Option<i64>, t: i64, lower: seq<u8>, bound: seq<u8>,
        n: nat, anchor: Option<Pos>, emitted: seq<Landing>, k: seq<u8>, g: i64, landing: Landing, m: nat)
    requires Walking(cs, at, t, lower, ProbeAssert(Some(k), Some(g)), bound, None, n, anchor, emitted)
    requires Lands(cs, bound, landing, m)
    ensures bound == Raw(AssertBound(k, g, t))
    ensures InGroup(landing, k, g) && !landing.vtAssert && landing.tt <= t ==>
              Best(cs, t, k, g, true, None) && Best(cs, t, k, g, false, Some(landing))
    ensures landing.Plain() != k ==> Exhausted(cs, at, t, k, g, n, AssertBound(k, g, t), m)
  {
    assert FitsPlain(cs, k);
    KeyCutIsPosCut(cs, lower, AssertBound(k, g, t), m);
    BestAssert(cs, t, k, g, m);
    if InGroup(landing, k, g) && !landing.vtAssert && landing.tt <= t {
      BestRetractEarly(cs, t, k, g, m);
    } else if landing.Plain() != k {
      EmptyAtEndOfKey(cs, t, k, g, AssertBound(k, g, t), m);
    }
  }

  lemma {:induction false} RetractFacts(cs: seq<Landing>, at: Option<i64>, t: i64, lower: seq<u8>, bound: seq<u8>,
        n: nat, anchor: Option<Pos>, emitted: seq<Landing>, k: seq<u8>, g: i64, cand: Option<Landing>,
        landing: Landing, m: nat)
    requires Walking(cs, at, t, lower, ProbeRetract(k, g, cand), bound, None, n, anchor, emitted)
    requires Lands(cs, bound, landing, m)
    ensures bound == Raw(RetractBound(k, g, t)) && Best(cs, t, k, g, true, cand)
    ensures var inRun := InGroup(landing, k, g) && !landing.vtAssert && landing.tt <= t;
            && Best(cs, t, k, g, false, if inRun then Some(landing) else None)
            && (!inRun && cand.None? ==> Exhausted(cs, at, t, k, g, n, RetractBound(k, g, t), m))
    ensures cand.Some? ==> cand.value.vtAssert
  {
    assert FitsPlain(cs, k);
    KeyCutIsPosCut(cs, lower, RetractBound(k, g, t), m);
    BestRetract(cs, t, k, g, m);
    if !(InGroup(landing, k, g) && !landing.vtAssert && landing.tt <= t) && cand.None? {
      EmptyAtRetract(cs, t, k, g, m);
    }
  }

  // ----- the iterator -----

  function RowsOf(cs: seq<Landing>): (rows: seq<Row>)
    ensures |rows| == |cs|
  {
    seq(|cs|, i requires 0 <= i < |cs| => cs[i].row)
  }

  lemma {:induction false} RowsOfAppend(cs: seq<Landing>, l: Landing)
    ensures RowsOf(cs + [l]) == RowsOf(cs) + [l.row]
  {
  }

  /** One call of the iterator: a row, the end of the range, or the error of a corrupt key. */
  datatype Outcome = Yield(row: Row) | End | Failed

  datatype Fetched = Found(landing: Landing) | RangeEnd | Corrupt

  class BitemporalIter {
    const probe: HybridProbe
    const vtAt: Option<i64>
    const ttAt: i64
    var bound: seq<u8>
    var boundIsFar: bool
    var phase: Phase
    var pending: Option<Landing>

    ghost const lower: seq<u8>
    /** The records of the range; those before `frontier` are accounted for in `emitted`. */
    ghost const cs: seq<Landing>
    ghost var frontier: nat
    ghost var anchor: Option<Pos>
    ghost var emitted: seq<Landing>
    ghost var failed: bool

    ghost predicate Steady()
      reads this
    {
      Walking(cs, vtAt, ttAt, lower, phase, bound, pending, frontier, anchor, emitted)
    }

    ghost predicate Valid()
      reads this, probe, probe.cursor
    {
      && probe.Valid()
      && BitemporalRange(probe.cursor.rows, lower)
      && cs == Clean(probe.cursor.rows)
      && Steady()
      && Le(probe.prevBound, bound)
      && (failed ==> phase.Done? && !AllClean(probe.cursor.rows))
      && (phase.Done? && !failed ==> frontier == |cs|)
    }

    constructor (probe: HybridProbe, lower: seq<u8>, vtAt: Option<i64>, ttAt: i64)
      requires probe.Valid() && probe.prevBound == [] && BitemporalRange(probe.cursor.rows, lower)
      ensures Valid() && emitted == [] && !failed
      ensures this.probe == probe && this.vtAt == vtAt && this.ttAt == ttAt
    {
      this.probe := probe;
      this.vtAt := vtAt;
      this.ttAt := ttAt;
      this.bound := lower;
      this.boundIsFar := true;
      this.phase := ProbeAssert(None, None);
      this.pending := None;
      this.lower := lower;
      this.frontier := 0;
      this.anchor := None;
      this.emitted := [];
      this.failed := false;
      this.cs := Clean(probe.cursor.rows);
      new;
      CleanRecords(probe.cursor.rows, lower);
      LowerCut(cs, lower);
    }

    lemma {:induction false} EmittedBound()
      requires Valid()
      ensures |emitted| <= |Winners(cs, vtAt, ttAt)|
    {
      WinnersPrefix(cs, vtAt, ttAt, frontier, |cs|);
    }

    method SetBound(plain: seq<u8>, vt: i64, vtAssert: bool, tt: i64, ttAssert: bool)
      modifies `bound, `boundIsFar
      ensures bound == Raw(Pos(plain, vt, vtAssert, tt, ttAssert)) && !boundIsFar
    {
      bound := plain;
      bound := bound + EncodeValidity(vt, vtAssert);
      bound := bound + EncodeValidity(tt, ttAssert);
      boundIsFar := false;
    }

    /** After a group is decided: on to the next key, or to the key's next older group. */
    method Advance(plain: seq<u8>, group: i64)
      modifies `bound, `boundIsFar, `phase
      ensures bound == Raw(Stop(vtAt, plain, group)) && boundIsFar
      ensures phase == ProbeAssert(if vtAt.Some? then None else Some(plain), None)
    {
      if vtAt.Some? {
        SetBound(plain, I64_MIN, false, I64_MIN, false);
        boundIsFar := true;
        phase := ProbeAssert(None, None);
      } else {
        SetBound(plain, group, false, I64_MIN, false);
        boundIsFar := true;
        phase := ProbeAssert(Some(plain), None);
      }
    }

    method AimAssert(plain: seq<u8>, group: i64)
      modifies `bound, `boundIsFar, `phase
      ensures bound == Raw(AssertBound(plain, group, ttAt)) && !boundIsFar
      ensures phase == ProbeAssert(Some(plain), Some(group))
    {
      SetBound(plain, group, true, ttAt, true);
      phase := ProbeAssert(Some(plain), Some(group));
    }

    method AimRetract(plain: seq<u8>, group: i64, cand: Option<Landing>)
      modifies `bound, `boundIsFar, `phase
      ensures bound == Raw(RetractBound(plain, group, ttAt)) && !boundIsFar
      ensures phase == ProbeRetract(plain, group, cand)
    {
      SetBound(plain, group, false, ttAt, true);
      phase := ProbeRetract(plain, group, cand);
    }

    /** Pick the group to decide at a fresh landing: V for a new key that starts newer than V, else its own. */
    method ClassifyFresh(landing: Landing, sameKeyWalk: bool)
      modifies `bound, `boundIsFar, `phase
      ensures var g := if sameKeyWalk then landing.vt else FreshGroup(vtAt, landing);
              && bound == Raw(AssertBound(landing.Plain(), g, ttAt))
              && phase == ProbeAssert(Some(landing.Plain()), Some(g))
    {
      var group := landing.vt;
      if vtAt.Some? && !sameKeyWalk {
        group := if landing.vt > vtAt.value then vtAt.value else landing.vt;
      }
      AimAssert(landing.Plain(), group);
    }

    /** A turn in the assert phase; `out` is the row to emit, if any. */
    method AssertTurn(landing: Landing, ghost m: nat) returns (out: Option<Landing>)
      requires Steady() && phase.ProbeAssert? && pending.None? && Lands(cs, bound, landing, m)
      modifies this
      ensures Steady() && !phase.Done? && failed == old(failed)
      ensures Lt(old(bound), bound)
      ensures emitted == old(emitted) + match out case None => [] case Some(l) => [l]
      ensures Closer(cs, old(phase), old(frontier), phase, frontier)
    {
      hide Walking, Closer, Lands, Raw;
      out := None;
      match phase {
        case ProbeAssert(key, None) =>
          FreshStep(cs, vtAt, ttAt, lower, phase, bound, frontier, anchor, emitted, landing, m);
          ClassifyFresh(landing, key == Some(landing.Plain()));
          pending := Some(landing);
        case ProbeAssert(Some(k), Some(g)) =>
          out := DirectedTurn(k, g, landing, m);
        case ProbeAssert(None, Some(_)) =>
          NoSuchPhase(cs, vtAt, ttAt, lower, phase, bound, frontier, anchor, emitted);
      }
    }

    /** The landing of a probe aimed at the assert run of (k, g). */
    method DirectedTurn(k: seq<u8>, g: i64, landing: Landing, ghost m: nat) returns (out: Option<Landing>)
      requires Steady() && phase == ProbeAssert(Some(k), Some(g)) && pending.None? && Lands(cs, bound, landing, m)
      modifies this
      ensures Steady() && !phase.Done? && failed == old(failed)
      ensures Lt(old(bound), bound)
      ensures emitted == old(emitted) + match out case None => [] case Some(l) => [l]
      ensures Closer(cs, old(phase), old(frontier), phase, frontier)
    {
      hide Walking, Closer, Lands, Raw, Best, Exhausted;
      out := None;
      AssertFacts(cs, vtAt, ttAt, lower, bound, frontier, anchor, emitted, k, g, landing, m);
      if landing.Plain() != k {
        ghost var n := FallStep(cs, vtAt, ttAt, lower, phase, bound, frontier, anchor, emitted, k, g,
                                AssertBound(k, g, ttAt), landing, m);
        ClassifyFresh(landing, false);
        frontier := n;
        pending := Some(landing);
      } else if landing.vt == g && !landing.vtAssert && landing.tt <= ttAt {
        // the group's belief is this retraction
        ghost var n := DecideStep(cs, vtAt, ttAt, lower, phase, bound, frontier, anchor, emitted, k, g,
                                  None, Some(landing), landing, m);
        Advance(k, g);
        frontier, anchor, emitted := n, Some(Stop(vtAt, k, g)), emitted + Emission(vtAt, landing);
        if vtAt.None? {
          out := Some(landing);
        }
      } else {
        RetractStep(cs, vtAt, ttAt, lower, bound, frontier, anchor, emitted, k, g, landing, m);
        if landing.vt == g && landing.vtAssert {
          // the greatest assert tt <= T of the group
          AimRetract(k, g, Some(landing));
        } else {
          // the newest retract is beyond T, or the landing lies past the group
          AimRetract(k, g, None);
          if landing.vt != g {
            pending := Some(landing);
          }
        }
      }
    }

    /** A turn in the retract phase. */
    method RetractTurn(landing: Landing, ghost m: nat) returns (out: Option<Landing>)
      requires Steady() && phase.ProbeRetract? && pending.None? && Lands(cs, bound, landing, m)
      modifies this
      ensures Steady() && !phase.Done? && failed == old(failed)
      ensures Lt(old(bound), bound)
      ensures emitted == old(emitted) + match out case None => [] case Some(l) => [l]
      ensures Closer(cs, old(phase), old(frontier), phase, frontier)
    {
      hide Walking, Closer, Lands, Raw, Best, Exhausted;
      var k, g, cand := phase.key, phase.group, phase.cand;
      RetractFacts(cs, vtAt, ttAt, lower, bound, frontier, anchor, emitted, k, g, cand, landing, m);
      var inRun := landing.Plain() == k && landing.vt == g && !landing.vtAssert && landing.tt <= ttAt;
      out := None;
      if !inRun && cand.None? {
        // group empty at T: the landing names the older group or the next key
        ghost var n := FallStep(cs, vtAt, ttAt, lower, phase, bound, frontier, anchor, emitted, k, g,
                                RetractBound(k, g, ttAt), landing, m);
        ClassifyFresh(landing, landing.Plain() == k);
        frontier := n;
        pending := Some(landing);
      } else {
        ghost var retract := if inRun then Some(landing) else None;
        ghost var n := DecideStep(cs, vtAt, ttAt, lower, phase, bound, frontier, anchor, emitted, k, g,
                                  cand, retract, landing, m);
        // equal (vt, tt) ties resolve to the assertion
        var assertWins := cand.Some? && (!inRun || landing.tt <= cand.value.tt);
        Advance(k, g);
        frontier, anchor, emitted := n, Some(Stop(vtAt, k, g)), emitted + Emission(vtAt, Better(cand, retract).value);
        if assertWins {
          out := cand;
        } else if vtAt.None? {
          out := Some(landing);
        }
        if !inRun {
          // the landing (often the next key's first row) usually answers the advance bound
          pending := Some(landing);
        }
      }
    }

    /** The landing for the current bound: the kept one if it still answers it, else one probe. */
    method Fetch() returns (f: Fetched, ghost m: nat)
      requires Valid() && !phase.Done?
      modifies `pending, probe, probe.cursor
      ensures Valid() && pending.None? && Remaining(cs, phase, frontier) >= 0
      ensures match f
              case Found(landing) => Lands(cs, bound, landing, m)
              case RangeEnd => KeyCut(cs, bound, |cs|)
              case Corrupt => !AllClean(probe.cursor.rows)
    {
      hide Walking, PhaseFits, Records, Clean, BitemporalRange, KeyCut;
      PendingOnly(cs, vtAt, ttAt, lower, phase, bound, pending, frontier, anchor, emitted);
      m := 0;
      if pending.Some? && Le(bound, pending.value.row.key) {
        f := Found(pending.value);
        m :| m < |cs| && KeyCut(cs, bound, m) && cs[m] == pending.value;
        pending := None;
      } else {
        pending := None;
        var hit := probe.Probe(bound, boundIsFar);
        if hit.None? {
          f := RangeEnd;
          m := ProbeFindsRecord(probe.cursor.rows, bound);
        } else {
          var parsed := Parse(hit.value);
          if parsed.None? {
            FirstIsRow(probe.cursor.rows, bound);
            f := Corrupt;
          } else {
            f := Found(parsed.value);
            m := ProbeFindsRecord(probe.cursor.rows, bound);
          }
        }
      }
    }

    method Turn(landing: Landing, ghost m: nat) returns (out: Option<Landing>)
      requires Valid() && !phase.Done? && pending.None? && Lands(cs, bound, landing, m)
      modifies this
      ensures Valid() && !phase.Done?
      ensures Lt(old(bound), bound)
      ensures emitted == old(emitted) + match out case None => [] case Some(l) => [l]
      ensures Closer(cs, old(phase), old(frontier), phase, frontier)
    {
      hide Walking, Lands, Closer, Clean, BitemporalRange;
      if phase.ProbeAssert? {
        out := AssertTurn(landing, m);
      } else {
        out := RetractTurn(landing, m);
      }
      LeTransitive(probe.prevBound, old(bound), bound);
    }

    method NextInner() returns (r: Outcome)
      requires Valid()
      modifies this, probe, probe.cursor
      ensures Valid() && failed == old(failed) && (failed ==> r.End?)
      ensures match r
              case Yield(row) => exists l: Landing :: l.row == row && emitted == old(emitted) + [l]
              case End => phase.Done? && emitted == old(emitted)
              case Failed => emitted == old(emitted) && !AllClean(probe.cursor.rows)
    {
      hide Walking, Lands, Clean, BitemporalRange, KeyCut;
      while !phase.Done?
        invariant Valid() && failed == old(failed) && emitted == old(emitted)
        decreases Remaining(cs, phase, frontier), PhaseRank(phase)
      {
        var f;
        ghost var m;
        f, m := Fetch();
        match f {
          case Found(landing) =>
            var out := Turn(landing, m);
            if out.Some? {
              return Yield(out.value.row);
            }
          case RangeEnd =>
            // a held assertion candidate wins at range end
            var prev := phase;
            EndStep(cs, vtAt, ttAt, lower, phase, bound, frontier, anchor, emitted);
            phase, frontier := Done, |cs|;
            if prev.ProbeRetract? && prev.cand.Some? {
              emitted := emitted + [prev.cand.value];
              return Yield(prev.cand.value.row);
            }
            return End;
          case Corrupt =>
            return Failed;
        }
      }
      return End;
    }

    /** The iterator protocol: rows, then the end; an error is reported once and ends the scan. */
    method Next() returns (r: Outcome)
      requires Valid()
      modifies this, probe, probe.cursor
      ensures Valid()
      ensures match r
              case Yield(row) => !failed && exists l: Landing :: l.row == row && emitted == old(emitted) + [l]
              case End => phase.Done? && failed == old(failed) && emitted == old(emitted)
              case Failed => failed && !old(failed) && emitted == old(emitted)
      ensures !failed && phase.Done? ==> emitted == Winners(cs, vtAt, ttAt)
    {
      hide PhaseFits, Clean, BitemporalRange, Records;
      r := NextInner();
      if r.Failed? {
        PendingOnly(cs, vtAt, ttAt, lower, phase, bound, pending, frontier, anchor, emitted);
        phase := Done;
        failed := true;
      }
    }
  }

  /** Draining the iterator over a range whose keys all parse yields the winners' rows, in key order. */
  method CollectAll(probe: HybridProbe, lower: seq<u8>, vtAt: Option<i64>, ttAt: i64) returns (rows: seq<Row>, ok: bool)
    requires probe.Valid() && probe.prevBound == [] && BitemporalRange(probe.cursor.rows, lower)
    modifies probe, probe.cursor
    ensures AllClean(probe.cursor.rows) ==> ok
    ensures ok ==> rows == RowsOf(Winners(Clean(probe.cursor.rows), vtAt, ttAt))
  {
    hide Clean, BitemporalRange, Walking, AllClean, RowsOf, Winners;
    var iter := new BitemporalIter(probe, lower, vtAt, ttAt);
    ghost var all := Winners(iter.cs, vtAt, ttAt);
    rows, ok := [], true;
    var more := true;
    while more
      invariant iter.Valid() && iter.probe == probe && iter.vtAt == vtAt && iter.ttAt == ttAt
      invariant fresh(iter) && iter.failed == !ok && rows == RowsOf(iter.emitted)
      invariant (more ==> ok) && (!more && ok ==> iter.emitted == all)
      decreases more, |all| - |rows|
    {
      ghost var before := iter.emitted;
      var r := iter.Next();
      iter.EmittedBound();
      match r {
        case Yield(row) =>
          ghost var l: Landing :| l.row == row && iter.emitted == before + [l];
          RowsOfAppend(before, l);
          rows := rows + [row];
        case End => more := false;
        case Failed => more, ok := false, false;
      }
    }
  }

  lemma {:induction false} PendingOnly(cs: seq<Landing>, at: Option<i64>, t: i64, lower: seq<u8>, phase: Phase,
        bound: seq<u8>, pending: Option<Landing>, n: nat, anchor: Option<Pos>, emitted: seq<Landing>)
    requires Walking(cs, at, t, lower, phase, bound, pending, n, anchor, emitted)
    ensures Walking(cs, at, t, lower, phase, bound, None, n, anchor, emitted) && PendingFits(cs, bound, pending)
    ensures Walking(cs, at, t, lower, Done, bound, pending, n, anchor, emitted) && Remaining(cs, phase, n) >= 0
  {
  }

  lemma {:induction false} FirstIsRow(rows: seq<Row>, bound: seq<u8>)
    requires Sorted(rows) && First(rows, bound).Some? && Parse(First(rows, bound).value).None?
    ensures !AllClean(rows)
  {
    assert First(rows, bound).value == rows[Seek(rows, bound)];
  }

  lemma {:induction false} NoSuchPhase(cs: seq<Landing>, at: Option<i64>, t: i64, lower: seq<u8>, phase: Phase,
        bound: seq<u8>, n: nat, anchor: Option<Pos>, emitted: seq<Landing>)
    requires Walking(cs, at, t, lower, phase, bound, None, n, anchor, emitted)
    ensures phase.ProbeAssert? && phase.aim.Some? ==> phase.fromKey.Some?
  {
  }

  lemma {:induction false} LowerCut(cs: seq<Landing>, lower: seq<u8>)
    requires Records(cs, lower)
    ensures KeyCut(cs, lower, 0)
  {
    forall j | 0 <= j < |cs| ensures Le(lower, cs[j].row.key) {
      LowerRaises(lower, At(cs[j]));
    }
  }
}
