/** Safety of the lease protocol over whole runs, and what a wrapped identifier breaks. */
module LeaseRuns {
  import opened Bytes
  import opened Values
  import opened TransactionTable
  import opened TransactionLeases

  /** Any interleaving: the next action is any enabled one. */
  ghost predicate Run(states: seq<State>, acts: seq<Action>) {
    && |states| == |acts| + 1 && states[0] == INIT
    && forall i | 0 <= i < |acts| :: Enabled(states[i], acts[i]) && states[i + 1] == Apply(states[i], acts[i])
  }

  /** No entry is inserted under an identifier still in the table. */
  ghost predicate FreeIds(states: seq<State>, acts: seq<Action>)
    requires |states| == |acts| + 1
  {
    forall i | 0 <= i < |acts| && acts[i].Insert? :: IdOf(acts[i].tx) !in states[i].txs
  }

  lemma {:induction false} StepKeeps(s: State, a: Action)
    requires Inv(s) && Enabled(s, a) && (a.Insert? ==> IdOf(a.tx) !in s.txs)
    ensures Inv(Apply(s, a))
  {
    hide Placed, Once, Counted, Dated, Wired;
    match a {
      case Tick(_) =>
      case Begin(auth, write) => BeginKeeps(s, auth, write);
      case Insert(tx) => InsertKeeps(s, tx);
      case Acquire(id, auth) => AcquireKeeps(s, id, auth);
      case Release(l) => ReleaseKeeps(s, l);
      case ReadClock =>
      case Sweep(ids) => SweepKeeps(s, ids);
      case Finish(id, auth, abort) => FinishKeeps(s, id, auth, abort);
      case Send(who) => SendKeeps(s, who);
      case Reply(tx) => ReplyKeeps(s, tx);
      case Receive(who) => ReceiveKeeps(s, who);
    }
  }

  lemma {:induction false} RunSafe(states: seq<State>, acts: seq<Action>, i: nat)
    requires Run(states, acts) && FreeIds(states, acts) && i < |states|
    ensures Inv(states[i])
  {
    if i == 0 {
      InitSafe();
    } else {
      RunSafe(states, acts, i - 1);
      StepKeeps(states[i - 1], acts[i - 1]);
    }
  }

  lemma {:induction false} InitSafe()
    ensures Inv(INIT)
  {
  }

  // ----- what the invariant says -----

  /** In every reachable state, each started transaction is in exactly one place. */
  lemma {:induction false} Conserved(states: seq<State>, acts: seq<Action>, i: nat, tx: nat)
    requires Run(states, acts) && FreeIds(states, acts) && i < |states| && tx < states[i].started
    ensures var s := states[i];
            var p, t, e := tx in s.pending, IsStored(s.txs, tx), tx in Ended(s.endings);
            (p || t || e) && !(p && t) && !(p && e) && !(t && e)
    ensures forall e, f | 0 <= e < f < |states[i].endings| :: states[i].endings[e].tx != states[i].endings[f].tx
  {
    RunSafe(states, acts, i);
  }

  /** `inFlight` is the number of live leases, 0 or 1, and a leased transaction is in the table. */
  lemma {:induction false} LeasesExact(states: seq<State>, acts: seq<Action>, i: nat)
    requires Run(states, acts) && FreeIds(states, acts) && i < |states|
    ensures forall id | id in states[i].txs :: states[i].txs[id].inFlight == |LeasesOn(states[i].leases, id)| <= 1
    ensures forall l | l in states[i].leases :: IsStored(states[i].txs, states[i].leases[l].tx)
  {
    RunSafe(states, acts, i);
  }

  ghost predicate Extends(es: seq<Ending>, es': seq<Ending>) {
    |es| <= |es'| && forall e | 0 <= e < |es| :: es'[e] == es[e]
  }

  lemma {:induction false} StepExtends(s: State, a: Action)
    requires Enabled(s, a)
    ensures Extends(s.endings, Apply(s, a).endings) && s.clock <= Apply(s, a).clock
  {
  }

  lemma {:induction false} RunExtends(states: seq<State>, acts: seq<Action>, i: nat, j: nat)
    requires Run(states, acts) && i <= j < |states|
    ensures Extends(states[i].endings, states[j].endings) && states[i].clock <= states[j].clock
    decreases j
  {
    hide Enabled, Apply;
    if i < j {
      RunExtends(states, acts, i, j - 1);
      StepExtends(states[j - 1], acts[j - 1]);
    }
  }

  /** A transaction is finished or reaped at most once, and is never seen in the table again. */
  lemma {:induction false} EndedForGood(states: seq<State>, acts: seq<Action>, i: nat, j: nat, e: nat)
    requires Run(states, acts) && FreeIds(states, acts) && i <= j < |states| && e < |states[i].endings|
    ensures var s, tx := states[j], states[i].endings[e].tx;
            && e < |s.endings| && s.endings[e] == states[i].endings[e]
            && (forall f | 0 <= f < |s.endings| && f != e :: s.endings[f].tx != tx)
            && tx !in s.pending && !IsStored(s.txs, tx) && forall l | l in s.leases :: s.leases[l].tx != tx
  {
    hide Run, FreeIds, Enabled, Apply;
    RunExtends(states, acts, i, j);
    RunSafe(states, acts, j);
    EndedMembers(states[j].endings, e);
  }

  /** A lease ends only when it is dropped. */
  lemma {:induction false} LeaseSurvives(s: State, a: Action, l: nat)
    requires Inv(s) && Enabled(s, a) && (a.Insert? ==> IdOf(a.tx) !in s.txs) && l in s.leases && a != Release(l)
    ensures var s' := Apply(s, a);
            l in s'.leases && s'.leases[l] == s.leases[l] && IsStored(s'.txs, s.leases[l].tx)
  {
    hide Inv, Enabled, Apply;
    StepKeeps(s, a);
    LeaseStaysPut(s, a, l);
  }

  lemma {:induction false} LeaseStaysPut(s: State, a: Action, l: nat)
    requires Inv(s) && Enabled(s, a) && Inv(Apply(s, a)) && l in s.leases && a != Release(l)
    ensures var s' := Apply(s, a);
            l in s'.leases && s'.leases[l] == s.leases[l] && IsStored(s'.txs, s.leases[l].tx)
  {
    hide Placed, Once, Dated, ReapedIdle, Wired;
    NewLeaseUnused(s);
    var s' := Apply(s, a);
    assert l in s'.leases && s'.leases[l] == s.leases[l];
    LeaseIsStored(s', l);
  }

  lemma {:induction false} LeaseIsStored(s: State, l: nat)
    requires Inv(s) && l in s.leases
    ensures IsStored(s.txs, s.leases[l].tx)
  {
  }

  // ----- the reaper -----

  lemma {:induction false} StepLastUse(s: State, a: Action, l: nat, tx: nat, t: nat)
    requires Inv(s) && Enabled(s, a) && Inv(Apply(s, a)) && tx < |s.lastUse| && t <= s.clock
    requires (l in s.leases && s.leases[l].tx == tx) || (l !in s.leases && t <= s.lastUse[tx])
    requires l < s.nextLease
    ensures var s' := Apply(s, a);
            && tx < |s'.lastUse| && l < s'.nextLease
            && ((l in s'.leases && s'.leases[l].tx == tx) || (l !in s'.leases && t <= s'.lastUse[tx]))
  {
    hide Placed, Once, Counted, Dated, ReapedIdle, Wired;
    NewLeaseUnused(s);
  }

  lemma {:induction false} LeaseBounds(s: State, l: nat)
    requires Inv(s) && l in s.leases
    ensures s.leases[l].tx < |s.lastUse| && l < s.nextLease
  {
    StoredNotEnded(s, s.leases[l].id);
  }

  /** A lease seen at state `i` is still there at `j`, or its transaction's last use is no earlier than `i`. */
  lemma {:induction false} LastUseCovers(states: seq<State>, acts: seq<Action>, i: nat, j: nat, l: nat)
    requires Run(states, acts) && FreeIds(states, acts) && i <= j < |states| && l in states[i].leases
    ensures var tx, s := states[i].leases[l].tx, states[j];
            && tx < |s.lastUse| && l < s.nextLease
            && ((l in s.leases && s.leases[l].tx == tx) || (l !in s.leases && states[i].clock <= s.lastUse[tx]))
    decreases j
  {
    hide Enabled, Apply, Inv;
    RunSafe(states, acts, j);
    if i == j {
      LeaseBounds(states[i], l);
    } else {
      LastUseCovers(states, acts, i, j - 1, l);
      RunExtends(states, acts, i, j - 1);
      RunSafe(states, acts, j - 1);
      StepLastUse(states[j - 1], acts[j - 1], l, states[i].leases[l].tx, states[i].clock);
    }
  }

  /** A reaped transaction had no lease at any moment of the preceding timeout. */
  lemma {:induction false} ReapedAfterIdle(states: seq<State>, acts: seq<Action>, i: nat, j: nat, e: nat, l: nat)
    requires Run(states, acts) && FreeIds(states, acts) && i <= j < |states|
    requires e < |states[j].endings| && states[j].endings[e].kind == Reap
    requires l in states[i].leases && states[i].leases[l].tx == states[j].endings[e].tx
    ensures states[i].clock + TRANSACTION_IDLE_TIMEOUT <= states[j].endings[e].at
  {
    hide Run, FreeIds, Enabled, Apply;
    LastUseCovers(states, acts, i, j, l);
    EndedForGood(states, acts, j, j, e);
    RunSafe(states, acts, j);
  }

  // ----- replies -----

  /** Every caller receives its own reply, and none is lost: a waiting caller's message is alone on the wire. */
  lemma {:induction false} OwnReply(states: seq<State>, acts: seq<Action>, i: nat, who: Who)
    requires Run(states, acts) && FreeIds(states, acts) && i < |states|
    ensures i < |acts| && acts[i] == Receive(who) ==>
              states[i].wires[TxOf(states[i].leases, states[i].endings, who)].replies[0] == who
    ensures who in states[i].stages && states[i].stages[who] == Sent ==>
              && Live(states[i].leases, states[i].endings, who)
              && TxOf(states[i].leases, states[i].endings, who) < |states[i].wires|
              && Outstanding(states[i].wires[TxOf(states[i].leases, states[i].endings, who)]) == [who]
  {
    RunSafe(states, acts, i);
    if i < |acts| && acts[i] == Receive(who) {
      ReceiveKeeps(states[i], who);
    }
  }

  // ----- identifiers -----

  /** Inserting keeps the protocol safe exactly when the identifier is free. */
  lemma {:induction false} InsertSafeIff(s: State, tx: nat)
    requires Inv(s) && tx in s.pending
    ensures Enabled(s, Insert(tx))
    ensures Inv(Apply(s, Insert(tx))) <==> IdOf(tx) !in s.txs
  {
    if IdOf(tx) !in s.txs {
      InsertKeeps(s, tx);
    } else {
      InsertLoses(s, tx);
    }
  }

  /** The overwritten transaction is then nowhere: neither pending, nor in the table, nor ended. */
  lemma {:induction false} InsertLoses(s: State, tx: nat)
    requires Inv(s) && tx in s.pending && IdOf(tx) in s.txs
    ensures Enabled(s, Insert(tx))
    ensures var s', u := Apply(s, Insert(tx)), s.txs[IdOf(tx)].tx;
            u < s'.started && u !in s'.pending && !IsStored(s'.txs, u) && u !in Ended(s'.endings)
    ensures !Inv(Apply(s, Insert(tx)))
  {
    hide Once, Counted, Dated, ReapedIdle, Wired;
    var u := s.txs[IdOf(tx)].tx;
    assert IdOf(u) == IdOf(tx);
    assert IsStored(s.txs, u) && u !in s.pending;
  }

  /** Until the counter has wrapped, every identifier drawn is free. */
  lemma {:induction false} FewStartsFree(s: State, tx: nat)
    requires Inv(s) && s.started <= 0x1_0000_0000 && tx in s.pending
    ensures IdOf(tx) !in s.txs
  {
    forall id | id in s.txs ensures id != IdOf(tx) {
      assert IdOf(s.txs[id].tx) == s.txs[id].tx && IdOf(tx) == tx;
      assert IsStored(s.txs, s.txs[id].tx);
    }
  }

  /** Runs that start at most 2^32 transactions are safe with no assumption on identifiers. */
  lemma {:induction false} ShortRunsSafe(states: seq<State>, acts: seq<Action>, i: nat)
    requires Run(states, acts) && i < |states| && states[i].started <= 0x1_0000_0000
    ensures Inv(states[i])
  {
    hide Enabled, Apply, Inv;
    if i == 0 {
      InitSafe();
    } else {
      StartedGrows(states[i - 1], acts[i - 1]);
      ShortRunsSafe(states, acts, i - 1);
      if acts[i - 1].Insert? {
        InsertPending(states[i - 1], acts[i - 1].tx);
        FewStartsFree(states[i - 1], acts[i - 1].tx);
      }
      StepKeeps(states[i - 1], acts[i - 1]);
    }
  }

  lemma {:induction false} InsertPending(s: State, tx: nat)
    requires Enabled(s, Insert(tx))
    ensures tx in s.pending
  {
  }

  lemma {:induction false} StartedGrows(s: State, a: Action)
    requires Enabled(s, a)
    ensures s.started <= Apply(s, a).started
  {
  }

  // ----- a run whose counter wraps -----

  lemma {:induction false} Extend(states: seq<State>, acts: seq<Action>, a: Action)
    returns (states': seq<State>, acts': seq<Action>)
    requires Run(states, acts) && Enabled(states[|acts|], a)
    ensures Run(states', acts') && |acts'| == |acts| + 1 && states'[|acts'|] == Apply(states[|acts|], a)
  {
    hide Enabled, Apply;
    states', acts' := states + [Apply(states[|acts|], a)], acts + [a];
    forall i | 0 <= i < |acts'|
      ensures Enabled(states'[i], acts'[i]) && states'[i + 1] == Apply(states'[i], acts'[i])
    {
      assert states'[i] == states[i];
    }
  }

  const USER: Auth := Auth(false, Local)

  /** Transaction 0 is leased all along; `n` others have come and gone. */
  ghost predicate Busy(s: State, n: nat) {
    && s.started == n + 1 && s.pending == map[] && s.leases == map[0 := Lease(0, 0)]
    && s.txs == map[0 := Stored(0, Local, false, s.clock + TRANSACTION_IDLE_TIMEOUT, 1)]
    && |s.lastUse| == s.started
  }

  lemma {:induction false} FirstLease()
    ensures var s := Apply(INIT, Begin(USER, false));
            && Enabled(s, Insert(0))
            && var t := Apply(s, Insert(0));
               Busy(Apply(t, Acquire(0, USER)), 0)
  {
    var s := Apply(INIT, Begin(USER, false));
    var t := Apply(s, Insert(0));
    assert t.txs == map[0 := Stored(0, Local, false, TRANSACTION_IDLE_TIMEOUT, 0)] && t.pending == map[];
  }

  lemma {:induction false} ComeAndGo(s: State, n: nat)
    requires 0 < n < 0x1_0000_0000 && Busy(s, n - 1)
    ensures var t := Apply(s, Begin(USER, false));
            && Enabled(t, Insert(n))
            && Busy(Apply(Apply(t, Insert(n)), Finish(IdOf(n), USER, true)), n)
  {
    var t := Apply(s, Begin(USER, false));
    assert t.pending == map[n := Start(Local, false)];
    var u := Apply(t, Insert(n));
    assert u.pending == map[] && IdOf(n) == n && u.txs - {n} == s.txs;
  }

  lemma {:induction false} BusyRun(n: nat) returns (states: seq<State>, acts: seq<Action>)
    requires n < 0x1_0000_0000
    ensures Run(states, acts) && Busy(states[|acts|], n)
  {
    if n == 0 {
      FirstLease();
      states, acts := [INIT], [];
      states, acts := Extend(states, acts, Begin(USER, false));
      states, acts := Extend(states, acts, Insert(0));
      states, acts := Extend(states, acts, Acquire(0, USER));
    } else {
      states, acts := BusyRun(n - 1);
      ComeAndGo(states[|acts|], n);
      states, acts := Extend(states, acts, Begin(USER, false));
      states, acts := Extend(states, acts, Insert(n));
      states, acts := Extend(states, acts, Finish(IdOf(n), USER, true));
    }
  }

  /** After 2^32 starts a new transaction takes the identifier of a leased one, whose count is lost. */
  lemma {:induction false} WrapBreaks() returns (states: seq<State>, acts: seq<Action>)
    ensures Run(states, acts)
    ensures var s := states[|acts|];
            && 0 in s.leases && s.leases[0] == Lease(0, 0)
            && 0 in s.txs && s.txs[0].inFlight == 0 && s.txs[0].tx == 0x1_0000_0000
            && !IsStored(s.txs, 0)
  {
    var n: nat := 0xFFFF_FFFF;
    states, acts := BusyRun(n);
    states, acts := Extend(states, acts, Begin(USER, false));
    states, acts := Extend(states, acts, Insert(n + 1));
  }
}
