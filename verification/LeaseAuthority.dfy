/** Who may use and end a transaction, and what ends it: over whole runs, in terms of the requests alone. */
module LeaseAuthority {
  import opened Bytes
  import opened Values
  import opened TransactionTable
  import opened TransactionLeases
  import opened LeaseRuns

  // ----- who began a transaction -----

  /** The transaction an action starts: none if a read-only token asks to write. */
  function Starts(a: Action): seq<Start> {
    match a
    case Begin(auth, write) => if write && auth.immutable then [] else [Start(auth.principal, write)]
    case _ => []
  }

  /** The transactions started by the actions, in order: number `tx` is `Begun(acts)[tx]`. */
  function Begun(acts: seq<Action>): seq<Start> {
    if acts == [] then [] else Begun(acts[..|acts| - 1]) + Starts(acts[|acts| - 1])
  }

  ghost predicate PendingFrom(pending: map<nat, Start>, bs: seq<Start>) {
    forall tx | tx in pending :: tx < |bs| && pending[tx] == bs[tx]
  }

  ghost predicate TableFrom(txs: Table, bs: seq<Start>) {
    forall id | id in txs :: txs[id].tx < |bs| && Start(txs[id].owner, txs[id].write) == bs[txs[id].tx]
  }

  /** What the state remembers of a transaction is how it was begun. */
  ghost predicate Remembers(s: State, bs: seq<Start>) {
    |bs| == s.started && PendingFrom(s.pending, bs) && TableFrom(s.txs, bs)
  }

  lemma {:induction false} BeginRemembers(s: State, b: Start, bs: seq<Start>)
    requires Remembers(s, bs)
    ensures PendingFrom(s.pending[s.started := b], bs + [b]) && TableFrom(s.txs, bs + [b])
  {
  }

  lemma {:induction false} InsertRemembers(s: State, tx: nat, now: nat, bs: seq<Start>)
    requires Remembers(s, bs) && tx in s.pending
    ensures PendingFrom(s.pending - {tx}, bs) && TableFrom(s.txs[IdOf(tx) := Entry(tx, s.pending[tx], now)], bs)
  {
  }

  lemma {:induction false} TableKept(txs: Table, txs': Table, bs: seq<Start>)
    requires TableFrom(txs, bs) && forall id | id in txs' :: id in txs && txs'[id].tx == txs[id].tx
    requires forall id | id in txs' :: txs'[id].owner == txs[id].owner && txs'[id].write == txs[id].write
    ensures TableFrom(txs', bs)
  {
  }

  lemma {:induction false} StepRemembers(s: State, a: Action, bs: seq<Start>)
    requires Enabled(s, a) && Remembers(s, bs)
    ensures Remembers(Apply(s, a), bs + Starts(a))
  {
    hide Reaped, AwaitAll, PendingFrom, TableFrom, MayAcquire, MayFinish;
    assert bs + [] == bs;
    match a {
      case Begin(auth, write) => BeginRemembers(s, Start(auth.principal, write), bs);
      case Insert(tx) => InsertRemembers(s, tx, s.clock, bs);
      case _ =>
        OtherTable(s, a);
        TableKept(s.txs, Apply(s, a).txs, bs);
    }
  }

  /** An action that inserts nothing keeps the entries it leaves as they were begun. */
  lemma {:induction false} OtherTable(s: State, a: Action)
    requires Enabled(s, a) && !a.Begin? && !a.Insert?
    ensures var txs := Apply(s, a).txs;
            && (forall id | id in txs :: id in s.txs && txs[id].tx == s.txs[id].tx)
            && (forall id | id in txs :: txs[id].owner == s.txs[id].owner && txs[id].write == s.txs[id].write)
  {
    hide Reaped, AwaitAll;
  }

  lemma {:induction false} RunRemembers(states: seq<State>, acts: seq<Action>, i: nat)
    requires Run(states, acts) && i < |states|
    ensures Remembers(states[i], Begun(acts[..i]))
  {
    hide Enabled, Apply, Starts;
    if i == 0 {
      NothingBegun();
    } else {
      RunRemembers(states, acts, i - 1);
      assert acts[..i][..i - 1] == acts[..i - 1] && acts[..i][i - 1] == acts[i - 1];
      StepRemembers(states[i - 1], acts[i - 1], Begun(acts[..i - 1]));
    }
  }

  lemma {:induction false} NothingBegun()
    ensures Remembers(INIT, [])
  {
  }

  lemma {:induction false} BegunGrows(acts: seq<Action>, i: nat, j: nat)
    requires i <= j <= |acts|
    ensures Begun(acts[..i]) <= Begun(acts[..j])
    decreases j
  {
    hide Starts;
    if i < j {
      BegunGrows(acts, i, j - 1);
      assert acts[..j][..j - 1] == acts[..j - 1];
    }
  }

  lemma {:induction false} BegunBy(acts: seq<Action>, i: nat)
    requires i <= |acts|
    ensures Begun(acts[..i]) <= Begun(acts)
  {
    BegunGrows(acts, i, |acts|);
    assert acts[..|acts|] == acts;
  }

  // ----- leases -----

  /** The principal is the one that began the transaction, with a token that may write if the transaction does. */
  predicate Entitled(b: Start, auth: Auth) {
    b.owner == auth.principal && (b.write ==> !auth.immutable)
  }

  ghost predicate Unleased(s: State, tx: nat) {
    forall l | l in s.leases :: s.leases[l].tx != tx
  }

  lemma {:induction false} IdleIsUnleased(s: State, id: u32)
    requires Inv(s) && id in s.txs
    ensures s.txs[id].inFlight == 0 <==> Unleased(s, s.txs[id].tx)
  {
    hide Once, Dated, ReapedIdle, Wired;
    if s.txs[id].inFlight == 0 {
      forall l | l in s.leases ensures s.leases[l].tx != s.txs[id].tx {
        NoneOn(s.leases, id, l);
        assert IdOf(s.txs[id].tx) == id && IdOf(s.txs[s.leases[l].id].tx) == s.leases[l].id;
      }
    } else {
      var l :| l in LeasesOn(s.leases, id);
    }
  }

  /**
    * A request gets a lease exactly if the transaction is open under that identifier, the principal is the one that
    * began it, its token may write if the transaction does, and no lease on it is live. Nothing else happens.
    */
  lemma {:induction false} AcquireIff(states: seq<State>, acts: seq<Action>, i: nat, id: u32, auth: Auth)
    requires Run(states, acts) && FreeIds(states, acts) && i < |acts| && acts[i] == Acquire(id, auth)
    ensures var s, s', bs := states[i], states[i + 1], Begun(acts[..i]);
            && (id in s.txs ==> s.txs[id].tx < |bs|)
            && if id in s.txs && Entitled(bs[s.txs[id].tx], auth) && Unleased(s, s.txs[id].tx)
               then s.nextLease !in s.leases && s'.leases == s.leases[s.nextLease := Lease(id, s.txs[id].tx)]
               else s' == s
  {
    hide Inv, Enabled, Unleased, Begun;
    RunRemembers(states, acts, i);
    RunSafe(states, acts, i);
    var s := states[i];
    NewUnused(s);
    if id in s.txs {
      IdleIsUnleased(s, id);
    }
  }

  /**
    * The answers, in terms of who began the transaction and which leases are live: a stranger, or a token that may not
    * write, learns that it is forbidden before it could learn of an operation in progress.
    */
  lemma {:induction false} AnswersAre(states: seq<State>, acts: seq<Action>, i: nat, id: u32, auth: Auth, abort: bool)
    requires Run(states, acts) && FreeIds(states, acts) && i < |states|
    ensures var s, bs := states[i], Begun(acts[..i]);
            if id !in s.txs then MayAcquire(s.txs, id, auth) == MayFinish(s.txs, id, auth, abort) == NotFound
            else
              && s.txs[id].tx < |bs|
              && MayAcquire(s.txs, id, auth) ==
                 (if !Entitled(bs[s.txs[id].tx], auth) then Forbidden
                  else if !Unleased(s, s.txs[id].tx) then Conflict else Granted)
              && MayFinish(s.txs, id, auth, abort) ==
                 (if !Entitled(bs[s.txs[id].tx], if abort then auth.(immutable := false) else auth) then Forbidden
                  else if !Unleased(s, s.txs[id].tx) then Conflict else Granted)
  {
    hide Inv, Enabled, Unleased, Begun, Run;
    RunRemembers(states, acts, i);
    RunSafe(states, acts, i);
    if id in states[i].txs {
      IdleIsUnleased(states[i], id);
    }
  }

  lemma {:induction false} NewUnused(s: State)
    requires Inv(s)
    ensures s.nextLease !in s.leases
  {
    NewLeaseUnused(s);
  }

  /** Every live lease was given out on request of the principal that began its transaction. */
  lemma {:induction false} LeaseHolder(states: seq<State>, acts: seq<Action>, i: nat, l: nat) returns (k: nat)
    requires Run(states, acts) && FreeIds(states, acts) && i < |states| && l in states[i].leases
    ensures var tx := states[i].leases[l].tx;
            && k < i && acts[k].Acquire? && acts[k].id == states[i].leases[l].id
            && l !in states[k].leases && l in states[k + 1].leases
            && tx < |Begun(acts)| && Entitled(Begun(acts)[tx], acts[k].auth)
  {
    hide Enabled, Inv, Apply, Begun, Entitled;
    StartsEmpty(states, acts, i);
    if l in states[i - 1].leases && states[i - 1].leases[l] == states[i].leases[l] {
      k := LeaseHolder(states, acts, i - 1, l);
    } else {
      k := i - 1;
      RunSafe(states, acts, k);
      NewUnused(states[k]);
      OnlyAcquireLeases(states[k], acts[k], l);
      AcquireIff(states, acts, k, acts[k].id, acts[k].auth);
      BegunBy(acts, k);
    }
  }

  lemma {:induction false} StartsEmpty(states: seq<State>, acts: seq<Action>, i: nat)
    requires Run(states, acts) && i < |states|
    ensures i == 0 ==> states[i].leases == map[] && states[i].endings == []
    ensures i > 0 ==> Enabled(states[i - 1], acts[i - 1]) && states[i] == Apply(states[i - 1], acts[i - 1])
  {
  }

  lemma {:induction false} OnlyAcquireLeases(s: State, a: Action, l: nat)
    requires Enabled(s, a) && l in Apply(s, a).leases
    ensures a.Acquire? || (l in s.leases && s.leases[l] == Apply(s, a).leases[l])
  {
    hide Reaped, AwaitAll, Released, Acquired;
  }

  // ----- endings -----

  /**
    * A request to finish ends the transaction exactly if it is open under that identifier, the principal is the one
    * that began it, no lease on it is live, and a read-only token that meets a writing transaction asks to abort. The
    * worker is asked to abort if the request says so and to commit if not.
    */
  lemma {:induction false} FinishIff(states: seq<State>, acts: seq<Action>, i: nat, id: u32, auth: Auth, abort: bool)
    requires Run(states, acts) && FreeIds(states, acts) && i < |acts| && acts[i] == Finish(id, auth, abort)
    ensures var s, s', bs := states[i], states[i + 1], Begun(acts[..i]);
            && (id in s.txs ==> s.txs[id].tx < |bs|)
            && if id in s.txs && Unleased(s, s.txs[id].tx) && bs[s.txs[id].tx].owner == auth.principal &&
                  (abort || Entitled(bs[s.txs[id].tx], auth))
               then
                 && id !in s'.txs && s'.endings[..|s.endings|] == s.endings && |s'.endings| == |s.endings| + 1
                 && s'.endings[|s.endings|].tx == s.txs[id].tx
                 && (s'.endings[|s.endings|].kind == Abort <==> abort)
                 && (s'.endings[|s.endings|].kind == Commit <==> !abort)
               else s' == s
  {
    hide Inv, Enabled, Unleased, Begun, AwaitAll;
    RunRemembers(states, acts, i);
    RunSafe(states, acts, i);
    if id in states[i].txs {
      IdleIsUnleased(states[i], id);
    }
  }

  /** The step that added an ending, by its kind. */
  ghost predicate Caused(kind: Kind, tx: nat, a: Action, bs: seq<Start>) {
    match kind
    case Commit => a.Finish? && !a.abort && tx < |bs| && Entitled(bs[tx], a.auth)
    case Abort => a.Finish? && a.abort && tx < |bs| && bs[tx].owner == a.auth.principal
    case Reap => a.Sweep?
  }

  lemma {:induction false} CausedLater(kind: Kind, tx: nat, a: Action, bs: seq<Start>, more: seq<Start>)
    requires Caused(kind, tx, a, bs) && bs <= more
    ensures Caused(kind, tx, a, more)
  {
  }

  lemma {:induction false} StepCaused(s: State, a: Action, bs: seq<Start>, e: nat)
    requires Enabled(s, a) && Remembers(s, bs) && |s.endings| <= e < |Apply(s, a).endings|
    ensures Caused(Apply(s, a).endings[e].kind, Apply(s, a).endings[e].tx, a, bs)
  {
    hide AwaitAll, Released, Acquired;
  }

  /**
    * A committed transaction was committed on request of the principal that began it, with a token that may write if
    * the transaction does; an aborted one on request of that principal; any other ended one was reaped.
    */
  lemma {:induction false} EndingCause(states: seq<State>, acts: seq<Action>, i: nat, e: nat) returns (k: nat)
    requires Run(states, acts) && i < |states| && e < |states[i].endings|
    ensures k < i && |states[k].endings| <= e < |states[k + 1].endings|
    ensures states[k + 1].endings[e] == states[i].endings[e]
    ensures Caused(states[i].endings[e].kind, states[i].endings[e].tx, acts[k], Begun(acts))
  {
    hide Enabled, Apply, Begun, Caused;
    StartsEmpty(states, acts, i);
    StepExtends(states[i - 1], acts[i - 1]);
    if e < |states[i - 1].endings| {
      k := EndingCause(states, acts, i - 1, e);
    } else {
      k := i - 1;
      RunRemembers(states, acts, k);
      StepCaused(states[k], acts[k], Begun(acts[..k]), e);
      BegunBy(acts, k);
      CausedLater(states[i].endings[e].kind, states[i].endings[e].tx, acts[k], Begun(acts[..k]), Begun(acts));
    }
  }

  // ----- the reaper does its work -----

  /**
    * A sweep with the clock read at `now` leaves exactly the open transactions that have a live lease or were used
    * within the timeout before `now`, and asks the worker of each other to abort.
    */
  lemma {:induction false} SweepExact(states: seq<State>, acts: seq<Action>, i: nat, id: u32)
    requires Run(states, acts) && FreeIds(states, acts) && i < |acts| && acts[i].Sweep? && id in states[i].txs
    ensures var s, s', tx := states[i], states[i + 1], states[i].txs[id].tx;
            && s.reaper.Some? && tx < |s.lastUse|
            && (id in s'.txs <==> !Unleased(s, tx) || s.reaper.value < s.lastUse[tx] + TRANSACTION_IDLE_TIMEOUT)
            && (id !in s'.txs ==> exists e :: |s.endings| <= e < |s'.endings| && s'.endings[e].tx == tx &&
                                              s'.endings[e].kind == Reap)
  {
    hide Placed, Once, Counted, ReapedIdle, Wired, AwaitAll, Unleased;
    RunSafe(states, acts, i);
    var s, s', ids := states[i], states[i + 1], acts[i].ids;
    IdleIsUnleased(s, id);
    if id in Expired(s.txs, s.reaper.value) {
      assert id in ids;
      var j :| 0 <= j < |ids| && ids[j] == id;
      assert s'.endings[|s.endings| + j] == Reaped(s.txs, ids, s.clock)[j];
    }
  }
}
