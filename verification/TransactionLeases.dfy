/**
  * The lease protocol over every interleaving of handlers, lease drops, the reaper and the workers.
  * Each action is one section run under the lock, or one channel operation.
  */
module TransactionLeases {
  import opened Bytes
  import opened Values
  import opened TransactionTable

  /** A request on a transaction's channel: not sent yet, sent, or answered. */
  datatype Stage = Fresh | Sent | Answered

  datatype Lease = Lease(id: u32, tx: nat)

  /** A transaction whose identifier is drawn and whose entry is not inserted yet. */
  datatype Start = Start(owner: Principal, write: bool)

  datatype Kind = Commit | Abort | Reap

  /** A transaction taken out of the table; whoever took it sends one last request. */
  datatype Ending = Ending(tx: nat, kind: Kind, at: nat)

  datatype Who = ByLease(lease: nat) | ByEnding(ending: nat)

  /** The two channels between a transaction's callers and its worker. */
  datatype Wire = Wire(requests: seq<Who>, replies: seq<Who>)

  datatype State = State(
    clock: nat,
    started: nat,
    pending: map<nat, Start>,
    txs: Table,
    leases: map<nat, Lease>,
    nextLease: nat,
    endings: seq<Ending>,
    reaper: Option<nat>,
    stages: map<Who, Stage>,
    wires: seq<Wire>,
    /** When each transaction was inserted or last had a lease taken or dropped. */
    lastUse: seq<nat>
  )

  const INIT: State := State(0, 0, map[], map[], map[], 0, [], None, map[], [], [])

  datatype Action =
    | Tick(now: nat)
    | Begin(auth: Auth, write: bool)
    | Insert(tx: nat)
    | Acquire(id: u32, auth: Auth)
    | Release(lease: nat)
    | ReadClock
    | Sweep(ids: seq<u32>)
    | Finish(id: u32, auth: Auth, abort: bool)
    | Send(who: Who)
    | Reply(tx: nat)
    | Receive(who: Who)

  /** The counter is 32 bits wide and wraps. */
  function IdOf(tx: nat): u32 {
    tx % 0x1_0000_0000
  }

  predicate Live(leases: map<nat, Lease>, endings: seq<Ending>, who: Who) {
    match who
    case ByLease(l) => l in leases
    case ByEnding(e) => e < |endings|
  }

  function TxOf(leases: map<nat, Lease>, endings: seq<Ending>, who: Who): nat {
    match who
    case ByLease(l) => if l in leases then leases[l].tx else 0
    case ByEnding(e) => if e < |endings| then endings[e].tx else 0
  }

  ghost predicate Enabled(s: State, a: Action) {
    match a
    case Tick(now) => s.clock <= now
    case Begin(_, _) => true
    case Insert(tx) => tx in s.pending && tx < |s.lastUse|
    case Acquire(_, _) => true
    case Release(l) => l in s.leases && ByLease(l) in s.stages && s.stages[ByLease(l)] != Sent
    case ReadClock => true
    case Sweep(ids) =>
      && s.reaper.Some?
      && (forall id :: id in ids <==> id in Expired(s.txs, s.reaper.value))
      && (forall i, j | 0 <= i < j < |ids| :: ids[i] != ids[j])
    case Finish(_, _, _) => true
    case Send(who) =>
      && Live(s.leases, s.endings, who) && who in s.stages && s.stages[who] == Fresh
      && TxOf(s.leases, s.endings, who) < |s.wires|
    case Reply(tx) => tx < |s.wires| && s.wires[tx].requests != []
    case Receive(who) =>
      && Live(s.leases, s.endings, who) && who in s.stages && s.stages[who] == Sent
      && TxOf(s.leases, s.endings, who) < |s.wires|
      && s.wires[TxOf(s.leases, s.endings, who)].replies != []
  }

  function Touch(lastUse: seq<nat>, tx: nat, now: nat): seq<nat> {
    if tx < |lastUse| then lastUse[tx := now] else lastUse
  }

  function Entry(tx: nat, start: Start, now: nat): Stored {
    Stored(tx, start.owner, start.write, now + TRANSACTION_IDLE_TIMEOUT, 0)
  }

  function Reaped(txs: Table, ids: seq<u32>, now: nat): seq<Ending> {
    seq(|ids|, i requires 0 <= i < |ids| => Ending(if ids[i] in txs then txs[ids[i]].tx else 0, Reap, now))
  }

  function Ended(endings: seq<Ending>): set<nat> {
    set e | 0 <= e < |endings| :: endings[e].tx
  }

  /** The new endings have not sent their request yet. */
  function AwaitAll(stages: map<Who, Stage>, lo: nat, hi: nat): map<Who, Stage> {
    map who | who in stages.Keys + (set e: nat | lo <= e < hi :: ByEnding(e)) ::
      if who.ByEnding? && lo <= who.ending < hi then Fresh else if who in stages then stages[who] else Fresh
  }

  ghost function Apply(s: State, a: Action): State
    requires Enabled(s, a)
  {
    match a
    case Tick(now) => s.(clock := now)
    case Begin(auth, write) =>
      if write && auth.immutable then s
      else
        s.(started := s.started + 1,
           pending := s.pending[s.started := Start(auth.principal, write)],
           wires := s.wires + [Wire([], [])],
           lastUse := s.lastUse + [s.clock])
    case Insert(tx) =>
      s.(pending := s.pending - {tx},
         txs := s.txs[IdOf(tx) := Entry(tx, s.pending[tx], s.clock)],
         lastUse := Touch(s.lastUse, tx, s.clock))
    case Acquire(id, auth) =>
      if MayAcquire(s.txs, id, auth) != Granted then s
      else
        s.(txs := Acquired(s.txs, id),
           leases := s.leases[s.nextLease := Lease(id, s.txs[id].tx)],
           nextLease := s.nextLease + 1,
           stages := s.stages[ByLease(s.nextLease) := Fresh],
           lastUse := Touch(s.lastUse, s.txs[id].tx, s.clock))
    case Release(l) =>
      s.(txs := Released(s.txs, s.leases[l].id, s.clock),
         leases := s.leases - {l},
         stages := s.stages - {ByLease(l)},
         lastUse := Touch(s.lastUse, s.leases[l].tx, s.clock))
    case ReadClock => s.(reaper := Some(s.clock))
    case Sweep(ids) =>
      s.(txs := s.txs - Expired(s.txs, s.reaper.value),
         endings := s.endings + Reaped(s.txs, ids, s.clock),
         stages := AwaitAll(s.stages, |s.endings|, |s.endings| + |ids|),
         reaper := None)
    case Finish(id, auth, abort) =>
      if MayFinish(s.txs, id, auth, abort) != Granted then s
      else
        s.(txs := s.txs - {id},
           endings := s.endings + [Ending(s.txs[id].tx, if abort then Abort else Commit, s.clock)],
           stages := AwaitAll(s.stages, |s.endings|, |s.endings| + 1))
    case Send(who) =>
      var tx := TxOf(s.leases, s.endings, who);
      s.(stages := s.stages[who := Sent],
         wires := s.wires[tx := Wire(s.wires[tx].requests + [who], s.wires[tx].replies)])
    case Reply(tx) =>
      var w := s.wires[tx];
      s.(wires := s.wires[tx := Wire(w.requests[1..], w.replies + [w.requests[0]])])
    case Receive(who) =>
      var tx := TxOf(s.leases, s.endings, who);
      s.(stages := s.stages[who := Answered],
         wires := s.wires[tx := Wire(s.wires[tx].requests, s.wires[tx].replies[1..])])
  }

  // ----- the invariant -----

  predicate IsStored(txs: Table, tx: nat) {
    IdOf(tx) in txs && txs[IdOf(tx)].tx == tx
  }

  /** Every started transaction is in exactly one place: about to be inserted, in the table, or ended. */
  ghost predicate Placed(started: nat, pending: map<nat, Start>, txs: Table, ended: set<nat>) {
    && (forall tx | tx in pending :: tx < started && !IsStored(txs, tx) && tx !in ended)
    && (forall id | id in txs :: IdOf(txs[id].tx) == id && txs[id].tx < started && txs[id].tx !in ended)
    && (forall tx | tx in ended :: tx < started)
    && (forall tx: nat | tx < started :: tx in pending || IsStored(txs, tx) || tx in ended)
  }

  ghost predicate Once(endings: seq<Ending>) {
    forall e, f | 0 <= e < f < |endings| :: endings[e].tx != endings[f].tx
  }

  function LeasesOn(leases: map<nat, Lease>, id: u32): set<nat> {
    set l | l in leases && leases[l].id == id
  }

  /** A lease is on a stored transaction; `inFlight` counts the leases and is 0 or 1. */
  ghost predicate Counted(txs: Table, leases: map<nat, Lease>, nextLease: nat) {
    && (forall l | l in leases :: l < nextLease && leases[l].id in txs && txs[leases[l].id].tx == leases[l].tx)
    && (forall id | id in txs :: txs[id].inFlight == |LeasesOn(leases, id)| <= 1)
  }

  /** An idle entry expires one timeout after its last use. */
  ghost predicate Dated(txs: Table, lastUse: seq<nat>) {
    forall id | id in txs ::
      && txs[id].tx < |lastUse|
      && (txs[id].inFlight == 0 ==> txs[id].expiresAt == lastUse[txs[id].tx] + TRANSACTION_IDLE_TIMEOUT)
  }

  /** Whatever was reaped had been out of use for a whole timeout. */
  ghost predicate ReapedIdle(endings: seq<Ending>, lastUse: seq<nat>, clock: nat) {
    forall e | 0 <= e < |endings| ::
      && endings[e].tx < |lastUse| && endings[e].at <= clock
      && (endings[e].kind == Reap ==> lastUse[endings[e].tx] + TRANSACTION_IDLE_TIMEOUT <= endings[e].at)
  }

  function Outstanding(w: Wire): seq<Who> {
    w.requests + w.replies
  }

  ghost predicate Known(stages: map<Who, Stage>, leases: map<nat, Lease>, endings: seq<Ending>) {
    forall who :: who in stages <==> Live(leases, endings, who)
  }

  ghost predicate Asked(stages: map<Who, Stage>, wires: seq<Wire>, leases: map<nat, Lease>, endings: seq<Ending>) {
    forall who | who in stages ::
      && TxOf(leases, endings, who) < |wires|
      && (stages[who] == Sent ==> Outstanding(wires[TxOf(leases, endings, who)]) == [who])
  }

  ghost predicate Carried(stages: map<Who, Stage>, wires: seq<Wire>, leases: map<nat, Lease>, endings: seq<Ending>) {
    forall tx | 0 <= tx < |wires| && Outstanding(wires[tx]) != [] ::
      var who := Outstanding(wires[tx])[0];
      who in stages && stages[who] == Sent && TxOf(leases, endings, who) == tx
  }

  /** On each transaction's channels there is at most one message: that of the one caller waiting for a reply. */
  ghost predicate Wired(stages: map<Who, Stage>, wires: seq<Wire>, leases: map<nat, Lease>, endings: seq<Ending>) {
    && Known(stages, leases, endings)
    && Asked(stages, wires, leases, endings)
    && Carried(stages, wires, leases, endings)
  }

  ghost predicate Inv(s: State) {
    && |s.wires| == |s.lastUse| == s.started
    && (s.reaper.Some? ==> s.reaper.value <= s.clock)
    && Placed(s.started, s.pending, s.txs, Ended(s.endings)) && Once(s.endings)
    && Counted(s.txs, s.leases, s.nextLease)
    && Dated(s.txs, s.lastUse)
    && ReapedIdle(s.endings, s.lastUse, s.clock)
    && Wired(s.stages, s.wires, s.leases, s.endings)
  }

  // ----- every step keeps it -----

  lemma {:induction false} AtMostOne(xs: set<nat>, x: nat, y: nat)
    requires |xs| <= 1 && x in xs && y in xs
    ensures x == y
  {
    assert |xs - {x}| == 0;
  }

  lemma {:induction false} NoneOn(leases: map<nat, Lease>, id: u32, l: nat)
    requires |LeasesOn(leases, id)| == 0 && l in leases
    ensures leases[l].id != id
  {
    assert l !in LeasesOn(leases, id);
  }

  lemma {:induction false} EndedMembers(endings: seq<Ending>, e: nat)
    requires e < |endings|
    ensures endings[e].tx in Ended(endings)
  {
  }

  /** A transaction has at most one caller: a single lease, or whoever ended it. */
  lemma {:induction false} OneCaller(s: State, u: Who, v: Who)
    requires Inv(s) && u in s.stages && v in s.stages
    requires TxOf(s.leases, s.endings, u) == TxOf(s.leases, s.endings, v)
    ensures u == v
  {
    match (u, v) {
      case (ByLease(k), ByLease(l)) =>
        var id := s.leases[k].id;
        assert IdOf(s.txs[id].tx) == id && IdOf(s.txs[s.leases[l].id].tx) == s.leases[l].id;
        AtMostOne(LeasesOn(s.leases, id), k, l);
      case (ByEnding(e), ByLease(_)) => EndedMembers(s.endings, e);
      case (ByLease(_), ByEnding(e)) => EndedMembers(s.endings, e);
      case (ByEnding(e), ByEnding(f)) =>
    }
  }

  lemma {:induction false} BeginKeeps(s: State, auth: Auth, write: bool)
    requires Inv(s)
    ensures Inv(Apply(s, Begin(auth, write)))
  {
    hide Counted;
    var s' := Apply(s, Begin(auth, write));
    if !(write && auth.immutable) {
      assert Placed(s'.started, s'.pending, s'.txs, Ended(s'.endings));
      assert Dated(s'.txs, s'.lastUse);
      assert ReapedIdle(s'.endings, s'.lastUse, s'.clock);
      assert Wired(s'.stages, s'.wires, s'.leases, s'.endings);
    }
  }

  lemma {:induction false} InsertPlaced(s: State, tx: nat, entry: Stored)
    requires Inv(s) && tx in s.pending && IdOf(tx) !in s.txs && entry.tx == tx
    ensures Placed(s.started, s.pending - {tx}, s.txs[IdOf(tx) := entry], Ended(s.endings))
  {
    var txs := s.txs[IdOf(tx) := entry];
    assert forall u :: IsStored(txs, u) <==> IsStored(s.txs, u) || u == tx;
  }

  lemma {:induction false} InsertCounted(s: State, tx: nat, entry: Stored)
    requires Inv(s) && IdOf(tx) !in s.txs && entry.inFlight == 0
    ensures Counted(s.txs[IdOf(tx) := entry], s.leases, s.nextLease)
  {
    assert LeasesOn(s.leases, IdOf(tx)) == {};
  }

  lemma {:induction false} InsertKeeps(s: State, tx: nat)
    requires Inv(s) && tx in s.pending && IdOf(tx) !in s.txs
    ensures Enabled(s, Insert(tx)) && Inv(Apply(s, Insert(tx)))
  {
    var entry := Entry(tx, s.pending[tx], s.clock);
    InsertPlaced(s, tx, entry);
    InsertCounted(s, tx, entry);
    UntouchedEndings(s, tx);
    forall id | id in s.txs ensures s.txs[id].tx != tx {
    }
    var s' := Apply(s, Insert(tx));
    assert Dated(s'.txs, s'.lastUse);
  }

  lemma {:induction false} UntouchedEndings(s: State, tx: nat)
    requires ReapedIdle(s.endings, s.lastUse, s.clock) && tx !in Ended(s.endings)
    ensures ReapedIdle(s.endings, Touch(s.lastUse, tx, s.clock), s.clock)
  {
    forall e | 0 <= e < |s.endings| ensures s.endings[e].tx != tx {
      EndedMembers(s.endings, e);
    }
  }

  lemma {:induction false} SameIds(txs: Table, txs': Table, started: nat, pending: map<nat, Start>, ended: set<nat>)
    requires Placed(started, pending, txs, ended)
    requires txs.Keys == txs'.Keys && forall id | id in txs :: txs'[id].tx == txs[id].tx
    ensures Placed(started, pending, txs', ended)
  {
    assert forall tx :: IsStored(txs', tx) <==> IsStored(txs, tx);
  }

  lemma {:induction false} AcquireCounted(txs: Table, leases: map<nat, Lease>, n: nat, id: u32)
    requires Counted(txs, leases, n) && id in txs && txs[id].inFlight == 0
    ensures Counted(Acquired(txs, id), leases[n := Lease(id, txs[id].tx)], n + 1)
  {
    var leases' := leases[n := Lease(id, txs[id].tx)];
    assert LeasesOn(leases', id) == LeasesOn(leases, id) + {n};
    forall k | k != id ensures LeasesOn(leases', k) == LeasesOn(leases, k) {
    }
  }

  lemma {:induction false} AcquireWired(s: State, id: u32)
    requires Inv(s) && id in s.txs
    ensures Wired(s.stages[ByLease(s.nextLease) := Fresh], s.wires,
                  s.leases[s.nextLease := Lease(id, s.txs[id].tx)], s.endings)
  {
    NewLeaseUnused(s);
    StoredNotEnded(s, id);
    var leases' := s.leases[s.nextLease := Lease(id, s.txs[id].tx)];
    forall who | who in s.stages
      ensures Live(leases', s.endings, who) && TxOf(leases', s.endings, who) == TxOf(s.leases, s.endings, who)
      ensures who != ByLease(s.nextLease)
    {
      assert Live(s.leases, s.endings, who);
    }
  }

  lemma {:induction false} AcquireKeeps(s: State, id: u32, auth: Auth)
    requires Inv(s)
    ensures Inv(Apply(s, Acquire(id, auth)))
  {
    hide Placed, Counted, Wired, ReapedIdle, Once;
    var s' := Apply(s, Acquire(id, auth));
    if MayAcquire(s.txs, id, auth) == Granted {
      StoredNotEnded(s, id);
      SameIds(s.txs, s'.txs, s.started, s.pending, Ended(s.endings));
      AcquireCounted(s.txs, s.leases, s.nextLease, id);
      UntouchedEndings(s, s.txs[id].tx);
      DistinctTxs(s, id);
      AcquireWired(s, id);
      assert Dated(s'.txs, s'.lastUse);
    }
  }

  lemma {:induction false} StoredNotEnded(s: State, id: u32)
    requires Inv(s) && id in s.txs
    ensures s.txs[id].tx !in Ended(s.endings) && s.txs[id].tx < s.started
  {
  }

  lemma {:induction false} DistinctTxs(s: State, id: u32)
    requires Inv(s) && id in s.txs
    ensures forall k | k in s.txs && k != id :: s.txs[k].tx != s.txs[id].tx
  {
    assert IdOf(s.txs[id].tx) == id;
  }

  lemma {:induction false} NewLeaseUnused(s: State)
    requires Inv(s)
    ensures s.nextLease !in s.leases
  {
  }

  lemma {:induction false} ReleaseCounted(txs: Table, leases: map<nat, Lease>, n: nat, l: nat, now: nat)
    requires Counted(txs, leases, n) && l in leases
    ensures Counted(Released(txs, leases[l].id, now), leases - {l}, n)
    ensures txs[leases[l].id].inFlight == 1
  {
    var id, leases' := leases[l].id, leases - {l};
    assert l in LeasesOn(leases, id);
    assert LeasesOn(leases', id) == LeasesOn(leases, id) - {l};
    forall k | k != id ensures LeasesOn(leases', k) == LeasesOn(leases, k) {
    }
  }

  lemma {:induction false} ReleaseKeeps(s: State, l: nat)
    requires Inv(s) && Enabled(s, Release(l))
    ensures Inv(Apply(s, Release(l)))
  {
    ReleaseWired(s, l);
    LeaseStored(s, l);
    var s', id := Apply(s, Release(l)), s.leases[l].id;
    ReleaseCounted(s.txs, s.leases, s.nextLease, l, s.clock);
    StoredNotEnded(s, id);
    SameIds(s.txs, s'.txs, s.started, s.pending, Ended(s.endings));
    UntouchedEndings(s, s.txs[id].tx);
    DistinctTxs(s, id);
    assert Dated(s'.txs, s'.lastUse);
  }

  lemma {:induction false} LeaseStored(s: State, l: nat)
    requires Inv(s) && l in s.leases
    ensures s.leases[l].id in s.txs && s.txs[s.leases[l].id].tx == s.leases[l].tx
  {
  }

  lemma {:induction false} ReleaseWired(s: State, l: nat)
    requires Inv(s) && Enabled(s, Release(l))
    ensures Wired(s.stages - {ByLease(l)}, s.wires, s.leases - {l}, s.endings)
  {
    LeaseQuiet(s, l);
    forall who | who in s.stages && who != ByLease(l)
      ensures Live(s.leases - {l}, s.endings, who)
      ensures TxOf(s.leases - {l}, s.endings, who) == TxOf(s.leases, s.endings, who)
    {
    }
  }

  /** Nothing is in flight for a caller that is not waiting. */
  lemma {:induction false} LeaseQuiet(s: State, l: nat)
    requires Inv(s) && Enabled(s, Release(l))
    ensures forall tx | 0 <= tx < |s.wires| && Outstanding(s.wires[tx]) != [] ::
              Outstanding(s.wires[tx])[0] != ByLease(l)
  {
  }

  // ----- endings -----

  /** `ids` names entries without leases. */
  ghost predicate Removable(s: State, ids: seq<u32>) {
    && (forall i | 0 <= i < |ids| :: ids[i] in s.txs && s.txs[ids[i]].inFlight == 0)
    && (forall i, j | 0 <= i < j < |ids| :: ids[i] != ids[j])
  }

  ghost predicate Ends(s: State, ids: seq<u32>, more: seq<Ending>) {
    |more| == |ids| && forall i | 0 <= i < |ids| ::
      ids[i] in s.txs && more[i].tx == s.txs[ids[i]].tx && more[i].at == s.clock
  }

  lemma {:induction false} RemovePlaced(s: State, ids: seq<u32>, more: seq<Ending>, txs: Table)
    requires Inv(s) && Ends(s, ids, more)
    requires txs == map id | id in s.txs && id !in ids :: s.txs[id]
    ensures Placed(s.started, s.pending, txs, Ended(s.endings + more))
  {
    var all := s.endings + more;
    forall tx
      ensures tx in Ended(all) <==> tx in Ended(s.endings) || exists i :: 0 <= i < |ids| && s.txs[ids[i]].tx == tx
    {
      EndedConcat(s.endings, more, tx);
    }
    forall tx: nat | tx < s.started ensures tx in s.pending || IsStored(txs, tx) || tx in Ended(all) {
      if IsStored(s.txs, tx) && IdOf(tx) in ids {
        var i :| 0 <= i < |ids| && ids[i] == IdOf(tx);
      }
    }
    forall id | id in txs ensures IdOf(txs[id].tx) == id && txs[id].tx < s.started && txs[id].tx !in Ended(all) {
    }
  }

  lemma {:induction false} EndedConcat(es: seq<Ending>, more: seq<Ending>, tx: nat)
    ensures tx in Ended(es + more) <==> tx in Ended(es) || tx in Ended(more)
    ensures tx in Ended(more) <==> exists i :: 0 <= i < |more| && more[i].tx == tx
  {
    var all := es + more;
    if tx in Ended(es) {
      var e :| 0 <= e < |es| && es[e].tx == tx;
      assert all[e].tx == tx;
    }
    if tx in Ended(more) {
      var e :| 0 <= e < |more| && more[e].tx == tx;
      assert all[|es| + e].tx == tx;
    }
    if tx in Ended(all) {
      var e :| 0 <= e < |all| && all[e].tx == tx;
      assert e < |es| ==> es[e].tx == tx;
      assert e >= |es| ==> more[e - |es|].tx == tx;
    }
  }

  lemma {:induction false} RemoveOnce(s: State, ids: seq<u32>, more: seq<Ending>)
    requires Inv(s) && Ends(s, ids, more) && Removable(s, ids)
    ensures Once(s.endings + more)
  {
    forall e, f | 0 <= e < f < |s.endings + more| ensures (s.endings + more)[e].tx != (s.endings + more)[f].tx {
      if f >= |s.endings| {
        var id := ids[f - |s.endings|];
        StoredNotEnded(s, id);
        if e < |s.endings| {
          EndedMembers(s.endings, e);
        } else {
          DistinctTxs(s, id);
        }
      }
    }
  }

  lemma {:induction false} RemoveCounted(s: State, ids: seq<u32>, txs: Table)
    requires Inv(s) && Removable(s, ids)
    requires txs == map id | id in s.txs && id !in ids :: s.txs[id]
    ensures Counted(txs, s.leases, s.nextLease)
  {
    forall l, i | l in s.leases && 0 <= i < |ids| ensures s.leases[l].id != ids[i] {
      NoneOn(s.leases, ids[i], l);
    }
  }

  lemma {:induction false} AwaitOne(stages: map<Who, Stage>, lo: nat, hi: nat, who: Who)
    ensures var stages', added := AwaitAll(stages, lo, hi), who.ByEnding? && lo <= who.ending < hi;
            && (who in stages' <==> who in stages || added)
            && (added ==> stages'[who] == Fresh)
            && (who in stages && !added ==> stages'[who] == stages[who])
  {
  }

  lemma {:induction false} RemoveKnown(s: State, more: seq<Ending>)
    requires Inv(s)
    ensures Known(AwaitAll(s.stages, |s.endings|, |s.endings| + |more|), s.leases, s.endings + more)
    ensures forall who | who in s.stages ::
              Live(s.leases, s.endings + more, who) &&
              TxOf(s.leases, s.endings + more, who) == TxOf(s.leases, s.endings, who)
  {
    hide Placed, Counted, Once, Dated, ReapedIdle, AwaitAll, Asked, Carried;
    var n, all := |s.endings|, s.endings + more;
    forall who ensures who in AwaitAll(s.stages, n, n + |more|) <==> Live(s.leases, all, who)
               ensures who in s.stages ==>
                         Live(s.leases, all, who) && TxOf(s.leases, all, who) == TxOf(s.leases, s.endings, who)
    {
      assert who in s.stages <==> Live(s.leases, s.endings, who);
      AwaitOne(s.stages, n, n + |more|, who);
    }
  }

  /** New callers that have not sent anything change nothing on the wires. */
  ghost predicate Joined(stages: map<Who, Stage>, stages': map<Who, Stage>, leases: map<nat, Lease>,
                         es: seq<Ending>, es': seq<Ending>, n: nat)
  {
    && (forall who | who in stages ::
          who in stages' && stages'[who] == stages[who] && TxOf(leases, es', who) == TxOf(leases, es, who))
    && (forall who | who in stages' && who !in stages :: stages'[who] == Fresh && TxOf(leases, es', who) < n)
  }

  lemma {:induction false} JoinWired(stages: map<Who, Stage>, stages': map<Who, Stage>, wires: seq<Wire>,
        leases: map<nat, Lease>, es: seq<Ending>, es': seq<Ending>)
    requires Wired(stages, wires, leases, es) && Known(stages', leases, es')
    requires Joined(stages, stages', leases, es, es', |wires|)
    ensures Wired(stages', wires, leases, es')
  {
    hide Known;
  }

  lemma {:induction false} NewCaller(s: State, ids: seq<u32>, more: seq<Ending>, who: Who)
    requires Inv(s) && Ends(s, ids, more)
    ensures var n, all := |s.endings|, s.endings + more;
            var stages' := AwaitAll(s.stages, n, n + |ids|);
            && (who in s.stages ==>
                  who in stages' && stages'[who] == s.stages[who] &&
                  TxOf(s.leases, all, who) == TxOf(s.leases, s.endings, who))
            && (who in stages' && who !in s.stages ==> stages'[who] == Fresh && TxOf(s.leases, all, who) < |s.wires|)
  {
    hide Counted, Once, Dated, ReapedIdle, Asked, Carried;
    var n := |s.endings|;
    assert who in s.stages <==> Live(s.leases, s.endings, who);
    AwaitOne(s.stages, n, n + |ids|, who);
    if who.ByEnding? && n <= who.ending < n + |ids| {
      StoredNotEnded(s, ids[who.ending - n]);
    }
  }

  lemma {:induction false} RemoveWired(s: State, ids: seq<u32>, more: seq<Ending>)
    requires Inv(s) && Ends(s, ids, more)
    ensures var n := |s.endings|;
            Wired(AwaitAll(s.stages, n, n + |ids|), s.wires, s.leases, s.endings + more)
  {
    hide Placed, Counted, Once, Dated, ReapedIdle, Asked, Carried, AwaitAll, TxOf;
    var n, all := |s.endings|, s.endings + more;
    var stages' := AwaitAll(s.stages, n, n + |ids|);
    RemoveKnown(s, more);
    forall who
      ensures who in s.stages ==>
                && who in stages' && stages'[who] == s.stages[who]
                && TxOf(s.leases, all, who) == TxOf(s.leases, s.endings, who)
      ensures who in stages' && who !in s.stages ==> stages'[who] == Fresh && TxOf(s.leases, all, who) < |s.wires|
    {
      NewCaller(s, ids, more, who);
    }
    JoinWired(s.stages, stages', s.wires, s.leases, s.endings, all);
  }

  lemma {:induction false} RemoveKeeps(s: State, ids: seq<u32>, more: seq<Ending>, txs: Table, reaper: Option<nat>)
    requires Inv(s) && Ends(s, ids, more) && Removable(s, ids) && (reaper.Some? ==> reaper == s.reaper)
    requires txs == map id | id in s.txs && id !in ids :: s.txs[id]
    requires forall i | 0 <= i < |ids| && more[i].kind == Reap :: s.txs[ids[i]].expiresAt <= s.clock
    ensures var n := |s.endings|;
            Inv(s.(txs := txs, endings := s.endings + more, stages := AwaitAll(s.stages, n, n + |ids|),
                   reaper := reaper))
  {
    RemovePlaced(s, ids, more, txs);
    RemoveOnce(s, ids, more);
    RemoveCounted(s, ids, txs);
    RemoveWired(s, ids, more);
    var all := s.endings + more;
    forall e | |s.endings| <= e < |all|
      ensures all[e].tx < |s.lastUse| && all[e].at <= s.clock
      ensures all[e].kind == Reap ==> s.lastUse[all[e].tx] + TRANSACTION_IDLE_TIMEOUT <= all[e].at
    {
      StoredNotEnded(s, ids[e - |s.endings|]);
    }
  }

  lemma {:induction false} SweepKeeps(s: State, ids: seq<u32>)
    requires Inv(s) && Enabled(s, Sweep(ids))
    ensures Inv(Apply(s, Sweep(ids)))
  {
    hide Placed, Once, Counted, Wired, Dated, ReapedIdle;
    var now := s.reaper.value;
    forall i | 0 <= i < |ids| ensures ids[i] in Expired(s.txs, now) {
      assert ids[i] in ids;
    }
    var txs := s.txs - Expired(s.txs, now);
    assert txs == map id | id in s.txs && id !in ids :: s.txs[id];
    RemoveKeeps(s, ids, Reaped(s.txs, ids, s.clock), txs, None);
  }

  lemma {:induction false} FinishKeeps(s: State, id: u32, auth: Auth, abort: bool)
    requires Inv(s)
    ensures Inv(Apply(s, Finish(id, auth, abort)))
  {
    hide Placed, Once, Counted, Wired, Dated, ReapedIdle;
    if MayFinish(s.txs, id, auth, abort) == Granted {
      var more := [Ending(s.txs[id].tx, if abort then Abort else Commit, s.clock)];
      assert s.txs - {id} == map k | k in s.txs && k !in [id] :: s.txs[k];
      RemoveKeeps(s, [id], more, s.txs - {id}, s.reaper);
    }
  }

  // ----- channels -----

  lemma {:induction false} SendKeeps(s: State, who: Who)
    requires Inv(s) && Enabled(s, Send(who))
    ensures Inv(Apply(s, Send(who)))
  {
    var s', tx := Apply(s, Send(who)), TxOf(s.leases, s.endings, who);
    WireIdle(s, who);
    assert Outstanding(s'.wires[tx]) == [who];
    assert Wired(s'.stages, s'.wires, s'.leases, s'.endings);
  }

  /** A caller that is not waiting finds its transaction's channels empty. */
  lemma {:induction false} WireIdle(s: State, who: Who)
    requires Inv(s) && who in s.stages && s.stages[who] != Sent
    ensures Outstanding(s.wires[TxOf(s.leases, s.endings, who)]) == []
  {
    var tx := TxOf(s.leases, s.endings, who);
    if Outstanding(s.wires[tx]) != [] {
      OneCaller(s, who, Outstanding(s.wires[tx])[0]);
    }
  }

  lemma {:induction false} ReplyKeeps(s: State, tx: nat)
    requires Inv(s) && Enabled(s, Reply(tx))
    ensures Inv(Apply(s, Reply(tx)))
  {
    hide Placed, Once, Counted, Dated, ReapedIdle;
    var s' := Apply(s, Reply(tx));
    var who := Outstanding(s.wires[tx])[0];
    assert Outstanding(s.wires[tx]) == [who];
    assert Outstanding(s'.wires[tx]) == [who];
    assert Wired(s'.stages, s'.wires, s'.leases, s'.endings);
  }

  lemma {:induction false} ReceiveKeeps(s: State, who: Who)
    requires Inv(s) && Enabled(s, Receive(who))
    ensures Inv(Apply(s, Receive(who)))
    ensures s.wires[TxOf(s.leases, s.endings, who)].replies[0] == who
  {
    hide Placed, Once, Counted, Dated, ReapedIdle;
    var s', tx := Apply(s, Receive(who)), TxOf(s.leases, s.endings, who);
    assert Outstanding(s.wires[tx]) == [who];
    assert Outstanding(s'.wires[tx]) == [];
    assert Wired(s'.stages, s'.wires, s'.leases, s'.endings) by {
      forall u | u in s.stages && u != who && s.stages[u] == Sent ensures TxOf(s.leases, s.endings, u) != tx {
        assert Outstanding(s.wires[TxOf(s.leases, s.endings, u)]) == [u];
      }
    }
  }
}
