/** The HTTP server's own code: each method is one section run under the table's lock, and one step of the protocol. */
module LeaseServer {
  import opened Bytes
  import opened Values
  import opened TransactionTable
  import opened TransactionLeases
  import opened LeaseRuns

  class LeaseTable {
    var txs: Table
    var counter: u32
    /** The state of the protocol, of which the table and the counter are a part. */
    ghost var state: State

    ghost predicate Tracks()
      reads this
    {
      txs == state.txs && counter == IdOf(state.started)
    }

    constructor ()
      ensures Tracks() && state == INIT && Inv(state)
    {
      hide Inv;
      InitSafe();
      txs, counter, state := map[], 0, INIT;
    }

    /** The first half of a start: an identifier is drawn unless the token may not write. */
    method TakeId(auth: Auth, write: bool) returns (id: Option<u32>)
      requires Tracks()
      modifies this
      ensures Tracks() && state == Apply(old(state), Begin(auth, write)) && (old(Inv(state)) ==> Inv(state))
      ensures txs == old(txs)
      ensures id == if write && auth.immutable then None else Some(IdOf(old(state.started)))
    {
      hide Inv;
      if old(Inv(state)) {
        BeginKeeps(state, auth, write);
      }
      state := Apply(state, Begin(auth, write));
      if write && auth.immutable {
        return None;
      }
      id := Some(counter);
      counter := if counter == 0xFFFF_FFFF then 0 else counter + 1;
    }

    /** The second half: the entry of a drawn identifier. Exactly a free identifier keeps the invariant. */
    method Insert(id: u32, tx: nat, owner: Principal, write: bool, now: nat)
      requires Tracks() && now == state.clock && id == IdOf(tx)
      requires Enabled(state, Action.Insert(tx)) && state.pending[tx] == Start(owner, write)
      modifies this
      ensures Tracks() && state == Apply(old(state), Action.Insert(tx))
      ensures old(Inv(state)) ==> (Inv(state) <==> id !in old(txs))
      ensures id in txs && MayAcquire(txs, id, Auth(false, owner)) == Granted
      ensures forall t: nat | t < now + TRANSACTION_IDLE_TIMEOUT :: id !in Expired(txs, t)
    {
      hide Inv;
      if old(Inv(state)) {
        InsertSafeIff(state, tx);
      }
      state := Apply(state, Action.Insert(tx));
      txs := txs[id := Stored(tx, owner, write, now + TRANSACTION_IDLE_TIMEOUT, 0)];
    }

    method AcquireTransaction(id: u32, auth: Auth) returns (status: Status, tx: nat)
      requires Tracks()
      modifies this
      ensures Tracks() && state == Apply(old(state), Acquire(id, auth)) && (old(Inv(state)) ==> Inv(state))
      ensures status == MayAcquire(old(txs), id, auth)
      ensures status == Granted ==> tx == old(txs)[id].tx && txs == Acquired(old(txs), id)
      ensures status != Granted ==> txs == old(txs)
    {
      hide Inv;
      if old(Inv(state)) {
        AcquireKeeps(state, id, auth);
      }
      state := Apply(state, Acquire(id, auth));
      tx := 0;
      if id !in txs {
        return NotFound, tx;
      }
      var stored := txs[id];
      if stored.owner != auth.principal {
        return Forbidden, tx;
      }
      if stored.write && auth.immutable {
        return Forbidden, tx;
      }
      if stored.inFlight != 0 {
        return Conflict, tx;
      }
      txs := txs[id := stored.(inFlight := stored.inFlight + 1)];
      return Granted, stored.tx;
    }

    /** What dropping lease `l` does. */
    method Release(id: u32, now: nat, ghost l: nat)
      requires Tracks() && now == state.clock && Enabled(state, Action.Release(l)) && state.leases[l].id == id
      modifies this
      ensures Tracks() && state == Apply(old(state), Action.Release(l)) && (old(Inv(state)) ==> Inv(state))
      ensures txs == Released(old(txs), id, now)
    {
      hide Inv;
      if old(Inv(state)) {
        ReleaseKeeps(state, l);
      }
      state := Apply(state, Action.Release(l));
      if id in txs {
        var stored := txs[id];
        stored := stored.(inFlight := if stored.inFlight == 0 then 0 else stored.inFlight - 1);
        if stored.inFlight == 0 {
          stored := stored.(expiresAt := now + TRANSACTION_IDLE_TIMEOUT);
        }
        txs := txs[id := stored];
      }
    }

    /** One sweep of the reaper, with the clock it read before taking the lock. */
    method Sweep(now: nat) returns (ids: seq<u32>, removed: seq<nat>)
      requires Tracks() && state.reaper == Some(now)
      modifies this
      ensures Enabled(old(state), Action.Sweep(ids)) && Tracks()
      ensures state == Apply(old(state), Action.Sweep(ids)) && (old(Inv(state)) ==> Inv(state))
      ensures |removed| == |ids| && forall i | 0 <= i < |ids| :: ids[i] in old(txs) && removed[i] == old(txs)[ids[i]].tx
      ensures txs == old(txs) - Expired(old(txs), now)
    {
      hide Inv;
      ids := Collect(txs, now);
      assert Enabled(state, Action.Sweep(ids));
      if old(Inv(state)) {
        SweepKeeps(state, ids);
      }
      state := Apply(state, Action.Sweep(ids));
      forall k | 0 <= k < |ids| ensures ids[k] in Expired(txs, now) {
        assert ids[k] in ids;
      }
      assert (set k | 0 <= k < |ids| :: ids[k]) == Expired(txs, now) by {
        forall id | id in Expired(txs, now) ensures exists k :: 0 <= k < |ids| && ids[k] == id {
          assert id in ids;
        }
      }
      removed := RemoveAll(ids);
    }

    method RemoveAll(ids: seq<u32>) returns (removed: seq<nat>)
      requires forall i | 0 <= i < |ids| :: ids[i] in txs
      requires forall i, j | 0 <= i < j < |ids| :: ids[i] != ids[j]
      modifies `txs
      ensures |removed| == |ids| && forall i | 0 <= i < |ids| :: removed[i] == old(txs)[ids[i]].tx
      ensures txs == old(txs) - set k | 0 <= k < |ids| :: ids[k]
    {
      removed := [];
      for i := 0 to |ids|
        invariant |removed| == i && forall k | 0 <= k < i :: removed[k] == old(txs)[ids[k]].tx
        invariant txs == old(txs) - set k | 0 <= k < i :: ids[k]
      {
        assert ids[i] !in set k | 0 <= k < i :: ids[k];
        removed := removed + [txs[ids[i]].tx];
        txs := txs - {ids[i]};
      }
    }

    static method Collect(txs: Table, now: nat) returns (ids: seq<u32>)
      ensures forall id :: id in ids <==> id in Expired(txs, now)
      ensures forall i, j | 0 <= i < j < |ids| :: ids[i] != ids[j]
    {
      var rest := txs.Keys;
      ids := [];
      while rest != {}
        invariant rest <= txs.Keys
        invariant forall id :: id in ids <==> id in txs && id !in rest && IdleExpired(txs[id], now)
        invariant forall i, j | 0 <= i < j < |ids| :: ids[i] != ids[j]
        decreases |rest|
      {
        var id :| id in rest;
        if IdleExpired(txs[id], now) {
          assert id !in ids;
          ids := ids + [id];
        }
        rest := rest - {id};
      }
    }

    method FinishQuery(id: u32, auth: Auth, abort: bool) returns (status: Status, tx: nat)
      requires Tracks()
      modifies this
      ensures Tracks() && state == Apply(old(state), Finish(id, auth, abort)) && (old(Inv(state)) ==> Inv(state))
      ensures status == MayFinish(old(txs), id, auth, abort)
      ensures status == Granted ==> tx == old(txs)[id].tx && txs == old(txs) - {id}
      ensures status != Granted ==> txs == old(txs)
    {
      hide Inv;
      if old(Inv(state)) {
        FinishKeeps(state, id, auth, abort);
      }
      state := Apply(state, Finish(id, auth, abort));
      tx := 0;
      if id !in txs {
        return NotFound, tx;
      }
      var entry := txs[id];
      if entry.owner != auth.principal {
        return Forbidden, tx;
      }
      if entry.write && auth.immutable && !abort {
        return Forbidden, tx;
      }
      if entry.inFlight != 0 {
        return Conflict, tx;
      }
      txs := txs - {id};
      return Granted, entry.tx;
    }
  }
}
