/**
 The objects of `MemoryStore` move in step with the state machine of `Runs`: whatever is
 done to a store and its transactions, the run theorems apply to them.
 */
module Simulation {
  import opened VersionTree
  import opened Transactions
  import opened Runs
  import opened Guarantees
  import opened MemoryStore

  /** A store, all the transactions begun on it, and the state of the machine that they mirror. */
  class Session {
    const ds: Datastore
    var txns: seq<BasicTxn>
    ghost var sys: Sys

    ghost predicate Mirrors()
      reads this, ds, txns
    {
      && !ds.closed && ds.version == sys.version && ds.values == sys.values && ds.inFlight == sys.inFlight
      && |txns| == |sys.txns|
      && (forall i :: 0 <= i < |txns| ==> txns[i].ds == ds && txns[i].Value() == sys.txns[i].txn && WfTxn(txns[i].Value()))
      && (forall i, j :: 0 <= i < j < |txns| ==> txns[i] != txns[j])
    }

    ghost predicate Valid()
      reads this, ds, txns
    {
      Inv(sys) && Mirrors()
    }

    constructor ()
      ensures Valid() && sys == Init && fresh(ds)
    {
      ds := new Datastore();
      txns, sys := [], Init;
      new;
      RunKeeps([]);
    }

    method BeginTxn(readOnly: bool)
      requires Valid()
      modifies this, ds
      ensures Valid() && sys == Step(old(sys), Begin(readOnly))
    {
      var t := ds.NewTransaction(readOnly);
      StepKeeps(sys, Begin(readOnly));
      txns := txns + [t];
      sys := Step(sys, Begin(readOnly));
    }

    /** One point operation: the reply is that of `Perform`. */
    method DoOp(id: nat, op: Op) returns (r: Reply)
      requires Valid() && id < |txns|
      modifies this, txns[id]
      ensures Valid() && sys == Step(old(sys), Do(id, op)) && txns == old(txns)
      ensures r == Perform(old(sys).txns[id].txn, old(sys).values, op).1
    {
      var t := txns[id];
      ghost var s' := Step(sys, Do(id, op));
      assert t.Valid();
      assert Inv(s') by {
        StepKeeps(sys, Do(id, op));
      }
      match op {
        case OpGet(k) => r := t.Get(k);
        case OpHas(k) => r := t.Has(k);
        case OpSet(k, v) => r := t.Set(k, v);
        case OpDelete(k) => r := t.Delete(k);
      }
      sys := s';
    }

    method CommitTxn(id: nat) returns (r: Reply)
      requires Valid() && id < |txns|
      modifies this, ds, txns[id]
      ensures Valid() && sys == Step(old(sys), Commit(id)) && txns == old(txns)
      ensures r == CommitReply(old(sys), id)
    {
      ghost var s, t := sys, sys.txns[id].txn;
      ghost var s' := Step(s, Commit(id));
      assert ds.Valid() && txns[id].Valid();
      assert s'.txns == if t.discarded then s.txns else s.txns[id := s.txns[id].(txn := Txn([], t.dsVersion, t.readOnly, true))];
      assert s'.inFlight == if t.discarded then s.inFlight else s.inFlight - {t.dsVersion};
      assert Inv(s') by {
        StepKeeps(s, Commit(id));
      }
      r := txns[id].Commit({});
      sys := s';
    }

    method DiscardTxn(id: nat)
      requires Valid() && id < |txns|
      modifies this, ds, txns[id]
      ensures Valid() && sys == Step(old(sys), Discard(id)) && txns == old(txns)
    {
      txns[id].Discard({});
      StepKeeps(sys, Discard(id));
      sys := Step(sys, Discard(id));
    }

    method PurgeStore()
      requires Valid()
      modifies this, ds
      ensures Valid() && sys == Step(old(sys), Purge(PurgeFloor(old(sys)))) && txns == old(txns)
    {
      var floor := ds.ExecutePurge();
      StepKeeps(sys, Purge(floor));
      sys := Step(sys, Purge(floor));
    }
  }
}
