/**
 Concrete runs in which the conditions of `Guarantees` fail and the guarantee with them.
 */
module Counterexamples {
  import opened Bytes
  import opened VersionTree
  import opened Transactions
  import opened History
  import opened Runs
  import opened Guarantees

  lemma Advance(s: Sys, a: Action) returns (s': Sys)
    requires Reachable(s)
    ensures s' == Step(s, a) && Reachable(s')
  {
    s' := Step(s, a);
    var actions :| s == Run(actions);
    assert (actions + [a])[..|actions|] == actions;
    assert Step(s, a) == Run(actions + [a]);
  }

  const A: Bytes := [1]
  const B: Bytes := [2]
  const V: Bytes := [7]
  const W: Bytes := [8]

  /** A fresh transaction that misses one key and then sets another. */
  function Skewer(missed: Bytes, written: Bytes): TxnRec {
    TxnRec(Txn([NoItem.(isGet := true), Item(written, 1, V, false, false)], 0, false, false),
           [Event(OpGet(missed), Refused(ErrNotFound)), Event(OpSet(written, V), Done)], {missed})
  }

  lemma SkewerRecord(missed: Bytes, written: Bytes)
    requires missed != [] && written != []
    ensures Record(Record(TxnRec(Txn([], 0, false, false), [], {}), [], OpGet(missed)), [], OpSet(written, V)) ==
            Skewer(missed, written)
  {
    var r0 := TxnRec(Txn([], 0, false, false), [], {});
    var r1 := Record(r0, [], OpGet(missed));
    assert r1 == TxnRec(Txn([NoItem.(isGet := true)], 0, false, false), [Event(OpGet(missed), Refused(ErrNotFound))], {missed});
    var w := Item(written, 1, V, false, false);
    assert SetItem([NoItem.(isGet := true)], w) == [NoItem.(isGet := true)] + SetItem([], w);
  }

  const Fresh := TxnRec(Txn([], 0, false, false), [], {})

  /** Transaction `id` of an empty store misses one key and sets another. */
  lemma Skew(s: Sys, id: nat, missed: Bytes, written: Bytes) returns (s': Sys)
    requires Reachable(s) && s.values == [] && id < |s.txns| && s.txns[id] == Fresh
    requires missed != [] && written != []
    ensures Reachable(s') && s' == s.(txns := s.txns[id := Skewer(missed, written)])
  {
    var s1 := Advance(s, Do(id, OpGet(missed)));
    s' := Advance(s1, Do(id, OpSet(written, V)));
    SkewerRecord(missed, written);
  }

  lemma SkewNoConflict()
    ensures !Conflicts(Skewer(B, A).txn, [Item(B, 1, V, false, false)], 1)
  {
    var values := [Item(B, 1, V, false, false)];
    forall x | x in Skewer(B, A).txn.ops ensures Get(values, x.key, 1) == NoItem == Get(values, x.key, 0) {
      GetIsNewest(values, x.key, 1);
      GetIsNewest(values, x.key, 0);
    }
  }

  lemma TwoSkewers() returns (s: Sys)
    ensures Reachable(s) && s.txns == [Skewer(A, B), Skewer(B, A)] && s.values == [] && s.version == 0 && s.history == []
  {
    assert Init == Run([]) && Reachable(Init);
    s := Advance(Init, Begin(false));
    s := Advance(s, Begin(false));
    assert s.txns == [Fresh, Fresh];
    s := Skew(s, 0, A, B);
    s := Skew(s, 1, B, A);
  }

  /**
   Two transactions each miss the key the other sets. Both commit, and neither order of
   running them one by one gives the replies they got.
   */
  lemma WriteSkewOnAbsentKeys() returns (s: Sys)
    ensures Reachable(s) && |s.history| == 2
    ensures !ReplayMatches(s.history[1].trace, ReplayState(s.history[0].trace, map[]))
    ensures !ReplayMatches(s.history[0].trace, ReplayState(s.history[1].trace, map[]))
  {
    s := TwoSkewers();
    assert Commits(s, 0);
    s := Advance(s, Commit(0));
    PublishSkewer(A, B);
    assert s.history == [Skewer(A, B)] && s.version == 1 && s.txns[1] == Skewer(B, A);
    SkewNoConflict();
    assert Commits(s, 1);
    s := Advance(s, Commit(1));
    assert s.history == [Skewer(A, B), Skewer(B, A)];
    SkewerReplay(A, B);
    SkewerReplay(B, A);
  }

  lemma PublishSkewer(missed: Bytes, written: Bytes)
    ensures Publish([], Skewer(missed, written).txn.ops, 1) == [Item(written, 1, V, false, false)]
  {
    var ops := Skewer(missed, written).txn.ops;
    assert ops[..1] == [ops[0]] && ops[..1][..0] == [];
    assert Publish([], ops[..1], 1) == [];
  }

  /** Running the second transaction after the first, its missed key is present. */
  lemma SkewerReplay(missed: Bytes, written: Bytes)
    ensures ReplayState(Skewer(missed, written).trace, map[]) == map[written := V]
    ensures !ReplayMatches(Skewer(written, missed).trace, map[written := V])
  {
    var first, second := Skewer(missed, written).trace, Skewer(written, missed).trace;
    assert first == ([] + [first[0]]) + [first[1]];
    ReplaySnoc([], first[0], map[]);
    ReplaySnoc([first[0]], first[1], map[]);
    assert second == ([] + [second[0]]) + [second[1]];
    FirstOnSnoc([], second[0], written);
    FirstOnSnoc([second[0]], second[1], written);
    MissedCannotReplay(second, written, map[written := V]);
  }

  // ---------------------------------------------------------------- shared start versions

  lemma StoreSet(s: Sys, k: Bytes, v: Bytes) returns (s': Sys)
    requires Reachable(s) && k != []
    ensures Reachable(s') && s' == StoreOp(s, OpSet(k, v))
  {
    var n := |s.txns|;
    var s1 := Advance(s, Begin(false));
    var s2 := Advance(s1, Do(n, OpSet(k, v)));
    s' := Advance(s2, Commit(n));
  }

  /** What a store-level set does to the tree and to the in-flight versions. */
  lemma StoreSetEffect(s: Sys, k: Bytes, v: Bytes)
    requires k != []
    ensures var s' := StoreOp(s, OpSet(k, v));
            && s'.version == s.version + 1
            && s'.values == SetItem(s.values, Item(k, s.version + 1, v, false, false))
            && s'.inFlight == s.inFlight - {s.version}
            && |s'.txns| == |s.txns| + 1
            && forall i :: 0 <= i < |s.txns| ==> s'.txns[i] == s.txns[i]
  {
    var rec := ImplicitRec(s, OpSet(k, v));
    var n, w := |s.txns|, Item(k, s.version + 1, v, false, false);
    var s1 := Step(s, Begin(false));
    var s2 := Step(s1, Do(n, OpSet(k, v)));
    assert rec.txn.ops == [w] && s2.txns[n] == rec && Commits(s2, n);
    assert [w][..0] == [];
    assert Publish(s.values, [w], s.version + 1) == SetItem(Publish(s.values, [], s.version + 1), w);
    assert s.inFlight + {s.version} - {s.version} == s.inFlight - {s.version};
  }

  const AtOne := Txn([], 1, false, false)
  const Old := Item(A, 1, V, false, false)
  const New := Item(A, 2, W, false, false)

  /** Two transactions begin at version 1, one is discarded, and the key they could read is set again. */
  lemma TwoStarts() returns (s: Sys)
    ensures Reachable(s) && s.values == [Old, New] && s.version == 2 && s.inFlight == {}
    ensures |s.txns| > 1 && s.txns[1].txn == AtOne
  {
    assert Init == Run([]) && Reachable(Init);
    s := StoreSet(Init, A, V);
    StoreSetEffect(Init, A, V);
    s := Advance(s, Begin(false));
    s := Advance(s, Begin(false));
    assert s.txns[1].txn == AtOne == s.txns[2].txn && s.inFlight == {1};
    s := Advance(s, Discard(2));
    var s0 := s;
    assert s.inFlight == {} && s.version == 1 && s.txns[1].txn == AtOne && s.values == [Old];
    s := StoreSet(s, A, W);
    StoreSetEffect(s0, A, W);
    assert [Old][1..] == [];
  }

  lemma SnapshotLost()
    ensures Perform(AtOne, [Old, New], OpGet(A)).1 == Found(V)
    ensures Perform(AtOne, Compact([Old, New], 2), OpGet(A)).1 == Refused(ErrNotFound)
  {
    GetUnique([Old, New], A, 1, Old);
    assert [Old, New][1..] == [New];
    GetUnique([New], A, 1, NoItem);
    assert Buffered(AtOne, A) == NoItem;
  }

  /**
   When one of two transactions with the same start is discarded, the in-flight entry of the
   other goes too. The next purge then takes away the other's snapshot.
   */
  lemma SharedStartVersion() returns (s: Sys, s': Sys)
    ensures Reachable(s) && s' == Step(s, Purge(PurgeFloor(s))) && IsOpen(s, 1) && IsOpen(s', 1)
    ensures Perform(s.txns[1].txn, s.values, OpGet(A)).1 == Found(V)
    ensures Perform(s'.txns[1].txn, s'.values, OpGet(A)).1 == Refused(ErrNotFound)
  {
    s := TwoStarts();
    s' := Step(s, Purge(PurgeFloor(s)));
    SnapshotLost();
  }
}
