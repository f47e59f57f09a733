/**
 What callers of the memory store may rely on, for every run.
 */
module Guarantees {
  import opened Bytes
  import opened VersionTree
  import opened Transactions
  import opened History
  import opened Runs

  ghost predicate Reachable(s: Sys) {
    exists actions :: s == Run(actions)
  }

  /** In every run: versions, `ops`, read markers, the log and the tree stay consistent. */
  lemma ReachableInv(s: Sys)
    requires Reachable(s)
    ensures Inv(s)
  {
    var actions :| s == Run(actions);
    RunKeeps(actions);
  }

  predicate IsOpen(s: Sys, id: nat) {
    id < |s.txns| && !s.txns[id].txn.discarded
  }

  /** Every operation performed is in the trace with its reply, and every transaction committed is in the history. */
  lemma StepRecorded(s: Sys, a: Action)
    ensures a.Do? && IsOpen(s, a.id) && a.op.key != [] && (s.txns[a.id].txn.readOnly ==> a.op.OpGet? || a.op.OpHas?) ==>
              var rec, rec' := s.txns[a.id], Step(s, a).txns[a.id];
              && rec'.trace == rec.trace + [Event(a.op, Perform(rec.txn, s.values, a.op).1)]
              && rec'.txn == Perform(rec.txn, s.values, a.op).0
    ensures a.Commit? && IsOpen(s, a.id) && !s.txns[a.id].txn.readOnly && CommitReply(s, a.id) == Done ==>
              && Step(s, a).history == s.history + [s.txns[a.id]]
              && Step(s, a).log == s.log + [Writes(s.txns[a.id].txn)]
    ensures !(a.Commit? && IsOpen(s, a.id) && !s.txns[a.id].txn.readOnly && CommitReply(s, a.id) == Done) ==>
              Step(s, a).history == s.history && Step(s, a).log == s.log
  {
  }

  // ---------------------------------------------------------------- the latest contents

  /** The live items of the tree are the plain map that the commits build up. */
  lemma ViewIsDb(s: Sys, d: nat)
    requires Inv(s) && s.floor <= d <= s.version
    ensures View(s.values, d) == DbAt(s.log, d)
  {
    DbAtNoEmptyKey(s.log, d);
    forall k | k != []
      ensures (k in DbAt(s.log, d) <==> Live(Get(s.values, k, d))) && (k in DbAt(s.log, d) ==> DbAt(s.log, d)[k] == Get(s.values, k, d).val)
    {
      DbAtLogged(s.log, k, d);
      LoggedShape(s.log, k, d);
    }
    ViewIs(s.values, d, DbAt(s.log, d));
  }

  /** Only a successful commit changes the contents, and it applies its effect as one step. */
  lemma StepOnView(s: Sys, a: Action)
    requires Inv(s)
    ensures View(Step(s, a).values, Step(s, a).version) ==
            if a.Commit? && Commits(s, a.id) then Apply(View(s.values, s.version), Writes(s.txns[a.id].txn))
            else View(s.values, s.version)
  {
    StepKeeps(s, a);
    StepLog(s, a);
    ViewFollowsLog(s, Step(s, a));
  }

  /** The contents change as the log grows. */
  lemma ViewFollowsLog(s: Sys, s': Sys)
    requires Inv(s) && Inv(s') && (s'.log == s.log || exists w :: s'.log == s.log + [w])
    ensures View(s'.values, s'.version) ==
            if s'.log == s.log then View(s.values, s.version) else Apply(View(s.values, s.version), s'.log[|s.log|])
  {
    ViewIsDb(s, s.version);
    ViewIsDb(s', s'.version);
    if s'.log != s.log {
      var w :| s'.log == s.log + [w];
      LogGrows(s.log, w, s.version);
    }
  }

  lemma StepLog(s: Sys, a: Action)
    requires s.version == |s.log|
    ensures var s' := Step(s, a);
            && s'.version == |s'.log|
            && s'.log == if a.Commit? && Commits(s, a.id) then s.log + [Writes(s.txns[a.id].txn)] else s.log
  {
  }

  /** Two views that agree on every lookup are the same map. */
  lemma ViewIs(values: Tree, version: nat, m: Map)
    requires Sorted(values) && [] !in m && (forall x :: x in values ==> x.key != [])
    requires forall k :: k != [] ==> (k in m <==> Live(Get(values, k, version))) && (k in m ==> m[k] == Get(values, k, version).val)
    ensures View(values, version) == m
  {
    forall k ensures (k in View(values, version) <==> k in m) && (k in m ==> View(values, version)[k] == m[k]) {
      if k != [] {
        ViewAt(values, version, k);
      }
    }
  }

  /** The same law for the tree alone: publishing applies the transaction's effect to the latest contents. */
  lemma PublishOnView(values: Tree, t: Txn, version: nat)
    requires WfValues(values, version) && WfTxn(t)
    ensures View(Publish(values, t.ops, version + 1), version + 1) == Apply(View(values, version), Writes(t))
  {
    var p, m := Publish(values, t.ops, version + 1), Apply(View(values, version), Writes(t));
    PublishEffect(values, t.ops, t.dsVersion, version);
    assert [] !in m by {
      WritesSpec(t, []);
    }
    forall k | k != [] ensures (k in m <==> Live(Get(p, k, version + 1))) && (k in m ==> m[k] == Get(p, k, version + 1).val) {
      InstallReads(values, t, version, k, version + 1);
      WritesSpec(t, k);
      ViewAt(values, version, k);
    }
    ViewIs(p, version + 1, m);
  }

  /** Point lookups read the same map: store-level `Get` and `Has`. */
  lemma ViewAt(values: Tree, version: nat, k: Bytes)
    requires Sorted(values) && k != []
    ensures k in View(values, version) <==> Live(Get(values, k, version))
    ensures k in View(values, version) ==> View(values, version)[k] == Get(values, k, version).val
  {
    GetIsNewest(values, k, version);
  }

  /** `Datastore.Set` publishes one write, which sets the key in the contents. */
  lemma SetOnView(values: Tree, version: nat, key: Bytes, val: Bytes)
    requires WfValues(values, version) && key != []
    ensures View(Publish(values, Buffer(Txn([], version, false, false), key, val, false).ops, version + 1), version + 1) ==
            View(values, version)[key := val]
  {
    var t := Txn([], version, false, false);
    BufferKeeps(t, key, val, false);
    PublishOnView(values, Buffer(t, key, val, false), version);
  }

  /** `Datastore.Delete` publishes what its transaction buffered, which removes the key. */
  lemma DeleteOnView(values: Tree, version: nat, key: Bytes)
    requires WfValues(values, version) && key != []
    ensures View(Publish(values, Perform(Txn([], version, false, false), values, OpDelete(key)).0.ops, version + 1), version + 1) ==
            View(values, version) - {key}
  {
    DeleteWrites(values, version, key);
    RemovalOnView(values, version, key, Perform(Txn([], version, false, false), values, OpDelete(key)).0);
  }

  lemma DeleteWrites(values: Tree, version: nat, key: Bytes)
    requires WfValues(values, version) && key != []
    ensures var t := Perform(Txn([], version, false, false), values, OpDelete(key)).0;
            WfTxn(t) && Writes(t) == if Live(Get(values, key, version)) then map[key := None] else map[]
  {
    PerformWrites(Txn([], version, false, false), values, version, OpDelete(key));
  }

  lemma RemovalOnView(values: Tree, version: nat, key: Bytes, t: Txn)
    requires WfValues(values, version) && key != [] && WfTxn(t)
    requires Writes(t) == if Live(Get(values, key, version)) then map[key := None] else map[]
    ensures View(Publish(values, t.ops, version + 1), version + 1) == View(values, version) - {key}
  {
    var m := View(values, version);
    assert key in m <==> Live(Get(values, key, version)) by {
      ViewAt(values, version, key);
    }
    ApplyRemoval(m, Writes(t), key);
    PublishOnView(values, t, version);
  }

  lemma ApplyRemoval(m: Map, w: Effect, key: Bytes)
    requires w == if key in m then map[key := None] else map[]
    ensures Apply(m, w) == m - {key}
  {
  }

  // ---------------------------------------------------------------- first committer wins

  /** The reply of `Commit`. */
  function CommitReply(s: Sys, id: nat): Reply
    requires id < |s.txns|
  {
    var t := s.txns[id].txn;
    if t.discarded then Refused(ErrDiscardedTxn)
    else if t.readOnly || !Conflicts(t, s.values, s.version) then Done
    else Refused(ErrTxnConflict)
  }

  /** Some commit after the snapshot wrote `k`. */
  predicate WrittenSince(s: Sys, d: nat, k: Bytes) {
    exists i :: d <= i < |s.log| && k in s.log[i]
  }

  /**
   In every run, with any purges, a commit conflicts if and only if a key in its `ops` was
   written by a transaction that committed after its snapshot.
   */
  lemma FirstCommitterWins(s: Sys, id: nat)
    requires Reachable(s) && IsOpen(s, id) && !s.txns[id].txn.readOnly
    ensures var t := s.txns[id].txn;
            CommitReply(s, id) == Refused(ErrTxnConflict) <==>
              exists k :: Touches(t.ops, k) && WrittenSince(s, t.dsVersion, k)
  {
    var t := s.txns[id].txn;
    assert Conflicts(t, s.values, s.version) <==>
             exists x, i :: x in t.ops && x.key != [] && t.dsVersion <= i < |s.log| && x.key in s.log[i] by {
      ReachableInv(s);
      ConflictsExact(t, s.values, s.log, s.floor);
    }
    assert WfLog(s.log) by {
      ReachableInv(s);
    }
    if x, i :| x in t.ops && x.key != [] && t.dsVersion <= i < |s.log| && x.key in s.log[i] {
      assert Touches(t.ops, x.key) && WrittenSince(s, t.dsVersion, x.key);
    }
    if k :| Touches(t.ops, k) && WrittenSince(s, t.dsVersion, k) {
      var x :| x in t.ops && x.key == k;
      var i :| t.dsVersion <= i < |s.log| && k in s.log[i];
      assert x.key in s.log[i];
    }
  }

  /** Every key an operation used counts for conflicts, unless it was never found in the store. */
  lemma TouchedKeysConflict(s: Sys, id: nat, e: Event)
    requires Reachable(s) && IsOpen(s, id) && !s.txns[id].txn.readOnly
    requires var rec := s.txns[id];
             e in rec.trace && e.op.key !in rec.absent && WrittenSince(s, rec.txn.dsVersion, e.op.key)
    ensures CommitReply(s, id) == Refused(ErrTxnConflict)
  {
    ReachableInv(s);
    FirstCommitterWins(s, id);
    assert OpenOk(s.txns[id], s.values, s.log);
  }

  // ---------------------------------------------------------------- snapshot isolation

  /** The snapshot `d` does not have `k`, or no commit between it and the highest floor purged to wrote `k`. */
  predicate Readable(s: Sys, k: Bytes, d: nat)
    requires d <= |s.log| && s.floor <= |s.log|
  {
    k !in DbAt(s.log, d) || forall i :: d <= i < s.floor ==> k !in s.log[i]
  }

  /** A lookup answers as the plain map `m` would. */
  predicate AnswersAs(x: Item, m: Map, k: Bytes) {
    (Live(x) <==> k in m) && (k in m ==> x.val == m[k])
  }

  /** The next operation is a read that reaches the tree, where a purge took away what it should find. */
  predicate LostRead(s: Sys, id: nat, op: Op)
    requires id < |s.txns| && s.txns[id].txn.dsVersion <= |s.log| && s.floor <= |s.log|
  {
    var rec := s.txns[id];
    && (op.OpGet? || op.OpHas?) && !Touches(rec.txn.ops, op.key) && !WritesKey(rec.trace, op.key)
    && !Readable(s, op.key, rec.txn.dsVersion)
  }

  /** Read markers hold what the start snapshot holds. */
  lemma MarkersFromStart(rec: TxnRec, values: Tree, log: Log)
    requires OpenOk(rec, values, log)
    ensures MarkersAgree(rec.txn, DbAt(log, rec.txn.dsVersion))
  {
    var m := DbAt(log, rec.txn.dsVersion);
    forall x | x in rec.txn.ops && x.isGet && x.key != []
      ensures (x.key in m <==> !x.isDeleted) && (x.key in m ==> m[x.key] == x.val)
    {
      DbAtLogged(log, x.key, rec.txn.dsVersion);
    }
  }

  /** A key that was missed although the start snapshot has it was purged. */
  lemma MissedIsPurged(s: Sys, id: nat, k: Bytes)
    requires Inv(s) && IsOpen(s, id) && k in s.txns[id].absent && k in DbAt(s.log, s.txns[id].txn.dsVersion)
    ensures !Readable(s, k, s.txns[id].txn.dsVersion)
  {
    LookupExact(s, k, s.txns[id].txn.dsVersion);
  }

  /** A lookup at the snapshot `d` is answered rightly exactly if the key is still readable there. */
  lemma LookupExact(s: Sys, k: Bytes, d: nat)
    requires Inv(s) && k != [] && d <= s.version
    ensures AnswersAs(Get(s.values, k, d), DbAt(s.log, d), k) <==> Readable(s, k, d)
    ensures !Readable(s, k, d) ==> Get(s.values, k, d) == NoItem
  {
    LoggedShape(s.log, k, d);
    DbAtLogged(s.log, k, d);
    if d < s.floor {
      LoggedStable(s.log, k, d, s.floor);
    }
  }

  /** The one kind of read that gets a wrong miss. */
  lemma LostReadIsSpoiled(s: Sys, id: nat, op: Op)
    requires Inv(s) && IsOpen(s, id) && Refusal(s.txns[id].txn, op).None?
    requires OpenOk(Record(s.txns[id], s.values, op), s.values, s.log)
    ensures var rec, rec' := s.txns[id], Record(s.txns[id], s.values, op);
            Spoiled(rec'.trace, DbAt(s.log, rec.txn.dsVersion), |rec.trace|) <==> LostRead(s, id, op)
  {
    var rec, rec', k := s.txns[id], Record(s.txns[id], s.values, op), op.key;
    var d := rec.txn.dsVersion;
    var e := Event(op, Perform(rec.txn, s.values, op).1);
    assert rec'.trace == rec.trace + [e];
    SpoiledLast(rec, s.values, op, DbAt(s.log, d));
    if Touches(rec.txn.ops, k) {
      TouchedReads(rec, s.values, s.log, k);
    } else {
      assert Lookup(rec.txn, s.values, k) == Get(s.values, k, d).(isGet := true) by {
        BufferedCases(rec.txn, k);
      }
      LookupExact(s, k, d);
    }
  }

  /** The last operation is spoiled if it reads a key that its lookup does not find live. */
  lemma SpoiledLast(rec: TxnRec, values: Tree, op: Op, m: Map)
    requires Refusal(rec.txn, op).None?
    ensures var trace := rec.trace + [Event(op, Perform(rec.txn, values, op).1)];
            Spoiled(trace, m, |rec.trace|) <==>
              (op.OpGet? || op.OpHas?) && !Live(Lookup(rec.txn, values, op.key)) && op.key in m && !WritesKey(rec.trace, op.key)
  {
    assert (rec.trace + [Event(op, Perform(rec.txn, values, op).1)])[..|rec.trace|] == rec.trace;
  }

  /** A key in `ops` was written by the transaction, or its marker answers as the start snapshot. */
  lemma TouchedReads(rec: TxnRec, values: Tree, log: Log, k: Bytes)
    requires OpenOk(rec, values, log) && k != [] && Touches(rec.txn.ops, k)
    ensures WritesKey(rec.trace, k) || AnswersAs(Lookup(rec.txn, values, k), DbAt(log, rec.txn.dsVersion), k)
  {
    BufferedCases(rec.txn, k);
    WritesSpec(rec.txn, k);
    var x :| x in rec.txn.ops && x.key == k;
    MarkersFromStart(rec, values, log);
    if !Buffered(rec.txn, k).isGet {
      assert WritesKey(rec.trace, k);
    }
  }

  /**
   At every point of a run, the next operation of an open transaction that has a key, and is
   a read if the transaction is read-only, is answered as if all
   its operations ran alone on the contents at its start, if and only if it is not a read
   that reaches the tree for a key that a purge took from the snapshot. The operations before
   it all replay there, if their keys are still readable.
   */
  lemma SnapshotIsolation(s: Sys, id: nat, op: Op)
    requires Reachable(s) && IsOpen(s, id)
    requires op.key != [] && (s.txns[id].txn.readOnly ==> op.OpGet? || op.OpHas?)
    ensures s.txns[id].txn.dsVersion <= |s.log| && s.floor <= |s.log|
    ensures var rec, start := s.txns[id], DbAt(s.log, s.txns[id].txn.dsVersion);
            && (Perform(rec.txn, s.values, op).1 == SerialReply(op, ReplayState(rec.trace, start)) <==> !LostRead(s, id, op))
            && ((forall e :: e in rec.trace ==> Readable(s, e.op.key, rec.txn.dsVersion)) ==> ReplayMatches(rec.trace, start))
  {
    ReachableInv(s);
    NextReply(s, id, op);
    if forall e :: e in s.txns[id].trace ==> Readable(s, e.op.key, s.txns[id].txn.dsVersion) {
      StartAgrees(s, id);
    }
  }

  lemma NextReply(s: Sys, id: nat, op: Op)
    requires Inv(s) && IsOpen(s, id) && Refusal(s.txns[id].txn, op).None?
    ensures var rec := s.txns[id];
            Perform(rec.txn, s.values, op).1 == SerialReply(op, ReplayState(rec.trace, DbAt(s.log, rec.txn.dsVersion))) <==>
              !LostRead(s, id, op)
  {
    var rec, rec' := s.txns[id], Record(s.txns[id], s.values, op);
    var n, m := |rec.trace|, DbAt(s.log, rec.txn.dsVersion);
    DoKeeps(rec, s, op);
    assert rec'.txn.dsVersion == rec.txn.dsVersion && rec'.trace[..n] == rec.trace;
    assert MarkersAgree(rec'.txn, m) by {
      MarkersFromStart(rec', s.values, s.log);
    }
    ReplyExact(rec', m, n);
    LostReadIsSpoiled(s, id, op);
  }

  lemma StartAgrees(s: Sys, id: nat)
    requires Inv(s) && IsOpen(s, id)
    requires forall e :: e in s.txns[id].trace ==> Readable(s, e.op.key, s.txns[id].txn.dsVersion)
    ensures ReplayMatches(s.txns[id].trace, DbAt(s.log, s.txns[id].txn.dsVersion))
  {
    var rec := s.txns[id];
    var m := DbAt(s.log, rec.txn.dsVersion);
    MarkersFromStart(rec, s.values, s.log);
    forall k | k in rec.absent ensures k !in m {
      FirstOnExists(rec.trace, k);
      if k in m {
        MissedIsPurged(s, id, k);
      }
    }
    assert Agrees(rec, m);
  }

  /** The live items of the tree at `d` are the snapshot, if and only if every key is still readable there. */
  lemma SnapshotKept(s: Sys, d: nat)
    requires Reachable(s) && d <= s.version
    ensures s.version == |s.log| && s.floor <= |s.log|
    ensures View(s.values, d) == DbAt(s.log, d) <==> forall k :: k in DbAt(s.log, d) ==> Readable(s, k, d)
  {
    ReachableInv(s);
    var m := DbAt(s.log, d);
    DbAtNoEmptyKey(s.log, d);
    forall k | k != []
      ensures AnswersAs(Get(s.values, k, d), m, k) <==> Readable(s, k, d)
      ensures k in View(s.values, d) <==> Live(Get(s.values, k, d))
    {
      LookupExact(s, k, d);
      ViewAt(s.values, d, k);
    }
    if forall k :: k in m ==> Readable(s, k, d) {
      ViewIs(s.values, d, m);
    } else {
      var k :| k in m && !Readable(s, k, d);
      LookupExact(s, k, d);
    }
  }

  // ---------------------------------------------------------------- serial order

  /** The contents after running the first `n` committed transactions one by one on a plain map. */
  function SerialRun(history: seq<TxnRec>, n: nat): Map
    requires n <= |history|
  {
    if n == 0 then map[] else ReplayState(history[n - 1].trace, SerialRun(history, n - 1))
  }

  /**
   No key that the i-th committed transaction missed is present just before its commit,
   unless the transaction deleted it unseen and then set it.
   */
  predicate MissesHold(s: Sys, i: nat)
    requires i < |s.history| == |s.log|
  {
    forall k :: k in s.history[i].absent && k in DbAt(s.log, i) ==> Unaffected(s.history[i], k)
  }

  /**
   A committed transaction gives the same replies and the same effect when it is run alone
   on the contents just before its commit, if and only if its misses still hold there. Each
   reply by itself is the same, if and only if it is not such a miss.
   */
  lemma CommitReplaysExact(s: Sys, i: nat)
    requires Reachable(s) && i < |s.history| == |s.log|
    ensures (ReplayMatches(s.history[i].trace, DbAt(s.log, i)) && ReplayState(s.history[i].trace, DbAt(s.log, i)) == DbAt(s.log, i + 1))
            <==> MissesHold(s, i)
    ensures forall j :: 0 <= j < |s.history[i].trace| ==>
              (Replays(s.history[i].trace, DbAt(s.log, i), j) <==> !Spoiled(s.history[i].trace, DbAt(s.log, i), j))
  {
    ReachableInv(s);
    assert CommittedOk(s.history[i], s.log, i);
  }

  lemma {:induction false} SerialPrefix(s: Sys, n: nat)
    requires Reachable(s) && n <= |s.history| == |s.log|
    requires forall i :: 0 <= i < n ==> MissesHold(s, i)
    ensures SerialRun(s.history, n) == DbAt(s.log, n)
  {
    if n > 0 {
      SerialPrefix(s, n - 1);
      CommitReplaysExact(s, n - 1);
    }
  }

  /**
   Every run whose missed reads held is equivalent to running its committed transactions
   one by one in commit order on a plain map: same replies, same final contents.
   */
  lemma SerialOrder(s: Sys)
    requires Reachable(s)
    ensures |s.history| == |s.log|
    ensures (forall i :: 0 <= i < |s.log| ==> MissesHold(s, i)) ==>
              && SerialRun(s.history, |s.log|) == View(s.values, s.version)
              && forall i :: 0 <= i < |s.log| ==> ReplayMatches(s.history[i].trace, SerialRun(s.history, i))
  {
    assert |s.history| == |s.log| == s.version && View(s.values, s.version) == DbAt(s.log, s.version) by {
      ReachableInv(s);
      ViewIsDb(s, s.version);
    }
    if forall i :: 0 <= i < |s.log| ==> MissesHold(s, i) {
      SerialPrefix(s, |s.log|);
      forall i | 0 <= i < |s.log| ensures ReplayMatches(s.history[i].trace, SerialRun(s.history, i)) {
        SerialPrefix(s, i);
        CommitReplaysExact(s, i);
      }
    }
  }

  /**
   In particular, every read that found a stored item, live or deleted, replays; and a
   transaction of which all reads did is serial as a whole.
   */
  lemma TrackedIsSerial(s: Sys, i: nat)
    requires Reachable(s) && i < |s.history| == |s.log|
    ensures forall j :: 0 <= j < |s.history[i].trace| && s.history[i].trace[j].op.key !in s.history[i].absent ==>
              Replays(s.history[i].trace, DbAt(s.log, i), j)
    ensures s.history[i].absent == {} ==>
              && ReplayMatches(s.history[i].trace, DbAt(s.log, i))
              && ReplayState(s.history[i].trace, DbAt(s.log, i)) == DbAt(s.log, i + 1)
  {
    ReachableInv(s);
    assert CommittedOk(s.history[i], s.log, i);
  }

  // ---------------------------------------------------------------- purge floors

  /**
   A lookup at snapshot `d` finds its item if and only if the snapshot has none for the key,
   or no commit between it and the highest floor purged to has written the key; and it is
   answered rightly under the same condition on live items alone.
   */
  lemma PurgedReadsExact(s: Sys, k: Bytes, d: nat)
    requires Reachable(s) && k != [] && d <= s.version
    ensures s.version == |s.log| && s.floor <= |s.log|
    ensures Get(s.values, k, d) == Logged(s.log, k, d) <==>
              Logged(s.log, k, d) == NoItem || forall i :: d <= i < s.floor ==> k !in s.log[i]
    ensures AnswersAs(Get(s.values, k, d), DbAt(s.log, d), k) <==> Readable(s, k, d)
  {
    ReachableInv(s);
    LookupExact(s, k, d);
    LoggedShape(s.log, k, d);
    if d < s.floor {
      LoggedStable(s.log, k, d, s.floor);
    }
  }

  /** The least element of a non-empty set of start versions. */
  ghost function Min(s: set<nat>): (m: nat)
    requires s != {}
    ensures m in s && forall d :: d in s ==> m <= d
  {
    var x :| x in s;
    if s == {x} then x
    else
      var y := Min(s - {x});
      assert forall d :: d in s ==> d == x || d in s - {x};
      if x < y then x else y
  }

  /** The floor `executePurge` picks. */
  ghost function PurgeFloor(s: Sys): nat {
    if s.inFlight == {} then s.version else Min(s.inFlight)
  }

  /** The chosen floor never exceeds the version, and protects every start version in flight. */
  lemma PurgeFloorSafe(s: Sys)
    requires Reachable(s)
    ensures PurgeFloor(s) <= s.version
    ensures forall d :: d in s.inFlight ==> PurgeFloor(s) <= d
  {
    ReachableInv(s);
  }

  /** Purges use the chosen floor, and no transaction closes while another with its start version is open. */
  ghost predicate Protecting(s: Sys, a: Action) {
    match a
    case Purge(to) => to == PurgeFloor(s)
    case Commit(id) => forall j: nat :: IsOpen(s, id) && IsOpen(s, j) && j != id ==> s.txns[j].txn.dsVersion != s.txns[id].txn.dsVersion
    case Discard(id) => forall j: nat :: IsOpen(s, id) && IsOpen(s, j) && j != id ==> s.txns[j].txn.dsVersion != s.txns[id].txn.dsVersion
    case _ => true
  }

  ghost predicate ProtectingRun(actions: seq<Action>) {
    actions == [] ||
    (ProtectingRun(actions[..|actions| - 1]) && Protecting(Run(actions[..|actions| - 1]), actions[|actions| - 1]))
  }

  /** The start version of an open transaction is in flight and not above the floor. */
  predicate Protected(s: Sys, id: nat) {
    IsOpen(s, id) ==> s.floor <= s.txns[id].txn.dsVersion && s.txns[id].txn.dsVersion in s.inFlight
  }

  lemma StepProtects(s: Sys, a: Action, id: nat)
    requires Inv(s) && Protecting(s, a) && Protected(s, id)
    ensures Protected(Step(s, a), id)
  {
  }

  /** In such runs no open transaction ever loses its snapshot to a purge. */
  lemma {:induction false} ProtectedSnapshots(actions: seq<Action>, id: nat)
    requires ProtectingRun(actions)
    ensures Protected(Run(actions), id)
  {
    if actions != [] {
      var front := actions[..|actions| - 1];
      ProtectedSnapshots(front, id);
      RunKeeps(front);
      StepProtects(Run(front), actions[|actions| - 1], id);
    }
  }

  // ---------------------------------------------------------------- store-level operations

  /** `Datastore.Set` and `Datastore.Delete`: an implicit transaction around one operation. */
  function StoreOp(s: Sys, op: Op): Sys {
    var n := |s.txns|;
    Step(Step(Step(s, Begin(false)), Do(n, op)), Commit(n))
  }

  function ImplicitRec(s: Sys, op: Op): TxnRec {
    Record(TxnRec(Txn([], s.version, false, false), [], {}), s.values, op)
  }

  /** The implicit transaction never conflicts: its snapshot is the latest version. */
  lemma ImplicitCommits(s: Sys, op: Op)
    requires op.key != []
    ensures StoreOp(s, op).log == s.log + [Writes(ImplicitRec(s, op).txn)]
    ensures StoreOp(s, op).history == s.history + [ImplicitRec(s, op)]
    ensures StoreOp(s, op).version == s.version + 1
    ensures exists r :: ImplicitRec(s, op).trace == [Event(op, r)]
  {
    var n, rec := |s.txns|, ImplicitRec(s, op);
    var s2 := Step(Step(s, Begin(false)), Do(n, op));
    assert s2.txns[n] == rec && rec.txn.dsVersion == s.version;
    assert Commits(s2, n);
    assert rec.trace == [Event(op, Perform(Txn([], s.version, false, false), s.values, op).1)];
  }

  lemma ImplicitMisses(s: Sys, op: Op)
    requires Inv(s) && op.key != []
    ensures forall k :: k in ImplicitRec(s, op).absent ==> k !in DbAt(s.log, s.version)
  {
    ReadIsLogged(s, op.key, s.version);
    DbAtLogged(s.log, op.key, s.version);
  }

  lemma ImplicitReplays(s: Sys, op: Op)
    requires Inv(s) && op.key != []
    ensures Inv(StoreOp(s, op))
    ensures ReplayState(ImplicitRec(s, op).trace, DbAt(s.log, s.version)) == DbAt(StoreOp(s, op).log, s.version + 1)
  {
    var n, rec, s' := |s.txns|, ImplicitRec(s, op), StoreOp(s, op);
    ImplicitCommits(s, op);
    ImplicitMisses(s, op);
    assert Inv(s') by {
      StepKeeps(s, Begin(false));
      StepKeeps(Step(s, Begin(false)), Do(n, op));
      StepKeeps(Step(Step(s, Begin(false)), Do(n, op)), Commit(n));
    }
    assert CommittedOk(s'.history[s.version], s'.log, s.version);
    assert DbAt(s'.log, s.version) == DbAt(s.log, s.version) by {
      LogGrows(s.log, Writes(rec.txn), s.version);
    }
  }

  /** Whatever transactions are open, a store-level write commits and acts as on a plain map. */
  lemma StoreOpRefinesMap(s: Sys, op: Op)
    requires Inv(s) && op.key != []
    ensures Inv(StoreOp(s, op)) && StoreOp(s, op).version == s.version + 1
    ensures View(StoreOp(s, op).values, s.version + 1) == SerialState(op, View(s.values, s.version))
  {
    var s', m := StoreOp(s, op), DbAt(s.log, s.version);
    ImplicitCommits(s, op);
    ImplicitReplays(s, op);
    var r :| ImplicitRec(s, op).trace == [Event(op, r)];
    assert [Event(op, r)] == [] + [Event(op, r)];
    ReplaySnoc([], Event(op, r), m);
    assert View(s.values, s.version) == m by {
      ViewIsDb(s, s.version);
    }
    assert View(s'.values, s'.version) == DbAt(s'.log, s'.version) by {
      ViewIsDb(s', s'.version);
    }
  }

  /** A use of the store without explicit transactions: point writes, and purges at any floor. */
  datatype StoreAction = Write(op: Op) | Compaction(to: nat)

  function StoreRun(actions: seq<StoreAction>): Sys {
    if actions == [] then Init
    else
      var s := StoreRun(actions[..|actions| - 1]);
      match actions[|actions| - 1]
      case Write(op) => if op.key == [] then s else StoreOp(s, op)
      case Compaction(to) => Step(s, Purge(to))
  }

  function PlainRun(actions: seq<StoreAction>): Map {
    if actions == [] then map[]
    else
      var m := PlainRun(actions[..|actions| - 1]);
      match actions[|actions| - 1]
      case Write(op) => if op.key == [] then m else SerialState(op, m)
      case Compaction(_) => m
  }

  /** Run sequentially, with any purges in between, the store is a plain map. */
  lemma {:induction false} StoreRunRefinesMap(actions: seq<StoreAction>)
    ensures var s := StoreRun(actions); Inv(s) && View(s.values, s.version) == PlainRun(actions)
  {
    if actions == [] {
      RunKeeps([]);
    } else {
      var front := actions[..|actions| - 1];
      StoreRunRefinesMap(front);
      match actions[|actions| - 1]
      case Write(op) =>
        if op.key != [] {
          StoreOpRefinesMap(StoreRun(front), op);
        }
      case Compaction(to) =>
        StepKeeps(StoreRun(front), Purge(to));
        StepOnView(StoreRun(front), Purge(to));
    }
  }
}
