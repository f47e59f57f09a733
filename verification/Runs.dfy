/**
 Every run of begin, point operations, commit, discard and purge on one memory store, and
 what holds at the end of each: the version tree represents the commit history, conflicts
 are exact, snapshots are isolated, and committed transactions are serial in commit order.
 */
module Runs {
  import opened Bytes
  import opened VersionTree
  import opened Transactions
  import opened History

  /**
   A store with all its transactions so far. `log`, `history` and `floor` record what
   happened: the committed effects, the transactions they came from, and the highest floor
   purged to.
   */
  datatype Sys = Sys(version: nat, values: Tree, inFlight: set<nat>, txns: seq<TxnRec>,
                     log: Log, history: seq<TxnRec>, floor: nat)

  datatype Action = Begin(readOnly: bool) | Do(id: nat, op: Op) | Commit(id: nat) | Discard(id: nat) | Purge(to: nat)

  const Init := Sys(0, [], {}, [], [], [], 0)

  // ---------------------------------------------------------------- steps

  /** `Discard`: clears `ops`, and drops the in-flight entry of this start version, whoever put it there. */
  function Close(s: Sys, id: nat): Sys
    requires id < |s.txns|
  {
    var t := s.txns[id].txn;
    if t.discarded then s
    else s.(txns := s.txns[id := s.txns[id].(txn := t.(ops := [], discarded := true))],
            inFlight := s.inFlight - {t.dsVersion})
  }

  /** `Datastore.commit` after a successful conflict check. */
  function Install(s: Sys, rec: TxnRec): Sys {
    s.(version := s.version + 1,
       values := Publish(s.values, rec.txn.ops, s.version + 1),
       log := s.log + [Writes(rec.txn)],
       history := s.history + [rec])
  }

  predicate Commits(s: Sys, id: nat) {
    && id < |s.txns|
    && var t := s.txns[id].txn;
    !t.discarded && !t.readOnly && !Conflicts(t, s.values, s.version)
  }

  function Step(s: Sys, a: Action): Sys {
    match a
    case Begin(ro) =>
      s.(txns := s.txns + [TxnRec(Txn([], s.version, ro, false), [], {})], inFlight := s.inFlight + {s.version})
    case Do(id, op) =>
      if id < |s.txns| then s.(txns := s.txns[id := Record(s.txns[id], s.values, op)]) else s
    case Commit(id) =>
      if Commits(s, id) then Close(Install(s, s.txns[id]), id) else if id < |s.txns| then Close(s, id) else s
    case Discard(id) =>
      if id < |s.txns| then Close(s, id) else s
    case Purge(to) =>
      if to <= s.version then s.(values := Compact(s.values, to), floor := if to > s.floor then to else s.floor) else s
  }

  function Run(actions: seq<Action>): Sys {
    if actions == [] then Init else Step(Run(actions[..|actions| - 1]), actions[|actions| - 1])
  }

  /** The live contents of the tree at a version. */
  function View(values: Tree, version: nat): Map {
    map k | k in (set x | x in values :: x.key) && Live(Get(values, k, version)) :: Get(values, k, version).val
  }

  // ---------------------------------------------------------------- invariant

  /** No commit after the snapshot `d` and up to the floor wrote `k`, so its item at `d` was not purged. */
  predicate Kept(log: Log, floor: nat, k: Bytes, d: nat)
    requires floor <= |log|
  {
    floor <= d || Logged(log, k, floor).version <= d
  }

  /** Lookups return exactly what the log says, and nothing where a purge has lost it. */
  ghost predicate Represents(values: Tree, log: Log, floor: nat) {
    && floor <= |log|
    && forall k, d {:trigger Get(values, k, d)} :: k != [] && 0 <= d <= |log| ==>
         Get(values, k, d) == if Kept(log, floor, k, d) then Logged(log, k, d) else NoItem
  }

  /** What holds of an open transaction, whatever committed or was purged since it began. */
  ghost predicate OpenOk(rec: TxnRec, values: Tree, log: Log) {
    && WfTxn(rec.txn) && rec.txn.dsVersion <= |log| && ReplaySound(rec) && TraceTracked(rec) && [] !in rec.absent
    && (forall x :: x in rec.txn.ops && x.isGet && x.key != [] ==> x.(isGet := false) == Logged(log, x.key, rec.txn.dsVersion))
    && (forall k :: k in rec.absent ==> Get(values, k, rec.txn.dsVersion) == NoItem)
  }

  /**
   What a commit leaves behind: its effect, a serial replay exactly if no missed key got in
   its way, and every reply that is not such a miss.
   */
  ghost predicate CommittedOk(rec: TxnRec, log: Log, i: nat)
    requires i < |log|
  {
    && log[i] == Writes(rec.txn)
    && (ReplayMatches(rec.trace, DbAt(log, i)) && ReplayState(rec.trace, DbAt(log, i)) == DbAt(log, i + 1) <==>
          forall k :: k in rec.absent && k in DbAt(log, i) ==> Unaffected(rec, k))
    && RepliesOk(rec, DbAt(log, i))
  }

  ghost predicate RepliesOk(rec: TxnRec, m: Map) {
    forall j :: 0 <= j < |rec.trace| ==>
      && (Replays(rec.trace, m, j) <==> !Spoiled(rec.trace, m, j))
      && (Spoiled(rec.trace, m, j) ==> rec.trace[j].op.key in rec.absent)
  }

  ghost predicate Inv(s: Sys) {
    && s.version == |s.log| == |s.history|
    && WfLog(s.log) && WfValues(s.values, s.version) && Represents(s.values, s.log, s.floor)
    && (forall i :: 0 <= i < |s.txns| && !s.txns[i].txn.discarded ==> OpenOk(s.txns[i], s.values, s.log))
    && (forall i :: 0 <= i < |s.history| ==> CommittedOk(s.history[i], s.log, i))
    && (forall d :: d in s.inFlight ==> d <= s.version)
  }

  // ---------------------------------------------------------------- the version tree and the log

  /** Reads at or below the old version are untouched by a commit; at the new one they see its effect. */
  lemma InstallReads(values: Tree, t: Txn, version: nat, k: Bytes, d: nat)
    requires WfValues(values, version) && WfTxn(t) && k != [] && d <= version + 1
    ensures var g := Get(Publish(values, t.ops, version + 1), k, d);
            if d == version + 1 && k in Writes(t)
            then g == Buffered(t, k).(version := version + 1)
            else g == Get(values, k, if d <= version then d else version)
  {
    var v, p := version + 1, Publish(values, t.ops, version + 1);
    PublishEffect(values, t.ops, t.dsVersion, version);
    WritesSpec(t, k);
    if d == v && k in Writes(t) {
      var w := Buffered(t, k).(version := v);
      assert StoredFrom(w, t.ops, v);
      GetUnique(p, k, d, w);
    } else {
      var d' := if d <= version then d else version;
      var g := Get(values, k, d');
      GetIsNewest(values, k, d');
      forall y | y in p && y.key == k && y.version <= d ensures y in values && y.version <= d' {
      }
      GetUnique(p, k, d, g);
    }
  }

  lemma InstallRepresents(values: Tree, t: Txn, log: Log, floor: nat)
    requires WfValues(values, |log|) && WfTxn(t) && Represents(values, log, floor)
    ensures Represents(Publish(values, t.ops, |log| + 1), log + [Writes(t)], floor)
  {
    var p, log' := Publish(values, t.ops, |log| + 1), log + [Writes(t)];
    LogGrows(log, Writes(t), floor);
    forall k, d | k != [] && 0 <= d <= |log'|
      ensures Get(p, k, d) == if Kept(log', floor, k, d) then Logged(log', k, d) else NoItem
    {
      InstallReads(values, t, |log|, k, d);
      LogGrows(log, Writes(t), if d <= |log| then d else |log|);
      if d == |log| + 1 && k in Writes(t) {
        WritesSpec(t, k);
        assert WfOp(Buffered(t, k), t.dsVersion);
      }
    }
  }

  /** A stored item is the log's item of its own version. */
  lemma StoredIsLogged(values: Tree, log: Log, floor: nat, y: Item)
    requires WfValues(values, |log|) && Represents(values, log, floor) && y in values
    ensures Logged(log, y.key, y.version) == y
  {
    GetUnique(values, y.key, y.version, y);
    LoggedShape(log, y.key, y.version);
  }

  /** What a purge to `to` takes from the snapshot `d`. */
  lemma PurgeReads(values: Tree, log: Log, floor: nat, to: nat, k: Bytes, d: nat)
    requires WfValues(values, |log|) && Represents(values, log, floor) && to <= |log| && k != [] && d <= |log|
    ensures var floor' := if to > floor then to else floor;
            Get(Compact(values, to), k, d) == if Kept(log, floor', k, d) then Logged(log, k, d) else NoItem
  {
    var g := Get(values, k, d);
    CompactKeepsReads(values, to, k, d);
    GetIsNewest(values, k, d);
    LoggedShape(log, k, d);
    if to <= floor {
      if g.key == k && Superseded(g, values, to) {
        var y :| y in values && y.key == k && g.version < y.version <= to;
        StoredIsLogged(values, log, floor, y);
        assert y.version > d;
        LoggedStable(log, k, d, floor);
        LoggedStable(log, k, d, y.version);
        assert false;
      }
    } else if d < to {
      PurgeLoses(values, log, floor, to, k, d);
    }
  }

  lemma PurgeLoses(values: Tree, log: Log, floor: nat, to: nat, k: Bytes, d: nat)
    requires WfValues(values, |log|) && Represents(values, log, floor) && floor < to <= |log| && k != [] && d < to
    ensures var g := Get(values, k, d);
            if Logged(log, k, to).version <= d then g == Logged(log, k, d) && !Superseded(g, values, to)
            else g == NoItem || (g.key == k && Superseded(g, values, to))
  {
    var g, h := Get(values, k, d), Get(values, k, to);
    GetIsNewest(values, k, d);
    GetIsNewest(values, k, to);
    LoggedShape(log, k, to);
    if h.version <= d {
      LoggedStable(log, k, d, to);
      GetUnique(values, k, d, h);
    } else {
      assert h in values;
    }
  }

  lemma PurgeRepresents(values: Tree, log: Log, floor: nat, to: nat)
    requires WfValues(values, |log|) && Represents(values, log, floor) && to <= |log|
    ensures Represents(Compact(values, to), log, if to > floor then to else floor)
  {
    forall k, d | k != [] && 0 <= d <= |log|
      ensures Get(Compact(values, to), k, d) ==
              if Kept(log, if to > floor then to else floor, k, d) then Logged(log, k, d) else NoItem
    {
      PurgeReads(values, log, floor, to, k, d);
    }
  }

  // ---------------------------------------------------------------- conflicts

  /** The newest version of a key is the number of the last commit that wrote it. */
  lemma NewestVersion(values: Tree, log: Log, floor: nat, k: Bytes, d: nat)
    requires WfValues(values, |log|) && Represents(values, log, floor) && d <= |log|
    ensures Get(values, k, |log|).version != Get(values, k, d).version <==> k != [] && exists i :: d <= i < |log| && k in log[i]
    ensures (k != [] && forall i :: d <= i < |log| ==> k !in log[i]) ==> Get(values, k, d) == Get(values, k, |log|)
  {
    GetIsNewest(values, k, d);
    GetIsNewest(values, k, |log|);
    if k == [] {
      assert Get(values, k, d) == NoItem == Get(values, k, |log|);
    } else {
      var g := Get(values, k, |log|);
      LoggedShape(log, k, |log|);
      LoggedStable(log, k, d, |log|);
      if g.version <= d {
        GetUnique(values, k, d, g);
      }
    }
  }

  /** The conflict test is exactly: a later commit wrote a key that this transaction read or wrote. */
  lemma ConflictsExact(t: Txn, values: Tree, log: Log, floor: nat)
    requires WfValues(values, |log|) && Represents(values, log, floor) && t.dsVersion <= |log|
    ensures Conflicts(t, values, |log|) <==>
              exists x, i :: x in t.ops && x.key != [] && t.dsVersion <= i < |log| && x.key in log[i]
  {
    forall x | x in t.ops
      ensures Get(values, x.key, |log|).version != Get(values, x.key, t.dsVersion).version <==>
                x.key != [] && exists i :: t.dsVersion <= i < |log| && x.key in log[i]
    {
      NewestVersion(values, log, floor, x.key, t.dsVersion);
    }
  }

  // ---------------------------------------------------------------- every step keeps the invariant

  lemma OpenOkGrows(rec: TxnRec, values: Tree, values': Tree, log: Log, w: Effect)
    requires OpenOk(rec, values, log)
    requires forall k :: k in rec.absent ==> Get(values', k, rec.txn.dsVersion) == NoItem
    ensures OpenOk(rec, values', log + [w])
  {
    LogGrows(log, w, rec.txn.dsVersion);
  }

  lemma CommittedOkGrows(rec: TxnRec, log: Log, w: Effect, i: nat)
    requires i < |log| && CommittedOk(rec, log, i)
    ensures CommittedOk(rec, log + [w], i)
  {
    LogGrows(log, w, i);
    LogGrows(log, w, i + 1);
  }

  /** After a successful conflict check, the latest contents agree with every tracked read. */
  lemma MarkersAreCurrent(rec: TxnRec, values: Tree, log: Log, floor: nat)
    requires WfValues(values, |log|) && Represents(values, log, floor)
    requires OpenOk(rec, values, log) && !Conflicts(rec.txn, values, |log|)
    ensures MarkersAgree(rec.txn, DbAt(log, |log|))
  {
    var t, n := rec.txn, |log|;
    var m := DbAt(log, n);
    ConflictsExact(t, values, log, floor);
    forall x | x in t.ops && x.isGet && x.key != []
      ensures (x.key in m <==> !x.isDeleted) && (x.key in m ==> m[x.key] == x.val)
    {
      LoggedStable(log, x.key, t.dsVersion, n);
      DbAtLogged(log, x.key, n);
    }
  }

  /** A transaction that passes the conflict check replays serially, unless a missed key turned up. */
  lemma CommitIsSerial(rec: TxnRec, values: Tree, log: Log, floor: nat)
    requires WfValues(values, |log|) && Represents(values, log, floor)
    requires OpenOk(rec, values, log) && !Conflicts(rec.txn, values, |log|)
    ensures CommittedOk(rec, log + [Writes(rec.txn)], |log|)
  {
    var w := Writes(rec.txn);
    LogGrows(log, w, |log|);
    assert DbAt(log + [w], |log| + 1) == Apply(DbAt(log, |log|), w);
    MarkersAreCurrent(rec, values, log, floor);
    ReplayExact(rec, DbAt(log, |log|));
    forall j | 0 <= j < |rec.trace|
      ensures Replays(rec.trace, DbAt(log, |log|), j) <==> !Spoiled(rec.trace, DbAt(log, |log|), j)
      ensures Spoiled(rec.trace, DbAt(log, |log|), j) ==> rec.trace[j].op.key in rec.absent
    {
      ReplyExact(rec, DbAt(log, |log|), j);
    }
  }

  /** A read that reaches the tree finds the item the log has for the snapshot, or nothing. */
  lemma ReadIsLogged(s: Sys, k: Bytes, d: nat)
    requires Inv(s) && k != [] && d <= s.version
    ensures var g := Get(s.values, k, d);
            if g.key == [] then g == NoItem && (s.floor <= d ==> Logged(s.log, k, d) == NoItem)
            else g == Logged(s.log, k, d) && !g.isGet
  {
    LoggedShape(s.log, k, d);
  }

  lemma DoKeeps(rec: TxnRec, s: Sys, op: Op)
    requires Inv(s) && OpenOk(rec, s.values, s.log)
    ensures OpenOk(Record(rec, s.values, op), s.values, s.log)
  {
    var t, rec' := rec.txn, Record(rec, s.values, op);
    if Refusal(t, op).None? {
      RecordKeepsReplay(rec, s.values, s.version, op);
      RecordKeepsTracked(rec, s.values, s.version, op);
      ReadIsLogged(s, op.key, t.dsVersion);
      forall x | x in rec'.txn.ops && x.isGet && x.key != []
        ensures x.(isGet := false) == Logged(s.log, x.key, t.dsVersion)
      {
        MarkersAfter(t, s.values, s.version, op, x);
        GetIsNewest(s.values, op.key, t.dsVersion);
      }
    }
  }

  lemma InstallKeepsOpen(s: Sys, rec: TxnRec, i: nat)
    requires Inv(s) && WfTxn(rec.txn) && i < |s.txns| && !s.txns[i].txn.discarded
    ensures OpenOk(s.txns[i], Install(s, rec).values, Install(s, rec).log)
  {
    var d := s.txns[i].txn.dsVersion;
    forall k | k in s.txns[i].absent ensures Get(Install(s, rec).values, k, d) == NoItem {
      InstallReads(s.values, rec.txn, s.version, k, d);
    }
    OpenOkGrows(s.txns[i], s.values, Install(s, rec).values, s.log, Writes(rec.txn));
  }

  lemma InstallKeepsRecords(s: Sys, rec: TxnRec)
    requires Inv(s) && WfTxn(rec.txn) && CommittedOk(rec, s.log + [Writes(rec.txn)], |s.log|)
    ensures var s' := Install(s, rec);
            && (forall i :: 0 <= i < |s.txns| && !s.txns[i].txn.discarded ==> OpenOk(s.txns[i], s'.values, s'.log))
            && (forall i :: 0 <= i < |s'.history| ==> CommittedOk(s'.history[i], s'.log, i))
  {
    var w := Writes(rec.txn);
    forall i | 0 <= i < |s.txns| && !s.txns[i].txn.discarded
      ensures OpenOk(s.txns[i], Install(s, rec).values, Install(s, rec).log)
    {
      InstallKeepsOpen(s, rec, i);
    }
    forall i | 0 <= i < |s.history| ensures CommittedOk(s.history[i], s.log + [w], i) {
      CommittedOkGrows(s.history[i], s.log, w, i);
    }
  }

  lemma InstallKeeps(s: Sys, rec: TxnRec)
    requires Inv(s) && OpenOk(rec, s.values, s.log) && !Conflicts(rec.txn, s.values, s.version)
    ensures Inv(Install(s, rec))
  {
    var s' := Install(s, rec);
    assert WfValues(s'.values, s'.version) by {
      PublishEffect(s.values, rec.txn.ops, rec.txn.dsVersion, s.version);
    }
    assert Represents(s'.values, s'.log, s'.floor) by {
      InstallRepresents(s.values, rec.txn, s.log, s.floor);
    }
    assert CommittedOk(rec, s'.log, |s.log|) by {
      CommitIsSerial(rec, s.values, s.log, s.floor);
    }
    InstallKeepsRecords(s, rec);
    assert WfLog(s'.log) by {
      WritesSpec(rec.txn, []);
    }
  }

  lemma PurgeKeeps(s: Sys, to: nat)
    requires Inv(s) && to <= s.version
    ensures Inv(Step(s, Purge(to)))
  {
    var s' := Step(s, Purge(to));
    assert WfValues(s'.values, s'.version) by {
      CompactEffect(s.values, to);
    }
    assert Represents(s'.values, s'.log, s'.floor) by {
      PurgeRepresents(s.values, s.log, s.floor, to);
    }
    forall i | 0 <= i < |s.txns| && !s.txns[i].txn.discarded ensures OpenOk(s.txns[i], s'.values, s.log) {
      forall k | k in s.txns[i].absent ensures Get(s'.values, k, s.txns[i].txn.dsVersion) == NoItem {
        CompactKeepsReads(s.values, to, k, s.txns[i].txn.dsVersion);
      }
    }
  }

  lemma StepKeeps(s: Sys, a: Action)
    requires Inv(s)
    ensures Inv(Step(s, a))
  {
    match a
    case Begin(ro) =>
      var rec := TxnRec(Txn([], s.version, ro, false), [], {});
      assert ReplaySound(rec) by {
        forall m: Map | Agrees(rec, m) ensures Apply(m, Writes(rec.txn)) == m {
        }
      }
      assert OpenOk(rec, s.values, s.log);
    case Do(id, op) =>
      if id < |s.txns| && !s.txns[id].txn.discarded {
        DoKeeps(s.txns[id], s, op);
      }
    case Commit(id) =>
      if Commits(s, id) {
        InstallKeeps(s, s.txns[id]);
      }
    case Discard(id) =>
    case Purge(to) =>
      if to <= s.version {
        PurgeKeeps(s, to);
      }
  }

  lemma {:induction false} RunKeeps(actions: seq<Action>)
    ensures Inv(Run(actions))
  {
    if actions != [] {
      RunKeeps(actions[..|actions| - 1]);
      StepKeeps(Run(actions[..|actions| - 1]), actions[|actions| - 1]);
    }
  }
}
