/**
 The commit history of a store: one effect per version. It says what every snapshot must
 contain, independently of the version tree, and how a transaction's operations replay on
 a plain map.
 */
module History {
  import opened Bytes
  import opened VersionTree
  import opened Transactions

  /** Element i is the effect of the commit that made version i + 1. */
  type Log = seq<Effect>

  type Map = map<Bytes, Bytes>

  ghost predicate WfLog(log: Log) {
    forall i :: 0 <= i < |log| ==> [] !in log[i]
  }

  // ---------------------------------------------------------------- snapshots

  function Apply(m: Map, w: Effect): Map {
    map k | k in m.Keys + w.Keys && (k in w ==> w[k].Some?) :: if k in w then w[k].value else m[k]
  }

  /** The plain map after the first `d` commits. */
  function DbAt(log: Log, d: nat): Map
    requires d <= |log|
  {
    if d == 0 then map[] else Apply(DbAt(log, d - 1), log[d - 1])
  }

  /** The item the last write to `k` among the first `d` commits left behind. */
  function Logged(log: Log, k: Bytes, d: nat): Item
    requires d <= |log|
  {
    if d == 0 then NoItem
    else if k in log[d - 1] then
      match log[d - 1][k]
      case Some(v) => Item(k, d, v, false, false)
      case None => Item(k, d, [], true, false)
    else Logged(log, k, d - 1)
  }

  lemma {:induction false} DbAtLogged(log: Log, k: Bytes, d: nat)
    requires d <= |log| && k != []
    ensures k in DbAt(log, d) <==> Live(Logged(log, k, d))
    ensures k in DbAt(log, d) ==> DbAt(log, d)[k] == Logged(log, k, d).val
  {
    if d > 0 {
      DbAtLogged(log, k, d - 1);
    }
  }

  lemma {:induction false} DbAtNoEmptyKey(log: Log, d: nat)
    requires d <= |log| && WfLog(log)
    ensures [] !in DbAt(log, d)
  {
    if d > 0 {
      DbAtNoEmptyKey(log, d - 1);
    }
  }

  lemma {:induction false} LoggedShape(log: Log, k: Bytes, d: nat)
    requires d <= |log| && k != []
    ensures var r := Logged(log, k, d);
            && r.version <= d && !r.isGet
            && (if r.version == 0 then r == NoItem else r.key == k)
  {
    if d > 0 {
      LoggedShape(log, k, d - 1);
    }
  }

  /** Between the last write and `d`, every snapshot holds the same item. */
  lemma {:induction false} LoggedStable(log: Log, k: Bytes, e: nat, d: nat)
    requires e <= d <= |log| && k != []
    ensures Logged(log, k, d).version <= e <==> forall i :: e <= i < d ==> k !in log[i]
    ensures Logged(log, k, d).version <= e ==> Logged(log, k, e) == Logged(log, k, d)
  {
    LoggedShape(log, k, e);
    if e < d {
      LoggedStable(log, k, e, d - 1);
      assert k !in log[d - 1] ==> Logged(log, k, d) == Logged(log, k, d - 1);
    }
  }

  /** Later commits do not change earlier snapshots. */
  lemma {:induction false} LogGrows(log: Log, w: Effect, d: nat)
    requires d <= |log|
    ensures DbAt(log + [w], d) == DbAt(log, d)
    ensures forall k :: Logged(log + [w], k, d) == Logged(log, k, d)
  {
    if d > 0 {
      LogGrows(log, w, d - 1);
    }
  }

  // ---------------------------------------------------------------- serial replay

  datatype Event = Event(op: Op, reply: Reply)

  /** A plain map's answer to an operation. */
  function SerialReply(op: Op, m: Map): Reply {
    match op
    case OpGet(k) => if k in m then Found(m[k]) else Refused(ErrNotFound)
    case OpHas(k) => Exists(k in m)
    case OpSet(_, _) => Done
    case OpDelete(_) => Done
  }

  function SerialState(op: Op, m: Map): Map {
    match op
    case OpSet(k, v) => m[k := v]
    case OpDelete(k) => m - {k}
    case _ => m
  }

  function ReplayState(trace: seq<Event>, m: Map): Map {
    if trace == [] then m
    else SerialState(trace[|trace| - 1].op, ReplayState(trace[..|trace| - 1], m))
  }

  /** Running the operations alone on `m` gives the recorded replies. */
  predicate ReplayMatches(trace: seq<Event>, m: Map) {
    trace == [] ||
    (var front, e := trace[..|trace| - 1], trace[|trace| - 1];
     ReplayMatches(front, m) && SerialReply(e.op, ReplayState(front, m)) == e.reply)
  }

  // ---------------------------------------------------------------- transaction records

  /**
   A transaction with the operations it performed, and the keys whose point reads reached
   the store and found nothing there: the code keeps no marker for those.
   */
  datatype TxnRec = TxnRec(txn: Txn, trace: seq<Event>, absent: set<Bytes>)

  function Record(rec: TxnRec, values: Tree, op: Op): TxnRec {
    if Refusal(rec.txn, op).Some? then rec
    else
      var r := Perform(rec.txn, values, op);
      var missed := !op.OpSet? && Buffered(rec.txn, op.key).key == [] && Get(values, op.key, rec.txn.dsVersion).key == [];
      TxnRec(r.0, rec.trace + [Event(op, r.1)], if missed then rec.absent + {op.key} else rec.absent)
  }

  /** `m` holds what the transaction's tracked reads saw. */
  ghost predicate MarkersAgree(t: Txn, m: Map) {
    forall x :: x in t.ops && x.isGet && x.key != [] ==>
      (x.key in m <==> !x.isDeleted) && (x.key in m ==> m[x.key] == x.val)
  }

  ghost predicate Agrees(rec: TxnRec, m: Map) {
    MarkersAgree(rec.txn, m) && forall k :: k in rec.absent ==> k !in m
  }

  /** On any map that agrees with its reads, the transaction is its own serial run. */
  ghost predicate ReplaySound(rec: TxnRec) {
    forall m: Map {:trigger Agrees(rec, m)} ::
      Agrees(rec, m) ==> ReplayMatches(rec.trace, m) && ReplayState(rec.trace, m) == Apply(m, Writes(rec.txn))
  }

  predicate Touches(ops: Tree, k: Bytes) {
    exists x :: x in ops && x.key == k
  }

  /** The first operation on `k`. */
  function FirstOn(trace: seq<Event>, k: Bytes): Option<Event> {
    if trace == [] then None
    else
      var front, e := trace[..|trace| - 1], trace[|trace| - 1];
      if FirstOn(front, k).Some? then FirstOn(front, k) else if e.op.key == k then Some(e) else None
  }

  /** A point read or delete of `k` that found nothing. */
  predicate Missed(e: Event, k: Bytes) {
    e in {Event(OpGet(k), Refused(ErrNotFound)), Event(OpHas(k), Exists(false)), Event(OpDelete(k), Done)}
  }

  /** Some operation sets or deletes `k`. */
  predicate WritesKey(trace: seq<Event>, k: Bytes) {
    exists e :: e in trace && e.op.key == k && (e.op.OpSet? || e.op.OpDelete?)
  }

  /**
   Every operation's key is in `ops`, or its first operation found nothing; set keys are
   among the writes, which all come from a set or a delete; and no key is both missed and
   marked as read.
   */
  ghost predicate TraceTracked(rec: TxnRec) {
    && (forall e :: e in rec.trace ==> e.op.key in rec.absent || Touches(rec.txn.ops, e.op.key))
    && (forall e :: e in rec.trace && e.op.OpSet? ==> e.op.key in Writes(rec.txn))
    && (forall k :: k in Writes(rec.txn) ==> WritesKey(rec.trace, k))
    && (forall k :: k in rec.absent ==> FirstOn(rec.trace, k).Some? && Missed(FirstOn(rec.trace, k).value, k))
    && (forall x :: x in rec.txn.ops && x.isGet ==> x.key !in rec.absent)
  }

  lemma ReplaySnoc(trace: seq<Event>, e: Event, m: Map)
    ensures ReplayState(trace + [e], m) == SerialState(e.op, ReplayState(trace, m))
    ensures ReplayMatches(trace + [e], m) <==> ReplayMatches(trace, m) && SerialReply(e.op, ReplayState(trace, m)) == e.reply
  {
    assert (trace + [e])[..|trace|] == trace;
  }

  /** Operations only add read markers and missed keys, so agreement carries back. */
  lemma AgreedBefore(rec: TxnRec, values: Tree, version: nat, op: Op, m: Map)
    requires WfTxn(rec.txn) && WfValues(values, version) && Refusal(rec.txn, op).None?
    requires Agrees(Record(rec, values, op), m)
    ensures Agrees(rec, m)
    ensures !op.OpSet? ==> MarkersAgree(AfterLookup(rec.txn, values, op.key), m)
  {
    var t, k, t' := rec.txn, op.key, Record(rec, values, op).txn;
    if op.OpSet? {
      BufferKeeps(t, k, op.val, false);
    } else {
      var t1 := AfterLookup(t, values, k);
      LookupKeeps(t, values, version, k);
      if op.OpDelete? && Live(Lookup(t, values, k)) {
        BufferKeeps(t1, k, [], true);
      }
      assert forall x: Item :: x.isGet && x in t1.ops ==> x in t'.ops;
    }
  }

  /** A lookup returns what the overlay of the buffered writes on an agreeing map holds. */
  lemma LookupAgrees(t: Txn, values: Tree, version: nat, k: Bytes, m: Map)
    requires WfTxn(t) && WfValues(values, version) && k != []
    requires MarkersAgree(AfterLookup(t, values, k), m)
    requires Lookup(t, values, k).key == [] ==> k !in m
    ensures var x, d := Lookup(t, values, k), Apply(m, Writes(t));
            (Live(x) <==> k in d) && (Live(x) ==> d[k] == x.val)
  {
    BufferedCases(t, k);
    WritesSpec(t, k);
    if Buffered(t, k).key == [] {
      GetIsNewest(values, k, t.dsVersion);
      LookupKeeps(t, values, version, k);
    } else {
      assert Lookup(t, values, k) == Buffered(t, k);
    }
  }

  /** Performing an operation keeps the correspondence with serial replay. */
  lemma RecordKeepsReplay(rec: TxnRec, values: Tree, version: nat, op: Op)
    requires WfTxn(rec.txn) && WfValues(values, version) && ReplaySound(rec)
    ensures WfTxn(Record(rec, values, op).txn) && ReplaySound(Record(rec, values, op))
  {
    var rec', t, k := Record(rec, values, op), rec.txn, op.key;
    if Refusal(t, op).None? {
      PerformWrites(t, values, version, op);
      forall m: Map | Agrees(rec', m)
        ensures ReplayMatches(rec'.trace, m) && ReplayState(rec'.trace, m) == Apply(m, Writes(rec'.txn))
      {
        AgreedBefore(rec, values, version, op, m);
        if !op.OpSet? {
          LookupAgrees(t, values, version, k, m);
        }
        ReplaySnoc(rec.trace, Event(op, Perform(t, values, op).1), m);
        ReplayStep(m, Writes(t), op, Writes(rec'.txn));
      }
    }
  }

  /** The overlay of an operation's effect is the operation on the overlay. */
  lemma ReplayStep(m: Map, w: Effect, op: Op, w': Effect)
    requires op.OpSet? ==> w' == w[op.key := Some(op.val)]
    requires op.OpDelete? ==> w' == w[op.key := None] || (w' == w && op.key !in Apply(m, w))
    requires op.OpGet? || op.OpHas? ==> w' == w
    ensures SerialState(op, Apply(m, w)) == Apply(m, w')
  {
  }

  lemma FirstOnSnoc(trace: seq<Event>, e: Event, k: Bytes)
    ensures FirstOn(trace + [e], k) ==
            if FirstOn(trace, k).Some? then FirstOn(trace, k) else if e.op.key == k then Some(e) else None
  {
    assert (trace + [e])[..|trace|] == trace;
  }

  lemma {:induction false} FirstOnExists(trace: seq<Event>, k: Bytes)
    ensures FirstOn(trace, k).Some? <==> exists e :: e in trace && e.op.key == k
    ensures FirstOn(trace, k).Some? ==> FirstOn(trace, k).value in trace
  {
    if trace != [] {
      FirstOnExists(trace[..|trace| - 1], k);
      assert trace == trace[..|trace| - 1] + [trace[|trace| - 1]];
    }
  }

  /** A key that is missed for the first time was not used before. */
  lemma NewlyMissed(rec: TxnRec, k: Bytes)
    requires WfTxn(rec.txn) && TraceTracked(rec) && k != [] && Buffered(rec.txn, k).key == [] && k !in rec.absent
    ensures FirstOn(rec.trace, k).None?
  {
    BufferedCases(rec.txn, k);
    FirstOnExists(rec.trace, k);
  }

  lemma RecordKeepsMisses(rec: TxnRec, values: Tree, version: nat, op: Op, q: Bytes)
    requires WfTxn(rec.txn) && WfValues(values, version) && TraceTracked(rec)
    requires q in Record(rec, values, op).absent
    ensures var f := FirstOn(Record(rec, values, op).trace, q); f.Some? && Missed(f.value, q)
  {
    if Refusal(rec.txn, op).None? {
      FirstOnSnoc(rec.trace, Event(op, Perform(rec.txn, values, op).1), q);
      if q !in rec.absent {
        NewlyMissed(rec, q);
      }
    }
  }

  lemma RecordKeepsMarkers(rec: TxnRec, values: Tree, version: nat, op: Op, x: Item)
    requires WfTxn(rec.txn) && WfValues(values, version) && TraceTracked(rec) && [] !in rec.absent
    requires forall k :: k in rec.absent ==> Get(values, k, rec.txn.dsVersion) == NoItem
    requires x in Record(rec, values, op).txn.ops && x.isGet
    ensures x.key !in Record(rec, values, op).absent
  {
    if Refusal(rec.txn, op).None? {
      MarkersAfter(rec.txn, values, version, op, x);
      GetIsNewest(values, op.key, rec.txn.dsVersion);
      BufferedCases(rec.txn, op.key);
    }
  }

  lemma RecordKeepsTracked(rec: TxnRec, values: Tree, version: nat, op: Op)
    requires WfTxn(rec.txn) && WfValues(values, version) && TraceTracked(rec) && [] !in rec.absent
    requires forall k :: k in rec.absent ==> Get(values, k, rec.txn.dsVersion) == NoItem
    ensures TraceTracked(Record(rec, values, op)) && [] !in Record(rec, values, op).absent
  {
    var rec', t, k := Record(rec, values, op), rec.txn, op.key;
    forall q | q in rec'.absent ensures FirstOn(rec'.trace, q).Some? && Missed(FirstOn(rec'.trace, q).value, q) {
      RecordKeepsMisses(rec, values, version, op, q);
    }
    forall x | x in rec'.txn.ops && x.isGet ensures x.key !in rec'.absent {
      RecordKeepsMarkers(rec, values, version, op, x);
    }
    if Refusal(t, op).None? {
      RecordKeepsKeys(t, values, version, op);
      RecordKeepsWrites(rec, values, version, op);
      PerformWrites(t, values, version, op);
      assert k in rec'.absent || Touches(rec'.txn.ops, k) by {
        BufferedCases(t, k);
        GetIsNewest(values, k, t.dsVersion);
      }
      assert forall e :: e in rec'.trace <==> e in rec.trace || e == Event(op, Perform(t, values, op).1);
    }
  }

  lemma RecordKeepsWrites(rec: TxnRec, values: Tree, version: nat, op: Op)
    requires WfTxn(rec.txn) && WfValues(values, version) && TraceTracked(rec) && Refusal(rec.txn, op).None?
    ensures var rec' := Record(rec, values, op); forall q :: q in Writes(rec'.txn) ==> WritesKey(rec'.trace, q)
  {
    var rec', e := Record(rec, values, op), Event(op, Perform(rec.txn, values, op).1);
    PerformWrites(rec.txn, values, version, op);
    forall q | q in Writes(rec'.txn) ensures WritesKey(rec'.trace, q) {
      WritesKeySnoc(rec.trace, e, q);
    }
  }

  lemma WritesKeySnoc(trace: seq<Event>, e: Event, k: Bytes)
    ensures WritesKey(trace + [e], k) <==> WritesKey(trace, k) || (e.op.key == k && (e.op.OpSet? || e.op.OpDelete?))
  {
    var s := trace + [e];
    if WritesKey(trace, k) {
      var f :| f in trace && f.op.key == k && (f.op.OpSet? || f.op.OpDelete?);
      assert f in s;
    }
    assert s[|trace|] == e;
  }

  /** The read markers after an operation: the old ones, and the item just read. */
  lemma MarkersAfter(t: Txn, values: Tree, version: nat, op: Op, x: Item)
    requires WfTxn(t) && WfValues(values, version) && Refusal(t, op).None?
    requires x in Perform(t, values, op).0.ops && x.isGet
    ensures x in t.ops || (!op.OpSet? && Buffered(t, op.key).key == [] && x == Get(values, op.key, t.dsVersion).(isGet := true))
  {
    var k := op.key;
    if op.OpSet? {
      BufferKeeps(t, k, op.val, false);
    } else {
      LookupKeeps(t, values, version, k);
      SetItemEffect(t.ops, Lookup(t, values, k));
      if op.OpDelete? && Live(Lookup(t, values, k)) {
        BufferKeeps(AfterLookup(t, values, k), k, [], true);
      }
    }
  }

  lemma RecordKeepsKeys(t: Txn, values: Tree, version: nat, op: Op)
    requires WfTxn(t) && WfValues(values, version) && Refusal(t, op).None?
    ensures forall q :: Touches(t.ops, q) ==> Touches(Perform(t, values, op).0.ops, q)
    ensures op.OpSet? || Lookup(t, values, op.key).key != [] ==> Touches(Perform(t, values, op).0.ops, op.key)
  {
    var k := op.key;
    BufferedCases(t, k);
    if op.OpSet? {
      BufferKeepsKeys(t, k, op.val, false);
    } else {
      LookupKeeps(t, values, version, k);
      GetIsNewest(values, k, t.dsVersion);
      var t1 := AfterLookup(t, values, k);
      forall q | Touches(t.ops, q) ensures Touches(t1.ops, q) {
        var x :| x in t.ops && x.key == q;
        assert x in t1.ops;
      }
      if Lookup(t, values, k).key != [] {
        assert Lookup(t, values, k) in t1.ops;
      }
      if op.OpDelete? && Live(Lookup(t, values, k)) {
        BufferKeepsKeys(t1, k, [], true);
      }
    }
  }

  lemma BufferKeepsKeys(t: Txn, key: Bytes, val: Bytes, isDeleted: bool)
    requires WfTxn(t) && !t.readOnly && key != [] && (isDeleted ==> val == [])
    ensures forall q :: Touches(t.ops, q) || q == key <==> Touches(Buffer(t, key, val, isDeleted).ops, q)
  {
    var w, t' := Item(key, t.dsVersion + 1, val, isDeleted, false), Buffer(t, key, val, isDeleted);
    BufferKeepsWf(t, key, val, isDeleted);
    assert w in t'.ops;
    forall q | Touches(t.ops, q) ensures Touches(t'.ops, q) {
      var x :| x in t.ops && x.key == q;
      assert x in t'.ops || q == key;
    }
  }

  // ---------------------------------------------------------------- missed keys that turn up

  /** The transaction deleted `k` without seeing it and then set it, so its presence makes no difference. */
  predicate Unaffected(rec: TxnRec, k: Bytes) {
    && FirstOn(rec.trace, k).Some? && FirstOn(rec.trace, k).value.op.OpDelete?
    && k in Writes(rec.txn)
  }

  /** Keys whose first operation is a delete may as well be left out of the initial map. */
  lemma {:induction false} ReplayForgets(trace: seq<Event>, m: Map, gone: set<Bytes>)
    requires forall k :: k in gone && FirstOn(trace, k).Some? ==> FirstOn(trace, k).value.op.OpDelete?
    ensures ReplayMatches(trace, m) <==> ReplayMatches(trace, m - gone)
    ensures forall k :: !(k in gone && FirstOn(trace, k).None?) ==>
              (k in ReplayState(trace, m) <==> k in ReplayState(trace, m - gone))
              && (k in ReplayState(trace, m) ==> ReplayState(trace, m)[k] == ReplayState(trace, m - gone)[k])
  {
    if trace != [] {
      var front, e := trace[..|trace| - 1], trace[|trace| - 1];
      ReplayForgets(front, m, gone);
      assert FirstOn(trace, e.op.key).Some?;
      assert forall k :: k != e.op.key ==> FirstOn(trace, k) == FirstOn(front, k);
    }
  }

  /** Until its first operation, a key keeps its place in the map. */
  lemma {:induction false} UntouchedStays(trace: seq<Event>, k: Bytes, m: Map)
    requires FirstOn(trace, k).None?
    ensures k in ReplayState(trace, m) <==> k in m
  {
    if trace != [] {
      UntouchedStays(trace[..|trace| - 1], k, m);
    }
  }

  /** A read that missed a key present in the map does not replay. */
  lemma {:induction false} MissedCannotReplay(trace: seq<Event>, k: Bytes, m: Map)
    requires k in m && FirstOn(trace, k).Some?
    requires var e := FirstOn(trace, k).value; Missed(e, k) && !e.op.OpDelete?
    ensures !ReplayMatches(trace, m)
  {
    var front := trace[..|trace| - 1];
    if FirstOn(front, k).Some? {
      MissedCannotReplay(front, k, m);
    } else {
      UntouchedStays(front, k, m);
    }
  }

  /** A key that is deleted first and never set is gone in the end. */
  lemma {:induction false} DeletedStays(trace: seq<Event>, k: Bytes, m: Map)
    requires FirstOn(trace, k).Some? && FirstOn(trace, k).value.op.OpDelete?
    requires forall e :: e in trace && e.op.OpSet? ==> e.op.key != k
    ensures k !in ReplayState(trace, m)
  {
    var front, e := trace[..|trace| - 1], trace[|trace| - 1];
    assert trace == front + [e];
    if FirstOn(front, k).Some? {
      DeletedStays(front, k, m);
    }
  }

  ghost predicate ReplaysAs(rec: TxnRec, m: Map) {
    ReplayMatches(rec.trace, m) && ReplayState(rec.trace, m) == Apply(m, Writes(rec.txn))
  }

  lemma MissFails(rec: TxnRec, m: Map, k: Bytes)
    requires TraceTracked(rec) && k in rec.absent && k in m && !Unaffected(rec, k)
    ensures !ReplaysAs(rec, m)
  {
    if FirstOn(rec.trace, k).value.op.OpDelete? {
      DeletedStays(rec.trace, k, m);
      assert k in Apply(m, Writes(rec.txn));
    } else {
      MissedCannotReplay(rec.trace, k, m);
    }
  }

  lemma MissesHarmless(rec: TxnRec, m: Map)
    requires ReplaySound(rec) && TraceTracked(rec) && MarkersAgree(rec.txn, m)
    requires forall k :: k in rec.absent && k in m ==> Unaffected(rec, k)
    ensures ReplaysAs(rec, m)
  {
    var gone := set k | k in rec.absent && k in m;
    var m', w := m - gone, Writes(rec.txn);
    assert ReplayMatches(rec.trace, m') && ReplayState(rec.trace, m') == Apply(m', w) by {
      assert Agrees(rec, m');
    }
    assert ReplayMatches(rec.trace, m) && ReplayState(rec.trace, m) == ReplayState(rec.trace, m') by {
      ReplayForgetsAll(rec, m, gone);
    }
    assert Apply(m, w) == Apply(m', w) by {
      assert forall k :: k in gone ==> k in w;
    }
  }

  lemma ReplayForgetsAll(rec: TxnRec, m: Map, gone: set<Bytes>)
    requires forall k :: k in gone ==> Unaffected(rec, k)
    ensures ReplayMatches(rec.trace, m) <==> ReplayMatches(rec.trace, m - gone)
    ensures ReplayState(rec.trace, m) == ReplayState(rec.trace, m - gone)
  {
    ReplayForgets(rec.trace, m, gone);
    var all, part := ReplayState(rec.trace, m), ReplayState(rec.trace, m - gone);
    assert forall k :: (k in all <==> k in part) && (k in all ==> all[k] == part[k]);
  }

  /**
   A transaction whose markers agree with `m` replays on it, with its own effect, if and only
   if every key it missed is absent from `m`, or was deleted unseen and then set.
   */
  lemma ReplayExact(rec: TxnRec, m: Map)
    requires ReplaySound(rec) && TraceTracked(rec) && MarkersAgree(rec.txn, m)
    ensures ReplaysAs(rec, m) <==> forall k :: k in rec.absent && k in m ==> Unaffected(rec, k)
  {
    if k :| k in rec.absent && k in m && !Unaffected(rec, k) {
      MissFails(rec, m, k);
    } else {
      MissesHarmless(rec, m);
    }
  }

  // ---------------------------------------------------------------- single replies

  /** Running the operations alone on `m`, the j-th one gets its recorded reply. */
  predicate Replays(trace: seq<Event>, m: Map, j: nat)
    requires j < |trace|
  {
    SerialReply(trace[j].op, ReplayState(trace[..j], m)) == trace[j].reply
  }

  /** The j-th operation is a read that reported a key of `m` missing, which no operation before it had written. */
  predicate Spoiled(trace: seq<Event>, m: Map, j: nat)
    requires j < |trace|
  {
    var k := trace[j].op.key;
    && trace[j] in {Event(OpGet(k), Refused(ErrNotFound)), Event(OpHas(k), Exists(false))}
    && k in m && !WritesKey(trace[..j], k)
  }

  lemma {:induction false} MatchesAt(trace: seq<Event>, m: Map, j: nat)
    requires ReplayMatches(trace, m) && j < |trace|
    ensures Replays(trace, m, j)
  {
    if j < |trace| - 1 {
      var front := trace[..|trace| - 1];
      MatchesAt(front, m, j);
      assert front[..j] == trace[..j];
    }
  }

  predicate SameAt(m: Map, m': Map, k: Bytes) {
    (k in m <==> k in m') && (k in m ==> m[k] == m'[k])
  }

  /** What a run leaves at `k` depends on the initial map only at `k`, and not at all once `k` was written. */
  lemma {:induction false} KeyReplay(trace: seq<Event>, m: Map, m': Map, k: Bytes)
    ensures SameAt(m, m', k) || WritesKey(trace, k) ==> SameAt(ReplayState(trace, m), ReplayState(trace, m'), k)
    ensures !WritesKey(trace, k) ==> SameAt(ReplayState(trace, m), m, k)
  {
    if trace != [] {
      var front, e := trace[..|trace| - 1], trace[|trace| - 1];
      assert trace == front + [e];
      WritesKeySnoc(front, e, k);
      KeyReplay(front, m, m', k);
    }
  }

  /** On a map that the markers agree with, every reply replays except those of reads that missed a key of it. */
  lemma ReplyExact(rec: TxnRec, m: Map, j: nat)
    requires ReplaySound(rec) && TraceTracked(rec) && MarkersAgree(rec.txn, m) && j < |rec.trace|
    ensures Replays(rec.trace, m, j) <==> !Spoiled(rec.trace, m, j)
    ensures Spoiled(rec.trace, m, j) ==> rec.trace[j].op.key in rec.absent
  {
    var m', k := m - rec.absent, rec.trace[j].op.key;
    assert Replays(rec.trace, m', j) by {
      assert Agrees(rec, m');
      MatchesAt(rec.trace, m', j);
    }
    KeyReplay(rec.trace[..j], m, m', k);
    KeyReplay(rec.trace[..j], m', m', k);
  }
}
