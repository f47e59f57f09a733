/**
 What the operations of a transaction do to its buffer `ops`, and what `commit` and
 `executePurge` do to the version tree, as functions on values. The classes in
 `MemoryStore` are proved to compute these; `Runs` reasons about them.
 */
module Transactions {
  import opened Bytes
  import opened VersionTree

  datatype Error = ErrNotFound | ErrEmptyKey | ErrDiscardedTxn | ErrDBClosed | ErrTxnConflict | ErrReadOnlyTxn

  /** A `basicTxn`, as a value. */
  datatype Txn = Txn(ops: Tree, dsVersion: nat, readOnly: bool, discarded: bool)

  /** The point operations of a transaction. */
  datatype Op = OpGet(key: Bytes) | OpHas(key: Bytes) | OpSet(key: Bytes, val: Bytes) | OpDelete(key: Bytes)

  datatype Reply = Found(val: Bytes) | Exists(present: bool) | Done | Refused(error: Error)

  // ---------------------------------------------------------------- point operations

  /** The item buffered for `key`: its write if there is one, else its read marker. */
  function Buffered(t: Txn, key: Bytes): Item {
    Get(t.ops, key, t.dsVersion + 1)
  }

  /** `basicTxn.get`, result. */
  function Lookup(t: Txn, values: Tree, key: Bytes): Item {
    if Buffered(t, key).key != [] then Buffered(t, key)
    else Get(values, key, t.dsVersion).(isGet := true)
  }

  /** `basicTxn.get`, effect: a read that reaches the store leaves its result in `ops`. */
  function AfterLookup(t: Txn, values: Tree, key: Bytes): Txn {
    if Buffered(t, key).key != [] then t
    else t.(ops := SetItem(t.ops, Lookup(t, values, key)))
  }

  function Buffer(t: Txn, key: Bytes, val: Bytes, isDeleted: bool): Txn {
    t.(ops := SetItem(t.ops, Item(key, t.dsVersion + 1, val, isDeleted, false)))
  }

  function Refusal(t: Txn, op: Op): Option<Error> {
    if t.discarded then Some(ErrDiscardedTxn)
    else if (op.OpSet? || op.OpDelete?) && t.readOnly then Some(ErrReadOnlyTxn)
    else if op.key == [] then Some(ErrEmptyKey)
    else None
  }

  /** `Get`, `Has`, `Set` and `Delete` of an open store's transaction. */
  function Perform(t: Txn, values: Tree, op: Op): (Txn, Reply) {
    if Refusal(t, op).Some? then (t, Refused(Refusal(t, op).value))
    else match op
      case OpSet(k, v) => (Buffer(t, k, v, false), Done)
      case OpGet(k) =>
        var x := Lookup(t, values, k);
        (AfterLookup(t, values, k), if Live(x) then Found(x.val) else Refused(ErrNotFound))
      case OpHas(k) =>
        (AfterLookup(t, values, k), Exists(Live(Lookup(t, values, k))))
      case OpDelete(k) =>
        var t' := AfterLookup(t, values, k);
        (if Live(Lookup(t, values, k)) then Buffer(t', k, [], true) else t', Done)
  }

  /**
   Which operations are refused, with which error, in this order: all of a closed
   transaction, writes of a read-only one, and those without a key. All others are performed.
   */
  lemma Refusals(t: Txn, values: Tree, op: Op)
    ensures var (t', r) := Perform(t, values, op);
            if t.discarded then t' == t && r == Refused(ErrDiscardedTxn)
            else if t.readOnly && (op.OpSet? || op.OpDelete?) then t' == t && r == Refused(ErrReadOnlyTxn)
            else if op.key == [] then t' == t && r == Refused(ErrEmptyKey)
            else match op
              case OpGet(k) => r == if Live(Lookup(t, values, k)) then Found(Lookup(t, values, k).val) else Refused(ErrNotFound)
              case OpHas(k) => r == Exists(Live(Lookup(t, values, k)))
              case _ => r == Done
  {
  }

  /** `checkForConflicts`: some key in `ops` has a newer version than the one at the snapshot. */
  predicate Conflicts(t: Txn, values: Tree, version: nat) {
    t.dsVersion != version
    && exists x :: x in t.ops && Get(values, x.key, version).version != Get(values, x.key, t.dsVersion).version
  }

  /** The write loop of `commit`: every buffered write is stored at the new version. */
  function Publish(values: Tree, ops: Tree, v: nat): Tree {
    if ops == [] then values
    else
      var rest, x := Publish(values, ops[..|ops| - 1], v), ops[|ops| - 1];
      if x.isGet then rest else SetItem(rest, x.(version := v))
  }

  // ---------------------------------------------------------------- effect of a transaction

  /** What a commit does to a plain map: the keys it sets (Some) and removes (None). */
  type Effect = map<Bytes, Option<Bytes>>

  function EffectOf(x: Item): Option<Bytes> {
    if x.isDeleted then None else Some(x.val)
  }

  function WrittenKeys(ops: Tree): set<Bytes> {
    set x | x in ops && !x.isGet :: x.key
  }

  function Writes(t: Txn): Effect {
    map k | k in WrittenKeys(t.ops) :: EffectOf(Buffered(t, k))
  }

  // ---------------------------------------------------------------- invariants

  ghost predicate WfValues(values: Tree, version: nat) {
    && Sorted(values)
    && (forall x :: x in values ==> 1 <= x.version <= version && x.key != [] && !x.isGet)
  }

  ghost predicate WfOp(x: Item, dsVersion: nat) {
    if x.isGet
    then x.version <= dsVersion && (x.key == [] ==> x == NoItem.(isGet := true))
    else x.version == dsVersion + 1 && x.key != [] && (x.isDeleted ==> x.val == [])
  }

  /** At most one write per key, at the version after the snapshot, and one read marker below it. */
  ghost predicate WfTxn(t: Txn) {
    && Sorted(t.ops)
    && (forall x :: x in t.ops ==> WfOp(x, t.dsVersion))
    && (forall x, y :: x in t.ops && y in t.ops && x.isGet && y.isGet && x.key == y.key ==> x == y)
    && (t.readOnly ==> forall x :: x in t.ops ==> x.isGet)
  }

  /** What `Buffered` returns, without mentioning the search. */
  lemma BufferedCases(t: Txn, key: Bytes)
    requires WfTxn(t) && key != []
    ensures var b := Buffered(t, key);
            && (b.key != [] ==> b in t.ops && b.key == key && (b.isGet <==> key !in WrittenKeys(t.ops)))
            && (b.key == [] ==> b == NoItem && forall x :: x in t.ops ==> x.key != key)
  {
    GetIsNewest(t.ops, key, t.dsVersion + 1);
    var b := Buffered(t, key);
    if b.key == [] {
      forall x | x in t.ops ensures x.key != key {
        assert WfOp(x, t.dsVersion);
      }
    } else {
      assert WfOp(b, t.dsVersion);
      if !b.isGet {
        assert b.key in WrittenKeys(t.ops);
      }
      forall x | x in t.ops && !x.isGet && x.key == key ensures !b.isGet {
        assert WfOp(x, t.dsVersion);
      }
    }
  }

  lemma WriteIsBuffered(t: Txn, x: Item)
    requires WfTxn(t) && x in t.ops && !x.isGet
    ensures Buffered(t, x.key) == x
  {
    assert WfOp(x, t.dsVersion);
    GetUnique(t.ops, x.key, t.dsVersion + 1, x);
  }

  /** A key's effect is that of its one write. */
  lemma WritesSpec(t: Txn, k: Bytes)
    requires WfTxn(t)
    ensures k in Writes(t) <==> exists x :: x in t.ops && !x.isGet && x.key == k
    ensures k in Writes(t) ==> k != [] && Buffered(t, k) in t.ops && !Buffered(t, k).isGet && Buffered(t, k).key == k
    ensures forall x :: x in t.ops && !x.isGet && x.key == k ==> Buffered(t, k) == x && Writes(t)[k] == EffectOf(x)
  {
    forall x | x in t.ops && !x.isGet && x.key == k ensures k in Writes(t) && Buffered(t, k) == x && k != [] {
      WriteIsBuffered(t, x);
      assert WfOp(x, t.dsVersion);
    }
  }

  /** The effect on `k` depends only on the write to `k`. */
  lemma SameWrite(t: Txn, t': Txn, k: Bytes)
    requires WfTxn(t) && WfTxn(t')
    requires forall x: Item :: !x.isGet && x.key == k ==> (x in t.ops <==> x in t'.ops)
    ensures k in Writes(t) <==> k in Writes(t')
    ensures k in Writes(t) ==> Writes(t)[k] == Writes(t')[k]
  {
    WritesSpec(t, k);
    WritesSpec(t', k);
  }

  lemma LookupKeepsWf(t: Txn, values: Tree, version: nat, key: Bytes)
    requires WfTxn(t) && WfValues(values, version) && key != [] && Buffered(t, key).key == []
    ensures WfTxn(AfterLookup(t, values, key))
    ensures forall x :: x in AfterLookup(t, values, key).ops <==> x == Lookup(t, values, key) || x in t.ops
  {
    var m := Lookup(t, values, key);
    BufferedCases(t, key);
    GetIsNewest(values, key, t.dsVersion);
    SetItemEffect(t.ops, m);
    assert WfOp(m, t.dsVersion);
    forall x | x in t.ops && SameSlot(x, m) ensures x == m {
      assert WfOp(x, t.dsVersion);
    }
  }

  /** A first read of a key keeps the invariant and buffers no write. */
  lemma LookupKeeps(t: Txn, values: Tree, version: nat, key: Bytes)
    requires WfTxn(t) && WfValues(values, version) && key != []
    ensures WfTxn(AfterLookup(t, values, key))
    ensures Writes(AfterLookup(t, values, key)) == Writes(t)
    ensures forall x :: x in t.ops ==> x in AfterLookup(t, values, key).ops
    ensures Buffered(t, key).key == [] ==> Lookup(t, values, key) in AfterLookup(t, values, key).ops
  {
    if Buffered(t, key).key == [] {
      LookupKeepsWf(t, values, version, key);
      SameWrites(t, AfterLookup(t, values, key));
    }
  }

  lemma SameWrites(t: Txn, t': Txn)
    requires WfTxn(t) && WfTxn(t')
    requires forall x: Item :: !x.isGet ==> (x in t.ops <==> x in t'.ops)
    ensures Writes(t) == Writes(t')
  {
    forall k ensures (k in Writes(t) <==> k in Writes(t')) && (k in Writes(t) ==> Writes(t)[k] == Writes(t')[k]) {
      SameWrite(t, t', k);
    }
  }

  lemma BufferKeepsWf(t: Txn, key: Bytes, val: Bytes, isDeleted: bool)
    requires WfTxn(t) && !t.readOnly && key != [] && (isDeleted ==> val == [])
    ensures WfTxn(Buffer(t, key, val, isDeleted))
    ensures var w := Item(key, t.dsVersion + 1, val, isDeleted, false);
            forall x :: x in Buffer(t, key, val, isDeleted).ops <==>
              x == w || (x in t.ops && (x.isGet || x.key != key))
  {
    var w := Item(key, t.dsVersion + 1, val, isDeleted, false);
    SetItemEffect(t.ops, w);
    forall x | x in t.ops ensures SameSlot(x, w) <==> x.key == key && !x.isGet {
      assert WfOp(x, t.dsVersion);
    }
    assert WfOp(w, t.dsVersion);
  }

  /** One more write replaces the effect on its key and no other. */
  lemma WriteAdded(t: Txn, t': Txn, w: Item)
    requires WfTxn(t) && WfTxn(t') && !w.isGet
    requires forall x :: x in t'.ops <==> x == w || (x in t.ops && (x.isGet || x.key != w.key))
    ensures Writes(t') == Writes(t)[w.key := EffectOf(w)]
  {
    assert w in t'.ops;
    WritesSpec(t', w.key);
    forall k | k != w.key ensures (k in Writes(t) <==> k in Writes(t')) && (k in Writes(t) ==> Writes(t)[k] == Writes(t')[k]) {
      SameWrite(t, t', k);
    }
  }

  /** Buffering a write replaces the key's effect and nothing else. */
  lemma BufferKeeps(t: Txn, key: Bytes, val: Bytes, isDeleted: bool)
    requires WfTxn(t) && !t.readOnly && key != [] && (isDeleted ==> val == [])
    ensures WfTxn(Buffer(t, key, val, isDeleted))
    ensures Writes(Buffer(t, key, val, isDeleted)) == Writes(t)[key := if isDeleted then None else Some(val)]
    ensures forall x: Item :: x.isGet ==> (x in t.ops <==> x in Buffer(t, key, val, isDeleted).ops)
  {
    BufferKeepsWf(t, key, val, isDeleted);
    WriteAdded(t, Buffer(t, key, val, isDeleted), Item(key, t.dsVersion + 1, val, isDeleted, false));
  }

  /** Every operation keeps the invariant; only a set and the delete of a live key change the effect. */
  lemma PerformWrites(t: Txn, values: Tree, version: nat, op: Op)
    requires WfTxn(t) && WfValues(values, version) && Refusal(t, op).None?
    ensures WfTxn(Perform(t, values, op).0)
    ensures Writes(Perform(t, values, op).0) ==
            if op.OpSet? then Writes(t)[op.key := Some(op.val)]
            else if op.OpDelete? && Live(Lookup(t, values, op.key)) then Writes(t)[op.key := None]
            else Writes(t)
  {
    if op.OpSet? {
      BufferKeeps(t, op.key, op.val, false);
    } else {
      LookupKeeps(t, values, version, op.key);
      if op.OpDelete? {
        BufferKeeps(AfterLookup(t, values, op.key), op.key, [], true);
      }
    }
  }

  // ---------------------------------------------------------------- publishing

  /** `y` is a write of `ops` stored at version `v`. */
  ghost predicate StoredFrom(y: Item, ops: Tree, v: nat) {
    exists x :: x in ops && !x.isGet && y == x.(version := v)
  }

  lemma StoredFromLast(ops: Tree, v: nat)
    requires ops != []
    ensures var x := ops[|ops| - 1];
            forall y :: StoredFrom(y, ops, v) <==>
              StoredFrom(y, ops[..|ops| - 1], v) || (!x.isGet && y == x.(version := v))
  {
    var front, x := ops[..|ops| - 1], ops[|ops| - 1];
    assert ops == front + [x];
    forall y | StoredFrom(y, front, v) ensures StoredFrom(y, ops, v) {
      var z :| z in front && !z.isGet && y == z.(version := v);
      assert z in ops;
    }
  }

  /** Commit adds exactly the buffered writes, at the new version, and alters nothing older. */
  lemma {:induction false} PublishEffect(values: Tree, ops: Tree, dsVersion: nat, version: nat)
    requires WfValues(values, version)
    requires WfTxn(Txn(ops, dsVersion, false, false))
    ensures WfValues(Publish(values, ops, version + 1), version + 1)
    ensures forall y :: y in Publish(values, ops, version + 1) <==> y in values || StoredFrom(y, ops, version + 1)
  {
    var v := version + 1;
    if ops == [] {
    } else {
      var front, x := ops[..|ops| - 1], ops[|ops| - 1];
      PublishEffect(values, front, dsVersion, version);
      StoredFromLast(ops, v);
      assert WfOp(x, dsVersion);
      if !x.isGet {
        var p, w := Publish(values, front, v), x.(version := v);
        SetItemEffect(p, w);
        forall y | y in p && SameSlot(y, w) ensures false {
          var z :| z in front && !z.isGet && y == z.(version := v);
          assert WfOp(z, dsVersion);
          LtTotalOrder();
        }
      }
    }
  }

  lemma PublishKeeps(values: Tree, ops: Tree, dsVersion: nat, version: nat)
    requires WfValues(values, version)
    requires WfTxn(Txn(ops, dsVersion, false, false))
    ensures WfValues(Publish(values, ops, version + 1), version + 1)
  {
    PublishEffect(values, ops, dsVersion, version);
  }

  // ---------------------------------------------------------------- purge

  /** A newer version of the same key exists at or below the floor. */
  ghost predicate Superseded(x: Item, t: Tree, floor: nat) {
    exists y :: y in t && y.key == x.key && x.version < y.version <= floor
  }

  /** Drops every superseded version. */
  function Compact(t: Tree, floor: nat): Tree {
    if |t| < 2 then t
    else if t[1].key == t[0].key && t[1].version <= floor then Compact(t[1..], floor)
    else [t[0]] + Compact(t[1..], floor)
  }

  /** The newest version directly follows the one it supersedes. */
  lemma HeadSuperseded(t: Tree, floor: nat)
    requires Sorted(t) && |t| >= 2
    ensures Superseded(t[0], t, floor) <==> t[1].key == t[0].key && t[1].version <= floor
  {
    LtTotalOrder();
    assert Before(t[0], t[1]) && t[1] in t;
    if Superseded(t[0], t, floor) {
      var y :| y in t && y.key == t[0].key && t[0].version < y.version <= floor;
      var j :| 0 <= j < |t| && t[j] == y;
      assert j > 0 && (j == 1 || Before(t[1], t[j]));
    }
  }

  lemma TailSuperseded(t: Tree, floor: nat, x: Item)
    requires Sorted(t) && t != [] && x in t[1..]
    ensures Superseded(x, t, floor) <==> Superseded(x, t[1..], floor)
    ensures Before(t[0], x) && x != t[0]
  {
    LtTotalOrder();
    assert t == [t[0]] + t[1..];
    assert Before(t[0], x);
  }

  /** Purging removes exactly the superseded versions. */
  lemma {:induction false} CompactEffect(t: Tree, floor: nat)
    requires Sorted(t)
    ensures Sorted(Compact(t, floor))
    ensures forall x :: x in Compact(t, floor) <==> x in t && !Superseded(x, t, floor)
  {
    if |t| >= 2 {
      assert t == [t[0]] + t[1..];
      CompactEffect(t[1..], floor);
      HeadSuperseded(t, floor);
      forall x | x in t[1..]
        ensures Superseded(x, t, floor) <==> Superseded(x, t[1..], floor)
        ensures Before(t[0], x) && x != t[0]
      {
        TailSuperseded(t, floor, x);
      }
    }
  }

  /** Purging keeps every read at or above the floor, and leaves one version below it per key. */
  lemma CompactKeepsReads(t: Tree, floor: nat, key: Bytes, version: nat)
    requires Sorted(t)
    ensures floor <= version ==> Get(Compact(t, floor), key, version) == Get(t, key, version)
    ensures Get(Compact(t, floor), key, version) ==
            if Superseded(Get(t, key, version), t, floor) && Get(t, key, version).key == key then NoItem else Get(t, key, version)
    ensures forall x, y ::
              (x in Compact(t, floor) && y in Compact(t, floor) && x.key == y.key && x.version <= floor && y.version <= floor)
              ==> x == y
  {
    var c, g := Compact(t, floor), Get(t, key, version);
    CompactEffect(t, floor);
    GetIsNewest(t, key, version);
    if g !in t || g.key != key || g.version > version {
      GetUnique(c, key, version, NoItem);
    } else if Superseded(g, t, floor) {
      var y :| y in t && y.key == key && g.version < y.version <= floor;
      forall x | x in c && x.key == key ensures version < x.version {
        assert x.version <= version ==> Superseded(x, t, floor);
      }
      GetUnique(c, key, version, NoItem);
    } else {
      GetUnique(c, key, version, g);
    }
    forall x, y | x in c && y in c && x.key == y.key && x.version <= floor && y.version <= floor ensures x == y {
      assert !Superseded(x, t, floor) && !Superseded(y, t, floor);
      SlotUnique(c, x, y);
    }
  }
}
