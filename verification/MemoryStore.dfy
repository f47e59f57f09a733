/**
 `Datastore` and `basicTxn`: the mutable objects of the memory store. Each method is proved
 to compute the function of `Transactions` that the run theorems are about.
 */
module MemoryStore {
  import opened Bytes
  import opened VersionTree
  import opened Transactions

  const BATCH := 1000

  class Datastore {
    var version: nat
    var values: Tree
    /** Start versions of the transactions in flight: the keys of the `inFlightTxn` tree. */
    var inFlight: set<nat>
    var closed: bool

    ghost predicate Valid()
      reads this
    {
      WfValues(values, version) && forall d :: d in inFlight ==> d <= version
    }

    constructor ()
      ensures Valid() && version == 0 && values == [] && inFlight == {} && !closed
    {
      version, values, inFlight, closed := 0, [], {}, false;
    }

    method Close()
      modifies this`closed
      ensures closed
    {
      closed := true;
    }

    method Get(key: Bytes) returns (r: Reply)
      ensures closed ==> r == Refused(ErrDBClosed)
      ensures !closed && key == [] ==> r == Refused(ErrEmptyKey)
      ensures !closed && key != [] ==>
                var x := VersionTree.Get(values, key, version);
                r == if Live(x) then Found(x.val) else Refused(ErrNotFound)
    {
      if closed {
        return Refused(ErrDBClosed);
      }
      if key == [] {
        return Refused(ErrEmptyKey);
      }
      var result := VersionTree.Get(values, key, version);
      if result.key == [] || result.isDeleted {
        return Refused(ErrNotFound);
      }
      return Found(result.val);
    }

    method Has(key: Bytes) returns (r: Reply)
      ensures closed ==> r == Refused(ErrDBClosed)
      ensures !closed && key == [] ==> r == Refused(ErrEmptyKey)
      ensures !closed && key != [] ==> r == Exists(Live(VersionTree.Get(values, key, version)))
    {
      if closed {
        return Refused(ErrDBClosed);
      }
      if key == [] {
        return Refused(ErrEmptyKey);
      }
      var result := VersionTree.Get(values, key, version);
      return Exists(result.key != [] && !result.isDeleted);
    }

    /** Registers the start version, which another transaction may already have registered. */
    method NewTransaction(readOnly: bool) returns (t: BasicTxn)
      requires Valid()
      modifies this`inFlight
      ensures fresh(t) && t.ds == this && t.Valid()
      ensures t.Value() == Txn([], version, readOnly, false)
      ensures inFlight == old(inFlight) + {version}
    {
      t := new BasicTxn(this, version, readOnly);
      inFlight := inFlight + {version};
    }

    /** A store-level `Set`: an implicit transaction, which commits at the next version. */
    method Set(key: Bytes, value: Bytes, expired: set<nat>) returns (r: Reply)
      requires Valid()
      modifies this
      ensures Valid() && closed == old(closed)
      ensures closed ==> r == Refused(ErrDBClosed)
      ensures !closed && key == [] ==> r == Refused(ErrEmptyKey)
      ensures closed || key == [] ==> values == old(values) && version == old(version) && inFlight == old(inFlight)
      ensures !closed && key != [] ==>
                && r == Done && version == old(version) + 1
                && values == Publish(old(values), Buffer(Txn([], old(version), false, false), key, value, false).ops, version)
                && inFlight == old(inFlight) - {old(version)} - expired
    {
      if closed {
        return Refused(ErrDBClosed);
      }
      if key == [] {
        return Refused(ErrEmptyKey);
      }
      var tx := NewTransaction(false);
      r := tx.Set(key, value);
      r := tx.Commit(expired);
    }

    /** A store-level `Delete`. */
    method Delete(key: Bytes, expired: set<nat>) returns (r: Reply)
      requires Valid()
      modifies this
      ensures Valid() && closed == old(closed)
      ensures closed ==> r == Refused(ErrDBClosed)
      ensures !closed && key == [] ==> r == Refused(ErrEmptyKey)
      ensures closed || key == [] ==> values == old(values) && version == old(version) && inFlight == old(inFlight)
      ensures !closed && key != [] ==>
                && r == Done && version == old(version) + 1
                && values == Publish(old(values), Perform(Txn([], old(version), false, false), old(values), OpDelete(key)).0.ops, version)
                && inFlight == old(inFlight) - {old(version)} - expired
    {
      if closed {
        return Refused(ErrDBClosed);
      }
      if key == [] {
        return Refused(ErrEmptyKey);
      }
      var tx := NewTransaction(false);
      r := tx.Delete(key);
      r := tx.Commit(expired);
    }

    method DropAll()
      modifies this`values
      ensures values == []
    {
      values := [];
    }

    /** Publishes the writes of a transaction at the next version, or reports a conflict. */
    method Commit(t: BasicTxn) returns (r: Reply)
      requires t.ds == this && t.Valid() && !t.discarded
      modifies this`version, this`values
      ensures Valid()
      ensures r == if old(Conflicts(t.Value(), values, version)) then Refused(ErrTxnConflict) else Done
      ensures r == Done ==> version == old(version) + 1 && values == Publish(old(values), t.ops, version)
      ensures r != Done ==> version == old(version) && values == old(values)
    {
      var conflict := t.CheckForConflicts();
      if conflict {
        return Refused(ErrTxnConflict);
      }
      version := version + 1;
      StoreWrites(t.ops);
      PublishKeeps(old(values), t.ops, t.dsVersion, old(version));
      return Done;
    }

    method StoreWrites(ops: Tree)
      modifies this`values
      ensures values == Publish(old(values), ops, version)
    {
      var i := 0;
      while i < |ops|
        invariant 0 <= i <= |ops|
        invariant values == Publish(old(values), ops[..i], version)
      {
        assert ops[..i + 1][..i] == ops[..i];
        if !ops[i].isGet {
          values := SetItem(values, ops[i].(version := version));
        }
        i := i + 1;
      }
      assert ops[..|ops|] == ops;
    }

    /** Removes, in batches, every version superseded at or below the oldest start version in flight. */
    method ExecutePurge() returns (floor: nat)
      requires Valid()
      modifies this`values
      ensures Valid()
      ensures if inFlight == {} then floor == version else floor in inFlight && forall d :: d in inFlight ==> floor <= d
      ensures values == Compact(old(values), floor)
    {
      floor := version;
      if inFlight != {} {
        floor := OldestInFlight();
      }
      var more := true;
      while more
        invariant Valid()
        invariant Remnant(values, old(values), floor)
        invariant !more ==> forall a :: 0 < a < |values| ==> !Follows(values, a, floor)
        decreases more, |values|
      {
        var items := SupersededBatch(floor);
        if |items| == 0 {
          more := false;
        } else {
          DeleteAll(items, floor);
        }
      }
      CompactIsRemnant(values, old(values), floor);
    }

    method OldestInFlight() returns (m: nat)
      requires inFlight != {}
      ensures m in inFlight && forall d :: d in inFlight ==> m <= d
    {
      m :| m in inFlight;
      var rest := inFlight - {m};
      while rest != {}
        invariant m in inFlight && rest <= inFlight
        invariant forall d :: d in inFlight ==> d in rest || m <= d
        decreases rest
      {
        var d :| d in rest;
        if d < m {
          m := d;
        }
        rest := rest - {d};
      }
    }

    /** The collecting scan: up to a batch of items that their successor supersedes. */
    method SupersededBatch(floor: nat) returns (items: seq<Item>)
      requires Valid()
      ensures forall x :: x in items ==> x in values && Superseded(x, values, floor)
      ensures items == [] ==> forall a :: 0 < a < |values| ==> !Follows(values, a, floor)
      ensures |items| <= BATCH
    {
      items := [];
      if values == [] {
        return;
      }
      var item := values[0];
      ghost var last := 0;
      var i := 1;
      LtTotalOrder();
      while i < |values| && |items| < BATCH
        invariant 1 <= i <= |values|
        invariant 0 <= last < i && item == values[last]
        invariant i == 1 || values[i - 1].version <= floor ==> last == i - 1
        invariant forall x :: x in items ==> x in values && Superseded(x, values, floor)
        invariant items == [] ==> forall a :: 0 < a < i ==> !Follows(values, a, floor)
        invariant |items| <= BATCH
      {
        var x := values[i];
        if x.version <= floor {
          assert Before(item, x);
          if item.key == x.key {
            items := items + [item];
          }
          assert Before(values[i - 1], x);
          item, last := x, i;
        }
        i := i + 1;
      }
    }

    method DeleteAll(items: seq<Item>, ghost floor: nat)
      requires Valid() && items != []
      requires forall x :: x in items ==> x in values && Superseded(x, values, floor)
      modifies this`values
      ensures Valid() && |values| < |old(values)| && Remnant(values, old(values), floor)
    {
      var i := 0;
      while i < |items|
        invariant 0 <= i <= |items|
        invariant Valid() && Remnant(values, old(values), floor)
        invariant if i == 0 then values == old(values) else |values| < |old(values)|
      {
        RemoveItemEffect(values, items[i]);
        forall y | y in values && SameSlot(y, items[i]) ensures y == items[i] {
          SlotUnique(old(values), y, items[i]);
        }
        values := RemoveItem(values, items[i]);
        i := i + 1;
      }
    }
  }

  // ---------------------------------------------------------------- purge bookkeeping

  /** The item at `a` supersedes the one before it. */
  predicate Follows(t: Tree, a: nat, floor: nat)
    requires 0 < a < |t|
  {
    t[a].key == t[a - 1].key && t[a].version <= floor
  }

  /** Part of `t`, missing only superseded versions. */
  ghost predicate Remnant(r: Tree, t: Tree, floor: nat) {
    (forall x :: x in r ==> x in t) && (forall x :: x in t && x !in r ==> Superseded(x, t, floor))
  }

  lemma {:induction false} SameMembers(a: Tree, b: Tree)
    requires Sorted(a) && Sorted(b) && forall x :: x in a <==> x in b
    ensures a == b
  {
    assert a != [] ==> a[0] in b;
    assert b != [] ==> b[0] in a;
    if a != [] {
      BeforeTotalOrder();
      assert a == [a[0]] + a[1..] && b == [b[0]] + b[1..];
      forall x | x in a[1..] ensures Before(a[0], x) {
      }
      forall x | x in b[1..] ensures Before(b[0], x) {
      }
      assert a[0] == b[0];
      forall x ensures x in a[1..] <==> x in b[1..] {
        assert x in a[1..] || x in b[1..] ==> x != a[0];
        assert x in a <==> x == a[0] || x in a[1..];
        assert x in b <==> x == b[0] || x in b[1..];
      }
      SameMembers(a[1..], b[1..]);
    }
  }

  /** A remnant in which nothing follows a version it supersedes is the compacted tree. */
  lemma CompactIsRemnant(r: Tree, t: Tree, floor: nat)
    requires Sorted(r) && Sorted(t) && Remnant(r, t, floor)
    requires forall a :: 0 < a < |r| ==> !Follows(r, a, floor)
    ensures r == Compact(t, floor)
  {
    CompactEffect(t, floor);
    CompactEffect(r, floor);
    NothingFollows(r, floor);
    forall x | x in r && Superseded(x, t, floor) ensures Superseded(x, r, floor) {
      RemnantSupersedes(r, t, floor, x);
    }
    SameMembers(r, Compact(t, floor));
  }

  /** The version that supersedes all others is never missing. */
  lemma RemnantSupersedes(r: Tree, t: Tree, floor: nat, x: Item)
    requires Sorted(t) && Remnant(r, t, floor) && Superseded(x, t, floor)
    ensures Superseded(x, r, floor)
  {
    var y :| y in t && y.key == x.key && x.version < y.version <= floor;
    GetIsNewest(t, x.key, floor);
    var z := Get(t, x.key, floor);
    assert z in r;
  }

  lemma {:induction false} NothingFollows(t: Tree, floor: nat)
    requires forall a :: 0 < a < |t| ==> !Follows(t, a, floor)
    ensures Compact(t, floor) == t
  {
    if |t| >= 2 {
      assert !Follows(t, 1, floor);
      forall a | 0 < a < |t[1..]| ensures !Follows(t[1..], a, floor) {
        assert !Follows(t, a + 1, floor);
      }
      NothingFollows(t[1..], floor);
    }
  }

  // ---------------------------------------------------------------- transactions

  class BasicTxn {
    const ds: Datastore
    const dsVersion: nat
    const readOnly: bool
    var ops: Tree
    var discarded: bool

    function Value(): Txn
      reads this
    {
      Txn(ops, dsVersion, readOnly, discarded)
    }

    ghost predicate Valid()
      reads this, ds
    {
      ds.Valid() && WfTxn(Value())
    }

    constructor (ds: Datastore, dsVersion: nat, readOnly: bool)
      ensures this.ds == ds && Value() == Txn([], dsVersion, readOnly, false)
    {
      this.ds, this.dsVersion, this.readOnly, ops, discarded := ds, dsVersion, readOnly, [], false;
    }

    /** `get`: the buffered item, or the item at the snapshot, which is then buffered as read. */
    method Lookup(key: Bytes) returns (result: Item)
      modifies this`ops
      ensures result == Transactions.Lookup(old(Value()), ds.values, key)
      ensures Value() == AfterLookup(old(Value()), ds.values, key)
    {
      result := VersionTree.Get(ops, key, dsVersion + 1);
      if result.key == [] {
        result := VersionTree.Get(ds.values, key, dsVersion).(isGet := true);
        ops := SetItem(ops, result);
      }
    }

    method Get(key: Bytes) returns (r: Reply)
      requires Valid()
      modifies this`ops
      ensures Valid()
      ensures ds.closed ==> r == Refused(ErrDBClosed) && Value() == old(Value())
      ensures !ds.closed ==> (Value(), r) == Perform(old(Value()), ds.values, OpGet(key))
      ensures !ds.closed && discarded ==> r == Refused(ErrDiscardedTxn) && Value() == old(Value())
      ensures !ds.closed && !discarded && key == [] ==> r == Refused(ErrEmptyKey) && Value() == old(Value())
      ensures !ds.closed && !discarded && key != [] ==> r == Refused(ErrNotFound) || r.Found?
    {
      if ds.closed {
        return Refused(ErrDBClosed);
      }
      if discarded {
        return Refused(ErrDiscardedTxn);
      }
      if key == [] {
        return Refused(ErrEmptyKey);
      }
      PerformWrites(Value(), ds.values, ds.version, OpGet(key));
      var result := Lookup(key);
      if result.key == [] || result.isDeleted {
        return Refused(ErrNotFound);
      }
      return Found(result.val);
    }

    method Has(key: Bytes) returns (r: Reply)
      requires Valid()
      modifies this`ops
      ensures Valid()
      ensures ds.closed ==> r == Refused(ErrDBClosed) && Value() == old(Value())
      ensures !ds.closed ==> (Value(), r) == Perform(old(Value()), ds.values, OpHas(key))
      ensures !ds.closed && discarded ==> r == Refused(ErrDiscardedTxn) && Value() == old(Value())
      ensures !ds.closed && !discarded && key == [] ==> r == Refused(ErrEmptyKey) && Value() == old(Value())
      ensures !ds.closed && !discarded && key != [] ==> r.Exists?
    {
      if ds.closed {
        return Refused(ErrDBClosed);
      }
      if discarded {
        return Refused(ErrDiscardedTxn);
      }
      if key == [] {
        return Refused(ErrEmptyKey);
      }
      PerformWrites(Value(), ds.values, ds.version, OpHas(key));
      var result := Lookup(key);
      return Exists(!(result.key == [] || result.isDeleted));
    }

    method Set(key: Bytes, value: Bytes) returns (r: Reply)
      requires Valid()
      modifies this`ops
      ensures Valid()
      ensures ds.closed ==> r == Refused(ErrDBClosed) && Value() == old(Value())
      ensures !ds.closed ==> (Value(), r) == Perform(old(Value()), ds.values, OpSet(key, value))
      ensures !ds.closed && discarded ==> r == Refused(ErrDiscardedTxn) && Value() == old(Value())
      ensures !ds.closed && !discarded && readOnly ==> r == Refused(ErrReadOnlyTxn) && Value() == old(Value())
      ensures !ds.closed && !discarded && !readOnly ==> r == if key == [] then Refused(ErrEmptyKey) else Done
    {
      if ds.closed {
        return Refused(ErrDBClosed);
      }
      if discarded {
        return Refused(ErrDiscardedTxn);
      }
      if readOnly {
        return Refused(ErrReadOnlyTxn);
      }
      if key == [] {
        return Refused(ErrEmptyKey);
      }
      PerformWrites(Value(), ds.values, ds.version, OpSet(key, value));
      ops := SetItem(ops, Item(key, dsVersion + 1, value, false, false));
      return Done;
    }

    method Delete(key: Bytes) returns (r: Reply)
      requires Valid()
      modifies this`ops
      ensures Valid()
      ensures ds.closed ==> r == Refused(ErrDBClosed) && Value() == old(Value())
      ensures !ds.closed ==> (Value(), r) == Perform(old(Value()), ds.values, OpDelete(key))
      ensures !ds.closed && discarded ==> r == Refused(ErrDiscardedTxn) && Value() == old(Value())
      ensures !ds.closed && !discarded && readOnly ==> r == Refused(ErrReadOnlyTxn) && Value() == old(Value())
      ensures !ds.closed && !discarded && !readOnly ==> r == if key == [] then Refused(ErrEmptyKey) else Done
    {
      if ds.closed {
        return Refused(ErrDBClosed);
      }
      if discarded {
        return Refused(ErrDiscardedTxn);
      }
      if readOnly {
        return Refused(ErrReadOnlyTxn);
      }
      if key == [] {
        return Refused(ErrEmptyKey);
      }
      ghost var t := Value();
      PerformWrites(t, ds.values, ds.version, OpDelete(key));
      var item := Lookup(key);
      if item.key == [] || item.isDeleted {
        assert Value() == Perform(t, ds.values, OpDelete(key)).0;
        return Done;
      }
      ops := SetItem(ops, Item(key, dsVersion + 1, [], true, false));
      assert Value() == Buffer(AfterLookup(t, ds.values, key), key, [], true);
      return Done;
    }

    /** Drops the in-flight entry of this start version, and those whose time is up. */
    method Discard(expired: set<nat>)
      requires ds.Valid()
      modifies this, ds`inFlight
      ensures discarded && ds.Valid() && (old(discarded) || ops == [])
      ensures old(discarded) ==> ops == old(ops) && ds.inFlight == old(ds.inFlight)
      ensures !old(discarded) ==> ds.inFlight == old(ds.inFlight) - {dsVersion} - expired
    {
      if discarded {
        return;
      }
      ops := [];
      ds.inFlight := ds.inFlight - {dsVersion} - expired;
      discarded := true;
    }

    method Commit(expired: set<nat>) returns (r: Reply)
      requires Valid()
      modifies this, ds`version, ds`values, ds`inFlight
      ensures ds.Valid()
      ensures ds.closed ==> r == Refused(ErrDBClosed)
      ensures !ds.closed && old(discarded) ==> r == Refused(ErrDiscardedTxn)
      ensures ds.closed || old(discarded) ==>
                Value() == old(Value()) && ds.version == old(ds.version) && ds.values == old(ds.values) && ds.inFlight == old(ds.inFlight)
      ensures !ds.closed && !old(discarded) ==>
                && Value() == Txn([], dsVersion, readOnly, true)
                && ds.inFlight == old(ds.inFlight) - {dsVersion} - expired
                && (if readOnly then r == Done && ds.version == old(ds.version) && ds.values == old(ds.values)
                    else if old(Conflicts(Value(), ds.values, ds.version))
                    then r == Refused(ErrTxnConflict) && ds.version == old(ds.version) && ds.values == old(ds.values)
                    else r == Done && ds.version == old(ds.version) + 1 && ds.values == Publish(old(ds.values), old(ops), ds.version))
    {
      if ds.closed {
        return Refused(ErrDBClosed);
      }
      if discarded {
        return Refused(ErrDiscardedTxn);
      }
      r := Done;
      if !readOnly {
        r := ds.Commit(this);
      }
      Discard(expired);
    }

    method CheckForConflicts() returns (conflict: bool)
      ensures conflict <==> Conflicts(Value(), ds.values, ds.version)
    {
      if dsVersion == ds.version {
        return false;
      }
      var i := 0;
      while i < |ops|
        invariant 0 <= i <= |ops|
        invariant forall j :: 0 <= j < i ==>
                    VersionTree.Get(ds.values, ops[j].key, ds.version).version == VersionTree.Get(ds.values, ops[j].key, dsVersion).version
      {
        var expected := VersionTree.Get(ds.values, ops[i].key, dsVersion);
        var latest := VersionTree.Get(ds.values, ops[i].key, ds.version);
        if latest.version != expected.version {
          return true;
        }
        i := i + 1;
      }
      return false;
    }
  }
}
