/**
 The memory store's iterators meet the store contract that the wrappers rely on.
 */
module MemoryContract {
  import opened Bytes
  import opened Sequences
  import opened VersionTree
  import opened Transactions
  import opened Snapshots
  import opened Cursors
  import opened Seeking
  import opened Kv
  import opened IteratorBounds
  import opened MemoryStore
  import opened Iterators
  import opened TxnIterators
  import Runs

  function Entries(s: Tree): (r: seq<Entry>)
    ensures |r| == |s|
  {
    seq(|s|, i requires 0 <= i < |s| => Entry(s[i].key, s[i].val))
  }

  /** The items of the snapshot are the entries of the latest contents that the store looks for. */
  lemma SnapshotEntries(values: Tree, version: nat, opts: IterOptions, e: Entry)
    requires WfValues(values, version)
    ensures (exists x :: x in Snapshot(values, Bounds(opts, version)) && e == Entry(x.key, x.val)) <==>
              e.key in Runs.View(values, version) && Runs.View(values, version)[e.key] == e.val && Finds(opts, e.key)
  {
    var q := Bounds(opts, version);
    StartListIsGet(values, version, opts);
    GetIsNewest(values, e.key, version);
    if e.key in Runs.View(values, version) && Finds(opts, e.key) {
      var x :| x in Snapshot(values, q) && x.key == e.key;
      assert x == Get(values, e.key, version);
    }
  }

  lemma EntriesMembers(s: Tree, e: Entry)
    ensures e in Entries(s) <==> exists x :: x in s && e == Entry(x.key, x.val)
  {
    if x :| x in s && e == Entry(x.key, x.val) {
      var i :| 0 <= i < |s| && s[i] == x;
      assert Entries(s)[i] == e;
    }
  }

  lemma ReverseMembers<T>(s: seq<T>, x: T)
    ensures x in Reverse(s) <==> x in s
  {
    ReverseLength(s);
    if x in s {
      var i :| 0 <= i < |s| && s[i] == x;
      ReverseAt(s, |s| - 1 - i);
    }
    if x in Reverse(s) {
      var i :| 0 <= i < |s| && Reverse(s)[i] == x;
      ReverseAt(s, i);
    }
  }

  /**
   A new or reset iterator of the store yields what the contract says, forward and in
   reverse, for bounds and for prefixes with room above them.
   */
  lemma StoreIteratorMeetsContract(values: Tree, version: nat, opts: IterOptions)
    requires WfValues(values, version) && PrefixFits(opts)
    ensures Lists(Entries(StartList(values, Bounds(opts, version), opts.reverse)), Runs.View(values, version), opts)
  {
    var q := Bounds(opts, version);
    var up := Snapshot(values, q);
    var s := StartList(values, q, opts.reverse);
    SnapshotIsGet(values, q);
    ReverseMirrors(values, q);
    ReverseLength(up);
    forall i, j | 0 <= i < j < |s| ensures Prec(opts.reverse, s[i].key, s[j].key) {
      if opts.reverse {
        ReverseAt(up, i);
        ReverseAt(up, j);
      }
    }
    forall e ensures e in Entries(s) <==>
        e.key in Runs.View(values, version) && Runs.View(values, version)[e.key] == e.val && Selects(opts, e.key)
    {
      EntriesMembers(s, e);
      SnapshotEntries(values, version, opts, e);
      forall x ensures x in s <==> x in up {
        ReverseMembers(up, x);
      }
    }
  }

  // ---------------------------------------------------------------- seeking

  lemma EntriesDrop(s: Tree, i: nat)
    requires i <= |s|
    ensures Entries(s)[i..] == Entries(s[i..])
  {
  }

  /** Items below the key, and then items that are not. */
  lemma AtLeastSplit(s: Tree, key: Bytes, i: nat)
    requires i <= |s|
    requires forall j :: 0 <= j < |s| ==> (j < i <==> Lt(s[j].key, key))
    ensures AtLeast(s, key) == s[i..]
  {
    var low, high := s[..i], s[i..];
    assert s == low + high;
    AtLeastConcat(low, high, key);
    assert AtLeast(low, key) == [] by {
      FilterUniform(low, key);
    }
    assert AtLeast(high, key) == high by {
      FilterUniform(high, key);
    }
  }

  lemma AtMostSplit(s: Tree, key: Bytes, i: nat)
    requires i <= |s|
    requires forall j :: 0 <= j < |s| ==> (i <= j <==> Lt(key, s[j].key))
    ensures AtMost(s, key) == s[..i]
  {
    var low, high := s[..i], s[i..];
    assert s == low + high;
    AtMostConcat(low, high, key);
    assert AtMost(low, key) == low by {
      FilterUniform(low, key);
    }
    assert AtMost(high, key) == [] by {
      FilterUniform(high, key);
    }
  }

  /** In an ascending list, a seek leaves the part at or above the key. */
  lemma SeekRestUp(s: Tree, key: Bytes)
    requires Ascending(s)
    ensures SeekRest(Entries(s), false, key) == Entries(AtLeast(s, key))
  {
    var e := Entries(s);
    var i := SeekIndex(e, false, key);
    SeekIndexSpec(e, false, key);
    assert forall j :: 0 <= j < |s| ==> e[j].key == s[j].key;
    forall j | 0 <= j < |s| ensures j < i <==> Lt(s[j].key, key) {
      LtTotalOrder();
      assert j < i ==> Prec(false, e[j].key, key);
      assert i < j ==> Lt(s[i].key, s[j].key);
    }
    AtLeastSplit(s, key, i);
    EntriesDrop(s, i);
  }

  /** Splitting a list splits its reverse. */
  lemma ReverseDrop(s: Tree, i: nat)
    requires i <= |s|
    ensures |Reverse(s)| == |s| && Reverse(s)[i..] == Reverse(s[..|s| - i])
  {
    var low, high := s[..|s| - i], s[|s| - i..];
    assert s == low + high;
    ReverseConcat(low, high);
    ReverseLength(high);
    ReverseLength(s);
  }

  /** In its reverse, a seek leaves the part at or below the key. */
  lemma SeekRestDown(s: Tree, key: Bytes)
    requires Ascending(s)
    ensures SeekRest(Entries(Reverse(s)), true, key) == Entries(Reverse(AtMost(s, key)))
  {
    var r := Reverse(s);
    ReverseLength(s);
    var i := SeekIndex(Entries(r), true, key);
    forall j | 0 <= j < |s| ensures |s| - i <= j <==> Lt(key, s[j].key) {
      SeekDownAt(s, key, j);
    }
    AtMostSplit(s, key, |s| - i);
    ReverseDrop(s, i);
    EntriesDrop(r, i);
  }

  lemma SeekDownAt(s: Tree, key: Bytes, j: nat)
    requires Ascending(s) && j < |s|
    ensures |s| - SeekIndex(Entries(Reverse(s)), true, key) <= j <==> Lt(key, s[j].key)
  {
    var e := Entries(Reverse(s));
    var i := SeekIndex(e, true, key);
    SeekIndexSpec(e, true, key);
    ReverseAt(s, |s| - 1 - j);
    assert e[|s| - 1 - j].key == s[j].key;
    LtTotalOrder();
    if i < |s| {
      ReverseAt(s, i);
      assert e[i].key == s[|s| - 1 - i].key;
    }
  }

  /** Items of one snapshot are told apart by their entries. */
  lemma EntriesInjective(t: Tree, q: Query, a: Tree, b: Tree)
    requires Sorted(t) && Entries(a) == Entries(b)
    requires forall x :: x in a || x in b ==> x in Snapshot(t, q)
    ensures a == b
  {
    SnapshotIsGet(t, q);
    assert |a| == |b|;
    forall i | 0 <= i < |a| ensures a[i] == b[i] {
      assert Entries(a)[i] == Entries(b)[i] && a[i] in a && b[i] in b;
    }
  }

  /** Everything a seek yields is in the snapshot. */
  lemma SeekListMembers(t: Tree, q: Query, reverse: bool, key: Bytes)
    requires Sorted(t)
    ensures forall x :: x in SeekList(t, q, reverse, key) ==> x in Snapshot(t, q)
  {
    PickMembers(t, q, 0, |t|);
    if t != [] {
      if reverse {
        var l := LandDown(t, q, key);
        var e := if t[l].version > q.version then GroupStart(t, l) else GroupEnd(t, l);
        PickMembers(t, q, 0, e);
        forall x | x in Reverse(Pick(t, q, 0, e)) ensures x in Snapshot(t, q) {
          ReverseMembers(Pick(t, q, 0, e), x);
        }
      } else {
        PickMembers(t, q, SeekPos(t, q, false, key), |t|);
      }
    }
  }

  /** The part of the snapshot that a seek should leave. */
  function Wanted(t: Tree, q: Query, reverse: bool, key: Bytes): Tree {
    if reverse then Reverse(AtMost(Snapshot(t, q), key)) else AtLeast(Snapshot(t, q), key)
  }

  lemma {:induction false} FilterMembers(s: Tree, k: Bytes)
    ensures forall x :: x in AtLeast(s, k) || x in AtMost(s, k) ==> x in s
  {
    if s != [] {
      FilterMembers(s[..|s| - 1], k);
      assert s == s[..|s| - 1] + [s[|s| - 1]];
    }
  }

  lemma WantedMembers(t: Tree, q: Query, reverse: bool, key: Bytes)
    ensures forall x :: x in Wanted(t, q, reverse, key) ==> x in Snapshot(t, q)
  {
    FilterMembers(Snapshot(t, q), key);
    forall x | x in Wanted(t, q, reverse, key) ensures x in Snapshot(t, q) {
      ReverseMembers(AtMost(Snapshot(t, q), key), x);
    }
  }

  /** With a current snapshot, falling back is all that can go wrong in reverse. */
  lemma CurrentMisses(values: Tree, version: nat, opts: IterOptions, key: Bytes)
    requires WfValues(values, version) && PrefixFits(opts)
    ensures Misses(values, Bounds(opts, version), key) <==> FallsBack(values, version, opts, key)
  {
    var q := Bounds(opts, version);
    var k := if q.end.Some? && Lt(q.end.value, key) then q.end.value else key;
    SomeAbove(values, version, opts, key);
    MissesIfAllAbove(values, q, key, k);
    if i :| 0 <= i < |values| && Selected(values, q, i) && Lt(key, values[i].key) {
      TargetAbove(values, version, opts, key, i);
    }
  }

  /** If something selected is above the key, the target is the key, or the end is empty. */
  lemma TargetAbove(values: Tree, version: nat, opts: IterOptions, key: Bytes, i: nat)
    requires WfValues(values, version) && i < |values|
    requires Selected(values, Bounds(opts, version), i) && Lt(key, values[i].key)
    ensures var end := Bounds(opts, version).end;
            var k := if end.Some? && Lt(end.value, key) then end.value else key;
            (forall x :: x in values ==> Lt(k, x.key)) <==> (EmptyEnd(opts) || forall x :: x in values ==> Lt(key, x.key))
  {
    var end := Bounds(opts, version).end;
    if end.Some? {
      LtTrichotomy(end.value, values[i].key);
      if Lt(end.value, key) {
        LtTransitive(end.value, key, values[i].key);
      }
      PrefixEndEmpty(Contents(opts.prefix));
    }
    if EmptyEnd(opts) {
      assert end == Some([]);
      assert forall x :: x in values ==> Lt([], x.key);
    }
  }

  lemma PrefixEndEmpty(p: Bytes)
    ensures PrefixEnd(p) == [] <==> p == []
  {
  }

  /** Some selected item is above the key, in terms of lookups. */
  lemma SomeAbove(values: Tree, version: nat, opts: IterOptions, key: Bytes)
    requires WfValues(values, version)
    ensures (exists i :: 0 <= i < |values| && Selected(values, Bounds(opts, version), i) && Lt(key, values[i].key)) <==>
              exists k :: Finds(opts, k) && Live(Get(values, k, version)) && Lt(key, k)
  {
    var q := Bounds(opts, version);
    PickMembers(values, q, 0, |values|);
    StartListIsGet(values, version, opts);
    if i :| 0 <= i < |values| && Selected(values, q, i) && Lt(key, values[i].key) {
      assert values[i] in StartList(values, q, false);
      assert Live(Get(values, values[i].key, version));
    }
    if k :| Finds(opts, k) && Live(Get(values, k, version)) && Lt(key, k) {
      GetIsNewest(values, k, version);
      var x :| x in StartList(values, q, false) && x.key == k;
    }
  }

  /** Every stored key is above `k`, in terms of the cursor. */
  lemma AllAbove(values: Tree, k: Bytes, version: nat)
    requires WfValues(values, version)
    ensures (forall x :: x in values ==> Lt(k, x.key)) <==> !Stored(values, k) && CountBelow(values, k) == 0
    ensures !Stored(values, [])
  {
    CountUpToSpec(values, k);
    LtTotalOrder();
    assert CountUpTo(values, k) == 0 <==> !Stored(values, k) && CountBelow(values, k) == 0;
    if values != [] {
      assert values[0] in values;
      assert CountUpTo(values, k) > 0 ==> !Lt(k, values[0].key);
    }
    forall i | 0 <= i < |values| ensures values[i].key != [] {
      assert values[i] in values;
    }
  }

  lemma MissesIfAllAbove(values: Tree, q: Query, key: Bytes, k: Bytes)
    requires WfValues(values, q.version) && k == if q.end.Some? && Lt(q.end.value, key) then q.end.value else key
    ensures Misses(values, q, key) <==>
              (forall x :: x in values ==> Lt(k, x.key))
              && exists i :: 0 <= i < |values| && Selected(values, q, i) && Lt(key, values[i].key)
  {
    AllAbove(values, k, q.version);
    if values != [] {
      if CountBelow(values, k) > 0 {
        assert values[CountBelow(values, k) - 1] in values;
      }
      assert values[|values| - 1] in values;
    }
  }

  /** When a seek of the store does what the contract says. */
  ghost predicate SeekFits(values: Tree, version: nat, opts: IterOptions, key: Bytes) {
    if !PrefixFits(opts) then forall k :: Selects(opts, k) && Live(Get(values, k, version)) ==> Prec(opts.reverse, k, key)
    else if opts.reverse then !FallsBack(values, version, opts, key)
    else !PassesStart(values, version, opts, key)
  }

  /** The contract's list starts the store's iteration, if the prefix fits. */
  lemma ContractList(values: Tree, version: nat, opts: IterOptions, key: Bytes, l: seq<Entry>)
    requires WfValues(values, version) && PrefixFits(opts) && Lists(l, Runs.View(values, version), opts)
    ensures Entries(Wanted(values, Bounds(opts, version), opts.reverse, key)) == SeekRest(l, opts.reverse, key)
  {
    var q := Bounds(opts, version);
    StoreIteratorMeetsContract(values, version, opts);
    OrderedUnique(opts.reverse, l, Entries(StartList(values, q, opts.reverse)));
    SnapshotIsGet(values, q);
    if opts.reverse {
      ReverseMirrors(values, q);
      SeekRestDown(Snapshot(values, q), key);
    } else {
      SeekRestUp(Snapshot(values, q), key);
    }
  }

  /** What a seek should leave, as the contract has it, is delivered in precisely these cases. */
  ghost predicate SeekDelivers(values: Tree, version: nat, opts: IterOptions, key: Bytes, rest: seq<Entry>) {
    Sorted(values) && exists s :: Delivers(Bounds(opts, version), SeekWalk(values, Bounds(opts, version), opts.reverse, key), s) && Entries(s) == rest
  }

  /**
   `Seek` and the calls of `Next` after it do what the contract says of the live contents, if
   and only if a forward seek does not pass over the start, a reverse one does not fall back
   past the sought key, and an all-0xff prefix has nothing left to yield.
   */
  lemma StoreSeekMeetsContract(values: Tree, version: nat, opts: IterOptions, key: Bytes, l: seq<Entry>)
    requires WfValues(values, version) && Lists(l, Runs.View(values, version), opts)
    ensures SeekDelivers(values, version, opts, key, SeekRest(l, opts.reverse, key)) <==> SeekFits(values, version, opts, key)
  {
    if PrefixFits(opts) {
      ContractList(values, version, opts, key, l);
      FittingSeek(values, version, opts, key);
    } else {
      MaximalSeek(values, version, opts, key, l);
    }
  }

  lemma FittingSeek(values: Tree, version: nat, opts: IterOptions, key: Bytes)
    requires WfValues(values, version) && PrefixFits(opts)
    ensures SeekDelivers(values, version, opts, key, Entries(Wanted(values, Bounds(opts, version), opts.reverse, key))) <==>
              SeekFits(values, version, opts, key)
  {
    var q := Bounds(opts, version);
    var walk, wanted := SeekWalk(values, q, opts.reverse, key), Wanted(values, q, opts.reverse, key);
    if opts.reverse {
      ReverseSeekExact(values, q, key);
      CurrentMisses(values, version, opts, key);
    } else {
      ForwardSeekExact(values, q, key);
      OvershootsIs(values, version, opts, key);
    }
    if s :| Delivers(q, walk, s) && Entries(s) == Entries(wanted) {
      DeliversWithin(q, walk, s);
      WithinSeek(values, q, opts.reverse, key);
      SeekListMembers(values, q, opts.reverse, key);
      WantedMembers(values, q, opts.reverse, key);
      EntriesInjective(values, q, s, wanted);
    }
  }

  lemma HasMember(s: Tree)
    requires s != []
    ensures exists x :: x in s
  {
    assert s[0] in s;
  }

  /** Under an all-0xff prefix nothing is delivered. */
  lemma MaximalSeek(values: Tree, version: nat, opts: IterOptions, key: Bytes, l: seq<Entry>)
    requires WfValues(values, version) && !PrefixFits(opts) && Lists(l, Runs.View(values, version), opts)
    ensures SeekDelivers(values, version, opts, key, SeekRest(l, opts.reverse, key)) <==> SeekFits(values, version, opts, key)
  {
    var q := Bounds(opts, version);
    var walk := SeekWalk(values, q, opts.reverse, key);
    StartListIsGet(values, version, opts);
    SeekListMembers(values, q, opts.reverse, key);
    WithinSeek(values, q, opts.reverse, key);
    if SeekList(values, q, opts.reverse, key) != [] {
      HasMember(SeekList(values, q, opts.reverse, key));
    }
    DeliversNone(q, walk);
    assert Entries([]) == [];
    forall s | Delivers(q, walk, s) ensures s == [] {
      DeliversWithin(q, walk, s);
    }
    RestIsEmpty(values, version, opts, key, l);
  }

  lemma RestIsEmpty(values: Tree, version: nat, opts: IterOptions, key: Bytes, l: seq<Entry>)
    requires WfValues(values, version) && Lists(l, Runs.View(values, version), opts)
    ensures SeekRest(l, opts.reverse, key) == [] <==>
              forall k :: Selects(opts, k) && Live(Get(values, k, version)) ==> Prec(opts.reverse, k, key)
  {
    var i, m := SeekIndex(l, opts.reverse, key), Runs.View(values, version);
    SeekIndexSpec(l, opts.reverse, key);
    forall k ensures k in m <==> Live(Get(values, k, version)) {
      GetIsNewest(values, k, version);
    }
    if i == |l| {
      forall k | Selects(opts, k) && Live(Get(values, k, version)) ensures Prec(opts.reverse, k, key) {
        assert Entry(k, m[k]) in l;
      }
    } else {
      assert l[i] in l;
    }
  }

  /**
   The store's own iterator: sought and then advanced until it returns false, it collects
   what the contract says of the store's live contents, whenever the seek fits.
   */
  method SeekStore(d: Datastore, opts: IterOptions, key: Bytes) returns (items: Tree)
    requires d.Valid() && !d.closed
    ensures forall l :: Lists(l, Runs.View(d.values, d.version), opts) && SeekFits(d.values, d.version, opts, key) ==>
              Entries(items) == SeekRest(l, opts.reverse, key)
  {
    var it, err := StoreIterator(d, opts);
    items := SeekAndDrain(it, key);
    forall l | Lists(l, Runs.View(d.values, d.version), opts) && SeekFits(d.values, d.version, opts, key)
      ensures Entries(items) == SeekRest(l, opts.reverse, key)
    {
      StoreSeekMeetsContract(d.values, d.version, opts, key, l);
      var q := Bounds(opts, d.version);
      var s :| Delivers(q, SeekWalk(d.values, q, opts.reverse, key), s) && Entries(s) == SeekRest(l, opts.reverse, key);
      DeliveredPart(q, SeekWalk(d.values, q, opts.reverse, key), items, s);
    }
  }
}
