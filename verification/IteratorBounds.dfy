/**
 The bounds the memory store derives from iteration options, and what its iterators find
 with them, in terms of the options and of point lookups.
 */
module IteratorBounds {
  import opened Bytes
  import opened Kv
  import opened VersionTree
  import opened Snapshots
  import opened Seeking

  function Bounds(opts: IterOptions, version: nat): Query {
    if opts.prefix.Some? then Query(version, opts.prefix, Some(PrefixEnd(opts.prefix.value)))
    else Query(version, opts.start, opts.end)
  }

  /** The memory store turns a prefix into a range, which is right if the prefix has room above it. */
  predicate PrefixFits(opts: IterOptions) {
    opts.prefix.Some? ==> opts.prefix.value == [] || HasRoom(opts.prefix.value)
  }

  /** The keys the memory store looks for: the selected ones, but none under an all-0xff prefix. */
  predicate Finds(opts: IterOptions, k: Bytes) {
    PrefixFits(opts) && Selects(opts, k)
  }

  lemma BoundsSelect(opts: IterOptions, version: nat, k: Bytes)
    ensures InRange(Bounds(opts, version), k) <==> Finds(opts, k)
  {
    if opts.prefix.Some? && opts.prefix.value != [] {
      var p := opts.prefix.value;
      LtTrichotomy(PrefixEnd(p), k);
      if HasRoom(p) {
        PrefixRange(p, k);
      }
    }
  }

  /**
   A new forward iterator at any version, also one that is not the latest, lists in strict
   order exactly the live items that lookups at that version return for the keys it looks for.
   */
  lemma StartListIsGet(values: Tree, d: nat, opts: IterOptions)
    requires Sorted(values)
    ensures Ascending(StartList(values, Bounds(opts, d), false))
    ensures forall x :: x in StartList(values, Bounds(opts, d), false) <==>
              x in values && Live(x) && x.version <= d && Finds(opts, x.key) && x == Get(values, x.key, d)
    ensures forall k :: k != [] ==>
              ((exists x :: x in StartList(values, Bounds(opts, d), false) && x.key == k) <==>
                 Finds(opts, k) && Live(Get(values, k, d)))
  {
    var q := Bounds(opts, d);
    SnapshotIsGet(values, q);
    forall k ensures InRange(q, k) <==> Finds(opts, k) {
      BoundsSelect(opts, d, k);
    }
  }

  lemma ListedIs(values: Tree, d: nat, opts: IterOptions, x: Item)
    requires Sorted(values)
    ensures x in StartList(values, Bounds(opts, d), false) <==> Finds(opts, x.key) && Live(x) && x == Get(values, x.key, d)
  {
    StartListIsGet(values, d, opts);
    GetIsNewest(values, x.key, d);
  }

  lemma ListedKey(values: Tree, d: nat, opts: IterOptions, k: Bytes)
    requires Sorted(values) && k != []
    ensures (exists x :: x in StartList(values, Bounds(opts, d), false) && x.key == k) <==> Finds(opts, k) && Live(Get(values, k, d))
    ensures forall x :: x in StartList(values, Bounds(opts, d), false) && x.key == k ==> x == Get(values, k, d)
  {
    StartListIsGet(values, d, opts);
  }

  /** The end is an empty string, which bounds no iteration but does stop a reverse seek. */
  predicate EmptyEnd(opts: IterOptions) {
    if opts.prefix.Some? then opts.prefix.value == [] else opts.end == Some([])
  }

  /**
   A forward seek for a key below a start that is live and looked for passes over that start:
   its item is older than the sought key's, or, if that is not live, than the snapshot.
   */
  predicate PassesStart(values: Tree, version: nat, opts: IterOptions, key: Bytes) {
    var start := if opts.prefix.Some? then opts.prefix.value else Contents(opts.start);
    var first, sought := Get(values, start, version), Get(values, key, version);
    && Lt(key, start) && Finds(opts, start) && Live(first)
    && first.version < if Live(sought) then sought.version else version
  }

  lemma OvershootsIs(values: Tree, version: nat, opts: IterOptions, key: Bytes)
    ensures Overshoots(values, Bounds(opts, version), key) <==> PassesStart(values, version, opts, key)
  {
    var start := if opts.prefix.Some? then opts.prefix.value else Contents(opts.start);
    BoundsSelect(opts, version, start);
    LtTrichotomy(start, start);
  }

  /**
   A reverse seek finds no stored key at or below the sought one, or does not look for it
   because the end is empty, and falls back to a selected key above it.
   */
  ghost predicate FallsBack(values: Tree, version: nat, opts: IterOptions, key: Bytes) {
    && (EmptyEnd(opts) || forall x :: x in values ==> Lt(key, x.key))
    && (exists k :: Finds(opts, k) && Live(Get(values, k, version)) && Lt(key, k))
  }
}
