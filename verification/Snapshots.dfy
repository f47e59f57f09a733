/**
 What a snapshot iterator should yield: the visible, live items of a version tree within
 bounds, in key order; and how that list splits at a cursor position.
 */
module Snapshots {
  import opened Bytes
  import opened VersionTree

  /** The snapshot version and the bounds of an iterator. An empty bound does not restrict. */
  datatype Query = Query(version: nat, start: Option<Bytes>, end: Option<Bytes>)

  predicate BelowEnd(q: Query, k: Bytes) {
    Contents(q.end) == [] || Lt(k, Contents(q.end))
  }

  predicate InRange(q: Query, k: Bytes) {
    BelowEnd(q, k) && !Lt(k, Contents(q.start))
  }

  /** Item `i` is the newest of its key at or below the snapshot version. */
  predicate Visible(t: Tree, version: nat, i: nat)
    requires i < |t|
  {
    t[i].version <= version && (i + 1 < |t| ==> t[i + 1].key != t[i].key || t[i + 1].version > version)
  }

  predicate Selected(t: Tree, q: Query, i: nat)
    requires i < |t|
  {
    Visible(t, q.version, i) && Live(t[i]) && InRange(q, t[i].key)
  }

  /** Item `i` if it is selected. */
  function Chosen(t: Tree, q: Query, i: nat): Tree
    requires i < |t|
  {
    if Selected(t, q, i) then [t[i]] else []
  }

  /** The selected items at indices from `a` up to `b`. */
  function Pick(t: Tree, q: Query, a: nat, b: nat): Tree
    requires a <= b <= |t|
    decreases b
  {
    if a == b then [] else Pick(t, q, a, b - 1) + Chosen(t, q, b - 1)
  }

  /** Everything the query selects, in key order. */
  function Snapshot(t: Tree, q: Query): Tree {
    Pick(t, q, 0, |t|)
  }

  // ---------------------------------------------------------------- lists of items

  ghost predicate Ascending(s: Tree) {
    forall i, j :: 0 <= i < j < |s| ==> Lt(s[i].key, s[j].key)
  }

  // ---------------------------------------------------------------- splitting the list

  lemma {:induction false} PickSplit(t: Tree, q: Query, a: nat, b: nat, c: nat)
    requires a <= b <= c <= |t|
    ensures Pick(t, q, a, c) == Pick(t, q, a, b) + Pick(t, q, b, c)
  {
    if b < c {
      PickSplit(t, q, a, b, c - 1);
    }
  }

  lemma {:induction false} PickNone(t: Tree, q: Query, a: nat, b: nat)
    requires a <= b <= |t| && forall i :: a <= i < b ==> !Selected(t, q, i)
    ensures Pick(t, q, a, b) == []
  {
    if a < b {
      PickNone(t, q, a, b - 1);
    }
  }

  lemma {:induction false} PickMembers(t: Tree, q: Query, a: nat, b: nat)
    requires a <= b <= |t|
    ensures forall x :: x in Pick(t, q, a, b) <==> exists i :: a <= i < b && Selected(t, q, i) && t[i] == x
  {
    if a < b {
      PickMembers(t, q, a, b - 1);
    }
  }

  // ---------------------------------------------------------------- versions of one key

  /** The first index of the run of items with the same key. */
  function GroupStart(t: Tree, i: nat): (s: nat)
    requires i < |t|
    ensures s <= i
  {
    if i > 0 && t[i - 1].key == t[i].key then GroupStart(t, i - 1) else i
  }

  /** The first index past the run of items with the same key. */
  function GroupEnd(t: Tree, i: nat): (e: nat)
    requires i < |t|
    ensures i < e <= |t|
    decreases |t| - i
  {
    if i + 1 < |t| && t[i + 1].key == t[i].key then GroupEnd(t, i + 1) else i + 1
  }

  lemma {:induction false} GroupEndSpec(t: Tree, i: nat)
    requires Sorted(t) && i < |t|
    ensures forall j :: i <= j < GroupEnd(t, i) ==> t[j].key == t[i].key
    ensures forall j :: GroupEnd(t, i) <= j < |t| ==> Lt(t[i].key, t[j].key)
    decreases |t| - i
  {
    if i + 1 < |t| && t[i + 1].key == t[i].key {
      GroupEndSpec(t, i + 1);
    } else {
      LtTotalOrder();
      forall j | i + 1 <= j < |t| ensures Lt(t[i].key, t[j].key) {
        assert Before(t[i], t[i + 1]);
        assert j == i + 1 || Before(t[i + 1], t[j]);
      }
    }
  }

  lemma {:induction false} GroupStartSpec(t: Tree, i: nat)
    requires Sorted(t) && i < |t|
    ensures forall j :: GroupStart(t, i) <= j <= i ==> t[j].key == t[i].key
    ensures forall j :: 0 <= j < GroupStart(t, i) ==> Lt(t[j].key, t[i].key)
  {
    if i > 0 && t[i - 1].key == t[i].key {
      GroupStartSpec(t, i - 1);
    } else {
      LtTotalOrder();
      forall j | 0 <= j < i ensures Lt(t[j].key, t[i].key) {
        assert Before(t[i - 1], t[i]);
        assert j == i - 1 || Before(t[j], t[i - 1]);
      }
    }
  }

  /** Where `loadLatestItem` stops: the last item of the run that the snapshot still sees. */
  function LoadPos(t: Tree, version: nat, i: nat): (l: nat)
    requires i < |t|
    ensures i <= l < |t|
    decreases |t| - i
  {
    if i + 1 < |t| && t[i + 1].key == t[i].key && t[i + 1].version <= version then LoadPos(t, version, i + 1) else i
  }

  lemma {:induction false} LoadPosSpec(t: Tree, q: Query, i: nat)
    requires Sorted(t) && i < |t|
    ensures var l := LoadPos(t, q.version, i);
            && t[l].key == t[i].key
            && (t[l].version <= q.version <==> Visible(t, q.version, l))
            && (t[l].version <= q.version <==> t[i].version <= q.version)
            && (forall j :: i <= j < l ==> !Visible(t, q.version, j))
            && GroupEnd(t, l) == GroupEnd(t, i) && GroupStart(t, l) == GroupStart(t, i)
    decreases |t| - i
  {
    if i + 1 < |t| && t[i + 1].key == t[i].key && t[i + 1].version <= q.version {
      LoadPosSpec(t, q, i + 1);
      assert Before(t[i], t[i + 1]);
      LtTotalOrder();
    }
  }

  // ---------------------------------------------------------------- the snapshot is what get returns

  /** An item is visible exactly when a point lookup of its key returns it. */
  lemma VisibleIsGet(t: Tree, version: nat, i: nat)
    requires Sorted(t) && i < |t|
    ensures Visible(t, version, i) <==> t[i].version <= version && Get(t, t[i].key, version) == t[i]
  {
    LtTotalOrder();
    GetIsNewest(t, t[i].key, version);
    if Visible(t, version, i) {
      forall x | x in t && x.key == t[i].key && x.version <= version ensures x.version <= t[i].version {
        var j :| 0 <= j < |t| && t[j] == x;
        assert j < i ==> Before(t[j], t[i]);
      }
      GetUnique(t, t[i].key, version, t[i]);
    } else if t[i].version <= version {
      assert Before(t[i], t[i + 1]) && t[i + 1] in t;
    }
  }

  lemma VisibleAscend(t: Tree, version: nat, i: nat, j: nat)
    requires Sorted(t) && i < j < |t| && Visible(t, version, i) && Visible(t, version, j)
    ensures Lt(t[i].key, t[j].key)
  {
    VisibleIsGet(t, version, i);
    VisibleIsGet(t, version, j);
    assert Before(t[i], t[j]);
  }

  /** Everything picked before a visible item has a smaller key. */
  lemma {:induction false} PickBelow(t: Tree, q: Query, a: nat, b: nat, c: nat)
    requires Sorted(t) && a <= b <= c < |t| && Visible(t, q.version, c)
    ensures forall x :: x in Pick(t, q, a, b) ==> Lt(x.key, t[c].key)
    decreases b
  {
    if a < b {
      PickBelow(t, q, a, b - 1, c);
      if Selected(t, q, b - 1) {
        VisibleAscend(t, q.version, b - 1, c);
      }
    }
  }

  lemma {:induction false} PickAscending(t: Tree, q: Query, a: nat, b: nat)
    requires Sorted(t) && a <= b <= |t|
    ensures Ascending(Pick(t, q, a, b))
  {
    if a < b {
      PickAscending(t, q, a, b - 1);
      if Selected(t, q, b - 1) {
        PickBelow(t, q, a, b - 1, b - 1);
        AscendingSnoc(Pick(t, q, a, b - 1), t[b - 1]);
      }
    }
  }

  lemma AscendingSnoc(s: Tree, x: Item)
    requires Ascending(s) && forall y :: y in s ==> Lt(y.key, x.key)
    ensures Ascending(s + [x])
  {
  }

  /**
   The snapshot is the ascending list of exactly the keys in range that a point lookup
   finds live, each with the item the lookup returns.
   */
  lemma SnapshotIsGet(t: Tree, q: Query)
    requires Sorted(t)
    ensures Ascending(Snapshot(t, q))
    ensures forall x :: x in Snapshot(t, q) <==>
              x in t && Live(x) && InRange(q, x.key) && x.version <= q.version && Get(t, x.key, q.version) == x
    ensures forall k :: k != [] ==>
              ((exists x :: x in Snapshot(t, q) && x.key == k) <==> InRange(q, k) && Live(Get(t, k, q.version)))
  {
    PickAscending(t, q, 0, |t|);
    PickMembers(t, q, 0, |t|);
    forall i | 0 <= i < |t|
      ensures Visible(t, q.version, i) <==> t[i].version <= q.version && Get(t, t[i].key, q.version) == t[i]
    {
      VisibleIsGet(t, q.version, i);
    }
    forall k | k != [] && InRange(q, k) && Live(Get(t, k, q.version))
      ensures exists x :: x in Snapshot(t, q) && x.key == k
    {
      GetIsNewest(t, k, q.version);
      var g := Get(t, k, q.version);
      var i :| 0 <= i < |t| && t[i] == g;
      assert Selected(t, q, i);
      assert g in Snapshot(t, q) && g.key == k;
    }
  }
}
