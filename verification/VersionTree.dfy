/**
 The B-tree of (key, version) items as its in-order sequence, with the operations the
 memory store uses on it: `Set`, `Delete`, and the descending lookup `get`.
 */
module VersionTree {
  import opened Bytes

  datatype Item = Item(key: Bytes, version: nat, val: Bytes, isDeleted: bool, isGet: bool)

  type Tree = seq<Item>

  /** The zero `dsItem`: what a lookup returns when it finds nothing. */
  const NoItem := Item([], 0, [], false, false)

  /** `byKeys`. */
  predicate Before(a: Item, b: Item) {
    Lt(a.key, b.key) || (a.key == b.key && a.version < b.version)
  }

  predicate SameSlot(a: Item, b: Item) {
    a.key == b.key && a.version == b.version
  }

  ghost predicate Sorted(t: Tree) {
    forall i, j :: 0 <= i < j < |t| ==> Before(t[i], t[j])
  }

  /** Tree `Set`: insert in order, or replace the item in the same slot. */
  function SetItem(t: Tree, x: Item): Tree {
    if t == [] then [x]
    else if Before(t[0], x) then [t[0]] + SetItem(t[1..], x)
    else if Before(x, t[0]) then [x] + t
    else [x] + t[1..]
  }

  /** Tree `Delete`: remove the item in this slot, if there is one. */
  function RemoveItem(t: Tree, x: Item): Tree {
    if t == [] then []
    else if SameSlot(t[0], x) then t[1..]
    else [t[0]] + RemoveItem(t[1..], x)
  }

  /** The index of the first item not before `x`: where the cursor's `Seek` lands. */
  function LowerBound(t: Tree, x: Item): (n: nat)
    ensures n <= |t|
  {
    if t == [] || !Before(t[0], x) then 0 else 1 + LowerBound(t[1..], x)
  }

  /** `get`: descend from (key, version) to the first item at or below it; keep it if it has the key. */
  function Get(t: Tree, key: Bytes, version: nat): Item {
    if t == [] then NoItem
    else
      var x := t[|t| - 1];
      if Before(Item(key, version, [], false, false), x) then Get(t[..|t| - 1], key, version)
      else if x.key == key then x
      else NoItem
  }

  /** A key that reads would return: it was found and is not a tombstone. */
  predicate Live(x: Item) {
    x.key != [] && !x.isDeleted
  }

  // ---------------------------------------------------------------- ordering facts

  lemma BeforeTotalOrder()
    ensures forall a, b :: Before(a, b) || Before(b, a) || SameSlot(a, b)
    ensures forall a, b :: Before(a, b) ==> !Before(b, a) && !SameSlot(a, b)
    ensures forall a, b, c :: Before(a, b) && Before(b, c) ==> Before(a, c)
  {
    LtTotalOrder();
  }

  lemma SlotUnique(t: Tree, x: Item, y: Item)
    requires Sorted(t) && x in t && y in t && SameSlot(x, y)
    ensures x == y
  {
    var i :| 0 <= i < |t| && t[i] == x;
    var j :| 0 <= j < |t| && t[j] == y;
    BeforeTotalOrder();
    assert i == j;
  }

  lemma {:induction false} LowerBoundSplits(t: Tree, x: Item, i: nat)
    requires Sorted(t) && i < |t|
    ensures i < LowerBound(t, x) <==> Before(t[i], x)
  {
    if i > 0 {
      if Before(t[0], x) {
        LowerBoundSplits(t[1..], x, i - 1);
      } else {
        BeforeTotalOrder();
        assert Before(t[0], t[i]);
      }
    }
  }

  // ---------------------------------------------------------------- Set and Delete

  /** `Set` keeps the order and touches one slot only. */
  lemma {:induction false} SetItemEffect(t: Tree, x: Item)
    requires Sorted(t)
    ensures Sorted(SetItem(t, x))
    ensures forall y :: y in SetItem(t, x) <==> y == x || (y in t && !SameSlot(y, x))
  {
    BeforeTotalOrder();
    if t == [] {
    } else if Before(t[0], x) {
      SetItemEffect(t[1..], x);
      assert t == [t[0]] + t[1..];
      forall y | y in SetItem(t[1..], x) ensures Before(t[0], y) {
      }
    } else {
      assert t == [t[0]] + t[1..];
      forall y | y in t[1..] ensures Before(x, y) {
        assert Before(t[0], y);
      }
    }
  }

  /** `Delete` keeps the order and removes one slot only, so the tree shrinks if it was filled. */
  lemma {:induction false} RemoveItemEffect(t: Tree, x: Item)
    requires Sorted(t)
    ensures Sorted(RemoveItem(t, x))
    ensures forall y :: y in RemoveItem(t, x) <==> y in t && !SameSlot(y, x)
    ensures x in t ==> |RemoveItem(t, x)| < |t|
    ensures |RemoveItem(t, x)| <= |t|
  {
    if t != [] {
      assert t == [t[0]] + t[1..];
      BeforeTotalOrder();
      RemoveItemEffect(t[1..], x);
      forall y | y in RemoveItem(t[1..], x) ensures Before(t[0], y) {
      }
      if SameSlot(t[0], x) {
        forall y | y in t[1..] ensures !SameSlot(y, x) {
          assert Before(t[0], y);
        }
      }
    }
  }

  // ---------------------------------------------------------------- get

  /** `r` is the newest item of `key` at or below `version`, or nothing if there is none. */
  ghost predicate IsNewest(t: Tree, key: Bytes, version: nat, r: Item) {
    if r in t && r.key == key && r.version <= version
    then forall x :: x in t && x.key == key && x.version <= version ==> x.version <= r.version
    else r == NoItem && forall x :: x in t && x.key == key ==> version < x.version
  }

  /** `get` finds the newest item of the key at or below the version. */
  lemma {:induction false} GetIsNewest(t: Tree, key: Bytes, version: nat)
    requires Sorted(t)
    ensures IsNewest(t, key, version, Get(t, key, version))
  {
    if t != [] {
      var x := t[|t| - 1];
      var pivot := Item(key, version, [], false, false);
      assert t == t[..|t| - 1] + [x];
      BeforeTotalOrder();
      if Before(pivot, x) {
        GetIsNewest(t[..|t| - 1], key, version);
        assert forall y :: y in t <==> y in t[..|t| - 1] || y == x;
        LtTotalOrder();
      } else {
        forall y | y in t ensures y == x || Before(y, x) {
        }
        LtTotalOrder();
      }
    }
  }

  /** Being newest determines the item. */
  lemma GetUnique(t: Tree, key: Bytes, version: nat, r: Item)
    requires Sorted(t) && IsNewest(t, key, version, r)
    ensures r == Get(t, key, version)
  {
    var g := Get(t, key, version);
    GetIsNewest(t, key, version);
    if r in t && g in t && r.key == key == g.key {
      if r.version <= version && g.version <= version {
        SlotUnique(t, r, g);
      }
    }
  }
}
