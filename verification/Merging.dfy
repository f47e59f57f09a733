/**
 The list a transaction's iterator yields: its own items merged with the store's. Keys that
 are in both come out twice; these are the laws of that merge, and exactly when it is the
 overlay of the transaction on its snapshot.
 */
module Merging {
  import opened Bytes
  import opened Sequences
  import opened VersionTree
  import opened Transactions
  import opened History
  import opened Snapshots
  import opened Cursors
  import opened Seeking
  import opened IteratorBounds
  import Kv

  /** Whether the pending transaction key goes before the pending store key. */
  predicate TakeTxn(reverse: bool, txnKey: Bytes, storeKey: Bytes) {
    if reverse then !Lt(txnKey, storeKey) else Lt(txnKey, storeKey)
  }

  function Merge(reverse: bool, a: Tree, b: Tree): Tree
    decreases |a| + |b|
  {
    if a == [] then b
    else if b == [] then a
    else if TakeTxn(reverse, a[0].key, b[0].key) then [a[0]] + Merge(reverse, a[1..], b)
    else [b[0]] + Merge(reverse, a, b[1..])
  }

  /** Keys never decrease along the list. */
  ghost predicate NonDecreasing(s: Tree) {
    forall i, j :: 0 <= i < j < |s| ==> !Lt(s[j].key, s[i].key)
  }

  /** Every item of both sides comes out exactly once. */
  lemma {:induction false} MergeConserves(reverse: bool, a: Tree, b: Tree)
    ensures multiset(Merge(reverse, a, b)) == multiset(a) + multiset(b)
    decreases |a| + |b|
  {
    if a == [] || b == [] {
    } else if TakeTxn(reverse, a[0].key, b[0].key) {
      MergeConserves(reverse, a[1..], b);
      Uncons(a);
      Cons(a[0], Merge(reverse, a[1..], b));
    } else {
      MergeConserves(reverse, a, b[1..]);
      Uncons(b);
      Cons(b[0], Merge(reverse, a, b[1..]));
    }
  }

  lemma Uncons(s: Tree)
    requires s != []
    ensures multiset(s) == multiset{s[0]} + multiset(s[1..])
  {
    assert s == [s[0]] + s[1..];
  }

  lemma Cons(x: Item, s: Tree)
    ensures multiset([x] + s) == multiset{x} + multiset(s)
  {
  }

  lemma MergeMembers(reverse: bool, a: Tree, b: Tree)
    ensures forall x :: x in Merge(reverse, a, b) <==> x in a || x in b
  {
    MergeConserves(reverse, a, b);
    forall x ensures x in Merge(reverse, a, b) <==> x in a || x in b {
      assert x in Merge(reverse, a, b) <==> x in multiset(Merge(reverse, a, b));
      assert x in a <==> x in multiset(a);
      assert x in b <==> x in multiset(b);
    }
  }

  lemma MergeMember(reverse: bool, a: Tree, b: Tree, x: Item)
    ensures x in Merge(reverse, a, b) <==> x in a || x in b
  {
    MergeMembers(reverse, a, b);
  }

  /** A forward merge of ascending lists is in key order. */
  lemma {:induction false} MergeOrdered(a: Tree, b: Tree)
    requires Ascending(a) && Ascending(b)
    ensures NonDecreasing(Merge(false, a, b))
    decreases |a| + |b|
  {
    LtTotalOrder();
    if a != [] && b != [] {
      var h, rest := b[0], Merge(false, a, b[1..]);
      if Lt(a[0].key, b[0].key) {
        h, rest := a[0], Merge(false, a[1..], b);
        MergeOrdered(a[1..], b);
        MergeMembers(false, a[1..], b);
      } else {
        MergeOrdered(a, b[1..]);
        MergeMembers(false, a, b[1..]);
      }
      HeadIsLeast(a, b, h, rest);
    }
  }

  lemma HeadIsLeast(a: Tree, b: Tree, h: Item, rest: Tree)
    requires Ascending(a) && Ascending(b) && a != [] && b != []
    requires !Lt(a[0].key, h.key) && !Lt(b[0].key, h.key)
    requires forall x :: x in rest ==> x in a || x in b
    ensures forall x :: x in rest ==> !Lt(x.key, h.key)
  {
    LtTotalOrder();
    forall x | x in a ensures !Lt(x.key, h.key) {
      assert x == a[0] || Lt(a[0].key, x.key);
    }
    forall x | x in b ensures !Lt(x.key, h.key) {
      assert x == b[0] || Lt(b[0].key, x.key);
    }
  }

  // ---------------------------------------------------------------- reverse

  /** A greatest transaction item comes out last, also after equal store keys. */
  lemma {:induction false} MergeSnocTxn(a: Tree, x: Item, b: Tree)
    requires forall y :: y in b ==> !Lt(x.key, y.key)
    ensures Merge(false, a + [x], b) == Merge(false, a, b) + [x]
    decreases |a| + |b|
  {
    if b != [] {
      if a != [] && Lt(a[0].key, b[0].key) {
        MergeSnocTxn(a[1..], x, b);
        assert (a + [x])[1..] == a[1..] + [x];
      } else {
        MergeSnocTxn(a, x, b[1..]);
        assert a == [] ==> b == [b[0]] + b[1..];
      }
    }
  }

  /** A strictly greatest store item comes out last. */
  lemma {:induction false} MergeSnocStore(a: Tree, b: Tree, y: Item)
    requires forall x :: x in a ==> Lt(x.key, y.key)
    ensures Merge(false, a, b + [y]) == Merge(false, a, b) + [y]
    decreases |a| + |b|
  {
    if a != [] {
      if b == [] || Lt(a[0].key, b[0].key) {
        MergeSnocStore(a[1..], b, y);
        assert b == [] ==> a == [a[0]] + a[1..];
      } else {
        MergeSnocStore(a, b[1..], y);
        assert (b + [y])[1..] == b[1..] + [y];
      }
    }
  }

  lemma LastIsGreatest(s: Tree, x: Item)
    requires Ascending(s) && x in s
    ensures x == s[|s| - 1] || Lt(x.key, s[|s| - 1].key)
  {
  }

  lemma ReverseSnoc(s: Tree, x: Item)
    ensures Reverse(s + [x]) == [x] + Reverse(s)
  {
    assert (s + [x])[..|s|] == s;
  }

  /** A reverse merge takes the transaction's head on a tie, and the greater key otherwise. */
  lemma MergeReverseHead(x: Item, a: Tree, y: Item, b: Tree)
    ensures Merge(true, [x] + a, [y] + b) ==
            if Lt(x.key, y.key) then [y] + Merge(true, [x] + a, b) else [x] + Merge(true, a, [y] + b)
  {
    assert ([x] + a)[1..] == a && ([y] + b)[1..] == b;
  }

  /** Merging the reversed sides in reverse gives the forward merge reversed. */
  lemma {:induction false} MergeMirrors(a: Tree, b: Tree)
    requires Ascending(a) && Ascending(b)
    ensures Merge(true, Reverse(a), Reverse(b)) == Reverse(Merge(false, a, b))
    decreases |a| + |b|
  {
    if a != [] && b != [] {
      var x, y, a', b' := a[|a| - 1], b[|b| - 1], a[..|a| - 1], b[..|b| - 1];
      assert a == a' + [x] && b == b' + [y];
      ReverseSnoc(a', x);
      ReverseSnoc(b', y);
      MergeReverseHead(x, Reverse(a'), y, Reverse(b'));
      if Lt(x.key, y.key) {
        AllBelow(a, x, y);
        MergeSnocStore(a, b', y);
        MergeMirrors(a, b');
        ReverseSnoc(Merge(false, a, b'), y);
      } else {
        NoneAbove(b, y, x);
        MergeSnocTxn(a', x, b);
        MergeMirrors(a', b);
        ReverseSnoc(Merge(false, a', b), x);
      }
    }
  }

  lemma AllBelow(s: Tree, x: Item, y: Item)
    requires Ascending(s) && s != [] && x == s[|s| - 1] && Lt(x.key, y.key)
    ensures forall z :: z in s ==> Lt(z.key, y.key)
  {
    LtTotalOrder();
    forall z | z in s ensures Lt(z.key, y.key) {
      LastIsGreatest(s, z);
    }
  }

  lemma NoneAbove(s: Tree, y: Item, x: Item)
    requires Ascending(s) && s != [] && y == s[|s| - 1] && !Lt(x.key, y.key)
    ensures forall z :: z in s ==> !Lt(x.key, z.key)
  {
    LtTotalOrder();
    forall z | z in s ensures !Lt(x.key, z.key) {
      LastIsGreatest(s, z);
    }
  }

  lemma HeadFirst(s: Tree, x: Item)
    requires Ascending(s) && x in s
    ensures s != [] && (x == s[0] || (x in s[1..] && Lt(s[0].key, x.key)))
    ensures |s| > 1 ==> Lt(s[0].key, s[1].key)
  {
    assert s == [s[0]] + s[1..];
  }

  /** On a tie the store's item comes right before the transaction's. */
  lemma {:induction false} TieForward(a: Tree, b: Tree, x: Item, y: Item) returns (i: nat)
    requires Ascending(a) && Ascending(b) && x in a && y in b && x.key == y.key
    ensures i + 1 < |Merge(false, a, b)| && Merge(false, a, b)[i] == y && Merge(false, a, b)[i + 1] == x
    decreases |a| + |b|
  {
    HeadFirst(a, x);
    HeadFirst(b, y);
    LtTotalOrder();
    if Lt(a[0].key, b[0].key) {
      i := TieForward(a[1..], b, x, y);
      i := i + 1;
    } else if y == b[0] {
      i := 0;
      assert x == a[0];
      assert b[1..] != [] ==> Lt(y.key, b[1].key);
    } else {
      i := TieForward(a, b[1..], x, y);
      i := i + 1;
    }
  }

  /** In reverse it comes right after it. */
  lemma TieReverse(a: Tree, b: Tree, x: Item, y: Item) returns (i: nat)
    requires Ascending(a) && Ascending(b) && x in a && y in b && x.key == y.key
    ensures var m := Merge(true, Reverse(a), Reverse(b)); i + 1 < |m| && m[i] == x && m[i + 1] == y
  {
    var up := Merge(false, a, b);
    var j := TieForward(a, b, x, y);
    MergeMirrors(a, b);
    i := |up| - 2 - j;
    ReverseAt(up, i);
    ReverseAt(up, i + 1);
  }

  // ---------------------------------------------------------------- the overlay

  /** What the two sides of a transaction's forward iterator yield. */
  function TxnSide(t: Txn, opts: Kv.IterOptions): Tree
    requires Sorted(t.ops)
  {
    StartList(t.ops, Bounds(opts, t.dsVersion + 1), false)
  }

  function StoreSide(t: Txn, values: Tree, opts: Kv.IterOptions): Tree
    requires Sorted(values)
  {
    StartList(values, Bounds(opts, t.dsVersion), false)
  }

  /** `s` lists, in strict key order, exactly what the transaction's point reads return for the keys looked for. */
  ghost predicate ListsReads(s: Tree, t: Txn, values: Tree, opts: Kv.IterOptions) {
    && Ascending(s)
    && (forall x :: x in s ==> x.key != [] && Finds(opts, x.key) && Live(Lookup(t, values, x.key)) && x.val == Lookup(t, values, x.key).val)
    && (forall k :: k != [] && Finds(opts, k) && Live(Lookup(t, values, k)) ==> exists x :: x in s && x.key == k)
  }

  /** A key that the transaction read or wrote is live in the store's snapshot. */
  ghost predicate Overlaps(t: Txn, values: Tree, opts: Kv.IterOptions) {
    exists k :: k != [] && Touches(t.ops, k) && Finds(opts, k) && Live(Get(values, k, t.dsVersion))
  }

  /** Which keys come from which side. */
  lemma SideMembers(t: Txn, values: Tree, version: nat, opts: Kv.IterOptions, k: Bytes)
    requires WfTxn(t) && WfValues(values, version) && k != []
    ensures (exists x :: x in TxnSide(t, opts) && x.key == k) <==> Finds(opts, k) && Live(Buffered(t, k))
    ensures (exists x :: x in StoreSide(t, values, opts) && x.key == k) <==> Finds(opts, k) && Live(Get(values, k, t.dsVersion))
    ensures forall x :: x in TxnSide(t, opts) && x.key == k ==> x == Buffered(t, k)
    ensures forall x :: x in StoreSide(t, values, opts) && x.key == k ==> x == Get(values, k, t.dsVersion)
  {
    ListedKey(t.ops, t.dsVersion + 1, opts, k);
    ListedKey(values, t.dsVersion, opts, k);
  }

  /** A transaction's forward iterator yields each live buffered item and each live item of its snapshot that it looks for. */
  lemma ListMembers(t: Txn, values: Tree, version: nat, opts: Kv.IterOptions, x: Item)
    requires WfTxn(t) && WfValues(values, version)
    ensures x in Merge(false, TxnSide(t, opts), StoreSide(t, values, opts)) <==>
              Finds(opts, x.key) && Live(x) && (x == Buffered(t, x.key) || x == Get(values, x.key, t.dsVersion))
  {
    SideItems(t, values, opts, x);
    MergeMember(false, TxnSide(t, opts), StoreSide(t, values, opts), x);
  }

  lemma SideItems(t: Txn, values: Tree, opts: Kv.IterOptions, x: Item)
    requires Sorted(t.ops) && Sorted(values)
    ensures x in TxnSide(t, opts) <==> Finds(opts, x.key) && Live(x) && x == Buffered(t, x.key)
    ensures x in StoreSide(t, values, opts) <==> Finds(opts, x.key) && Live(x) && x == Get(values, x.key, t.dsVersion)
  {
    ListedIs(t.ops, t.dsVersion + 1, opts, x);
    ListedIs(values, t.dsVersion, opts, x);
  }

  /**
   A transaction's forward iterator agrees with its point reads if and only if no key it
   has read or written is live in its snapshot of the store.
   */
  lemma OverlayExact(t: Txn, values: Tree, version: nat, opts: Kv.IterOptions)
    requires WfTxn(t) && WfValues(values, version)
    ensures ListsReads(Merge(false, TxnSide(t, opts), StoreSide(t, values, opts)), t, values, opts) <==>
            !Overlaps(t, values, opts)
  {
    if Overlaps(t, values, opts) {
      OverlapBreaks(t, values, version, opts);
    } else {
      NoOverlapLists(t, values, version, opts);
    }
  }

  lemma OverlapBreaks(t: Txn, values: Tree, version: nat, opts: Kv.IterOptions)
    requires WfTxn(t) && WfValues(values, version) && Overlaps(t, values, opts)
    ensures !ListsReads(Merge(false, TxnSide(t, opts), StoreSide(t, values, opts)), t, values, opts)
  {
    var a, b := TxnSide(t, opts), StoreSide(t, values, opts);
    var m := Merge(false, a, b);
    MergeMembers(false, a, b);
    var k :| k != [] && Touches(t.ops, k) && Finds(opts, k) && Live(Get(values, k, t.dsVersion));
    SideMembers(t, values, version, opts, k);
    BufferedCases(t, k);
    GetIsNewest(values, k, t.dsVersion);
    var y :| y in b && y.key == k;
    assert y in m && Lookup(t, values, k) == Buffered(t, k);
    if Live(Buffered(t, k)) {
      var x := Buffered(t, k);
      assert x in m && x.key == y.key && WfOp(x, t.dsVersion) && x != y;
      if Ascending(m) {
        var i :| 0 <= i < |m| && m[i] == x;
        var j :| 0 <= j < |m| && m[j] == y;
        LtTrichotomy(k, k);
        assert false;
      }
    }
  }

  lemma NoOverlapLists(t: Txn, values: Tree, version: nat, opts: Kv.IterOptions)
    requires WfTxn(t) && WfValues(values, version) && !Overlaps(t, values, opts)
    ensures ListsReads(Merge(false, TxnSide(t, opts), StoreSide(t, values, opts)), t, values, opts)
  {
    var a, b := TxnSide(t, opts), StoreSide(t, values, opts);
    var m := Merge(false, a, b);
    assert Ascending(m) by {
      StartListIsGet(t.ops, t.dsVersion + 1, opts);
      StartListIsGet(values, t.dsVersion, opts);
      forall x, y | x in a && y in b ensures x.key != y.key {
        assert Touches(t.ops, x.key);
      }
      DisjointAscending(a, b);
    }
    forall k | k != []
      ensures (exists x :: x in m && x.key == k) <==> Finds(opts, k) && Live(Lookup(t, values, k))
      ensures forall x :: x in m && x.key == k ==> x.val == Lookup(t, values, k).val
    {
      MergeMembers(false, a, b);
      SideMembers(t, values, version, opts, k);
      LookupSide(t, values, opts, k);
    }
    forall x | x in m ensures x.key != [] {
      ListMembers(t, values, version, opts, x);
    }
  }

  lemma LookupSide(t: Txn, values: Tree, opts: Kv.IterOptions, k: Bytes)
    requires WfTxn(t) && k != [] && !Overlaps(t, values, opts)
    ensures Finds(opts, k) ==> (Live(Lookup(t, values, k)) <==> Live(Buffered(t, k)) || Live(Get(values, k, t.dsVersion)))
    ensures Finds(opts, k) && Live(Buffered(t, k)) ==> Lookup(t, values, k) == Buffered(t, k) && !Live(Get(values, k, t.dsVersion))
    ensures Finds(opts, k) && Live(Get(values, k, t.dsVersion)) ==>
              Lookup(t, values, k).val == Get(values, k, t.dsVersion).val && !Live(Buffered(t, k))
  {
    BufferedCases(t, k);
    if Buffered(t, k).key != [] {
      assert Touches(t.ops, k);
    }
  }

  lemma {:induction false} DisjointAscending(a: Tree, b: Tree)
    requires Ascending(a) && Ascending(b) && forall x, y :: x in a && y in b ==> x.key != y.key
    ensures Ascending(Merge(false, a, b))
    decreases |a| + |b|
  {
    LtTotalOrder();
    if a != [] && b != [] {
      var h, rest := b[0], Merge(false, a, b[1..]);
      if Lt(a[0].key, b[0].key) {
        h, rest := a[0], Merge(false, a[1..], b);
        DisjointAscending(a[1..], b);
        MergeMembers(false, a[1..], b);
      } else {
        DisjointAscending(a, b[1..]);
        MergeMembers(false, a, b[1..]);
      }
      HeadIsLeast(a, b, h, rest);
      forall x | x in rest ensures Lt(h.key, x.key) {
        assert x.key != h.key;
      }
    }
  }

  // ---------------------------------------------------------------- the overlay in reverse

  lemma {:induction false} MergeLength(reverse: bool, a: Tree, b: Tree)
    ensures |Merge(reverse, a, b)| == |a| + |b|
    decreases |a| + |b|
  {
    if a != [] && b != [] {
      if TakeTxn(reverse, a[0].key, b[0].key) {
        MergeLength(reverse, a[1..], b);
      } else {
        MergeLength(reverse, a, b[1..]);
      }
    }
  }

  /** A reverse start list is the end of the snapshot cut off somewhere, so it is complete if its length is. */
  lemma StartListLength(t: Tree, q: Query)
    requires Sorted(t)
    ensures |StartList(t, q, true)| == |Snapshot(t, q)| <==> StartList(t, q, true) == Reverse(Snapshot(t, q))
  {
    ReverseLength(Snapshot(t, q));
    if t != [] {
      var l := if Contents(q.end) != [] then LandDown(t, q, Contents(q.end)) else |t| - 1;
      var e := if t[l].version > q.version then GroupStart(t, l) else GroupEnd(t, l);
      assert StartList(t, q, true) == Reverse(Pick(t, q, 0, e));
      PickSplit(t, q, 0, e, |t|);
      ReverseLength(Pick(t, q, 0, e));
      if |Pick(t, q, 0, e)| == |Snapshot(t, q)| {
        assert Pick(t, q, e, |t|) == [];
        assert Snapshot(t, q) == Pick(t, q, 0, e);
      }
    }
  }

  /**
   A transaction's reverse iterator yields its forward list reversed, if and only if the last
   key of its snapshot below the end is not hidden by a version newer than the snapshot.
   */
  lemma ReverseOverlayExact(t: Txn, values: Tree, opts: Kv.IterOptions)
    requires WfTxn(t) && Sorted(values)
    ensures Merge(true, StartList(t.ops, Bounds(opts, t.dsVersion + 1), true), StartList(values, Bounds(opts, t.dsVersion), true)) ==
            Reverse(Merge(false, TxnSide(t, opts), StoreSide(t, values, opts))) <==>
              !HiddenLast(values, Bounds(opts, t.dsVersion))
  {
    TxnSideMirrors(t, opts);
    StoreSideMirrors(t, values, opts);
    SidesAscend(t, values, opts);
    MirrorsIfLengths(TxnSide(t, opts), StoreSide(t, values, opts), StartList(values, Bounds(opts, t.dsVersion), true));
  }

  lemma SidesAscend(t: Txn, values: Tree, opts: Kv.IterOptions)
    requires WfTxn(t) && Sorted(values)
    ensures Ascending(TxnSide(t, opts)) && Ascending(StoreSide(t, values, opts))
  {
    StartListIsGet(t.ops, t.dsVersion + 1, opts);
    StartListIsGet(values, t.dsVersion, opts);
  }

  /** Nothing in `ops` is newer than the version its iterator reads at. */
  lemma TxnSideMirrors(t: Txn, opts: Kv.IterOptions)
    requires WfTxn(t)
    ensures StartList(t.ops, Bounds(opts, t.dsVersion + 1), true) == Reverse(TxnSide(t, opts))
  {
    OpsAreCurrent(t);
    MirrorsCurrent(t.ops, Bounds(opts, t.dsVersion + 1));
  }

  lemma OpsAreCurrent(t: Txn)
    requires WfTxn(t)
    ensures forall x :: x in t.ops ==> x.version <= t.dsVersion + 1
  {
    forall x | x in t.ops ensures x.version <= t.dsVersion + 1 {
      assert WfOp(x, t.dsVersion);
    }
  }

  lemma MirrorsCurrent(ops: Tree, q: Query)
    requires Sorted(ops) && forall x :: x in ops ==> x.version <= q.version
    ensures StartList(ops, q, true) == Reverse(StartList(ops, q, false))
  {
    ReverseMirrors(ops, q);
  }

  lemma StoreSideMirrors(t: Txn, values: Tree, opts: Kv.IterOptions)
    requires Sorted(values)
    ensures var q, b := Bounds(opts, t.dsVersion), StoreSide(t, values, opts);
            && (|StartList(values, q, true)| == |b| <==> StartList(values, q, true) == Reverse(b))
            && (StartList(values, q, true) == Reverse(b) <==> !HiddenLast(values, q))
  {
    var q := Bounds(opts, t.dsVersion);
    assert StoreSide(t, values, opts) == Snapshot(values, q);
    ReverseStartExact(values, q);
    StartListLength(values, q);
  }

  /** The merge is mirrored exactly if its second side is, where that shows in the length. */
  lemma MirrorsIfLengths(a: Tree, b: Tree, b': Tree)
    requires Ascending(a) && Ascending(b) && (|b'| == |b| <==> b' == Reverse(b))
    ensures Merge(true, Reverse(a), b') == Reverse(Merge(false, a, b)) <==> b' == Reverse(b)
  {
    if b' == Reverse(b) {
      MergeMirrors(a, b);
    } else {
      MergeLength(true, Reverse(a), b');
      MergeLength(false, a, b);
      ReverseLength(Merge(false, a, b));
      ReverseLength(a);
    }
  }
}
