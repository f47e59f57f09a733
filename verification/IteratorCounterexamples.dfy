/**
 Concrete trees on which the iterators leave the contract, one for each condition that the
 exactness lemmas name.
 */
module IteratorCounterexamples {
  import opened Bytes
  import opened Sequences
  import opened VersionTree
  import opened Transactions
  import opened Snapshots
  import opened Cursors
  import opened Seeking
  import opened Merging
  import opened Kv
  import opened IteratorBounds

  const A: Bytes := [1]
  const B: Bytes := [2]
  const C: Bytes := [3]
  const All := IterOptions(None, None, None, false)
  const V: Bytes := [7]

  function At(k: Bytes, version: nat): Item {
    Item(k, version, V, false, false)
  }

  lemma OneItem(x: Item, q: Query)
    ensures Sorted([x])
    ensures Snapshot([x], q) == if x.version <= q.version && Live(x) && InRange(q, x.key) then [x] else []
    ensures forall p :: LowerBound([x], p) == if Before(x, p) then 1 else 0
    ensures GroupStart([x], 0) == 0 && GroupEnd([x], 0) == 1
  {
    assert Pick([x], q, 0, 1) == Pick([x], q, 0, 0) + Chosen([x], q, 0);
    assert [x][1..] == [];
  }

  /** Seeking below the start passes over a start key that was last written before the latest version. */
  lemma SeekBelowStart()
    ensures var t, q := [At(B, 1)], Query(2, Some(B), None);
            Snapshot(t, q) == [At(B, 1)] && SeekList(t, q, false, A) == []
  {
    var t, q := [At(B, 1)], Query(2, Some(B), None);
    OneItem(t[0], q);
    assert SeekPos(t, q, false, A) == 1 by {
      GetUnique(t, A, 2, NoItem);
    }
  }

  /** Seeking below every key in reverse falls back to the greatest key. */
  lemma ReverseSeekBelowAll()
    ensures var t, q := [At(B, 1)], Query(1, None, None);
            AtMost(Snapshot(t, q), A) == [] && SeekList(t, q, true, A) == [At(B, 1)]
  {
    var t, q := [At(B, 1)], Query(1, None, None);
    OneItem(t[0], q);
    GetUnique(t, A, 1, NoItem);
    assert SeekPos(t, q, true, A) == 0 && LandDown(t, q, A) == 0;
    assert Reverse([At(B, 1)]) == [At(B, 1)] + Reverse([At(B, 1)][..0]);
    assert [At(B, 1)][..0] == [];
  }

  /** In reverse, a version newer than the snapshot hides the visible one of the last key. */
  lemma ReverseHidesLast()
    ensures var t, q := [At(A, 1), At(A, 5)], Query(3, None, None);
            Snapshot(t, q) == [At(A, 1)] && StartList(t, q, true) == []
  {
    var t, q := [At(A, 1), At(A, 5)], Query(3, None, None);
    assert Pick(t, q, 0, 1) == Pick(t, q, 0, 0) + Chosen(t, q, 0);
    assert Pick(t, q, 0, 2) == Pick(t, q, 0, 1) + Chosen(t, q, 1);
    assert GroupStart(t, 1) == GroupStart(t, 0) == 0;
    assert DownAt(t, q, 1) == DownFrom(t, q, 1) == Reverse(Pick(t, q, 0, 0));
  }

  lemma MergeTie(x: Item, y: Item)
    requires x.key == y.key
    ensures Merge(false, [x], [y]) == [y, x]
  {
    LtTrichotomy(x.key, y.key);
    assert [y][1..] == [];
  }

  /** A transaction that has read a live key meets it twice when it iterates. */
  lemma ReadKeyTwice()
    ensures var t, values := Txn([At(A, 1).(isGet := true)], 1, false, false), [At(A, 1)];
            Merge(false, TxnSide(t, All), StoreSide(t, values, All)) == [At(A, 1), At(A, 1).(isGet := true)]
  {
    var t, values := Txn([At(A, 1).(isGet := true)], 1, false, false), [At(A, 1)];
    assert TxnSide(t, All) == t.ops by {
      OneItem(t.ops[0], Query(2, None, None));
    }
    assert StoreSide(t, values, All) == values by {
      OneItem(values[0], Query(1, None, None));
    }
    MergeTie(At(A, 1).(isGet := true), At(A, 1));
  }

  const Marker := At(A, 1).(isGet := true)
  const Gone := Item(A, 2, [], true, false)
  const Deleter := Txn([Marker, Gone], 1, false, false)

  lemma DeletesKey()
    ensures Perform(Txn([], 1, false, false), [At(A, 1)], OpDelete(A)).0 == Deleter
    ensures !Live(Lookup(Deleter, [At(A, 1)], A))
  {
    GetUnique([At(A, 1)], A, 1, At(A, 1));
    LtTrichotomy(A, A);
    assert [Marker][1..] == [];
    assert SetItem([Marker], Gone) == [Marker, Gone];
    GetUnique([Marker, Gone], A, 2, Gone);
  }

  /** A transaction that has deleted a live key still meets it when it iterates. */
  lemma DeletedKeyStays()
    ensures var values := [At(A, 1)];
            && Perform(Txn([], 1, false, false), values, OpDelete(A)).0 == Deleter
            && !Live(Lookup(Deleter, values, A))
            && Merge(false, TxnSide(Deleter, All), StoreSide(Deleter, values, All)) == [At(A, 1)]
  {
    DeletesKey();
    assert Snapshot(Deleter.ops, Query(2, None, None)) == [] by {
      var ops, q := Deleter.ops, Query(2, None, None);
      assert Pick(ops, q, 0, 1) == Pick(ops, q, 0, 0) + Chosen(ops, q, 0);
      assert Pick(ops, q, 0, 2) == Pick(ops, q, 0, 1) + Chosen(ops, q, 1);
    }
    OneItem(At(A, 1), Query(1, None, None));
  }

  /** A reverse seek below every key that falls back out of range fails, and the next step but one succeeds. */
  lemma ReverseSeekResumes()
    ensures var t, q := [At(A, 1), At(B, 1), At(C, 1)], Query(1, None, Some(B));
            && SeekWalk(t, q, true, [0]) == [At(B, 1), At(A, 1)]
            && !InRange(q, B) && InRange(q, A) && AtMost(Snapshot(t, q), [0]) == []
  {
    var t, q := [At(A, 1), At(B, 1), At(C, 1)], Query(1, None, Some(B));
    assert Sorted(t);
    assert LandDown(t, q, [0]) == 2 by {
      assert SeekPos(t, q, true, [0]) == 0;
    }
    assert LoadPos(t, 1, 2) == 2 && GroupStart(t, 2) == 2 && !ValidItem(q, t[2]);
    assert Left(t, Unbounded(q), true, 2) == [At(B, 1), At(A, 1)] by {
      TwoPicked(t, Unbounded(q));
      TwoReversed(At(A, 1), At(B, 1));
    }
    assert AtMost(Snapshot(t, q), [0]) == [] by {
      AtMostPick(t, q, [0], 0);
    }
  }

  lemma TwoPicked(t: Tree, q: Query)
    requires |t| >= 2 && Selected(t, q, 0) && Selected(t, q, 1)
    ensures Pick(t, q, 0, 2) == [t[0], t[1]]
  {
    assert Pick(t, q, 0, 1) == Pick(t, q, 0, 0) + Chosen(t, q, 0);
    assert Pick(t, q, 0, 2) == Pick(t, q, 0, 1) + Chosen(t, q, 1);
  }

  lemma TwoReversed(x: Item, y: Item)
    ensures Reverse([x, y]) == [y, x]
  {
    assert [x, y][..1] == [x] && [x][..0] == [];
    assert Reverse([x]) == [x] + Reverse([]);
  }

  /** A reverse seek under an empty prefix starts from the last key, whatever key is sought. */
  lemma EmptyPrefixSeek()
    ensures var t, q := [At(A, 1), At(B, 1)], Bounds(IterOptions(Some([]), None, None, true), 1);
            SeekList(t, q, true, A) == [At(B, 1), At(A, 1)] && AtMost(Snapshot(t, q), A) == [At(A, 1)]
  {
    var t, q := [At(A, 1), At(B, 1)], Bounds(IterOptions(Some([]), None, None, true), 1);
    assert Sorted(t);
    assert LandDown(t, q, A) == 1;
    assert GroupEnd(t, 1) == 2;
    TwoPicked(t, q);
    assert Pick(t, q, 0, 1) == Pick(t, q, 0, 0) + Chosen(t, q, 0);
    TwoReversed(At(A, 1), At(B, 1));
    AtMostPick(t, q, A, 1);
  }

  /** Under an all-0xff prefix the memory store yields nothing, though the prefix itself is a live key. */
  lemma MaximalPrefix()
    ensures var k: Bytes, t := [255], [At([255], 1)];
            var opts := IterOptions(Some(k), None, None, false);
            Selects(opts, k) && Live(Get(t, k, 1)) && StartList(t, Bounds(opts, 1), false) == []
  {
    var k: Bytes, t := [255], [At([255], 1)];
    GetUnique(t, k, 1, t[0]);
    OneItem(t[0], Query(1, Some(k), Some(PrefixEnd(k))));
    LtTrichotomy(k, k);
    assert k[1..] == [];
  }
}
