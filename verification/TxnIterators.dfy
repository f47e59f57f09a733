/**
 Iterators as the store and its transactions hand them out, and the transaction iterator
 that merges two snapshot iterators.
 */
module TxnIterators {
  import opened Bytes
  import opened Kv
  import opened VersionTree
  import opened Transactions
  import opened Cursors
  import opened Seeking
  import opened IteratorBounds
  import opened Merging
  import opened MemoryStore
  import opened Iterators

  method NewIterator(d: Datastore, values: Tree, opts: IterOptions, version: nat) returns (it: Iterator)
    requires Sorted(values)
    ensures fresh(it) && it.Valid() && it.Aligned() && it.reset
    ensures it.d == d && it.values == values && it.q == Bounds(opts, version) && it.reverse == opts.reverse
  {
    if opts.prefix.Some? {
      it := new Iterator.Prefix(d, values, opts.prefix.value, opts.reverse, version);
    } else {
      it := new Iterator.Range(d, values, opts.start, opts.end, opts.reverse, version);
    }
  }

  /** `Datastore.Iterator`: over the latest version. */
  method StoreIterator(d: Datastore, opts: IterOptions) returns (it: Iterator?, err: Option<Error>)
    requires d.Valid()
    ensures if d.closed then it == null && err == Some(ErrDBClosed)
            else err == None && it != null && fresh(it) && it.Valid() && it.Aligned()
                 && it.d == d && it.values == d.values && it.reset
                 && it.q == Bounds(opts, d.version) && it.reverse == opts.reverse
                 && it.Remaining() == StartList(d.values, Bounds(opts, d.version), opts.reverse)
  {
    if d.closed {
      return null, Some(ErrDBClosed);
    }
    var i := NewIterator(d, d.values, opts, d.version);
    return i, None;
  }

  /** What one side has yet to contribute, its current item included if `pending`. */
  ghost function Side(it: Iterator, pending: bool): Tree
    reads it
    requires it.Valid()
  {
    if pending then [it.Item()] + it.Remaining() else it.Remaining()
  }

  /** A side has a current item with a key, or nothing pending and nothing left. */
  ghost predicate Fits(it: Iterator, has: bool, pending: Bytes)
    reads it
    requires it.Valid()
  {
    if has then it.Item().key != [] else pending == [] && it.Remaining() == []
  }

  /** One side of `Next`: advances it unless its current item is still pending. */
  method Poll(it: Iterator, pending: bool) returns (has: bool, err: Option<Error>)
    requires it.Valid()
    modifies it
    ensures it.Valid() && (it.d.closed && !pending <==> err == Some(ErrDBClosed)) && (err.Some? ==> err == Some(ErrDBClosed))
    ensures err == None && old(it.Aligned()) && (pending ==> old(it.Item().key) != []) ==>
              Sought(it, old(Side(it, pending)), has)
    ensures pending ==> has
    ensures err == None && !old(it.reset) ==>
              !it.reset && Stop(it, has) == old(Offer(it, pending)) && it.Ahead() == old(AheadAfter(it, pending))
  {
    ghost var ahead, side := it.Ahead(), it.Remaining();
    has, err := true, None;
    if !pending {
      ghost var stepping, aligned := !it.reset && !it.d.closed, it.Aligned() && !it.d.closed;
      has, err := it.Next();
      if stepping {
        WalkHits(it.q, ahead, has, it.Item(), it.Ahead());
      }
      if aligned {
        SoughtFrom(it, side, has);
      }
    }
  }

  /** What one side has to offer: its pending item, or the next one if that is in range. */
  ghost function Offer(it: Iterator, pending: bool): Tree
    reads it
    requires it.Valid()
  {
    if pending then [it.Item()] else Head(it.q, it.Ahead())
  }

  /** What lies ahead of a side once it has made its offer. */
  ghost function AheadAfter(it: Iterator, pending: bool): Tree
    reads it
    requires it.Valid()
  {
    if pending then it.Ahead() else Tail(it.Ahead())
  }

  /** The item a seek on one side stops on, if that is in range. */
  ghost function Hit(it: Iterator, key: Bytes): Tree
    requires Sorted(it.values)
  {
    Head(it.q, SeekWalk(it.values, it.q, it.reverse, key))
  }

  /** What a side contributes after `Seek`, if the other one has no match: a stale pending key brings up the item under the cursor. */
  ghost function Rest(it: Iterator, list: Tree, pending: Bytes): Tree
    reads it
    requires it.Valid()
  {
    if list != [] then list[1..] else if pending != [] then [it.Item()] else []
  }

  ghost function Stop(it: Iterator, has: bool): Tree
    reads it
    requires it.Valid()
  {
    if has then [it.Item()] else []
  }

  /** An aligned seek stops on the head of its list and leaves the tail. */
  ghost predicate Sought(it: Iterator, list: Tree, has: bool)
    reads it
    requires it.Valid()
  {
    && it.Aligned() && Side(it, has) == list
    && (if has then it.Item().key != [] else it.Remaining() == [])
  }

  lemma SoughtFrom(it: Iterator, list: Tree, has: bool)
    requires it.Valid() && it.Aligned() && it.Advanced(list, has) && (has ==> it.Item().key != [])
    ensures Sought(it, list, has)
  {
  }

  lemma RestIs(it: Iterator, list: Tree, has: bool, pending: Bytes)
    requires it.Valid() && Sought(it, list, has)
    ensures Rest(it, list, pending) == Side(it, !has && pending != [])
    ensures has <==> list != []
  {
  }

  /** One side of `Seek`. */
  method SeekSide(it: Iterator, key: Bytes) returns (has: bool, err: Option<Error>)
    requires it.Valid()
    modifies it
    ensures it.Valid() && if it.d.closed then err == Some(ErrDBClosed) else err == None
    ensures !it.d.closed ==>
              Hit(it, key) == Stop(it, has) && !it.reset && it.Ahead() == Tail(SeekWalk(it.values, it.q, it.reverse, key))
    ensures !it.d.closed && it.SeekAligned(key) ==> Sought(it, SeekList(it.values, it.q, it.reverse, key), has)
  {
    has, err := it.Seek(key);
    if !it.d.closed {
      WalkHits(it.q, SeekWalk(it.values, it.q, it.reverse, key), has, it.Item(), it.Ahead());
      if it.SeekAligned(key) {
        SoughtFrom(it, SeekList(it.values, it.q, it.reverse, key), has);
      }
    }
  }

  /** `basicTxn.Iterator`. */
  method NewTxnIterator(t: BasicTxn, opts: IterOptions) returns (it: TxnIterator?, err: Option<Error>)
    requires t.Valid()
    ensures if t.ds.closed then it == null && err == Some(ErrDBClosed)
            else err == None && it != null && fresh(it) && it.Valid() && it.Aligned()
                 && it.Remaining() == Merge(opts.reverse, StartList(t.ops, Bounds(opts, t.dsVersion + 1), opts.reverse),
                                                          StartList(t.ds.values, Bounds(opts, t.dsVersion), opts.reverse))
                 && it.Over(t, opts)
                 && (!opts.reverse ==>
                       (ListsReads(it.Remaining(), t.Value(), t.ds.values, opts) <==> !Overlaps(t.Value(), t.ds.values, opts)))
  {
    if t.ds.closed {
      return null, Some(ErrDBClosed);
    }
    var i := new TxnIterator(t, opts);
    if !opts.reverse {
      assert i.Remaining() == Merge(false, TxnSide(t.Value(), opts), StoreSide(t.Value(), t.ds.values, opts));
      OverlayExact(t.Value(), t.ds.values, t.ds.version, opts);
    }
    it, err := i, None;
  }

  class TxnIterator {
    const reverse: bool
    const txnIter: Iterator
    const storeIter: Iterator
    var pendingTxnKey: Bytes
    var pendingStoreKey: Bytes
    var activeIter: Iterator?

    ghost predicate Valid()
      reads this, txnIter, storeIter
    {
      && txnIter != storeIter && txnIter.d == storeIter.d
      && txnIter.Valid() && storeIter.Valid()
      && activeIter in {null, txnIter, storeIter}
    }

    /** Both sides are aligned, and a key is pending only where its side has a current item. */
    ghost predicate Aligned()
      reads this, txnIter, storeIter
      requires Valid()
    {
      && txnIter.Aligned() && storeIter.Aligned()
      && (pendingTxnKey != [] ==> txnIter.Item().key != [])
      && (pendingStoreKey != [] ==> storeIter.Item().key != [])
    }

    /** The two sides: the transaction's items up to its own version, and the store's up to the start version. */
    ghost predicate Over(t: BasicTxn, opts: IterOptions)
      reads t, t.ds
    {
      && reverse == txnIter.reverse == storeIter.reverse == opts.reverse
      && txnIter.d == storeIter.d == t.ds && txnIter.values == t.ops && storeIter.values == t.ds.values
      && txnIter.q == Bounds(opts, t.dsVersion + 1) && storeIter.q == Bounds(opts, t.dsVersion)
    }

    /** What the iterator has yet to yield. */
    ghost function Remaining(): Tree
      reads this, txnIter, storeIter
      requires Valid()
    {
      Merge(reverse, Side(txnIter, pendingTxnKey != []), Side(storeIter, pendingStoreKey != []))
    }

    /** `Key` and `Value` read this item. */
    function Current(): Item
      reads this, txnIter, storeIter
      requires Valid()
    {
      if activeIter == null then NoItem else activeIter.Item()
    }

    /** Iterates over `ops` and over the store at the start version. */
    constructor (t: BasicTxn, opts: IterOptions)
      requires t.Valid()
      ensures Valid() && Aligned() && fresh(txnIter) && fresh(storeIter) && txnIter.d == t.ds && reverse == opts.reverse
      ensures Remaining() == Merge(reverse, StartList(t.ops, Bounds(opts, t.dsVersion + 1), reverse),
                                            StartList(t.ds.values, Bounds(opts, t.dsVersion), reverse))
      ensures Over(t, opts) && activeIter == null
    {
      var a := NewIterator(t.ds, t.ops, opts, t.dsVersion + 1);
      var b := NewIterator(t.ds, t.ds.values, opts, t.dsVersion);
      reverse, txnIter, storeIter := opts.reverse, a, b;
      pendingTxnKey, pendingStoreKey, activeIter := [], [], null;
    }

    method Reset()
      requires Valid()
      modifies this, txnIter, storeIter
      ensures Valid() && Aligned() && activeIter == null
      ensures Remaining() == Merge(reverse, StartList(txnIter.values, txnIter.q, txnIter.reverse),
                                            StartList(storeIter.values, storeIter.q, storeIter.reverse))
    {
      activeIter, pendingTxnKey, pendingStoreKey := null, [], [];
      txnIter.Reset();
      storeIter.Reset();
    }

    /** Merges one step: the flags say which side has a current item that was not yielded. */
    method SelectIterator(hasTxn: bool, hasStore: bool) returns (ok: bool)
      requires Valid()
      modifies this
      ensures Valid() && (ok <==> hasTxn || hasStore)
      ensures Picks(Stop(txnIter, hasTxn), Stop(storeIter, hasStore), ok, old(pendingTxnKey), old(pendingStoreKey))
      ensures !(hasTxn && hasStore) ==>
                Remaining() == Merge(reverse, Side(txnIter, !hasTxn && old(pendingTxnKey) != []),
                                              Side(storeIter, !hasStore && old(pendingStoreKey) != []))
      ensures Fits(txnIter, hasTxn, old(pendingTxnKey)) && Fits(storeIter, hasStore, old(pendingStoreKey)) ==>
                && Yields(Merge(reverse, Side(txnIter, hasTxn), Side(storeIter, hasStore)), ok, Current(), Remaining())
                && (pendingTxnKey != [] ==> hasTxn) && (pendingStoreKey != [] ==> hasStore)
    {
      MergeHead(reverse, Stop(txnIter, hasTxn), Stop(storeIter, hasStore));
      if !hasTxn && !hasStore {
        return false;
      }
      if !hasTxn {
        MergeOne(reverse, storeIter.Item(), storeIter.Remaining());
        activeIter, pendingStoreKey := storeIter, [];
        return true;
      }
      if !hasStore {
        MergeOne(reverse, txnIter.Item(), txnIter.Remaining());
        activeIter, pendingTxnKey := txnIter, [];
        return true;
      }
      MergeHeads(reverse, txnIter.Item(), txnIter.Remaining(), storeIter.Item(), storeIter.Remaining());
      pendingTxnKey, pendingStoreKey := txnIter.Item().key, storeIter.Item().key;
      if TakeTxn(reverse, pendingTxnKey, pendingStoreKey) {
        activeIter, pendingTxnKey := txnIter, [];
      } else {
        activeIter, pendingStoreKey := storeIter, [];
      }
      return true;
    }

    /** The first of the items the sides offer is current, and the other stays pending. A side that offers none keeps its pending key. */
    ghost predicate Picks(a: Tree, b: Tree, ok: bool, oldTxnKey: Bytes, oldStoreKey: Bytes)
      reads this, txnIter, storeIter
      requires Valid()
    {
      && (ok <==> a != [] || b != [])
      && (ok ==> Current() == Merge(reverse, a, b)[0])
      && (a == [] ==> pendingTxnKey == oldTxnKey) && (b == [] ==> pendingStoreKey == oldStoreKey)
      && (a != [] ==> pendingTxnKey == if b != [] && !TakeTxn(reverse, a[0].key, b[0].key) then a[0].key else [])
      && (b != [] ==> pendingStoreKey == if a != [] && TakeTxn(reverse, a[0].key, b[0].key) then b[0].key else [])
    }

    /** Yields the merged list one by one, polling an exhausted side again each time. */
    method Next() returns (ok: bool, err: Option<Error>)
      requires Valid()
      modifies this, txnIter, storeIter
      ensures Valid()
      ensures txnIter.d.closed && (old(pendingTxnKey) == [] || old(pendingStoreKey) == []) ==> !ok && err == Some(ErrDBClosed)
      ensures !txnIter.d.closed ==> err == None
      ensures !txnIter.d.closed && old(Aligned()) ==> Aligned() && Yields(old(Remaining()), ok, Current(), Remaining())
      ensures !txnIter.d.closed && !old(txnIter.reset) && !old(storeIter.reset) ==>
                && Picks(old(Offer(txnIter, pendingTxnKey != [])), old(Offer(storeIter, pendingStoreKey != [])), ok,
                         old(pendingTxnKey), old(pendingStoreKey))
                && txnIter.Ahead() == old(AheadAfter(txnIter, pendingTxnKey != []))
                && storeIter.Ahead() == old(AheadAfter(storeIter, pendingStoreKey != []))
    {
      var hasTxn, hasStore;
      hasTxn, hasStore, err := PollBoth();
      if err.Some? {
        return false, err;
      }
      ok := SelectIterator(hasTxn, hasStore);
    }

    method PollBoth() returns (hasTxn: bool, hasStore: bool, err: Option<Error>)
      requires Valid()
      modifies txnIter, storeIter
      ensures Valid() && (!txnIter.d.closed ==> err == None) && (err.Some? ==> err == Some(ErrDBClosed))
      ensures txnIter.d.closed && (pendingTxnKey == [] || pendingStoreKey == []) ==> err.Some?
      ensures err == None && old(Aligned()) ==>
                && Sought(txnIter, old(Side(txnIter, pendingTxnKey != [])), hasTxn)
                && Sought(storeIter, old(Side(storeIter, pendingStoreKey != [])), hasStore)
      ensures pendingTxnKey != [] && err == None ==> hasTxn
      ensures pendingStoreKey != [] && err == None ==> hasStore
      ensures err == None && !old(txnIter.reset) && !old(storeIter.reset) ==>
                && Stop(txnIter, hasTxn) == old(Offer(txnIter, pendingTxnKey != []))
                && Stop(storeIter, hasStore) == old(Offer(storeIter, pendingStoreKey != []))
                && txnIter.Ahead() == old(AheadAfter(txnIter, pendingTxnKey != []))
                && storeIter.Ahead() == old(AheadAfter(storeIter, pendingStoreKey != []))
    {
      hasStore := false;
      hasTxn, err := Poll(txnIter, pendingTxnKey != []);
      if err.None? {
        hasStore, err := Poll(storeIter, pendingStoreKey != []);
      }
    }

    /**
     Stops on the first of the items the two sides stop on. If both sides are aligned, that is
     the head of the merged seek lists and their tail remains; except that a side without a
     match keeps a key that was pending before the seek, and then yields the item its cursor
     was left on.
     */
    method Seek(key: Bytes) returns (ok: bool, err: Option<Error>)
      requires Valid()
      modifies this, txnIter, storeIter
      ensures Valid()
      ensures if txnIter.d.closed then !ok && err == Some(ErrDBClosed) else err == None
      ensures !txnIter.d.closed ==>
                && Picks(Hit(txnIter, key), Hit(storeIter, key), ok, old(pendingTxnKey), old(pendingStoreKey))
                && !txnIter.reset && txnIter.Ahead() == Tail(SeekWalk(txnIter.values, txnIter.q, txnIter.reverse, key))
                && !storeIter.reset && storeIter.Ahead() == Tail(SeekWalk(storeIter.values, storeIter.q, storeIter.reverse, key))
      ensures !txnIter.d.closed && txnIter.SeekAligned(key) && storeIter.SeekAligned(key) ==>
                Resumes(SeekList(txnIter.values, txnIter.q, txnIter.reverse, key),
                        SeekList(storeIter.values, storeIter.q, storeIter.reverse, key),
                        ok, old(pendingTxnKey), old(pendingStoreKey))
    {
      var txnOk, storeOk;
      txnOk, storeOk, err := SeekBoth(key);
      if err.Some? {
        return false, err;
      }
      ghost var a := SeekList(txnIter.values, txnIter.q, txnIter.reverse, key);
      ghost var b := SeekList(storeIter.values, storeIter.q, storeIter.reverse, key);
      ok := SelectSought(txnOk, storeOk, a, b);
    }

    /** What `Seek` leaves if the sides have sought `a` and `b`. */
    ghost predicate Resumes(a: Tree, b: Tree, ok: bool, oldTxnKey: Bytes, oldStoreKey: Bytes)
      reads this, txnIter, storeIter
      requires Valid()
    {
      && (ok <==> a != [] || b != [])
      && (ok ==> Current() == Merge(reverse, a, b)[0])
      && (if a != [] && b != [] then Remaining() == Merge(reverse, a, b)[1..]
          else Remaining() == Merge(reverse, Rest(txnIter, a, oldTxnKey), Rest(storeIter, b, oldStoreKey)))
      && ((a != [] || oldTxnKey == []) && (b != [] || oldStoreKey == []) ==>
            Aligned() && Yields(Merge(reverse, a, b), ok, Current(), Remaining()))
    }

    /** `selectIterator` after both sides have sought. */
    method SelectSought(hasTxn: bool, hasStore: bool, ghost a: Tree, ghost b: Tree) returns (ok: bool)
      requires Valid()
      modifies this
      ensures Valid() && (ok <==> hasTxn || hasStore)
      ensures Picks(Stop(txnIter, hasTxn), Stop(storeIter, hasStore), ok, old(pendingTxnKey), old(pendingStoreKey))
      ensures Sought(txnIter, a, hasTxn) && Sought(storeIter, b, hasStore) ==>
                Resumes(a, b, ok, old(pendingTxnKey), old(pendingStoreKey))
    {
      MergeHead(reverse, a, b);
      ok := SelectIterator(hasTxn, hasStore);
      if Sought(txnIter, a, hasTxn) && Sought(storeIter, b, hasStore) {
        RestIs(txnIter, a, hasTxn, old(pendingTxnKey));
        RestIs(storeIter, b, hasStore, old(pendingStoreKey));
      }
    }

    method SeekBoth(key: Bytes) returns (txnOk: bool, storeOk: bool, err: Option<Error>)
      requires Valid()
      modifies txnIter, storeIter
      ensures Valid() && err == if txnIter.d.closed then Some(ErrDBClosed) else None
      ensures err == None ==> Hit(txnIter, key) == Stop(txnIter, txnOk) && Hit(storeIter, key) == Stop(storeIter, storeOk)
      ensures err == None ==>
                && !txnIter.reset && txnIter.Ahead() == Tail(SeekWalk(txnIter.values, txnIter.q, txnIter.reverse, key))
                && !storeIter.reset && storeIter.Ahead() == Tail(SeekWalk(storeIter.values, storeIter.q, storeIter.reverse, key))
      ensures err == None && txnIter.SeekAligned(key) ==> Sought(txnIter, SeekList(txnIter.values, txnIter.q, txnIter.reverse, key), txnOk)
      ensures err == None && storeIter.SeekAligned(key) ==> Sought(storeIter, SeekList(storeIter.values, storeIter.q, storeIter.reverse, key), storeOk)
    {
      txnOk, err := SeekSide(txnIter, key);
      if err.Some? {
        return false, false, err;
      }
      storeOk, err := SeekSide(storeIter, key);
    }
  }

  lemma MergeHead(reverse: bool, a: Tree, b: Tree)
    ensures Merge(reverse, a, b) == [] <==> a == [] && b == []
    ensures a != [] || b != [] ==>
              Merge(reverse, a, b)[0] == if b == [] || (a != [] && TakeTxn(reverse, a[0].key, b[0].key)) then a[0] else b[0]
  {
  }

  lemma MergeHeads(reverse: bool, x: Item, a: Tree, y: Item, b: Tree)
    ensures Merge(reverse, [x] + a, [y] + b) ==
            if TakeTxn(reverse, x.key, y.key) then [x] + Merge(reverse, a, [y] + b) else [y] + Merge(reverse, [x] + a, b)
  {
    assert ([x] + a)[1..] == a && ([y] + b)[1..] == b;
  }

  lemma MergeOne(reverse: bool, x: Item, a: Tree)
    ensures Merge(reverse, [x] + a, []) == [x] + a == Merge(reverse, [], [x] + a)
    ensures Merge(reverse, a, []) == a == Merge(reverse, [], a)
  {
  }
}
