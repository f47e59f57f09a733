/**
 The snapshot iterator of the memory store: a cursor over the version tree, proved to yield
 the lists of `Seeking` one item at a time.
 */
module Iterators {
  import opened Bytes
  import opened VersionTree
  import opened Transactions
  import opened Snapshots
  import opened Cursors
  import opened Seeking
  import opened MemoryStore

  class Iterator {
    const d: Datastore
    const values: Tree
    const q: Query
    const reverse: bool
    const firstItem: Item
    const lastItem: Item
    var reset: bool
    /** The tree cursor: an index that stays in place at either edge. */
    var pos: nat

    // -------------------------------------------------------------- specification

    ghost predicate Valid()
      reads this
    {
      && Sorted(values)
      && (if values == [] then pos == 0 else pos < |values|)
      && (firstItem.key != [] ==> values != [] && firstItem == values[0])
      && (lastItem.key != [] ==> values != [] && lastItem == values[|values| - 1])
    }

    /** The item under the cursor. */
    function Item(): Item
      reads this
      requires Valid()
    {
      if values == [] then NoItem else values[pos]
    }

    /** What the iterator has yet to yield. */
    ghost function Remaining(): Tree
      reads this
      requires Valid()
    {
      if reset then StartList(values, q, reverse)
      else if values == [] then []
      else Left(values, q, reverse, pos)
    }

    /** What lies ahead of the cursor, in range or not. */
    ghost function Ahead(): Tree
      reads this
      requires Valid()
    {
      if values == [] then [] else Left(values, Unbounded(q), reverse, pos)
    }

    /** A step along `list`, which succeeds if it stays in range. */
    ghost predicate Walked(list: Tree, ok: bool)
      reads this
      requires Valid()
    {
      !reset && Walks(q, list, ok, Item(), Ahead())
    }

    /** The steps to come that stay in range come first. */
    ghost predicate Aligned()
      reads this
      requires Valid()
    {
      reset || values == [] || AlignedAt(values, q, reverse, pos)
    }

    ghost predicate Advanced(list: Tree, ok: bool)
      reads this
      requires Valid()
    {
      !reset && Yields(list, ok, Item(), Remaining())
    }

    // -------------------------------------------------------------- construction

    constructor Range(d: Datastore, values: Tree, start: Option<Bytes>, end: Option<Bytes>, reverse: bool, version: nat)
      requires Sorted(values)
      ensures Valid() && Aligned() && reset
      ensures this.d == d && this.values == values && this.reverse == reverse && q == Query(version, start, end)
    {
      this.d, this.values, this.reverse := d, values, reverse;
      q := Query(version, start, end);
      firstItem, lastItem := NoItem, NoItem;
      reset, pos := true, 0;
    }

    /** Remembers the outermost items when iterating in reverse, for `moveNext` and `loadLatestItem`. */
    constructor Prefix(d: Datastore, values: Tree, prefix: Bytes, reverse: bool, version: nat)
      requires Sorted(values)
      ensures Valid() && Aligned() && reset
      ensures this.d == d && this.values == values && this.reverse == reverse
      ensures q == Query(version, Some(prefix), Some(PrefixEnd(prefix)))
    {
      var first, last := NoItem, NoItem;
      if reverse && values != [] {
        first, last := values[0], values[|values| - 1];
      }
      var end := BytesPrefixEnd(prefix);
      this.d, this.values, this.reverse := d, values, reverse;
      q := Query(version, Some(prefix), Some(end));
      firstItem, lastItem := first, last;
      reset, pos := true, 0;
    }

    method Reset()
      requires Valid()
      modifies this`reset
      ensures Valid() && Aligned() && Remaining() == StartList(values, q, reverse)
    {
      reset := true;
    }

    // -------------------------------------------------------------- the tree cursor

    method CursorNext() returns (ok: bool)
      requires Valid()
      modifies this`pos
      ensures Valid()
      ensures ok <==> old(pos) + 1 < |values|
      ensures pos == if ok then old(pos) + 1 else old(pos)
    {
      ok := pos + 1 < |values|;
      if ok {
        pos := pos + 1;
      }
    }

    method CursorPrev() returns (ok: bool)
      requires Valid()
      modifies this`pos
      ensures Valid()
      ensures ok <==> old(pos) > 0
      ensures pos == if ok then old(pos) - 1 else old(pos)
    {
      ok := pos > 0;
      if ok {
        pos := pos - 1;
      }
    }

    method CursorFirst() returns (ok: bool)
      requires Valid()
      modifies this`pos
      ensures Valid() && (ok <==> values != []) && pos == 0
    {
      pos := 0;
      ok := values != [];
    }

    method CursorLast() returns (ok: bool)
      requires Valid()
      modifies this`pos
      ensures Valid() && (ok <==> values != []) && (ok ==> pos == |values| - 1)
    {
      ok := values != [];
      if ok {
        pos := |values| - 1;
      }
    }

    /** Moves to the first item at or above `x`; off the end, the cursor stays at the last item. */
    method CursorSeek(x: Item) returns (ok: bool)
      requires Valid()
      modifies this`pos
      ensures Valid() && (ok <==> LowerBound(values, x) < |values|)
      ensures ok ==> pos == LowerBound(values, x)
      ensures !ok && values != [] ==> pos == |values| - 1
    {
      var p := LowerBound(values, x);
      ok := p < |values|;
      if ok {
        pos := p;
      } else if values != [] {
        pos := |values| - 1;
      }
    }

    // -------------------------------------------------------------- private steps

    method MoveNext() returns (ok: bool)
      requires Valid()
      modifies this`pos
      ensures Valid()
      ensures reverse ==> (ok <==> old(pos) > 0) && pos == if ok then old(pos) - 1 else old(pos)
      ensures !reverse ==> (ok <==> old(pos) + 1 < |values|) && pos == if ok then old(pos) + 1 else old(pos)
    {
      if reverse {
        if firstItem.key != [] && firstItem.version == Item().version && firstItem.key == Item().key {
          BeforeTotalOrder();
          assert pos == 0;
          return false;
        }
        ok := CursorPrev();
        return;
      }
      ok := CursorNext();
    }

    method LoadLatestItem()
      requires Valid()
      modifies this`pos
      ensures Valid()
      ensures values != [] ==> pos == LoadPos(values, q.version, old(pos))
    {
      var previous := Item();
      if reverse && lastItem.key != [] && lastItem.version == previous.version && lastItem.key == previous.key {
        BeforeTotalOrder();
        assert pos == |values| - 1;
        return;
      }
      ghost var target := if values == [] then 0 else LoadPos(values, q.version, pos);
      while true
        invariant Valid() && Item().key == previous.key
        invariant values != [] ==> LoadPos(values, q.version, pos) == target
        decreases |values| - pos
      {
        var ok := CursorNext();
        if !ok {
          break;
        }
        if Item().key != previous.key || Item().version > q.version {
          ok := CursorPrev();
          break;
        }
      }
    }

    /** The loop of `next`: the next key in the direction of iteration with a version the snapshot sees. */
    method Scan() returns (found: bool)
      requires Valid() && values != []
      modifies this`pos
      ensures Valid()
      ensures found ==>
                && values[pos].key != values[old(pos)].key && values[pos].version <= q.version
                && if reverse then pos < old(pos) && Skipped(values, q.version, values[old(pos)].key, pos + 1, old(pos))
                   else old(pos) < pos && Skipped(values, q.version, values[old(pos)].key, old(pos) + 1, pos)
      ensures !found ==>
                && pos == (if reverse then 0 else |values| - 1)
                && if reverse then Skipped(values, q.version, values[old(pos)].key, 0, old(pos))
                   else Skipped(values, q.version, values[old(pos)].key, old(pos) + 1, |values|)
    {
      var previous := Item();
      found := false;
      while true
        invariant Valid() && !found
        invariant if reverse then pos <= old(pos) else old(pos) <= pos
        invariant reverse ==> Skipped(values, q.version, previous.key, pos, old(pos))
        invariant !reverse ==> Skipped(values, q.version, previous.key, old(pos) + 1, pos + 1)
        decreases if reverse then pos else |values| - pos
      {
        var ok := MoveNext();
        if !ok {
          break;
        }
        if previous.key != Item().key && Item().version <= q.version {
          found := true;
          break;
        }
      }
    }

    /** `next` with no reset pending: scan for a key, load its version, and go on past tombstones. */
    method StepOn() returns (ok: bool)
      requires Valid() && values != []
      modifies this`pos
      ensures Valid() && (ok ==> ValidItem(q, values[pos]))
      ensures AlignedAt(values, q, reverse, old(pos)) ==>
                && AlignedAt(values, q, reverse, pos)
                && Yields(Left(values, q, reverse, old(pos)), ok, values[pos], Left(values, q, reverse, pos))
      ensures Walks(q, Left(values, Unbounded(q), reverse, old(pos)), ok, values[pos], Left(values, Unbounded(q), reverse, pos))
      decreases if reverse then pos else |values| - pos
    {
      ghost var i := pos;
      var found := Scan();
      if !found {
        ScanNone(values, q, reverse, i);
        ScanNone(values, Unbounded(q), reverse, i);
        AtEdge(values, q, reverse);
        AtEdge(values, Unbounded(q), reverse);
        return false;
      }
      AfterScan(values, q, reverse, i, pos);
      WalkAfterScan(values, q, reverse, i, pos);
      LoadLatestItem();
      if Item().isDeleted {
        ok := StepOn();
      } else {
        ok := ValidItem(q, Item());
      }
    }

    method Step() returns (ok: bool)
      requires Valid() && !reset
      modifies this`pos
      ensures Valid() && (ok ==> ValidItem(q, Item()))
      ensures old(Aligned()) ==> Aligned() && Advanced(old(Remaining()), ok)
      ensures Walked(old(Ahead()), ok)
    {
      ok := false;
      if values != [] {
        ok := StepOn();
      }
    }

    /** The end of `seek` and `restart`: check the loaded item, or step on from it. */
    method Settle(ghost landing: nat) returns (ok: bool)
      requires Valid() && !reset && landing < |values| && pos == LoadPos(values, q.version, landing)
      modifies this`pos
      ensures Valid() && (ok ==> ValidItem(q, Item()))
      ensures AlignedAt(values, q, reverse, landing) ==>
                && Aligned()
                && Advanced(if reverse then DownAt(values, q, landing) else Pick(values, q, landing, |values|), ok)
      ensures Walked(Settled(values, q, reverse, landing), ok)
    {
      AfterLanding(values, q, reverse, landing);
      if !ValidItem(q, Item()) {
        ok := StepOn();
      } else {
        ok := true;
      }
    }

    /** Whether iteration from where `Seek` lands stays on the right side of the far bound. */
    ghost predicate SeekAligned(key: Bytes)
      requires Sorted(values)
    {
      reverse && values != [] ==> AlignedAt(values, q, true, LandDown(values, q, key))
    }

    /** The reverse landing: the tree cursor only seeks upwards, so this looks back once. */
    method LandReverse(key: Bytes, version: nat) returns (hasItem: bool)
      requires Valid() && reverse && version == SeekVersion(values, q, key)
      modifies this`pos
      ensures Valid() && (hasItem <==> values != []) && (hasItem ==> pos == LandDown(values, q, key))
    {
      var target := if q.end.Some? && Lt(q.end.value, key) then q.end.value else key;
      hasItem := CursorSeek(Pivot(target, version));
      if hasItem && target != Item().key {
        hasItem := CursorPrev();
      }
      if !hasItem {
        hasItem := CursorLast();
      }
    }

    method SeekTo(key: Bytes) returns (ok: bool)
      requires Valid()
      modifies this
      ensures Valid() && (ok ==> ValidItem(q, Item()))
      ensures Walked(SeekWalk(values, q, reverse, key), ok)
      ensures SeekAligned(key) ==> Aligned() && Advanced(SeekList(values, q, reverse, key), ok)
    {
      reset := false;
      var version := q.version;
      var result := Get(values, key, q.version);
      if result.key != [] && !result.isDeleted {
        version := result.version;
      }
      var hasItem;
      if reverse {
        hasItem := LandReverse(key, version);
      } else {
        var target := if q.start.Some? && Lt(key, q.start.value) then q.start.value else key;
        hasItem := CursorSeek(Pivot(target, version));
      }
      if !hasItem {
        if values != [] {
          AtEdge(values, q, false);
          AtEdge(values, Unbounded(q), false);
        }
        return false;
      }
      ghost var landing := pos;
      if !reverse {
        ForwardAligned(values, q, key);
      }
      LoadLatestItem();
      ok := Settle(landing);
    }

    method Restart() returns (ok: bool)
      requires Valid()
      modifies this
      ensures Valid() && Aligned() && Advanced(StartList(values, q, reverse), ok)
      ensures ok ==> ValidItem(q, Item())
    {
      reset := false;
      if Contents(q.end) != [] && reverse {
        if values != [] {
          RestartAligned(values, q);
        }
        ok := SeekTo(Contents(q.end));
      } else if Contents(q.start) != [] && !reverse {
        ForwardStart(values, q);
        ok := SeekTo(Contents(q.start));
      } else {
        var hasItem;
        if reverse {
          hasItem := CursorLast();
        } else {
          hasItem := CursorFirst();
          LoadLatestItem();
        }
        if !hasItem {
          return false;
        }
        LtTotalOrder();
        ok := Settle(if reverse then |values| - 1 else 0);
      }
    }

    // -------------------------------------------------------------- the iterator interface

    /**
     Yields the remaining items one by one, and then stays false. After a seek that left the
     range, each call takes one step, and succeeds if that step is back in range.
     */
    method Next() returns (ok: bool, err: Option<Error>)
      requires Valid()
      modifies this
      ensures Valid() && (ok ==> ValidItem(q, Item()))
      ensures if d.closed then (ok, err) == (false, Some(ErrDBClosed)) && pos == old(pos) && reset == old(reset) else err == None
      ensures !d.closed && old(Aligned()) ==> Aligned() && Advanced(old(Remaining()), ok)
      ensures !d.closed && !old(reset) ==> Walked(old(Ahead()), ok)
    {
      if d.closed {
        return false, Some(ErrDBClosed);
      }
      err := None;
      if reset {
        ok := Restart();
      } else {
        ok := Step();
      }
    }

    method Seek(key: Bytes) returns (ok: bool, err: Option<Error>)
      requires Valid()
      modifies this
      ensures Valid() && (ok ==> ValidItem(q, Item()))
      ensures if d.closed then (ok, err) == (false, Some(ErrDBClosed)) && pos == old(pos) && reset == old(reset) else err == None
      ensures !d.closed ==> Walked(SeekWalk(values, q, reverse, key), ok)
      ensures !d.closed && SeekAligned(key) ==> Aligned() && Advanced(SeekList(values, q, reverse, key), ok)
    {
      if d.closed {
        return false, Some(ErrDBClosed);
      }
      err := None;
      ok := SeekTo(key);
    }
  }

  /** `Next` as a list of at most one item. */
  method Pull(iter: Iterator) returns (items: Tree)
    requires iter.Valid() && iter.Aligned() && !iter.d.closed
    modifies iter
    ensures iter.Valid() && iter.Aligned()
    ensures old(iter.Remaining()) == items + iter.Remaining() && |items| <= 1
    ensures items == [] ==> iter.Remaining() == []
  {
    ghost var list := iter.Remaining();
    var ok, err := iter.Next();
    if ok {
      items := [iter.Item()];
      assert list == [list[0]] + list[1..];
    } else {
      items := [];
    }
  }

  /** Calling `Next` until it returns false collects everything that remains; it then stays false. */
  method Drain(iter: Iterator) returns (items: Tree)
    requires iter.Valid() && iter.Aligned() && !iter.d.closed
    modifies iter
    ensures iter.Valid() && iter.Aligned()
    ensures items == old(iter.Remaining()) && iter.Remaining() == []
  {
    items := [];
    ghost var all := iter.Remaining();
    ghost var left := all;
    var more := true;
    while more
      invariant iter.Valid() && iter.Aligned() && left == iter.Remaining()
      invariant items + left == all
      invariant !more ==> left == []
      decreases more, |left|
    {
      var next := Pull(iter);
      left := iter.Remaining();
      items := items + next;
      more := next != [];
    }
  }

  /** `list` is all of `walk` up to the first item out of range. */
  ghost predicate InRangePart(q: Query, walk: Tree, list: Tree) {
    && list <= walk && (forall x :: x in list ==> InRange(q, x.key))
    && (|list| < |walk| ==> !InRange(q, walk[|list|].key))
  }

  lemma DeliveredPart(q: Query, walk: Tree, part: Tree, list: Tree)
    requires InRangePart(q, walk, part) && Delivers(q, walk, list)
    ensures part == list
  {
    forall i | 0 <= i < |walk| ensures InRange(q, walk[i].key) <==> i < |list| {
      if i < |list| {
        assert walk[i] == list[i] && list[i] in list;
      } else {
        assert walk[i] == walk[|list|..][i - |list|] && walk[i] in walk[|list|..];
      }
    }
    forall i | 0 <= i < |part| ensures InRange(q, walk[i].key) {
      assert walk[i] == part[i] && part[i] in part;
    }
    assert |part| < |walk| ==> |list| <= |part|;
    assert |list| < |walk| ==> !InRange(q, walk[|list|].key);
    assert part == walk[..|part|] && list == walk[..|list|];
  }

  /** The walk has been taken up to item `n`, which is current if the last step succeeded. */
  ghost predicate AtWalk(q: Query, walk: Tree, n: nat, ok: bool, current: Item, ahead: Tree) {
    && n <= |walk|
    && (ok ==> n < |walk| && current == walk[n] && InRange(q, walk[n].key) && ahead == walk[n + 1..])
    && (!ok && n < |walk| ==> !InRange(q, walk[n].key))
  }

  lemma WalkStarts(q: Query, walk: Tree, ok: bool, current: Item, ahead: Tree)
    requires Walks(q, walk, ok, current, ahead)
    ensures AtWalk(q, walk, 0, ok, current, ahead)
  {
  }

  lemma WalkGoesOn(q: Query, walk: Tree, n: nat, last: Item, rest: Tree, ok: bool, current: Item, ahead: Tree)
    requires AtWalk(q, walk, n, true, last, rest) && Walks(q, rest, ok, current, ahead)
    ensures AtWalk(q, walk, n + 1, ok, current, ahead)
  {
  }

  lemma PartSnoc(q: Query, walk: Tree, items: Tree, x: Item)
    requires items <= walk && (forall y :: y in items ==> InRange(q, y.key))
    requires |items| < |walk| && x == walk[|items|] && InRange(q, x.key)
    ensures items + [x] <= walk && forall y :: y in items + [x] ==> InRange(q, y.key)
  {
  }

  /** `Seek` and `Next`, as steps along a walk. */
  method SeekWalking(iter: Iterator, key: Bytes) returns (ok: bool)
    requires iter.Valid() && !iter.d.closed
    modifies iter
    ensures iter.Valid() && !iter.reset
    ensures Walks(iter.q, SeekWalk(iter.values, iter.q, iter.reverse, key), ok, iter.Item(), iter.Ahead())
  {
    var err;
    ok, err := iter.Seek(key);
  }

  method NextWalking(iter: Iterator) returns (ok: bool)
    requires iter.Valid() && !iter.d.closed && !iter.reset
    modifies iter
    ensures iter.Valid() && !iter.reset && Walks(iter.q, old(iter.Ahead()), ok, iter.Item(), iter.Ahead())
  {
    var err;
    ok, err := iter.Next();
  }

  /** `Seek`, and then `Next` until it returns false, collects what the walk from there delivers. */
  method SeekAndDrain(iter: Iterator, key: Bytes) returns (items: Tree)
    requires iter.Valid() && !iter.d.closed
    modifies iter
    ensures iter.Valid()
    ensures InRangePart(iter.q, SeekWalk(iter.values, iter.q, iter.reverse, key), items)
  {
    ghost var walk := SeekWalk(iter.values, iter.q, iter.reverse, key);
    var ok := SeekWalking(iter, key);
    WalkStarts(iter.q, walk, ok, iter.Item(), iter.Ahead());
    items := DrainWalk(iter, ok, walk);
  }

  method DrainWalk(iter: Iterator, hasItem: bool, ghost walk: Tree) returns (items: Tree)
    requires iter.Valid() && !iter.d.closed && !iter.reset
    requires AtWalk(iter.q, walk, 0, hasItem, iter.Item(), iter.Ahead())
    modifies iter
    ensures iter.Valid() && InRangePart(iter.q, walk, items)
  {
    items := [];
    var ok := hasItem;
    while ok
      invariant iter.Valid() && !iter.reset
      invariant AtWalk(iter.q, walk, |items|, ok, iter.Item(), iter.Ahead())
      invariant items <= walk && forall x :: x in items ==> InRange(iter.q, x.key)
      decreases |walk| - |items|, ok
    {
      ghost var last, rest, n := iter.Item(), iter.Ahead(), |items|;
      PartSnoc(iter.q, walk, items, last);
      items := items + [iter.Item()];
      ok := NextWalking(iter);
      WalkGoesOn(iter.q, walk, n, last, rest, ok, iter.Item(), iter.Ahead());
    }
  }
}
