/**
 How the two scans of the snapshot iterator, and the moves they start from, divide the list
 of selected items.
 */
module Cursors {
  import opened Bytes
  import opened Sequences
  import opened VersionTree
  import opened Snapshots

  // ---------------------------------------------------------------- what is left to yield

  /** Forward: what is left after the key of item `i`. */
  function UpFrom(t: Tree, q: Query, i: nat): Tree
    requires Sorted(t) && i < |t|
  {
    Pick(t, q, GroupEnd(t, i), |t|)
  }

  /** In reverse: what is left after the key of item `i`. */
  function DownFrom(t: Tree, q: Query, i: nat): Tree
    requires Sorted(t) && i < |t|
  {
    Reverse(Pick(t, q, 0, GroupStart(t, i)))
  }

  /** In reverse: what is left on landing at item `i`. Its key is lost if the item is too new. */
  function DownAt(t: Tree, q: Query, i: nat): Tree
    requires Sorted(t) && i < |t|
  {
    if t[i].version > q.version then DownFrom(t, q, i) else Reverse(Pick(t, q, 0, GroupEnd(t, i)))
  }

  /** `valid`. */
  predicate ValidItem(q: Query, x: Item) {
    x.key != [] && x.version <= q.version && !x.isDeleted && BelowEnd(q, x.key) && !Lt(x.key, Contents(q.start))
  }

  // ---------------------------------------------------------------- loading the latest version

  /** Past the loaded item, its run holds nothing visible. */
  lemma AfterLoaded(t: Tree, q: Query, i: nat, j: nat)
    requires Sorted(t) && i < |t| && LoadPos(t, q.version, i) == i && i < j < GroupEnd(t, i)
    ensures !Visible(t, q.version, j)
  {
    GroupEndSpec(t, i);
    LtTotalOrder();
    assert t[i + 1].key == t[i].key && t[i + 1].version > q.version;
    assert j == i + 1 || Before(t[i + 1], t[j]);
  }

  /** Forward from a loaded item: itself, if selected, and then the later keys. */
  lemma PickLoaded(t: Tree, q: Query, l: nat)
    requires Sorted(t) && l < |t| && LoadPos(t, q.version, l) == l
    ensures Pick(t, q, l, |t|) == Chosen(t, q, l) + UpFrom(t, q, l)
  {
    var e := GroupEnd(t, l);
    forall j | l < j < e ensures !Selected(t, q, j) {
      AfterLoaded(t, q, l, j);
    }
    assert Pick(t, q, l + 1, |t|) == Pick(t, q, e, |t|) by {
      PickNone(t, q, l + 1, e);
      PickSplit(t, q, l + 1, e, |t|);
    }
    PickSplit(t, q, l, l + 1, |t|);
    assert Pick(t, q, l, l + 1) == Pick(t, q, l, l) + Chosen(t, q, l);
  }

  /** Forward from `i`: the loaded item first, if it is valid, and then the later keys. */
  lemma LoadUp(t: Tree, q: Query, i: nat)
    requires Sorted(t) && i < |t|
    ensures Pick(t, q, i, |t|) == Chosen(t, q, LoadPos(t, q.version, i)) + UpFrom(t, q, i)
    ensures var l := LoadPos(t, q.version, i); Selected(t, q, l) <==> ValidItem(q, t[l])
  {
    var l := LoadPos(t, q.version, i);
    LoadPosSpec(t, q, i);
    LoadIdempotent(t, q, i);
    PickLoaded(t, q, l);
    PickNone(t, q, i, l);
    PickSplit(t, q, i, l, |t|);
  }

  lemma {:induction false} LoadIdempotent(t: Tree, q: Query, i: nat)
    requires i < |t|
    ensures LoadPos(t, q.version, LoadPos(t, q.version, i)) == LoadPos(t, q.version, i)
    decreases |t| - i
  {
    if i + 1 < |t| && t[i + 1].key == t[i].key && t[i + 1].version <= q.version {
      LoadIdempotent(t, q, i + 1);
    }
  }

  /** A run of one key holds at most one selected item, the loaded one. */
  lemma PickGroup(t: Tree, q: Query, l: nat)
    requires Sorted(t) && l < |t| && LoadPos(t, q.version, l) == l && t[l].version <= q.version
    ensures Pick(t, q, GroupStart(t, l), GroupEnd(t, l)) == Chosen(t, q, l)
  {
    GroupStartSpec(t, l);
    var s, e := GroupStart(t, l), GroupEnd(t, l);
    forall j | s <= j < l ensures !Selected(t, q, j) {
      LtTotalOrder();
      assert Before(t[j], t[j + 1]) && (j + 1 == l || Before(t[j + 1], t[l]));
    }
    forall j | l < j < e ensures !Selected(t, q, j) {
      AfterLoaded(t, q, l, j);
    }
    PickNone(t, q, s, l);
    PickNone(t, q, l + 1, e);
    PickSplit(t, q, s, l, e);
    PickSplit(t, q, l, l + 1, e);
    assert Pick(t, q, l, l + 1) == Pick(t, q, l, l) + Chosen(t, q, l);
  }

  /** In reverse at `i`: the loaded item first, if it is valid, and then the earlier keys. */
  lemma LoadDown(t: Tree, q: Query, i: nat)
    requires Sorted(t) && i < |t|
    ensures DownAt(t, q, i) == Chosen(t, q, LoadPos(t, q.version, i)) + DownFrom(t, q, i)
    ensures var l := LoadPos(t, q.version, i); Selected(t, q, l) <==> ValidItem(q, t[l])
  {
    var l := LoadPos(t, q.version, i);
    LoadPosSpec(t, q, i);
    LoadIdempotent(t, q, i);
    if t[i].version <= q.version {
      PickGroup(t, q, l);
      PickSplit(t, q, 0, GroupStart(t, l), GroupEnd(t, l));
      ReverseConcat(Pick(t, q, 0, GroupStart(t, l)), Chosen(t, q, l));
    }
  }

  // ---------------------------------------------------------------- scanning for the next key

  /** Items the scan of `next` passes over. */
  ghost predicate Skipped(t: Tree, version: nat, key: Bytes, a: nat, b: nat)
    requires b <= |t|
  {
    forall j :: a <= j < b ==> t[j].key == key || t[j].version > version
  }

  /** A forward scan from `i` to `p` passes over nothing selected. */
  lemma ScanUp(t: Tree, q: Query, i: nat, p: nat)
    requires Sorted(t) && i < p <= |t| && Skipped(t, q.version, t[i].key, i + 1, p)
    requires p < |t| ==> t[p].key != t[i].key
    ensures UpFrom(t, q, i) == Pick(t, q, p, |t|)
  {
    GroupEndSpec(t, i);
    LtTotalOrder();
    var e := GroupEnd(t, i);
    assert e <= p;
    PickNone(t, q, e, p);
    PickSplit(t, q, e, p, |t|);
  }

  lemma ApartGroups(t: Tree, p: nat, i: nat)
    requires Sorted(t) && p < i < |t| && t[p].key != t[i].key
    ensures GroupEnd(t, p) <= GroupStart(t, i)
    ensures forall j :: GroupEnd(t, p) <= j < GroupStart(t, i) ==> t[j].key != t[i].key
  {
    GroupStartSpec(t, i);
    GroupEndSpec(t, p);
    var s := GroupStart(t, i);
    assert p < s && t[s].key == t[i].key;
    forall j | GroupEnd(t, p) <= j < s ensures t[j].key != t[i].key {
      LtTrichotomy(t[j].key, t[i].key);
    }
  }

  /** A reverse scan from `i` lands on the loaded item of the previous visible key. */
  lemma ScanDown(t: Tree, q: Query, i: nat, p: nat)
    requires Sorted(t) && p < i < |t| && Skipped(t, q.version, t[i].key, p + 1, i)
    requires t[p].key != t[i].key && t[p].version <= q.version
    ensures LoadPos(t, q.version, p) == p
    ensures DownFrom(t, q, i) == DownAt(t, q, p)
  {
    var s, e := GroupStart(t, i), GroupEnd(t, p);
    assert t[p + 1].key == t[p].key ==> t[p + 1].version > q.version;
    assert e <= s && Pick(t, q, 0, s) == Pick(t, q, 0, e) by {
      ApartGroups(t, p, i);
      forall j | e <= j < s ensures !Selected(t, q, j) {
        assert t[j].version > q.version;
      }
      PickNone(t, q, e, s);
      PickSplit(t, q, 0, e, s);
    }
  }

  lemma ScanDownNone(t: Tree, q: Query, i: nat)
    requires Sorted(t) && i < |t| && Skipped(t, q.version, t[i].key, 0, i)
    ensures DownFrom(t, q, i) == []
  {
    GroupStartSpec(t, i);
    LtTotalOrder();
    PickNone(t, q, 0, GroupStart(t, i));
  }

  // ---------------------------------------------------------------- leaving the range

  /** Forward, a key at or above the end is followed by nothing in range. */
  lemma PastEnd(t: Tree, q: Query, i: nat)
    requires Sorted(t) && i < |t| && !BelowEnd(q, t[i].key)
    ensures UpFrom(t, q, i) == []
  {
    GroupEndSpec(t, i);
    LtTotalOrder();
    PickNone(t, q, GroupEnd(t, i), |t|);
  }

  /** In reverse, an empty key or one below the start is followed by nothing in range. */
  lemma PastStart(t: Tree, q: Query, i: nat)
    requires Sorted(t) && i < |t| && (t[i].key == [] || Lt(t[i].key, Contents(q.start)))
    ensures DownFrom(t, q, i) == []
  {
    GroupStartSpec(t, i);
    LtTotalOrder();
    PickNone(t, q, 0, GroupStart(t, i));
  }

  /** Scanning on drops a prefix of what is left. */
  lemma DownFromMonotone(t: Tree, q: Query, i: nat, p: nat)
    requires Sorted(t) && p < i < |t| && t[p].key != t[i].key
    ensures GroupStart(t, p) <= p < GroupStart(t, i) <= i
    ensures DownFrom(t, q, i) == [] ==> DownFrom(t, q, p) == []
  {
    GroupStartSpec(t, i);
    GroupStartSpec(t, p);
    LtTotalOrder();
    PickSplit(t, q, 0, GroupStart(t, p), GroupStart(t, i));
    ReverseConcat(Pick(t, q, 0, GroupStart(t, p)), Pick(t, q, GroupStart(t, p), GroupStart(t, i)));
  }

  // ---------------------------------------------------------------- one step of the iterator

  /** What is left to yield after the key of item `i`. */
  function Left(t: Tree, q: Query, reverse: bool, i: nat): Tree
    requires Sorted(t) && i < |t|
  {
    if reverse then DownFrom(t, q, i) else UpFrom(t, q, i)
  }

  /** No key ahead lies outside the bound that the iteration moves away from, or nothing is ahead. */
  ghost predicate AlignedAt(t: Tree, q: Query, reverse: bool, i: nat)
    requires Sorted(t) && i < |t|
  {
    if reverse then DownFrom(t, q, i) == [] || forall j :: 0 <= j < GroupStart(t, i) ==> BelowEnd(q, t[j].key)
    else forall j :: GroupEnd(t, i) <= j < |t| ==> !Lt(t[j].key, Contents(q.start))
  }

  /** At either edge nothing is left. */
  lemma AtEdge(t: Tree, q: Query, reverse: bool)
    requires Sorted(t) && t != []
    ensures var edge := if reverse then 0 else |t| - 1;
            Left(t, q, reverse, edge) == [] && AlignedAt(t, q, reverse, edge)
  {
  }

  /** A scan that finds nothing means that nothing was left. */
  lemma ScanNone(t: Tree, q: Query, reverse: bool, i: nat)
    requires Sorted(t) && i < |t|
    requires if reverse then Skipped(t, q.version, t[i].key, 0, i) else Skipped(t, q.version, t[i].key, i + 1, |t|)
    ensures Left(t, q, reverse, i) == []
  {
    if reverse {
      ScanDownNone(t, q, i);
    } else {
      ScanUp(t, q, i, |t|);
    }
  }

  /** A scan that stops at `p` skips to its loaded item, and leaves the keys after it. */
  lemma ScanTo(t: Tree, q: Query, reverse: bool, i: nat, p: nat)
    requires Sorted(t) && i < |t| && p < |t| && t[p].key != t[i].key && t[p].version <= q.version
    requires if reverse then p < i && Skipped(t, q.version, t[i].key, p + 1, i)
             else i < p && Skipped(t, q.version, t[i].key, i + 1, p)
    ensures var l := LoadPos(t, q.version, p);
            && (if reverse then l < i else i < l)
            && Left(t, q, reverse, i) == Chosen(t, q, l) + Left(t, q, reverse, l)
            && (Selected(t, q, l) <==> ValidItem(q, t[l]))
            && (AlignedAt(t, q, reverse, i) ==> AlignedAt(t, q, reverse, l))
  {
    var l := LoadPos(t, q.version, p);
    LoadPosSpec(t, q, p);
    if reverse {
      ScanDown(t, q, i, p);
      LoadDown(t, q, p);
      DownFromMonotone(t, q, i, p);
    } else {
      ScanUp(t, q, i, p);
      LoadUp(t, q, p);
      ApartGroups(t, i, p);
    }
  }

  /** If the loaded item is live but not valid, the iteration has left the range for good. */
  lemma LeftRange(t: Tree, q: Query, reverse: bool, i: nat, l: nat)
    requires Sorted(t) && i < |t| && l < |t| && (if reverse then l < i else i < l) && t[l].key != t[i].key
    requires t[l].version <= q.version && !t[l].isDeleted && !ValidItem(q, t[l])
    requires AlignedAt(t, q, reverse, i)
    requires reverse ==> DownFrom(t, q, i) != []
    ensures Left(t, q, reverse, l) == []
  {
    LtTotalOrder();
    if reverse {
      GroupStartSpec(t, i);
      DownFromMonotone(t, q, i, l);
      PastStart(t, q, l);
    } else {
      GroupEndSpec(t, i);
      assert GroupEnd(t, i) <= l;
      assert Lt(t[i].key, t[l].key);
      PastEnd(t, q, l);
    }
  }

  /** One step along `list`: its head is current and its tail is left, or it was empty. */
  ghost predicate Yields(list: Tree, ok: bool, current: Item, left: Tree) {
    && (ok <==> list != [])
    && (if list == [] then left == [] else current == list[0] && left == list[1..])
  }

  /** What `next` achieves once its scan stops at `p`, if it then loads and checks the item. */
  lemma AfterScan(t: Tree, q: Query, reverse: bool, i: nat, p: nat)
    requires Sorted(t) && i < |t| && p < |t| && t[p].key != t[i].key && t[p].version <= q.version
    requires if reverse then p < i && Skipped(t, q.version, t[i].key, p + 1, i)
             else i < p && Skipped(t, q.version, t[i].key, i + 1, p)
    ensures var l := LoadPos(t, q.version, p);
            && (if reverse then l < i else i < l)
            && (AlignedAt(t, q, reverse, i) ==> AlignedAt(t, q, reverse, l))
            && (t[l].isDeleted ==> Left(t, q, reverse, l) == Left(t, q, reverse, i))
            && (!t[l].isDeleted && AlignedAt(t, q, reverse, i) ==>
                  Yields(Left(t, q, reverse, i), ValidItem(q, t[l]), t[l], Left(t, q, reverse, l)))
  {
    var l := LoadPos(t, q.version, p);
    ScanTo(t, q, reverse, i, p);
    LoadPosSpec(t, q, p);
    if !t[l].isDeleted && !ValidItem(q, t[l]) && AlignedAt(t, q, reverse, i) {
      if !reverse || DownFrom(t, q, i) != [] {
        LeftRange(t, q, reverse, i, l);
      }
    }
  }

  /** What a landing at `i` achieves, if its loaded item is valid; if not, the next step takes over. */
  lemma AfterLanding(t: Tree, q: Query, reverse: bool, i: nat)
    requires Sorted(t) && i < |t|
    ensures var l, list := LoadPos(t, q.version, i), if reverse then DownAt(t, q, i) else Pick(t, q, i, |t|);
            && (if ValidItem(q, t[l]) then Yields(list, true, t[l], Left(t, q, reverse, l)) else Left(t, q, reverse, l) == list)
            && (AlignedAt(t, q, reverse, i) ==> AlignedAt(t, q, reverse, l))
  {
    LoadPosSpec(t, q, i);
    if reverse {
      LoadDown(t, q, i);
    } else {
      LoadUp(t, q, i);
    }
  }

  // ---------------------------------------------------------------- steps that may leave the range

  /** The same snapshot without bounds: what the scans move along, before `valid` checks the range. */
  function Unbounded(q: Query): Query {
    Query(q.version, None, None)
  }

  /** One step along `list`: its head becomes current, and the step succeeds if that lies in range. */
  ghost predicate Walks(q: Query, list: Tree, ok: bool, current: Item, left: Tree) {
    if list == [] then !ok && left == []
    else current == list[0] && left == list[1..] && (ok <==> InRange(q, current.key))
  }

  /** Whether a step succeeds shows in the head of its list. */
  lemma WalkHits(q: Query, list: Tree, ok: bool, current: Item, left: Tree)
    requires Walks(q, list, ok, current, left)
    ensures Head(q, list) == if ok then [current] else []
    ensures left == Tail(list)
  {
  }

  function Tail(list: Tree): Tree {
    if list == [] then [] else list[1..]
  }

  /** The head of a list, if it is in range. */
  function Head(q: Query, list: Tree): Tree {
    if list != [] && InRange(q, list[0].key) then [list[0]] else []
  }

  /** What lies ahead of a landing at `i`: an item that is valid counts as not yet passed. */
  function Settled(t: Tree, q: Query, reverse: bool, i: nat): Tree
    requires Sorted(t) && i < |t|
  {
    var l := LoadPos(t, q.version, i);
    var ahead := Left(t, Unbounded(q), reverse, l);
    if ValidItem(q, t[l]) then [t[l]] + ahead else ahead
  }

  /** `AfterScan` for the walk that ignores the bounds. */
  lemma WalkAfterScan(t: Tree, q: Query, reverse: bool, i: nat, p: nat)
    requires Sorted(t) && i < |t| && p < |t| && t[p].key != t[i].key && t[p].version <= q.version
    requires if reverse then p < i && Skipped(t, q.version, t[i].key, p + 1, i)
             else i < p && Skipped(t, q.version, t[i].key, i + 1, p)
    ensures var u, l := Unbounded(q), LoadPos(t, q.version, p);
            && (t[l].isDeleted ==> Left(t, u, reverse, l) == Left(t, u, reverse, i))
            && (!t[l].isDeleted ==> Walks(q, Left(t, u, reverse, i), ValidItem(q, t[l]), t[l], Left(t, u, reverse, l)))
  {
    var u := Unbounded(q);
    assert AlignedAt(t, u, reverse, i);
    AfterScan(t, u, reverse, i, p);
    LoadPosSpec(t, q, p);
  }

  /** The items of a list that are in range. */
  function Within(q: Query, s: Tree): Tree {
    if s == [] then [] else (if InRange(q, s[0].key) then [s[0]] else []) + Within(q, s[1..])
  }

  lemma {:induction false} WithinConcat(q: Query, a: Tree, b: Tree)
    ensures Within(q, a + b) == Within(q, a) + Within(q, b)
  {
    if a == [] {
      assert a + b == b;
    } else {
      var s, head := a + b, if InRange(q, a[0].key) then [a[0]] else [];
      assert s[0] == a[0] && s[1..] == a[1..] + b;
      assert Within(q, s) == head + (Within(q, a[1..]) + Within(q, b)) by {
        WithinConcat(q, a[1..], b);
      }
    }
  }

  lemma {:induction false} WithinEmpty(q: Query, s: Tree)
    ensures Within(q, s) == [] <==> forall x :: x in s ==> !InRange(q, x.key)
  {
    if s != [] {
      WithinEmpty(q, s[1..]);
      assert s == [s[0]] + s[1..];
    }
  }

  lemma {:induction false} WithinReverse(q: Query, s: Tree)
    ensures Within(q, Reverse(s)) == Reverse(Within(q, s))
  {
    if s != [] {
      var front, x := s[..|s| - 1], s[|s| - 1];
      assert s == front + [x];
      assert Within(q, Reverse(s)) == Within(q, [x]) + Reverse(Within(q, front)) by {
        WithinConcat(q, [x], Reverse(front));
        WithinReverse(q, front);
      }
      assert Reverse(Within(q, s)) == Within(q, [x]) + Reverse(Within(q, front)) by {
        WithinConcat(q, front, [x]);
        ReverseConcat(Within(q, front), Within(q, [x]));
        WithinOne(q, x);
      }
    }
  }

  lemma WithinOne(q: Query, x: Item)
    ensures Within(q, [x]) == (if InRange(q, x.key) then [x] else []) == Reverse(Within(q, [x]))
  {
    assert [x][1..] == [];
  }

  /** The snapshot is the part of the unbounded one that is in range. */
  lemma {:induction false} WithinPick(t: Tree, q: Query, a: nat, b: nat)
    requires a <= b <= |t|
    ensures Within(q, Pick(t, Unbounded(q), a, b)) == Pick(t, q, a, b)
  {
    if a < b {
      var u := Unbounded(q);
      assert Within(q, Pick(t, u, a, b - 1)) == Pick(t, q, a, b - 1) by {
        WithinPick(t, q, a, b - 1);
      }
      WithinConcat(q, Pick(t, u, a, b - 1), Chosen(t, u, b - 1));
      WithinChosen(t, q, b - 1);
    }
  }

  lemma WithinChosen(t: Tree, q: Query, i: nat)
    requires i < |t|
    ensures Within(q, Chosen(t, Unbounded(q), i)) == Chosen(t, q, i)
  {
    WithinOne(q, t[i]);
    assert Lt(t[i].key, []) == false;
  }

  lemma WithinLeft(t: Tree, q: Query, reverse: bool, i: nat)
    requires Sorted(t) && i < |t|
    ensures Within(q, Left(t, Unbounded(q), reverse, i)) == Left(t, q, reverse, i)
  {
    if reverse {
      WithinPick(t, q, 0, GroupStart(t, i));
      WithinReverse(q, Pick(t, Unbounded(q), 0, GroupStart(t, i)));
    } else {
      WithinPick(t, q, GroupEnd(t, i), |t|);
    }
  }

  /** In all, the calls from a landing on succeed for exactly the selected items. */
  lemma WithinSettled(t: Tree, q: Query, reverse: bool, i: nat)
    requires Sorted(t) && i < |t|
    ensures Within(q, Settled(t, q, reverse, i)) == if reverse then DownAt(t, q, i) else Pick(t, q, i, |t|)
  {
    var l := LoadPos(t, q.version, i);
    LoadPosSpec(t, q, i);
    WithinLeft(t, q, reverse, l);
    WithinConcat(q, [t[l]], Left(t, Unbounded(q), reverse, l));
    WithinOne(q, t[l]);
    if reverse {
      LoadDown(t, q, i);
    } else {
      LoadUp(t, q, i);
    }
  }

  // ---------------------------------------------------------------- successes first

  /** Repeated steps along `walk` succeed for exactly `list`, first to last, and then never again. */
  ghost predicate Delivers(q: Query, walk: Tree, list: Tree) {
    && list <= walk
    && (forall x :: x in list ==> InRange(q, x.key))
    && (forall x :: x in walk[|list|..] ==> !InRange(q, x.key))
  }

  lemma {:induction false} DeliversWithin(q: Query, walk: Tree, list: Tree)
    requires Delivers(q, walk, list)
    ensures list == Within(q, walk)
  {
    if list == [] {
      assert walk[0..] == walk;
      WithinEmpty(q, walk);
    } else {
      assert list[0] in list && walk[0] == list[0] && list[1..] <= walk[1..];
      assert walk[1..][|list[1..]|..] == walk[|list|..];
      DeliversWithin(q, walk[1..], list[1..]);
      assert list == [list[0]] + list[1..];
    }
  }

  lemma DeliversNone(q: Query, walk: Tree)
    requires Within(q, walk) == []
    ensures Delivers(q, walk, [])
  {
    WithinEmpty(q, walk);
    assert walk[0..] == walk;
  }

  lemma DeliversCons(q: Query, x: Item, walk: Tree, list: Tree)
    requires Delivers(q, walk, list) && InRange(q, x.key)
    ensures Delivers(q, [x] + walk, [x] + list)
  {
    assert ([x] + walk)[|[x] + list|..] == walk[|list|..];
    assert [x] + walk == ([x] + list) + walk[|list|..];
  }

  /** Along ordered keys on the right side of the bound left behind, the range comes first. */
  lemma {:induction false} RangeFirst(q: Query, reverse: bool, s: Tree)
    requires forall i, j :: 0 <= i < j < |s| ==> if reverse then Lt(s[j].key, s[i].key) else Lt(s[i].key, s[j].key)
    requires forall x :: x in s ==> if reverse then BelowEnd(q, x.key) else !Lt(x.key, Contents(q.start))
    ensures Delivers(q, s, Within(q, s))
  {
    if s != [] {
      assert s == [s[0]] + s[1..];
      if InRange(q, s[0].key) {
        RangeFirst(q, reverse, s[1..]);
        DeliversCons(q, s[0], s[1..], Within(q, s[1..]));
      } else {
        LtTotalOrder();
        forall x | x in s ensures !InRange(q, x.key) {
          assert s[0] in s;
        }
        WithinEmpty(q, s);
        DeliversNone(q, s);
      }
    }
  }

  lemma LeftOrdered(t: Tree, q: Query, reverse: bool, l: nat)
    requires Sorted(t) && l < |t|
    ensures var s := Left(t, q, reverse, l);
            forall i, j :: 0 <= i < j < |s| ==> if reverse then Lt(s[j].key, s[i].key) else Lt(s[i].key, s[j].key)
  {
    if reverse {
      var up, s := Pick(t, q, 0, GroupStart(t, l)), Left(t, q, true, l);
      PickAscending(t, q, 0, GroupStart(t, l));
      ReverseLength(up);
      forall i, j | 0 <= i < j < |s| ensures Lt(s[j].key, s[i].key) {
        ReverseAt(up, i);
        ReverseAt(up, j);
      }
    } else {
      PickAscending(t, q, GroupEnd(t, l), |t|);
    }
  }

  lemma LeftMember(t: Tree, q: Query, reverse: bool, l: nat, x: Item) returns (j: nat)
    requires Sorted(t) && l < |t| && x in Left(t, q, reverse, l)
    ensures j < |t| && t[j] == x && if reverse then j < GroupStart(t, l) else GroupEnd(t, l) <= j
  {
    if reverse {
      var up := Pick(t, q, 0, GroupStart(t, l));
      ReverseLength(up);
      var i :| 0 <= i < |up| && Reverse(up)[i] == x;
      ReverseAt(up, i);
      PickMembers(t, q, 0, GroupStart(t, l));
      assert x in up;
      j :| 0 <= j < GroupStart(t, l) && Selected(t, q, j) && t[j] == x;
    } else {
      PickMembers(t, q, GroupEnd(t, l), |t|);
      j :| GroupEnd(t, l) <= j < |t| && Selected(t, q, j) && t[j] == x;
    }
  }

  /** From an aligned landing the successful steps come first. */
  lemma AlignedDelivers(t: Tree, q: Query, reverse: bool, i: nat)
    requires Sorted(t) && i < |t| && AlignedAt(t, q, reverse, i)
    ensures Delivers(q, Settled(t, q, reverse, i), Within(q, Settled(t, q, reverse, i)))
  {
    var u, l := Unbounded(q), LoadPos(t, q.version, i);
    var rest := Left(t, u, reverse, l);
    AfterLanding(t, q, reverse, i);
    assert Delivers(q, rest, Within(q, rest)) by {
      if reverse && DownFrom(t, q, l) == [] {
        WithinLeft(t, q, reverse, l);
        DeliversNone(q, rest);
      } else {
        LeftOrdered(t, u, reverse, l);
        forall x | x in rest ensures if reverse then BelowEnd(q, x.key) else !Lt(x.key, Contents(q.start)) {
          var j := LeftMember(t, u, reverse, l, x);
        }
        RangeFirst(q, reverse, rest);
      }
    }
    if ValidItem(q, t[l]) {
      DeliversCons(q, t[l], rest, Within(q, rest));
      assert ([t[l]] + rest)[1..] == rest;
    }
  }
}
