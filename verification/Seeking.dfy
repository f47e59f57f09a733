/**
 Where `Seek` and a restart land, what they leave to yield, and exactly when that is what
 the iterator contract asks for.
 */
module Seeking {
  import opened Bytes
  import opened Sequences
  import opened VersionTree
  import opened Snapshots
  import opened Cursors

  function Pivot(key: Bytes, version: nat): Item {
    Item(key, version, [], false, false)
  }

  /** The bound nearest to the sought key inside the iterator's range. */
  function Target(q: Query, reverse: bool, key: Bytes): Bytes {
    if reverse then (if q.end.Some? && Lt(q.end.value, key) then q.end.value else key)
    else (if q.start.Some? && Lt(key, q.start.value) then q.start.value else key)
  }

  /** The version sought: that of the sought key (not of the target) if it is live, else the snapshot's. */
  function SeekVersion(t: Tree, q: Query, key: Bytes): nat {
    var r := Get(t, key, q.version);
    if Live(r) then r.version else q.version
  }

  /** The index where the tree cursor's `Seek` stops. */
  function SeekPos(t: Tree, q: Query, reverse: bool, key: Bytes): nat {
    LowerBound(t, Pivot(Target(q, reverse, key), SeekVersion(t, q, key)))
  }

  /** The landing item in reverse: one step back unless the key matches, the last item if that fails. */
  function LandDown(t: Tree, q: Query, key: Bytes): (l: nat)
    requires t != []
    ensures l < |t|
  {
    var p := SeekPos(t, q, true, key);
    if p < |t| && t[p].key == Target(q, true, key) then p
    else if 0 < p < |t| then p - 1
    else |t| - 1
  }

  /** What lies ahead of `Seek`, in range or not, counting the item it stops on. */
  function SeekWalk(t: Tree, q: Query, reverse: bool, key: Bytes): Tree
    requires Sorted(t)
  {
    if t == [] then []
    else if reverse then Settled(t, q, true, LandDown(t, q, key))
    else if SeekPos(t, q, false, key) < |t| then Settled(t, q, false, SeekPos(t, q, false, key))
    else []
  }

  /** The items that `Seek` and all later calls of `Next` yield. */
  function SeekList(t: Tree, q: Query, reverse: bool, key: Bytes): Tree
    requires Sorted(t)
  {
    if t == [] then []
    else if reverse then DownAt(t, q, LandDown(t, q, key))
    else Pick(t, q, SeekPos(t, q, false, key), |t|)
  }

  /** What a new or reset iterator yields. */
  function StartList(t: Tree, q: Query, reverse: bool): Tree
    requires Sorted(t)
  {
    if !reverse then Snapshot(t, q)
    else if t == [] then []
    else if Contents(q.end) != [] then SeekList(t, q, true, Contents(q.end))
    else DownAt(t, q, |t| - 1)
  }

  // ---------------------------------------------------------------- parts of a list

  /** The items at or above `k`. */
  function AtLeast(s: Tree, k: Bytes): Tree {
    if s == [] then []
    else AtLeast(s[..|s| - 1], k) + (if Lt(s[|s| - 1].key, k) then [] else [s[|s| - 1]])
  }

  /** The items at or below `k`. */
  function AtMost(s: Tree, k: Bytes): Tree {
    if s == [] then []
    else AtMost(s[..|s| - 1], k) + (if Lt(k, s[|s| - 1].key) then [] else [s[|s| - 1]])
  }

  /** The number of items with a key below `k`. */
  function CountBelow(t: Tree, k: Bytes): (c: nat)
    ensures c <= |t|
  {
    LowerBound(t, Pivot(k, 0))
  }

  lemma CountBelowSpec(t: Tree, k: Bytes, i: nat)
    requires Sorted(t) && i < |t|
    ensures i < CountBelow(t, k) <==> Lt(t[i].key, k)
  {
    LowerBoundSplits(t, Pivot(k, 0), i);
  }

  lemma {:induction false} AtLeastConcat(a: Tree, b: Tree, k: Bytes)
    ensures AtLeast(a + b, k) == AtLeast(a, k) + AtLeast(b, k)
  {
    if b == [] {
      assert a + b == a;
    } else {
      var b', s := b[..|b| - 1], a + b;
      AtLeastConcat(a, b', k);
      assert s[..|s| - 1] == a + b' && s[|s| - 1] == b[|b| - 1];
    }
  }

  lemma {:induction false} AtMostConcat(a: Tree, b: Tree, k: Bytes)
    ensures AtMost(a + b, k) == AtMost(a, k) + AtMost(b, k)
  {
    if b == [] {
      assert a + b == a;
    } else {
      var b', s := b[..|b| - 1], a + b;
      AtMostConcat(a, b', k);
      assert s[..|s| - 1] == a + b' && s[|s| - 1] == b[|b| - 1];
    }
  }

  lemma {:induction false} FilterUniform(s: Tree, k: Bytes)
    ensures (forall x :: x in s ==> Lt(x.key, k)) ==> AtLeast(s, k) == []
    ensures (forall x :: x in s ==> !Lt(x.key, k)) ==> AtLeast(s, k) == s
    ensures (forall x :: x in s ==> Lt(k, x.key)) ==> AtMost(s, k) == []
    ensures (forall x :: x in s ==> !Lt(k, x.key)) ==> AtMost(s, k) == s
  {
    if s != [] {
      FilterUniform(s[..|s| - 1], k);
      assert s == s[..|s| - 1] + [s[|s| - 1]];
    }
  }

  lemma PickIndex(t: Tree, q: Query, a: nat, b: nat, x: Item) returns (i: nat)
    requires a <= b <= |t| && x in Pick(t, q, a, b)
    ensures a <= i < b && t[i] == x
  {
    PickMembers(t, q, a, b);
    i :| a <= i < b && Selected(t, q, i) && t[i] == x;
  }

  /** The part of the snapshot at or above `k` starts at the first item of `k` or above. */
  lemma AtLeastPick(t: Tree, q: Query, k: Bytes)
    requires Sorted(t)
    ensures AtLeast(Snapshot(t, q), k) == Pick(t, q, CountBelow(t, k), |t|)
  {
    var c := CountBelow(t, k);
    var low, high := Pick(t, q, 0, c), Pick(t, q, c, |t|);
    PickSplit(t, q, 0, c, |t|);
    forall x | x in low ensures Lt(x.key, k) {
      var i := PickIndex(t, q, 0, c, x);
      CountBelowSpec(t, k, i);
    }
    forall x | x in high ensures !Lt(x.key, k) {
      var i := PickIndex(t, q, c, |t|, x);
      CountBelowSpec(t, k, i);
    }
    FilterUniform(low, k);
    FilterUniform(high, k);
    AtLeastConcat(low, high, k);
  }

  /** The part of the snapshot at or below `k` ends where the keys exceed `k`. */
  lemma AtMostPick(t: Tree, q: Query, k: Bytes, e: nat)
    requires e <= |t| && forall i :: 0 <= i < |t| ==> (i < e <==> !Lt(k, t[i].key))
    ensures AtMost(Snapshot(t, q), k) == Pick(t, q, 0, e)
  {
    var low, high := Pick(t, q, 0, e), Pick(t, q, e, |t|);
    PickSplit(t, q, 0, e, |t|);
    forall x | x in low ensures !Lt(k, x.key) {
      var i := PickIndex(t, q, 0, e, x);
    }
    forall x | x in high ensures Lt(k, x.key) {
      var i := PickIndex(t, q, e, |t|, x);
    }
    FilterUniform(low, k);
    FilterUniform(high, k);
    AtMostConcat(low, high, k);
  }

  // ---------------------------------------------------------------- forward

  /**
   The cases in which a forward `Seek` goes wrong: the sought key is below a start that the
   snapshot has and that is in range, and the start's item is older than the sought key's,
   or, if the sought key is not live, than the snapshot.
   */
  predicate Overshoots(t: Tree, q: Query, key: Bytes) {
    && q.start.Some? && Lt(key, q.start.value) && BelowEnd(q, q.start.value)
    && var first, sought := Get(t, q.start.value, q.version), Get(t, key, q.version);
    Live(first) && first.version < if Live(sought) then sought.version else q.version
  }

  /** Between the target's first version and the place `Seek` stops there are only versions of the target. */
  lemma PassedOver(t: Tree, q: Query, key: Bytes)
    requires Sorted(t)
    ensures var k := Target(q, false, key);
            CountBelow(t, k) <= SeekPos(t, q, false, key) <= |t|
    ensures Pick(t, q, CountBelow(t, Target(q, false, key)), SeekPos(t, q, false, key)) == [] <==> !Overshoots(t, q, key)
  {
    var k, v := Target(q, false, key), SeekVersion(t, q, key);
    var c, p := CountBelow(t, k), SeekPos(t, q, false, key);
    if c > p {
      LowerBoundSplits(t, Pivot(k, v), p);
      CountBelowSpec(t, k, p);
    }
    forall i | c <= i < |t| ensures i < p <==> t[i].key == k && t[i].version < v {
      LowerBoundSplits(t, Pivot(k, v), i);
      CountBelowSpec(t, k, i);
    }
    PickMembers(t, q, c, p);
    GetIsNewest(t, k, q.version);
    var r := Get(t, k, q.version);
    if Overshoots(t, q, key) {
      var i :| 0 <= i < |t| && t[i] == r;
      CountBelowSpec(t, k, i);
      LtTrichotomy(k, k);
      VisibleIsGet(t, q.version, i);
      assert Selected(t, q, i);
    }
    forall i | c <= i < p && Selected(t, q, i) ensures Overshoots(t, q, key) {
      VisibleIsGet(t, q.version, i);
    }
    PickEmpty(t, q, c, p);
  }

  lemma PickEmpty(t: Tree, q: Query, a: nat, b: nat)
    requires a <= b <= |t|
    ensures Pick(t, q, a, b) == [] <==> forall i :: a <= i < b ==> !Selected(t, q, i)
  {
    PickMembers(t, q, a, b);
    if forall i :: a <= i < b ==> !Selected(t, q, i) {
      PickNone(t, q, a, b);
    } else {
      var i :| a <= i < b && Selected(t, q, i);
      assert t[i] in Pick(t, q, a, b);
    }
  }

  /** Keys below the start are not in the snapshot, so the target leaves the same part of it. */
  lemma AtLeastTarget(t: Tree, q: Query, key: Bytes)
    requires Sorted(t)
    ensures AtLeast(Snapshot(t, q), key) == Pick(t, q, CountBelow(t, Target(q, false, key)), |t|)
  {
    var k := Target(q, false, key);
    var c, c' := CountBelow(t, key), CountBelow(t, k);
    AtLeastPick(t, q, key);
    if k != key {
      LtTotalOrder();
      if c' < c {
        CountBelowSpec(t, key, c');
        CountBelowSpec(t, k, c');
      }
      forall i | c <= i < c' ensures !Selected(t, q, i) {
        CountBelowSpec(t, k, i);
      }
      PickNone(t, q, c, c');
      PickSplit(t, q, c, c', |t|);
    }
  }

  lemma ForwardSeekList(t: Tree, q: Query, key: Bytes)
    requires Sorted(t)
    ensures SeekList(t, q, false, key) == AtLeast(Snapshot(t, q), key) <==> !Overshoots(t, q, key)
  {
    var k := Target(q, false, key);
    var c, p := CountBelow(t, k), SeekPos(t, q, false, key);
    PassedOver(t, q, key);
    AtLeastTarget(t, q, key);
    PickSplit(t, q, c, p, |t|);
    assert Pick(t, q, c, |t|) == Pick(t, q, p, |t|) <==> |Pick(t, q, c, p)| == 0;
  }

  /** In all, `Seek` and later calls succeed for the items of the seek list. */
  lemma WithinSeek(t: Tree, q: Query, reverse: bool, key: Bytes)
    requires Sorted(t)
    ensures Within(q, SeekWalk(t, q, reverse, key)) == SeekList(t, q, reverse, key)
  {
    if t != [] {
      if reverse {
        WithinSettled(t, q, true, LandDown(t, q, key));
      } else if SeekPos(t, q, false, key) < |t| {
        WithinSettled(t, q, false, SeekPos(t, q, false, key));
      }
    }
  }

  /**
   Forward `Seek` and the calls of `Next` after it yield exactly the snapshot from the sought
   key on, and then nothing, if and only if the seek does not pass over its target.
   */
  lemma ForwardSeekExact(t: Tree, q: Query, key: Bytes)
    requires Sorted(t)
    ensures Delivers(q, SeekWalk(t, q, false, key), AtLeast(Snapshot(t, q), key)) <==> !Overshoots(t, q, key)
  {
    var walk, list := SeekWalk(t, q, false, key), AtLeast(Snapshot(t, q), key);
    ForwardSeekList(t, q, key);
    WithinSeek(t, q, false, key);
    if Delivers(q, walk, list) {
      DeliversWithin(q, walk, list);
    }
    if t == [] || SeekPos(t, q, false, key) == |t| {
      DeliversNone(q, walk);
    } else {
      ForwardAligned(t, q, key);
      AlignedDelivers(t, q, false, SeekPos(t, q, false, key));
    }
  }

  /** A key that is not below the start is its own target, and is never passed over. */
  lemma ForwardSeekInRange(t: Tree, q: Query, key: Bytes)
    requires Sorted(t) && !Lt(key, Contents(q.start))
    ensures SeekList(t, q, false, key) == AtLeast(Snapshot(t, q), key)
    ensures Delivers(q, SeekWalk(t, q, false, key), AtLeast(Snapshot(t, q), key))
  {
    ForwardSeekList(t, q, key);
    ForwardSeekExact(t, q, key);
  }

  /** Restarting forward by seeking the start yields the whole snapshot. */
  lemma ForwardStart(t: Tree, q: Query)
    requires Sorted(t)
    ensures SeekList(t, q, false, Contents(q.start)) == Snapshot(t, q)
  {
    var k := Contents(q.start);
    LtTrichotomy(k, k);
    ForwardSeekInRange(t, q, k);
    var c := CountBelow(t, k);
    AtLeastPick(t, q, k);
    forall i | 0 <= i < c ensures !Selected(t, q, i) {
      CountBelowSpec(t, k, i);
    }
    PickNone(t, q, 0, c);
    PickSplit(t, q, 0, c, |t|);
  }

  // ---------------------------------------------------------------- reverse

  /** The target, or the greatest stored key below it. */
  predicate Stored(t: Tree, k: Bytes) {
    CountBelow(t, k) < |t| && t[CountBelow(t, k)].key == k
  }

  /** Where a reverse `Seek` lands: in the target's run, else just below it, else on the last item. */
  lemma LandDownSpec(t: Tree, q: Query, key: Bytes)
    requires Sorted(t) && t != []
    ensures var k, l := Target(q, true, key), LandDown(t, q, key);
            var c := CountBelow(t, k);
            if Stored(t, k) then t[l].key == k
            else l == if c > 0 then c - 1 else |t| - 1
  {
    var k, v := Target(q, true, key), SeekVersion(t, q, key);
    var c, p, l := CountBelow(t, k), SeekPos(t, q, true, key), LandDown(t, q, key);
    forall i | 0 <= i < |t| ensures i < p <==> Lt(t[i].key, k) || (t[i].key == k && t[i].version < v) {
      LowerBoundSplits(t, Pivot(k, v), i);
    }
    forall i | 0 <= i < |t| ensures i < c <==> Lt(t[i].key, k) {
      CountBelowSpec(t, k, i);
    }
    LtTotalOrder();
    if Stored(t, k) {
      assert c <= p;
      if p < |t| && t[p].key == k {
      } else {
        assert c < p;
        RunUpTo(t, k, c, p - 1);
      }
    } else {
      assert forall i :: c <= i < |t| ==> t[i].key != k by {
        forall i | c <= i < |t| ensures t[i].key != k {
          assert i == c || Before(t[c], t[i]);
        }
      }
      assert c <= p;
      assert p == c;
    }
  }

  /** The run of `k` reaches up to the last item that is not above it. */
  lemma RunUpTo(t: Tree, k: Bytes, c: nat, i: nat)
    requires Sorted(t) && c <= i < |t| && t[c].key == k && !Lt(k, t[i].key)
    ensures t[i].key == k
  {
    LtTotalOrder();
    assert c == i || Before(t[c], t[i]);
  }

  /** The number of items with a key at or below `k`. */
  function CountUpTo(t: Tree, k: Bytes): (e: nat)
    ensures e <= |t|
  {
    if Stored(t, k) then GroupEnd(t, CountBelow(t, k)) else CountBelow(t, k)
  }

  lemma CountUpToSpec(t: Tree, k: Bytes)
    requires Sorted(t)
    ensures forall i :: 0 <= i < |t| ==> (i < CountUpTo(t, k) <==> !Lt(k, t[i].key))
  {
    var c := CountBelow(t, k);
    LtTotalOrder();
    if Stored(t, k) {
      GroupEndSpec(t, c);
    }
    forall i | 0 <= i < |t| ensures i < CountUpTo(t, k) <==> !Lt(k, t[i].key) {
      CountBelowSpec(t, k, i);
      assert c < i ==> Before(t[c], t[i]);
      if c < |t| {
        CountBelowSpec(t, k, c);
      }
    }
  }

  /** Within the range, at most the sought key is at most the target. */
  lemma AtMostTarget(t: Tree, q: Query, key: Bytes)
    requires Sorted(t) && Target(q, true, key) != []
    ensures AtMost(Snapshot(t, q), key) == Pick(t, q, 0, CountUpTo(t, Target(q, true, key)))
  {
    var k := Target(q, true, key);
    CountUpToSpec(t, key);
    AtMostPick(t, q, key, CountUpTo(t, key));
    if k != key {
      CountUpToSpec(t, k);
      var e, e' := CountUpTo(t, k), CountUpTo(t, key);
      LtTotalOrder();
      assert e <= e';
      forall i | e <= i < e' ensures !Selected(t, q, i) {
        assert Lt(k, t[i].key);
      }
      PickNone(t, q, e, e');
      PickSplit(t, q, 0, e, e');
    }
  }

  /** The newest version at `i` hides from a reverse landing a key that the snapshot selects. */
  predicate Hides(t: Tree, q: Query, i: nat)
    requires i < |t|
  {
    t[i].version > q.version && Live(Get(t, t[i].key, q.version)) && InRange(q, t[i].key)
  }

  /** Landing on the last item of a run yields from there down unless it hides its key. */
  lemma DownAtExact(t: Tree, q: Query, i: nat)
    requires Sorted(t) && i < |t|
    ensures DownAt(t, q, i) == Reverse(Pick(t, q, 0, GroupEnd(t, i))) <==> !Hides(t, q, i)
  {
    if t[i].version > q.version {
      var s, e := GroupStart(t, i), GroupEnd(t, i);
      PickSplit(t, q, 0, s, e);
      ReverseConcat(Pick(t, q, 0, s), Pick(t, q, s, e));
      ReverseLength(Pick(t, q, s, e));
      GroupLive(t, q, i);
      assert DownAt(t, q, i) == Reverse(Pick(t, q, 0, e)) <==> |Reverse(Pick(t, q, s, e))| == 0;
    }
  }

  /** A run holds a selected item exactly when its key is live at the snapshot and in range. */
  lemma GroupLive(t: Tree, q: Query, i: nat)
    requires Sorted(t) && i < |t|
    ensures Pick(t, q, GroupStart(t, i), GroupEnd(t, i)) != [] <==> Live(Get(t, t[i].key, q.version)) && InRange(q, t[i].key)
  {
    var s, e, k := GroupStart(t, i), GroupEnd(t, i), t[i].key;
    GroupStartSpec(t, i);
    GroupEndSpec(t, i);
    PickEmpty(t, q, s, e);
    GetIsNewest(t, k, q.version);
    var r := Get(t, k, q.version);
    forall j | s <= j < e && Selected(t, q, j) ensures Live(r) && InRange(q, k) {
      VisibleIsGet(t, q.version, j);
    }
    if Live(r) && InRange(q, k) {
      var j :| 0 <= j < |t| && t[j] == r;
      LtTrichotomy(k, k);
      assert s <= j < e;
      VisibleIsGet(t, q.version, j);
      assert Selected(t, q, j);
    }
  }

  /** If the target is stored, the landing never hides it. */
  lemma StoredLanding(t: Tree, q: Query, key: Bytes)
    requires Sorted(t) && t != [] && Target(q, true, key) != [] && Stored(t, Target(q, true, key))
    ensures !Hides(t, q, LandDown(t, q, key))
  {
    var k, l := Target(q, true, key), LandDown(t, q, key);
    var r := Get(t, k, q.version);
    LandDownSpec(t, q, key);
    if Live(r) && InRange(q, k) {
      LtTrichotomy(k, k);
      assert k == key;
      GetIsNewest(t, k, q.version);
      var j :| 0 <= j < |t| && t[j] == r;
      SeekFindsSlot(t, j);
      assert l == j;
    }
  }

  /** Seeking a stored item finds it. */
  lemma SeekFindsSlot(t: Tree, j: nat)
    requires Sorted(t) && j < |t|
    ensures LowerBound(t, Pivot(t[j].key, t[j].version)) == j
  {
    var x := Pivot(t[j].key, t[j].version);
    var p := LowerBound(t, x);
    BeforeTotalOrder();
    LowerBoundSplits(t, x, j);
    assert j >= p;
    if p < |t| {
      LowerBoundSplits(t, x, p);
    }
  }

  /** A reverse iteration from the last item meets item `i`: its key is not one that the last item hides. */
  predicate Reached(t: Tree, q: Query, i: nat)
    requires i < |t|
  {
    t[|t| - 1].version <= q.version || t[i].key != t[|t| - 1].key
  }

  /**
   The cases in which a reverse `Seek` goes wrong. A target that is empty, as an empty end
   makes it, is found only as an empty key, below everything that is wanted. A target that is
   not stored leaves the key below it, unless that is hidden. If no key is below it either,
   the seek falls back to the last item, which is right only if that reaches exactly the
   selected keys that are not above the sought one.
   */
  predicate Misses(t: Tree, q: Query, key: Bytes)
    requires Sorted(t)
  {
    var k := if q.end.Some? && Lt(q.end.value, key) then q.end.value else key;
    && t != []
    && if Stored(t, k) then k == [] && exists i :: 0 <= i < |t| && Selected(t, q, i) && !Lt(key, t[i].key)
       else if CountBelow(t, k) > 0 then Hides(t, q, CountBelow(t, k) - 1)
       else exists i :: 0 <= i < |t| && Selected(t, q, i) && (Lt(key, t[i].key) <==> Reached(t, q, i))
  }

  /** The landing on the last item, against what is wanted. */
  lemma FallbackExact(t: Tree, q: Query, key: Bytes)
    requires Sorted(t) && t != []
    ensures DownAt(t, q, |t| - 1) == Reverse(AtMost(Snapshot(t, q), key)) <==>
              !exists i :: 0 <= i < |t| && Selected(t, q, i) && (Lt(key, t[i].key) <==> Reached(t, q, i))
  {
    var last, u := |t| - 1, CountUpTo(t, key);
    var e := if t[last].version > q.version then GroupStart(t, last) else |t|;
    GroupStartSpec(t, last);
    CountUpToSpec(t, key);
    AtMostPick(t, q, key, u);
    LtTrichotomy(t[last].key, t[last].key);
    assert forall i :: 0 <= i < |t| ==> (i < e <==> Reached(t, q, i)) by {
      forall i | 0 <= i < |t| ensures i < e <==> Reached(t, q, i) {
      }
    }
    var low, high := if e <= u then e else u, if e <= u then u else e;
    ReverseDiffers(t, q, low, high);
    PickEmpty(t, q, low, high);
  }

  lemma ReverseDiffers(t: Tree, q: Query, a: nat, b: nat)
    requires a <= b <= |t|
    ensures Reverse(Pick(t, q, 0, a)) == Reverse(Pick(t, q, 0, b)) <==> Pick(t, q, a, b) == []
  {
    PickSplit(t, q, 0, a, b);
    ReverseConcat(Pick(t, q, 0, a), Pick(t, q, a, b));
    ReverseLength(Pick(t, q, a, b));
    assert |Reverse(Pick(t, q, a, b))| == 0 <==> Pick(t, q, a, b) == [];
  }

  /** Landing on an empty key leaves nothing. */
  lemma EmptyKeyExact(t: Tree, q: Query, key: Bytes, l: nat)
    requires Sorted(t) && l < |t| && t[l].key == []
    ensures DownAt(t, q, l) == Reverse(AtMost(Snapshot(t, q), key)) <==>
              !exists i :: 0 <= i < |t| && Selected(t, q, i) && !Lt(key, t[i].key)
  {
    var u := CountUpTo(t, key);
    GroupStartSpec(t, l);
    GroupEndSpec(t, l);
    CountUpToSpec(t, key);
    AtMostPick(t, q, key, u);
    PickNone(t, q, 0, GroupStart(t, l));
    PickNone(t, q, 0, GroupEnd(t, l));
    PickEmpty(t, q, 0, u);
    ReverseLength(Pick(t, q, 0, u));
    assert DownAt(t, q, l) == [];
    assert |Reverse(Pick(t, q, 0, u))| == 0 <==> Pick(t, q, 0, u) == [];
  }

  lemma ReverseSeekList(t: Tree, q: Query, key: Bytes)
    requires Sorted(t)
    ensures SeekList(t, q, true, key) == Reverse(AtMost(Snapshot(t, q), key)) <==> !Misses(t, q, key)
  {
    var k := Target(q, true, key);
    if t != [] {
      var c, l := CountBelow(t, k), LandDown(t, q, key);
      LandDownSpec(t, q, key);
      if c == 0 && !Stored(t, k) {
        FallbackExact(t, q, key);
      } else if k == [] {
        CountBelowSpec(t, k, 0);
        EmptyKeyExact(t, q, key, l);
      } else {
        AtMostTarget(t, q, key);
        if Stored(t, k) {
          StoredLanding(t, q, key);
          SameRun(t, c, l);
        } else {
          RunEnds(t, k);
        }
        DownAtExact(t, q, l);
      }
    }
  }

  /**
   Reverse `Seek` and the calls of `Next` after it yield exactly the snapshot from the sought
   key down, and then nothing, in precisely the cases that `Misses` leaves.
   */
  lemma ReverseSeekExact(t: Tree, q: Query, key: Bytes)
    requires Sorted(t)
    ensures Delivers(q, SeekWalk(t, q, true, key), Reverse(AtMost(Snapshot(t, q), key))) <==> !Misses(t, q, key)
  {
    var walk, list, k := SeekWalk(t, q, true, key), Reverse(AtMost(Snapshot(t, q), key)), Target(q, true, key);
    ReverseSeekList(t, q, key);
    WithinSeek(t, q, true, key);
    if Delivers(q, walk, list) {
      DeliversWithin(q, walk, list);
    }
    if t == [] {
      DeliversNone(q, walk);
    } else if Contents(q.end) == [] || Stored(t, k) || CountBelow(t, k) > 0 {
      if Contents(q.end) != [] {
        ReverseAligned(t, q, key);
      }
      AlignedDelivers(t, q, true, LandDown(t, q, key));
    } else {
      NothingWanted(t, q, key);
      if SeekList(t, q, true, key) == [] {
        DeliversNone(q, walk);
      }
    }
  }

  /** If every stored key is above the target, nothing at or below the sought key is selected. */
  lemma NothingWanted(t: Tree, q: Query, key: Bytes)
    requires Sorted(t) && Contents(q.end) != [] && !Stored(t, Target(q, true, key)) && CountBelow(t, Target(q, true, key)) == 0
    ensures Reverse(AtMost(Snapshot(t, q), key)) == []
  {
    var u, k := CountUpTo(t, key), Target(q, true, key);
    CountUpToSpec(t, key);
    CountUpToSpec(t, k);
    AtMostPick(t, q, key, u);
    LtTotalOrder();
    PickNone(t, q, 0, u);
  }

  lemma SameRun(t: Tree, c: nat, l: nat)
    requires Sorted(t) && c < |t| && l < |t| && t[c].key == t[l].key
    ensures GroupEnd(t, c) == GroupEnd(t, l)
  {
    GroupEndSpec(t, c);
    GroupEndSpec(t, l);
    LtTrichotomy(t[c].key, t[c].key);
    var e, e' := GroupEnd(t, c), GroupEnd(t, l);
    assert e < |t| ==> Lt(t[c].key, t[e].key);
    assert e' < |t| ==> Lt(t[c].key, t[e'].key);
    assert t[e - 1].key == t[c].key == t[e' - 1].key;
  }

  lemma RunEnds(t: Tree, k: Bytes)
    requires Sorted(t) && CountBelow(t, k) > 0
    ensures GroupEnd(t, CountBelow(t, k) - 1) == CountBelow(t, k)
  {
    var c := CountBelow(t, k);
    CountBelowSpec(t, k, c - 1);
    if c < |t| {
      CountBelowSpec(t, k, c);
    }
  }

  // ---------------------------------------------------------------- restarting in reverse

  /** The greatest stored key below the end. */
  predicate HiddenLast(t: Tree, q: Query) {
    var e := Contents(q.end);
    if e == [] then t != [] && Hides(t, q, |t| - 1)
    else !Stored(t, e) && CountBelow(t, e) > 0 && Hides(t, q, CountBelow(t, e) - 1)
  }

  lemma NothingBelowEnd(t: Tree, q: Query, i: nat)
    requires Sorted(t) && i < |t| && Contents(q.end) != [] && CountBelow(t, Contents(q.end)) == 0
    ensures Snapshot(t, q) == [] && DownAt(t, q, i) == [] && forall j :: 0 <= j < |t| ==> !Selected(t, q, j)
  {
    forall j | 0 <= j < |t| ensures !Selected(t, q, j) {
      CountBelowSpec(t, Contents(q.end), j);
    }
    PickNone(t, q, 0, |t|);
    PickNone(t, q, 0, GroupStart(t, i));
    PickNone(t, q, 0, GroupEnd(t, i));
  }

  /** Seeking the end itself goes wrong only if the last key below it is hidden. */
  lemma EndMisses(t: Tree, q: Query)
    requires Sorted(t) && t != [] && Contents(q.end) != []
    ensures Misses(t, q, Contents(q.end)) <==> HiddenLast(t, q)
  {
    var e := Contents(q.end);
    LtTrichotomy(e, e);
    assert Target(q, true, e) == e;
    if CountBelow(t, e) == 0 {
      NothingBelowEnd(t, q, |t| - 1);
    }
  }

  /**
   A new or reset reverse iterator yields the forward snapshot reversed, if and only if the
   greatest stored key below the end is not hidden by a version newer than the snapshot.
   */
  lemma ReverseStartExact(t: Tree, q: Query)
    requires Sorted(t)
    ensures StartList(t, q, true) == Reverse(Snapshot(t, q)) <==> !HiddenLast(t, q)
  {
    if t != [] {
      if Contents(q.end) == [] {
        DownAtExact(t, q, |t| - 1);
      } else {
        EndMisses(t, q);
        AtMostEnd(t, q);
        ReverseSeekList(t, q, Contents(q.end));
      }
    }
  }

  lemma AtMostEnd(t: Tree, q: Query)
    requires Sorted(t) && Contents(q.end) != []
    ensures AtMost(Snapshot(t, q), Contents(q.end)) == Snapshot(t, q)
  {
    var e := Contents(q.end);
    CountUpToSpec(t, e);
    var u := CountUpTo(t, e);
    AtMostPick(t, q, e, u);
    LtTotalOrder();
    PickNone(t, q, u, |t|);
    PickSplit(t, q, 0, u, |t|);
  }

  /** With a current snapshot, reverse iteration always mirrors forward iteration. */
  lemma ReverseMirrors(t: Tree, q: Query)
    requires Sorted(t)
    requires forall x :: x in t ==> x.version <= q.version
    ensures StartList(t, q, true) == Reverse(StartList(t, q, false))
  {
    ReverseStartExact(t, q);
  }

  // ---------------------------------------------------------------- alignment

  lemma ForwardAligned(t: Tree, q: Query, key: Bytes)
    requires Sorted(t) && SeekPos(t, q, false, key) < |t|
    ensures AlignedAt(t, q, false, SeekPos(t, q, false, key))
  {
    var k, p := Target(q, false, key), SeekPos(t, q, false, key);
    LtTotalOrder();
    forall j | p <= j < |t| ensures !Lt(t[j].key, Contents(q.start)) {
      LowerBoundSplits(t, Pivot(k, SeekVersion(t, q, key)), j);
    }
  }

  /** A reverse `Seek` is aligned unless every stored key is above its target. */
  lemma ReverseAligned(t: Tree, q: Query, key: Bytes)
    requires Sorted(t) && t != [] && q.end != Some([])
    requires Stored(t, Target(q, true, key)) || CountBelow(t, Target(q, true, key)) > 0
    ensures AlignedAt(t, q, true, LandDown(t, q, key))
  {
    var k, l := Target(q, true, key), LandDown(t, q, key);
    LandDownSpec(t, q, key);
    GroupStartSpec(t, l);
    if !Stored(t, k) {
      CountBelowSpec(t, k, l);
    }
    LtTotalOrder();
  }

  lemma RestartAligned(t: Tree, q: Query)
    requires Sorted(t) && t != [] && Contents(q.end) != []
    ensures AlignedAt(t, q, true, LandDown(t, q, Contents(q.end)))
  {
    var e := Contents(q.end);
    LtTrichotomy(e, e);
    if Stored(t, e) || CountBelow(t, e) > 0 {
      ReverseAligned(t, q, e);
    } else {
      var l := LandDown(t, q, e);
      NothingBelowEnd(t, q, l);
      LoadDown(t, q, l);
    }
  }
}
