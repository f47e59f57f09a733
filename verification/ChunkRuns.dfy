/**
 Whole runs of the chunk store: sets, deletes and reopenings, against the same run on a
 plain map.
 */
module ChunkRuns {
  import opened Bytes
  import opened Kv
  import opened ChunkLayout
  import opened ChunkStore

  datatype Call = SetValue(key: Bytes, value: Bytes) | DeleteKey(key: Bytes) | Reopen

  function OnMap(m: Map, call: Call): Map {
    match call
    case SetValue(k, v) => m[k := v]
    case DeleteKey(k) => m - {k}
    case Reopen => m
  }

  /** The plain map after the first `n` calls. */
  function MapAfter(m: Map, calls: seq<Call>, n: nat): Map
    requires n <= |calls|
  {
    if n == 0 then m else OnMap(MapAfter(m, calls, n - 1), calls[n - 1])
  }

  function OnInner(m: Map, call: Call, size: nat): Map
    requires size >= 1
  {
    match call
    case SetValue(k, v) => Stored(m, k, v, size)
    case DeleteKey(k) => Removed(m, k)
    case Reopen => m
  }

  /** The contents of the inner store after the first `n` calls. */
  function InnerAfter(m: Map, calls: seq<Call>, size: nat, n: nat): Map
    requires size >= 1 && n <= |calls|
  {
    if n == 0 then m else OnInner(InnerAfter(m, calls, size, n - 1), calls[n - 1], size)
  }

  /** The chunks of a map whose values were all freshly set. */
  function SplitAll(m: Map, size: nat): Groups
    requires size >= 1
  {
    map k | k in m :: Split(m[k], size)
  }

  /** The value has at most 256 chunks, and no fewer than the one it replaces. */
  predicate Fits(m: Map, call: Call, size: nat)
    requires size >= 1
  {
    call.SetValue? ==>
      && |Split(call.value, size)| <= 256
      && (call.key in m ==> |Split(m[call.key], size)| <= |Split(call.value, size)|)
  }

  predicate AlwaysFits(m: Map, calls: seq<Call>, size: nat, n: nat)
    requires size >= 1 && n <= |calls|
  {
    forall i: nat :: i < n ==> Fits(MapAfter(m, calls, i), calls[i], size)
  }

  /** All keys have the one length that the store accepts. */
  predicate OneLength(calls: seq<Call>, keyLen: nat) {
    forall i :: 0 <= i < |calls| && !calls[i].Reopen? ==> |calls[i].key| == keyLen
  }

  lemma SplitAllValues(m: Map, size: nat)
    requires size >= 1
    ensures Values(SplitAll(m, size)) == m
  {
    forall k | k in m ensures Join(Split(m[k], size)) == m[k] {
      JoinSplit(m[k], size);
    }
  }

  /** On freshly split values, a call acts as on the plain map if and only if it fits. */
  lemma CallExact(inner: Map, m: Map, call: Call, size: nat, keyLen: nat)
    requires size >= 1 && Holds(inner, SplitAll(m, size), keyLen) && (call.Reopen? || |call.key| == keyLen)
    ensures ReadsAll(OnInner(inner, call, size), keyLen, OnMap(m, call)) <==> Fits(m, call, size)
    ensures Fits(m, call, size) ==> Holds(OnInner(inner, call, size), SplitAll(OnMap(m, call), size), keyLen)
  {
    var g := SplitAll(m, size);
    SplitAllValues(m, size);
    match call
    case SetValue(k, v) => {
      SetExact(inner, g, k, v, size);
      if Fits(m, call, size) {
        SetHolds(inner, m, k, v, size);
      }
    }
    case DeleteKey(k) => {
      DeleteExact(inner, g, k);
      RemoveRunHolds(inner, g, k);
      assert g - {k} == SplitAll(m - {k}, size);
    }
    case Reopen => HoldsReads(inner, g, keyLen);
  }

  lemma SetHolds(inner: Map, m: Map, k: Bytes, v: Bytes, size: nat)
    requires size >= 1 && Holds(inner, SplitAll(m, size), |k|) && Fits(m, SetValue(k, v), size)
    ensures Holds(Stored(inner, k, v, size), SplitAll(m[k := v], size), |k|)
  {
    var g := SplitAll(m, size);
    JoinSplit(v, size);
    StoreRunHolds(inner, g, k, Split(v, size));
    assert g[k := Split(v, size)] == SplitAll(m[k := v], size);
  }

  /** While all calls fit, each value is held as its own chunks. */
  lemma {:induction false} HeldWhileFitting(inner: Map, m: Map, calls: seq<Call>, size: nat, keyLen: nat, n: nat)
    requires size >= 1 && Holds(inner, SplitAll(m, size), keyLen) && OneLength(calls, keyLen)
    requires n <= |calls| && AlwaysFits(m, calls, size, n)
    ensures Holds(InnerAfter(inner, calls, size, n), SplitAll(MapAfter(m, calls, n), size), keyLen)
  {
    if n > 0 {
      HeldWhileFitting(inner, m, calls, size, keyLen, n - 1);
      CallExact(InnerAfter(inner, calls, size, n - 1), MapAfter(m, calls, n - 1), calls[n - 1], size, keyLen);
    }
  }

  /** After `n` calls, every key reads as in the plain map. */
  ghost predicate AgreesAfter(inner: Map, m: Map, calls: seq<Call>, size: nat, keyLen: nat, n: nat)
    requires size >= 1 && n <= |calls|
  {
    ReadsAll(InnerAfter(inner, calls, size, n), keyLen, MapAfter(m, calls, n))
  }

  lemma AgreesWhileFitting(inner: Map, m: Map, calls: seq<Call>, size: nat, keyLen: nat, n: nat)
    requires size >= 1 && Holds(inner, SplitAll(m, size), keyLen) && OneLength(calls, keyLen)
    requires n <= |calls| && AlwaysFits(m, calls, size, n)
    ensures AgreesAfter(inner, m, calls, size, keyLen, n)
  {
    var m' := MapAfter(m, calls, n);
    HeldWhileFitting(inner, m, calls, size, keyLen, n);
    HoldsReads(InnerAfter(inner, calls, size, n), SplitAll(m', size), keyLen);
    SplitAllValues(m', size);
  }

  /** The first set that does not fit shows at once: some key reads wrong. */
  lemma {:induction false} FirstMisfitShows(inner: Map, m: Map, calls: seq<Call>, size: nat, keyLen: nat, n: nat)
    returns (j: nat)
    requires size >= 1 && Holds(inner, SplitAll(m, size), keyLen) && OneLength(calls, keyLen)
    requires n <= |calls| && !AlwaysFits(m, calls, size, n)
    ensures j <= n && !AgreesAfter(inner, m, calls, size, keyLen, j)
  {
    if AlwaysFits(m, calls, size, n - 1) {
      j := n;
      var before := MapAfter(m, calls, n - 1);
      assert !Fits(before, calls[n - 1], size);
      HeldWhileFitting(inner, m, calls, size, keyLen, n - 1);
      CallExact(InnerAfter(inner, calls, size, n - 1), before, calls[n - 1], size, keyLen);
    } else {
      j := FirstMisfitShows(inner, m, calls, size, keyLen, n - 1);
    }
  }

  /**
   The store reads as a plain map all through a run, if and only if no set has more than 256
   chunks or fewer than the value it replaces.
   */
  lemma RunExact(inner: Map, m: Map, calls: seq<Call>, size: nat, keyLen: nat)
    requires size >= 1 && Holds(inner, SplitAll(m, size), keyLen) && OneLength(calls, keyLen)
    ensures (forall i: nat :: i <= |calls| ==> AgreesAfter(inner, m, calls, size, keyLen, i)) <==>
              AlwaysFits(m, calls, size, |calls|)
  {
    if AlwaysFits(m, calls, size, |calls|) {
      forall i: nat | i <= |calls| ensures AgreesAfter(inner, m, calls, size, keyLen, i) {
        AgreesWhileFitting(inner, m, calls, size, keyLen, i);
      }
    } else {
      var j := FirstMisfitShows(inner, m, calls, size, keyLen, |calls|);
    }
  }

  lemma NothingHeld(size: nat, keyLen: nat)
    requires size >= 1
    ensures Holds(map[], SplitAll(map[], size), keyLen)
  {
    assert SplitAll(map[], size) == map[];
    forall c ensures HoldsAt(map[], map[], keyLen, c) {
    }
  }

  // ---------------------------------------------------------------- on the objects

  /** Makes one call; reopening gives a new object that has found the key length. */
  method Make(cs: Chunkstore, call: Call) returns (after: Chunkstore)
    requires cs.chunkSize >= 1
    modifies cs, cs.store
    ensures after == cs || fresh(after)
    ensures after.store == cs.store && after.chunkSize == cs.chunkSize
    ensures cs.store.contents == OnInner(old(cs.store.contents), call, cs.chunkSize)
    ensures call.Reopen? ==>
              forall g: Groups, n: nat :: Holds(cs.store.contents, g, n) ==> after.keyLen == if g == map[] then 0 else n
  {
    after := cs;
    match call {
      case SetValue(k, v) => cs.Set(k, v);
      case DeleteKey(k) => cs.Delete(k);
      case Reopen => after := new Chunkstore(cs.store, cs.chunkSize);
    }
  }

  /** Makes the calls; if they fit, what can then be read is what the plain map holds. */
  method Replay(store: RefStore, size: nat, calls: seq<Call>) returns (cs: Chunkstore)
    requires size >= 1
    modifies store
    ensures fresh(cs) && cs.store == store && cs.chunkSize == size
    ensures store.contents == InnerAfter(old(store.contents), calls, size, |calls|)
    ensures forall keyLen: nat ::
              old(store.contents) == map[] && OneLength(calls, keyLen) && AlwaysFits(map[], calls, size, |calls|) ==>
                ReadsAll(store.contents, keyLen, MapAfter(map[], calls, |calls|))
  {
    cs := new Chunkstore(store, size);
    var i := 0;
    while i < |calls|
      invariant 0 <= i <= |calls|
      invariant fresh(cs) && cs.store == store && cs.chunkSize == size
      invariant store.contents == InnerAfter(old(store.contents), calls, size, i)
    {
      cs := Make(cs, calls[i]);
      i := i + 1;
    }
    forall keyLen: nat |
      old(store.contents) == map[] && OneLength(calls, keyLen) && AlwaysFits(map[], calls, size, |calls|)
      ensures ReadsAll(store.contents, keyLen, MapAfter(map[], calls, |calls|))
    {
      NothingHeld(size, keyLen);
      AgreesWhileFitting(map[], map[], calls, size, keyLen, |calls|);
    }
  }
}
