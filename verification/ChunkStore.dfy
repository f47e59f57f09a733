/**
 `chunk.Chunkstore` over a store that meets the contract, and its regrouping iterator.
 */
module ChunkStore {
  import opened Bytes
  import opened Sequences
  import opened Kv
  import opened ChunkLayout

  // ---------------------------------------------------------------- chunk lists of the inner store

  lemma FlattenedIsStored(m: Map, g: Groups, keyLen: nat, opts: IterOptions, k: Bytes, j: Byte)
    requires Holds(m, g, keyLen) && BoundsFit(opts, keyLen) && k in g && j < |g[k]| && Selects(opts, k)
    ensures k + [j] in m && m[k + [j]] == g[k][j] && Selects(opts, k + [j])
  {
    var c := k + [j];
    assert HoldsAt(m, g, keyLen, c) && c[..keyLen] == k && c[keyLen] == j;
    SelectsChunk(opts, k, j);
  }

  lemma StoredIsFlattened(m: Map, g: Groups, keyLen: nat, opts: IterOptions, c: Bytes)
    requires Holds(m, g, keyLen) && BoundsFit(opts, keyLen) && c in m && Selects(opts, c)
    ensures |c| == keyLen + 1
    ensures var k, j := c[..keyLen], c[keyLen]; k in g && j < |g[k]| && c == k + [j] && m[c] == g[k][j] && Selects(opts, k)
  {
    assert HoldsAt(m, g, keyLen, c);
    assert c == c[..keyLen] + [c[keyLen]];
    SelectsChunk(opts, c[..keyLen], c[keyLen]);
  }

  /** An inner iterator yields the flattened chunks of the keys that the options select. */
  lemma FlattenLists(m: Map, g: Groups, keyLen: nat, l: seq<Entry>, opts: IterOptions)
    requires Holds(m, g, keyLen) && Lists(l, Values(g), opts) && BoundsFit(opts, keyLen)
    ensures Lists(Flatten(g, opts.reverse, l), m, opts)
  {
    var f := Flatten(g, opts.reverse, l);
    FlattenOrdered(g, opts.reverse, l, keyLen);
    forall c ensures c in f <==> c.key in m && m[c.key] == c.val && Selects(opts, c.key) {
      FlattenMembers(g, opts.reverse, l);
      if c in f {
        var e, j: Byte :| e in l && j < |g[e.key]| && c == Entry(e.key + [j], g[e.key][j]);
        FlattenedIsStored(m, g, keyLen, opts, e.key, j);
      }
      if c.key in m && m[c.key] == c.val && Selects(opts, c.key) {
        StoredIsFlattened(m, g, keyLen, opts, c.key);
        var k := c.key[..keyLen];
        assert Entry(k, Join(g[k])) in l;
      }
    }
  }

  /** The inner list is determined: it is the flattened list of the values. */
  lemma InnerList(m: Map, g: Groups, keyLen: nat, inner: seq<Entry>, opts: IterOptions) returns (l: seq<Entry>)
    requires Holds(m, g, keyLen) && Lists(inner, m, opts) && BoundsFit(opts, keyLen)
    ensures Lists(l, Values(g), opts) && inner == Flatten(g, opts.reverse, l)
  {
    var keys := set k | k in g && Selects(opts, k);
    l := ListExists(Values(g), keys, opts.reverse);
    FlattenLists(m, g, keyLen, l, opts);
    OrderedUnique(opts.reverse, inner, Flatten(g, opts.reverse, l));
  }

  /** The first key of a full iteration tells the key length, if there is one. */
  lemma FirstKey(m: Map, g: Groups, keyLen: nat, list: seq<Entry>)
    requires Holds(m, g, keyLen) && Lists(list, m, IterOptions(None, None, None, false))
    ensures if g == map[] then list == [] else list != [] && |list[0].key| == keyLen + 1
  {
    if g != map[] {
      var k :| k in g;
      FlattenedIsStored(m, g, keyLen, IterOptions(None, None, None, false), k, 0);
      assert Entry(k + [0], m[k + [0]]) in list;
    }
    if list != [] {
      assert list[0] in list && HoldsAt(m, g, keyLen, list[0].key);
    }
  }

  /** The first entry of a full iteration has the least key. */
  lemma FirstOfAll(m: Map, list: seq<Entry>)
    requires Lists(list, m, IterOptions(None, None, None, false))
    ensures if m == map[] then list == [] else list != [] && list[0].key in m && forall c :: c in m ==> !Lt(c, list[0].key)
  {
    forall c | c in m ensures list != [] && !Lt(c, list[0].key) {
      assert Entry(c, m[c]) in list;
      LtTotalOrder();
    }
    if list != [] {
      assert list[0] in list;
    }
  }

  lemma ScanFinds(m: Map, key: Bytes, list: seq<Entry>)
    requires Lists(list, m, PrefixOptions(key))
    ensures list != [] <==> exists c :: c in m && key <= c
  {
    if list != [] {
      assert list[0] in list;
    }
    if c :| c in m && key <= c {
      assert Entry(c, m[c]) in list;
    }
  }

  /** A prefix scan visits every extension of the key. */
  lemma ScannedKeys(m: Map, key: Bytes, list: seq<Entry>, keys: seq<Bytes>)
    requires Lists(list, m, PrefixOptions(key))
    requires |keys| == |list| && forall i :: 0 <= i < |keys| ==> keys[i] == list[i].key
    ensures (set c | c in keys) == (set x | x in m && key <= x)
  {
    forall c | c in keys ensures c in m && key <= c {
      var i :| 0 <= i < |keys| && keys[i] == c;
      assert list[i] in list;
    }
    forall c | c in m && key <= c ensures c in keys {
      assert Entry(c, m[c]) in list;
      var i :| 0 <= i < |list| && list[i] == Entry(c, m[c]);
      assert keys[i] == c;
    }
  }

  lemma ChunksFit(v: Bytes, size: nat)
    requires size >= 1
    ensures forall c :: c in Split(v, size) ==> |c| <= size
  {
    var cs := Split(v, size);
    SplitSizes(v, size);
    forall c | c in cs ensures |c| <= size {
      var i :| 0 <= i < |cs| && cs[i] == c;
    }
  }

  // ---------------------------------------------------------------- the store

  class Chunkstore {
    const store: RefStore
    const chunkSize: nat
    /** Zero means that nothing was written yet. */
    var keyLen: int

    /** `New`: takes the key length from the first key of the store, if there is one. */
    constructor (store: RefStore, chunkSize: nat)
      ensures this.store == store && this.chunkSize == chunkSize
      ensures store.contents == map[] ==> keyLen == 0
      ensures store.contents != map[] ==>
                exists k :: k in store.contents && keyLen == |k| - 1 && forall c :: c in store.contents ==> !Lt(c, k)
      ensures forall g: Groups, n: nat :: Holds(store.contents, g, n) ==> keyLen == if g == map[] then 0 else n
    {
      var it := store.Iterator(IterOptions(None, None, None, false));
      var hasKey := it.Next();
      var n := 0;
      FirstOfAll(store.contents, it.list);
      if hasKey {
        n := |it.Current().key| - 1;
      }
      this.store, this.chunkSize, this.keyLen := store, chunkSize, n;
      new;
      forall g: Groups, n: nat | Holds(store.contents, g, n) ensures keyLen == if g == map[] then 0 else n {
        FirstKey(store.contents, g, n, it.list);
      }
    }

    /** The joined values of all extensions of the key, in order. */
    method Get(key: Bytes) returns (r: Option<Bytes>)
      ensures ReadsAs(store.contents, key, r)
      ensures r.Some? <==> exists c :: c in store.contents && key <= c
    {
      var it := store.Iterator(PrefixOptions(key));
      var chunks := Collect(it);
      ScanFinds(store.contents, key, it.list);
      ReadIs(store.contents, key, it.list);
      r := if |chunks| == 0 then None else Some(Join(chunks));
    }

    static method Collect(it: ListIterator) returns (chunks: seq<Bytes>)
      requires it.next == 0
      modifies it
      ensures chunks == Vals(it.list)
    {
      chunks := [];
      var hasNext := it.Next();
      while hasNext
        invariant it.Valid() && (hasNext ==> it.next > 0) && (!hasNext ==> it.next == |it.list|)
        invariant chunks == Vals(it.list[..if hasNext then it.next - 1 else it.next])
        decreases hasNext, |it.list| - it.next
      {
        assert it.list[..it.next][..it.next - 1] == it.list[..it.next - 1];
        chunks := chunks + [it.Current().val];
        hasNext := it.Next();
      }
      assert it.list[..|it.list|] == it.list;
    }

    method Has(key: Bytes) returns (r: bool)
      ensures r <==> exists c :: c in store.contents && key <= c
    {
      var it := store.Iterator(PrefixOptions(key));
      ScanFinds(store.contents, key, it.list);
      r := it.Next();
    }

    /** Writes the chunks in order, under one chunk key after the other. */
    method Set(key: Bytes, value: Bytes)
      requires chunkSize >= 1
      modifies this, store
      ensures store.contents == Stored(old(store.contents), key, value, chunkSize)
      ensures forall c :: c in store.contents ==>
                (c in old(store.contents) && store.contents[c] == old(store.contents)[c]) || |store.contents[c]| <= chunkSize
      ensures keyLen == if old(keyLen) == 0 then |key| else old(keyLen)
    {
      ghost var cs := Split(value, chunkSize);
      ghost var before := store.contents;
      var chunkKey := key + [0];
      if |value| == 0 {
        store.Set(chunkKey, value);
        assert StoreRun(before, key, cs, 1) == StoreRun(before, key, cs, 0)[key + [0] := cs[0]];
      } else {
        SetChunks(key, value, cs);
      }
      StoreRunEntries(before, key, cs, |cs|);
      ChunksFit(value, chunkSize);
      if keyLen == 0 {
        keyLen := |key|;
      }
    }

    method SetChunks(key: Bytes, value: Bytes, ghost cs: seq<Bytes>)
      requires chunkSize >= 1 && value != [] && cs == Split(value, chunkSize)
      modifies store
      ensures store.contents == StoreRun(old(store.contents), key, cs, |cs|)
    {
      var chunkKey, rest := key + [0], value;
      ghost var i := 0;
      while rest != []
        invariant 0 <= i <= |cs|
        invariant rest == [] ==> i == |cs|
        invariant rest != [] ==> i < |cs| && cs[i..] == Split(rest, chunkSize) && chunkKey == ChunkKey(key, i)
        invariant store.contents == StoreRun(old(store.contents), key, cs, i)
        decreases |rest|
      {
        var chunk := if |rest| <= chunkSize then rest else rest[..chunkSize];
        assert cs[i] == chunk;
        store.Set(chunkKey, chunk);
        chunkKey := BytesPrefixEnd(chunkKey);
        assert cs[i + 1..] == cs[i..][1..];
        rest := rest[|chunk|..];
        i := i + 1;
      }
    }

    /** Iterates over whole values, in the order and within the bounds asked for. */
    method Iterator(opts: IterOptions, ghost g: Groups) returns (it: ChunkIterator)
      requires keyLen >= 0 && Holds(store.contents, g, keyLen)
      ensures fresh(it) && fresh(it.it) && it.Valid() && it.reverse == opts.reverse && it.keyLen == keyLen
      ensures Lists(it.it.list, store.contents, opts) && it.Rest() == it.it.list
      ensures KeysFit(keyLen, it.Rest())
      ensures BoundsFit(opts, keyLen) ==> Lists(Grouped(keyLen, opts.reverse, it.Rest()), Values(g), opts)
    {
      var inner := store.Iterator(opts);
      forall e | e in inner.list ensures |e.key| == keyLen + 1 {
        assert HoldsAt(store.contents, g, keyLen, e.key);
      }
      it := new ChunkIterator(inner, opts.reverse, keyLen);
      if BoundsFit(opts, keyLen) {
        RegroupExact(store.contents, g, keyLen, inner.list, opts);
      }
    }

    /** Collects the keys of all extensions first, and then deletes them. */
    method Delete(key: Bytes)
      modifies store
      ensures store.contents == Removed(old(store.contents), key)
      ensures forall c :: c in store.contents <==> c in old(store.contents) && !(key <= c)
      ensures forall c :: c in store.contents ==> store.contents[c] == old(store.contents)[c]
    {
      var it := store.Iterator(PrefixOptions(key));
      var keys: seq<Bytes> := [];
      var hasNext := it.Next();
      while hasNext
        modifies it
        invariant it.Valid() && (hasNext ==> it.next > 0) && (!hasNext ==> it.next == |it.list|)
        invariant |keys| == if hasNext then it.next - 1 else it.next
        invariant forall i :: 0 <= i < |keys| ==> keys[i] == it.list[i].key
        decreases hasNext, |it.list| - it.next
      {
        keys := keys + [it.Current().key];
        hasNext := it.Next();
      }
      ScannedKeys(store.contents, key, it.list, keys);
      DeleteKeys(keys);
    }

    method DeleteKeys(keys: seq<Bytes>)
      modifies store
      ensures store.contents == old(store.contents) - (set c | c in keys)
    {
      var i := 0;
      while i < |keys|
        invariant 0 <= i <= |keys|
        invariant store.contents == old(store.contents) - (set c | c in keys[..i])
      {
        store.Delete(keys[i]);
        assert keys[..i + 1] == keys[..i] + [keys[i]];
        i := i + 1;
      }
      assert keys[..|keys|] == keys;
    }
  }

  // ---------------------------------------------------------------- regrouping

  /** Inner keys are one byte longer than the keys they belong to. */
  predicate KeysFit(keyLen: nat, s: seq<Entry>) {
    forall e :: e in s ==> |e.key| == keyLen + 1
  }

  /** How many leading entries extend `k`. */
  function RunLength(k: Bytes, s: seq<Entry>): (n: nat)
    ensures n <= |s|
  {
    if s == [] || !(k <= s[0].key) then 0 else 1 + RunLength(k, s[1..])
  }

  /** The whole keys and values of a list of chunks. */
  function Grouped(keyLen: nat, reverse: bool, s: seq<Entry>): seq<Entry>
    requires KeysFit(keyLen, s)
    decreases |s|
  {
    if s == [] then []
    else
      var k := s[0].key[..keyLen];
      var n := RunLength(k, s);
      [Entry(k, Join(InOrder(reverse, Vals(s[..n]))))] + Grouped(keyLen, reverse, s[n..])
  }

  lemma {:induction false} RunLengthAt(k: Bytes, s: seq<Entry>, n: nat)
    requires n <= |s| && (forall i :: 0 <= i < n ==> k <= s[i].key) && (n < |s| ==> !(k <= s[n].key))
    ensures RunLength(k, s) == n
  {
    if n > 0 {
      RunLengthAt(k, s[1..], n - 1);
    }
  }

  ghost predicate Flattenable(g: Groups, keyLen: nat, l: seq<Entry>) {
    forall e :: e in l ==> e.key in g && |e.key| == keyLen && 1 <= |g[e.key]| <= 256 && e.val == Join(g[e.key])
  }

  lemma {:induction false} FlattenFits(g: Groups, reverse: bool, l: seq<Entry>, keyLen: nat)
    requires Flattenable(g, keyLen, l)
    ensures KeysFit(keyLen, Flatten(g, reverse, l))
    ensures l != [] ==> Flatten(g, reverse, l) != [] && Flatten(g, reverse, l)[0].key[..keyLen] == l[0].key
  {
    FlattenMembers(g, reverse, l);
    if l != [] {
      assert l[0] in l;
      assert Flatten(g, reverse, l)[0] == Run(l[0].key, g[l[0].key], reverse)[0];
    }
  }

  /** The chunks of the first key end where those of the second begin. */
  lemma FlattenApart(g: Groups, reverse: bool, l: seq<Entry>, keyLen: nat)
    requires Flattenable(g, keyLen, l) && Ordered(reverse, l) && l != []
    ensures var rest := Flatten(g, reverse, l[1..]); rest != [] ==> !(l[0].key <= rest[0].key)
    ensures forall e :: e in Run(l[0].key, g[l[0].key], reverse) ==> |e.key| == keyLen + 1 && e.key[..keyLen] == l[0].key
  {
    var k, rest := l[0].key, Flatten(g, reverse, l[1..]);
    assert l[0] in l;
    RunOrdered(k, g[k], reverse);
    if rest != [] {
      FlattenFits(g, reverse, l[1..], keyLen);
      assert l[1..] != [] && Prec(reverse, k, l[1].key);
      LtTrichotomy(k, k);
      assert rest[0].key[..|k|] != k;
    }
  }

  /** Grouping undoes flattening: each key comes back whole, once, in order. */
  lemma {:induction false} GroupFlatten(g: Groups, reverse: bool, l: seq<Entry>, keyLen: nat)
    requires Flattenable(g, keyLen, l) && Ordered(reverse, l)
    ensures KeysFit(keyLen, Flatten(g, reverse, l)) && Grouped(keyLen, reverse, Flatten(g, reverse, l)) == l
  {
    FlattenFits(g, reverse, l, keyLen);
    if l != [] {
      var k := l[0].key;
      assert l[0] in l && l == [l[0]] + l[1..];
      GroupFlatten(g, reverse, l[1..], keyLen);
      FlattenApart(g, reverse, l, keyLen);
      RunVals(k, g[k], reverse);
      GroupedHead(keyLen, reverse, Run(k, g[k], reverse), Flatten(g, reverse, l[1..]), k);
    }
  }

  /** Regrouping an inner iterator's list gives the list of whole values the options select. */
  lemma RegroupExact(m: Map, g: Groups, keyLen: nat, inner: seq<Entry>, opts: IterOptions)
    requires Holds(m, g, keyLen) && Lists(inner, m, opts) && BoundsFit(opts, keyLen)
    ensures KeysFit(keyLen, inner) && Lists(Grouped(keyLen, opts.reverse, inner), Values(g), opts)
  {
    var l := InnerList(m, g, keyLen, inner, opts);
    GroupFlatten(g, opts.reverse, l, keyLen);
  }

  // ---------------------------------------------------------------- seeking

  /** The key the inner iterator seeks: in reverse, past every chunk of the sought key. */
  function SeekKey(reverse: bool, key: Bytes): Bytes {
    if reverse then PrefixEnd(key) else key
  }

  /** A chunk is before the sought position exactly when its key is; or it belongs to a sought maximal key. */
  lemma ChunkBeforeSeek(reverse: bool, key: Bytes, k: Bytes, i: Byte)
    requires |k| == |key|
    ensures Prec(reverse, k + [i], SeekKey(reverse, key)) <==> Prec(reverse, k, key) || SeeksShort(reverse, key, k)
  {
    if reverse {
      var e := PrefixEnd(key);
      PrefixEndLength(key);
      LtTotalOrder();
      LtUnderSuffix(k, [i], e);
      assert k + [i] != e;
      if HasRoom(key) {
        PrefixRange(key, key);
        PrefixRange(key, k);
      } else {
        NoRoomPrefix(key, k);
      }
      assert key <= k <==> key == k;
    } else {
      LtUnderSuffix(k, [i], key);
    }
  }

  lemma {:induction false} PrefixEndLength(b: Bytes)
    ensures |PrefixEnd(b)| <= |b|
  {
    if HasRoom(b) && HasRoom(b[1..]) {
      PrefixEndLength(b[1..]);
    }
  }

  /** In reverse, a key without room above it cannot be sought past its own chunks. */
  predicate SeeksShort(reverse: bool, key: Bytes, k: Bytes) {
    reverse && !HasRoom(key) && k == key
  }

  lemma RunBeforeSeek(k: Bytes, cs: seq<Bytes>, reverse: bool, key: Bytes)
    requires 1 <= |cs| <= 256 && |k| == |key|
    ensures forall e :: e in Run(k, cs, reverse) ==>
              (Prec(reverse, e.key, SeekKey(reverse, key)) <==> Prec(reverse, k, key) || SeeksShort(reverse, key, k))
  {
    RunOrdered(k, cs, reverse);
    forall e | e in Run(k, cs, reverse)
      ensures Prec(reverse, e.key, SeekKey(reverse, key)) <==> Prec(reverse, k, key) || SeeksShort(reverse, key, k)
    {
      var j: Byte :| j < |cs| && e == Entry(k + [j], cs[j]);
      ChunkBeforeSeek(reverse, key, k, j);
    }
  }

  lemma SeekRestSkips(a: seq<Entry>, b: seq<Entry>, reverse: bool, key: Bytes)
    requires forall e :: e in a ==> Prec(reverse, e.key, key)
    ensures SeekRest(a + b, reverse, key) == SeekRest(b, reverse, key)
  {
    SeekPast(a, b, reverse, key);
    var i := SeekIndex(b, reverse, key);
    assert (a + b)[|a| + i..] == b[i..];
  }

  lemma SeekRestStays(l: seq<Entry>, reverse: bool, key: Bytes)
    requires l == [] || !Prec(reverse, l[0].key, key)
    ensures SeekRest(l, reverse, key) == l
  {
  }

  /** An inner seek lands on the first chunk of the key that a seek in the list of values lands on. */
  lemma {:induction false} SeekFlattened(g: Groups, reverse: bool, l: seq<Entry>, key: Bytes)
    requires Flattenable(g, |key|, l) && forall e :: e in l ==> !SeeksShort(reverse, key, e.key)
    ensures SeekRest(Flatten(g, reverse, l), reverse, SeekKey(reverse, key)) == Flatten(g, reverse, SeekRest(l, reverse, key))
  {
    if l != [] {
      assert l[0] in l && l == [l[0]] + l[1..];
      var k, cs, t := l[0].key, g[l[0].key], SeekKey(reverse, key);
      var run, rest := Run(k, cs, reverse), Flatten(g, reverse, l[1..]);
      RunBeforeSeek(k, cs, reverse, key);
      if Prec(reverse, k, key) {
        SeekFlattened(g, reverse, l[1..], key);
        SeekRestSkips(run, rest, reverse, t);
        SeekRestSkips([l[0]], l[1..], reverse, key);
      } else {
        assert (run + rest)[0] == run[0] && run[0] in run;
        SeekRestStays(run + rest, reverse, t);
        SeekRestStays(l, reverse, key);
      }
    }
  }

  lemma {:induction false} SeekPast(a: seq<Entry>, b: seq<Entry>, reverse: bool, key: Bytes)
    requires forall i :: 0 <= i < |a| ==> Prec(reverse, a[i].key, key)
    ensures SeekIndex(a + b, reverse, key) == |a| + SeekIndex(b, reverse, key)
  {
    if a == [] {
      assert a + b == b;
    } else {
      SeekPast(a[1..], b, reverse, key);
      assert (a + b)[1..] == a[1..] + b;
    }
  }

  /** A reverse seek for a listed key without room drops the whole value of that key. */
  lemma ShortSeek(g: Groups, l: seq<Entry>, key: Bytes)
    requires Flattenable(g, |key|, l) && Ordered(true, l) && !HasRoom(key) && exists e :: e in l && e.key == key
    ensures SeekRest(l, true, key) == l != []
    ensures SeekRest(Flatten(g, true, l), true, SeekKey(true, key)) == Flatten(g, true, l[1..])
  {
    var e :| e in l && e.key == key;
    LtTotalOrder();
    forall x | x in l ensures !Lt(key, x.key) {
      NoRoomPrefix(key, x.key);
      assert |x.key| == |key| && (key <= x.key ==> x.key == key);
    }
    assert l[0].key == key && l == [l[0]] + l[1..];
    SeekRestStays(l, true, key);
    SeekRestStays(l[1..], true, key);
    SeekFlattened(g, true, l[1..], key);
    RunBeforeSeek(key, g[key], true, key);
    SeekRestSkips(Run(key, g[key], true), Flatten(g, true, l[1..]), true, SeekKey(true, key));
  }

  /**
   After a seek, regrouping gives the list of whole values from the sought key on, except in
   reverse from a listed key that is all 0xff.
   */
  lemma RegroupSeek(m: Map, g: Groups, inner: seq<Entry>, opts: IterOptions, key: Bytes) returns (l: seq<Entry>)
    requires Holds(m, g, |key|) && Lists(inner, m, opts) && BoundsFit(opts, |key|)
    ensures Lists(l, Values(g), opts)
    ensures var rest := SeekRest(inner, opts.reverse, SeekKey(opts.reverse, key));
            && KeysFit(|key|, rest)
            && (Grouped(|key|, opts.reverse, rest) == SeekRest(l, opts.reverse, key) <==>
                  !(opts.reverse && !HasRoom(key) && key in g && Selects(opts, key)))
  {
    l := InnerList(m, g, |key|, inner, opts);
    if opts.reverse && !HasRoom(key) && key in g && Selects(opts, key) {
      assert Entry(key, Join(g[key])) in l;
      RegroupShort(g, l, key);
    } else {
      RegroupWhole(g, opts.reverse, l, key);
    }
  }

  lemma RegroupShort(g: Groups, l: seq<Entry>, key: Bytes)
    requires Flattenable(g, |key|, l) && Ordered(true, l) && !HasRoom(key) && exists e :: e in l && e.key == key
    ensures var rest := SeekRest(Flatten(g, true, l), true, SeekKey(true, key));
            KeysFit(|key|, rest) && Grouped(|key|, true, rest) != SeekRest(l, true, key)
  {
    ShortSeek(g, l, key);
    GroupFlatten(g, true, l[1..], |key|);
    assert |l[1..]| != |l|;
  }

  lemma RegroupWhole(g: Groups, reverse: bool, l: seq<Entry>, key: Bytes)
    requires Flattenable(g, |key|, l) && Ordered(reverse, l) && forall e :: e in l ==> !SeeksShort(reverse, key, e.key)
    ensures var rest := SeekRest(Flatten(g, reverse, l), reverse, SeekKey(reverse, key));
            KeysFit(|key|, rest) && Grouped(|key|, reverse, rest) == SeekRest(l, reverse, key)
  {
    SeekFlattened(g, reverse, l, key);
    GroupFlatten(g, reverse, SeekRest(l, reverse, key), |key|);
  }

  // ---------------------------------------------------------------- the iterator

  class ChunkIterator {
    const it: ListIterator
    const reverse: bool
    const keyLen: nat
    var currentKey: Bytes
    var currentValue: Bytes
    /** A chunk that was read but belongs to the next key. */
    var currentChunk: Option<Entry>

    /** The chunks not yet grouped. */
    function Rest(): seq<Entry>
      reads this, it
      requires it.Valid()
    {
      (if currentChunk.Some? then [currentChunk.value] else []) + it.list[it.next..]
    }

    ghost predicate Valid()
      reads this, it
    {
      && it.Valid() && it.reverse == reverse && KeysFit(keyLen, it.list)
      && (currentChunk.Some? ==> |currentChunk.value.key| == keyLen + 1)
      && (currentChunk.None? ==> currentKey == [] || it.next == |it.list|)
    }

    constructor (it: ListIterator, reverse: bool, keyLen: nat)
      requires it.next == 0 && it.reverse == reverse && KeysFit(keyLen, it.list)
      ensures Valid() && this.it == it && this.reverse == reverse && this.keyLen == keyLen && Rest() == it.list
    {
      this.it, this.reverse, this.keyLen := it, reverse, keyLen;
      currentKey, currentValue, currentChunk := [], [], None;
    }

    method Reset()
      requires Valid()
      modifies this, it
      ensures Valid() && Rest() == it.list
    {
      currentKey, currentValue, currentChunk := [], [], None;
      it.Reset();
    }

    /** Yields the next whole value: all chunks of one key, joined in ascending order. */
    method Next() returns (ok: bool)
      requires Valid()
      modifies this, it
      ensures Valid() && KeysFit(keyLen, old(Rest())) && KeysFit(keyLen, Rest())
      ensures ok <==> old(Rest()) != []
      ensures var before, after := Grouped(keyLen, reverse, old(Rest())), Grouped(keyLen, reverse, Rest());
              if ok then before == [Entry(currentKey, currentValue)] + after else before == after == []
    {
      ghost var all := Rest();
      RestFits();
      var chunks, done := Gather();
      RestFits();
      if |chunks| == 0 {
        return false;
      }
      assert all == done + Rest() && Join(chunks) == Join(InOrder(reverse, Vals(done)));
      GroupedHead(keyLen, reverse, done, Rest(), currentKey);
      currentValue := Join(chunks);
      return true;
    }

    lemma RestFits()
      requires Valid()
      ensures KeysFit(keyLen, Rest())
    {
    }

    /** The loop of `Next`: takes the chunks of one key, and reads one chunk beyond them. */
    method Gather() returns (chunks: seq<Bytes>, ghost done: seq<Entry>)
      requires Valid()
      modifies this, it
      ensures Valid() && done + Rest() == old(Rest()) && Gathered(keyLen, reverse, currentKey, done, chunks)
      ensures done == [] ==> Rest() == []
      ensures done != [] && Rest() != [] ==> !(currentKey <= Rest()[0].key)
    {
      chunks, done := [], [];
      ghost var all := Rest();
      while true
        invariant Valid() && done + Rest() == all
        invariant Gathered(keyLen, reverse, currentKey, done, chunks)
        invariant done != [] ==> currentChunk.Some? && currentKey <= currentChunk.value.key
        decreases |it.list| - it.next
      {
        chunks, done := Absorb(chunks, done);
        var hasNext := ReadChunk();
        if !hasNext {
          break;
        }
        if !(currentKey <= currentChunk.value.key) {
          break;
        }
      }
    }

    /** Reads one chunk of the inner iterator, and leaves it pending. */
    method ReadChunk() returns (hasNext: bool)
      requires it.Valid() && KeysFit(keyLen, it.list) && currentChunk == None
      modifies this`currentChunk, it
      ensures it.Valid() && Rest() == old(Rest())
      ensures hasNext <==> old(Rest()) != []
      ensures hasNext ==> currentChunk.Some? && |currentChunk.value.key| == keyLen + 1 && it.next == old(it.next) + 1
      ensures !hasNext ==> currentChunk == None && it.next == |it.list|
    {
      hasNext := it.Next();
      if hasNext {
        assert it.list[it.next - 1..] == [it.Current()] + it.list[it.next..];
        currentChunk := Some(it.Current());
        assert it.Current() in it.list;
      }
    }

    /** Takes the pending chunk, if there is one, into the current value. */
    method Absorb(before: seq<Bytes>, ghost done: seq<Entry>) returns (chunks: seq<Bytes>, ghost done': seq<Entry>)
      requires Valid() && Gathered(keyLen, reverse, currentKey, done, before)
      requires done != [] ==> currentChunk.Some? && currentKey <= currentChunk.value.key
      modifies this
      ensures it.Valid() && currentChunk == None && done' + Rest() == done + old(Rest())
      ensures Gathered(keyLen, reverse, currentKey, done', chunks)
      ensures done' == [] ==> old(currentChunk) == None && currentKey == old(currentKey)
    {
      chunks, done' := before, done;
      if currentChunk.Some? {
        var e := currentChunk.value;
        GatherOne(keyLen, reverse, currentKey, done, before, e);
        RestMoves(done, e, it.list[it.next..]);
        chunks := if reverse then [e.val] + chunks else chunks + [e.val];
        done' := done + [e];
        currentKey, currentChunk := e.key[..keyLen], None;
      }
    }

    /**
     Seeks in the inner iterator and yields the whole value it lands on. If that fails, a
     chunk that was pending before stays behind for the next call of `Next`.
     */
    method Seek(key: Bytes) returns (ok: bool)
      requires Valid()
      modifies this, it
      ensures Valid() && KeysFit(keyLen, Rest()) && KeysFit(keyLen, SeekRest(it.list, reverse, SeekKey(reverse, key)))
      ensures ok <==> SeekRest(it.list, reverse, SeekKey(reverse, key)) != []
      ensures ok ==> Grouped(keyLen, reverse, SeekRest(it.list, reverse, SeekKey(reverse, key))) ==
                       [Entry(currentKey, currentValue)] + Grouped(keyLen, reverse, Rest())
      ensures !ok ==> Rest() == if old(currentChunk).Some? then [old(currentChunk).value] else []
    {
      var target := key;
      if reverse {
        target := BytesPrefixEnd(key);
      }
      var hasValue := it.Seek(target);
      if !hasValue {
        SeekIndexAt(it.list, reverse, target, |it.list|);
        return false;
      }
      ghost var i := it.next - 1;
      SeekIndexAt(it.list, reverse, target, i);
      currentChunk := Some(it.Current());
      assert Rest() == it.list[i..] by {
        assert it.list[i..] == [it.list[i]] + it.list[i + 1..];
      }
      ok := Next();
    }
  }

  /** `chunks` are the values of `done` in ascending order, all of the one key. */
  ghost predicate Gathered(keyLen: nat, reverse: bool, key: Bytes, done: seq<Entry>, chunks: seq<Bytes>) {
    && chunks == InOrder(reverse, Vals(done)) && |chunks| == |done|
    && (forall e :: e in done ==> |e.key| == keyLen + 1 && e.key[..keyLen] == key)
  }

  lemma GatherOne(keyLen: nat, reverse: bool, key: Bytes, done: seq<Entry>, chunks: seq<Bytes>, e: Entry)
    requires Gathered(keyLen, reverse, key, done, chunks) && |e.key| == keyLen + 1
    requires done != [] ==> key <= e.key
    ensures Gathered(keyLen, reverse, e.key[..keyLen], done + [e], if reverse then [e.val] + chunks else chunks + [e.val])
  {
    ValsSnoc(done, e, reverse);
    assert done != [] ==> done[0] in done && e.key[..keyLen] == key;
  }

  lemma RestMoves(done: seq<Entry>, e: Entry, list: seq<Entry>)
    ensures (done + [e]) + ([] + list) == done + ([e] + list)
  {
  }

  /** A maximal run of one key's chunks is the first group. */
  lemma GroupedHead(keyLen: nat, reverse: bool, done: seq<Entry>, rest: seq<Entry>, k: Bytes)
    requires done != [] && KeysFit(keyLen, done + rest)
    requires forall e :: e in done ==> |e.key| == keyLen + 1 && e.key[..keyLen] == k
    requires rest != [] ==> !(k <= rest[0].key)
    ensures KeysFit(keyLen, rest)
    ensures Grouped(keyLen, reverse, done + rest) == [Entry(k, Join(InOrder(reverse, Vals(done))))] + Grouped(keyLen, reverse, rest)
  {
    var s := done + rest;
    assert done[0] in done && s[0] == done[0];
    forall i | 0 <= i < |done| ensures k <= s[i].key {
      assert s[i] == done[i] && done[i] in done;
    }
    assert rest != [] ==> s[|done|] == rest[0];
    RunLengthAt(k, s, |done|);
    assert s[..|done|] == done && s[|done|..] == rest;
    forall e | e in rest ensures |e.key| == keyLen + 1 {
      assert e in s;
    }
  }

  lemma ValsSnoc(s: seq<Entry>, e: Entry, reverse: bool)
    ensures InOrder(reverse, Vals(s + [e])) ==
            if reverse then [e.val] + InOrder(reverse, Vals(s)) else InOrder(reverse, Vals(s)) + [e.val]
  {
    assert (s + [e])[..|s|] == s;
    ReverseConcat(Vals(s), [e.val]);
  }
}
