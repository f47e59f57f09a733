/**
 `namespace.Datastore`: a store seen through a key prefix, and how the prefix translates
 iteration options.
 */
module Namespace {
  import opened Bytes
  import opened Kv

  // ---------------------------------------------------------------- keys and contents

  /** The namespaced keys of a store, with the prefix stripped. */
  function Stripped(ns: Bytes, m: Map): Map {
    map k | k in (set q | q in m && ns <= q :: q[|ns|..]) && ns + k in m :: m[ns + k]
  }

  lemma StrippedAt(ns: Bytes, m: Map, k: Bytes)
    ensures k in Stripped(ns, m) <==> ns + k in m
    ensures k in Stripped(ns, m) ==> Stripped(ns, m)[k] == m[ns + k]
  {
    assert (ns + k)[|ns|..] == k;
    if k in Stripped(ns, m) {
      var q :| q in m && ns <= q && q[|ns|..] == k;
      assert q == ns + k;
    }
  }

  // ---------------------------------------------------------------- options

  function Translate(ns: Bytes, opts: IterOptions): IterOptions {
    if opts.prefix.Some? then opts.(prefix := Some(ns + opts.prefix.value))
    else if opts.start.Some? || opts.end.Some? then
      opts.(start := Some(ns + Contents(opts.start)),
            end := Some(if opts.end.Some? then ns + opts.end.value else PrefixEnd(ns)))
    else opts.(prefix := Some(ns))
  }

  /** The translated options select the namespaced images of the selected keys, and nothing else. */
  ghost predicate TranslatesExactly(ns: Bytes, opts: IterOptions) {
    forall k :: Selects(Translate(ns, opts), k) <==> ns <= k && Selects(opts, k[|ns|..])
  }

  /** The namespace can be left open above, and an end bound is not an empty string. */
  predicate Translatable(ns: Bytes, opts: IterOptions) {
    opts.prefix.Some? || ns == []
    || (opts.end != Some([]) && (opts.end.None? && opts.start.Some? ==> HasRoom(ns)))
  }

  /** Between two strings with a common prefix there are only strings with that prefix. */
  lemma {:induction false} BetweenPrefixed(ns: Bytes, a: Bytes, b: Bytes, k: Bytes)
    requires !Lt(k, ns + a) && Lt(k, ns + b)
    ensures ns <= k
  {
    if ns != [] {
      assert (ns + a)[1..] == ns[1..] + a && (ns + b)[1..] == ns[1..] + b;
      BetweenPrefixed(ns[1..], a, b, k[1..]);
      assert ns == [ns[0]] + ns[1..] && k == [k[0]] + k[1..];
    }
  }

  lemma PrefixedSplit(ns: Bytes, p: Bytes, k: Bytes)
    ensures ns + p <= k <==> ns <= k && p <= k[|ns|..]
  {
    if ns + p <= k {
      assert k == ns + p + k[|ns + p|..];
    }
    if ns <= k && p <= k[|ns|..] {
      assert k == ns + k[|ns|..] && k[|ns|..] == p + k[|ns|..][|p|..];
      assert k == (ns + p) + k[|ns|..][|p|..];
    }
  }

  lemma TranslateKey(ns: Bytes, opts: IterOptions, k: Bytes)
    requires Translatable(ns, opts)
    ensures Selects(Translate(ns, opts), k) <==> ns <= k && Selects(opts, k[|ns|..])
  {
    var t := Translate(ns, opts);
    if opts.prefix.Some? {
      PrefixedSplit(ns, opts.prefix.value, k);
    } else if t.prefix.None? {
      var s, e := Contents(opts.start), t.end.value;
      if ns <= k {
        assert k == ns + k[|ns|..];
        LtUnderPrefix(ns, k[|ns|..], s);
        if opts.end.Some? {
          LtUnderPrefix(ns, k[|ns|..], opts.end.value);
        } else if ns != [] {
          PrefixRange(ns, k);
        }
      } else if Selects(t, k) {
        if opts.end.Some? {
          BetweenPrefixed(ns, s, opts.end.value, k);
        } else {
          AboveNamespace(ns, s, k);
          PrefixRange(ns, k);
        }
      }
    }
  }

  lemma AboveNamespace(ns: Bytes, s: Bytes, k: Bytes)
    requires !Lt(k, ns + s)
    ensures !Lt(k, ns)
  {
    LtTotalOrder();
    if s == [] {
      assert ns + s == ns;
    } else {
      LtUnderPrefix(ns, [], s);
      assert ns + [] == ns;
    }
  }

  /** A key that the options select but their translation loses. */
  lemma LostKey(ns: Bytes, opts: IterOptions) returns (k: Bytes)
    requires !Translatable(ns, opts)
    ensures ns <= k && Selects(opts, k[|ns|..]) && !Selects(Translate(ns, opts), k)
  {
    var s := Contents(opts.start);
    k := ns + s;
    assert k[|ns|..] == s;
    LtTotalOrder();
    AboveNamespace(ns, s, k);
    if opts.end.Some? {
      assert ns + opts.end.value == ns;
    }
  }

  /** The translation is exact for precisely the translatable options. */
  lemma TranslateExact(ns: Bytes, opts: IterOptions)
    ensures TranslatesExactly(ns, opts) <==> Translatable(ns, opts)
  {
    if Translatable(ns, opts) {
      forall k ensures Selects(Translate(ns, opts), k) <==> ns <= k && Selects(opts, k[|ns|..]) {
        TranslateKey(ns, opts, k);
      }
    } else {
      var k := LostKey(ns, opts);
    }
  }

  // ---------------------------------------------------------------- lists

  predicate Namespaced(ns: Bytes, l: seq<Entry>) {
    forall e :: e in l ==> ns <= e.key
  }

  /** What `namespaceIterator.Key` does to each entry of the inner iterator. */
  function StripAll(ns: Bytes, l: seq<Entry>): (r: seq<Entry>)
    requires Namespaced(ns, l)
    ensures |r| == |l|
  {
    if l == [] then [] else StripAll(ns, l[..|l| - 1]) + [Entry(l[|l| - 1].key[|ns|..], l[|l| - 1].val)]
  }

  lemma {:induction false} StripAllAt(ns: Bytes, l: seq<Entry>, i: nat)
    requires Namespaced(ns, l) && i < |l|
    ensures StripAll(ns, l)[i] == Entry(l[i].key[|ns|..], l[i].val)
  {
    if i < |l| - 1 {
      StripAllAt(ns, l[..|l| - 1], i);
    }
  }

  /**
   The inner store's iterator yields only namespaced keys, and stripped of the namespace
   they are what an iterator with the caller's options yields from the stripped contents,
   in the same order.
   */
  lemma IteratorExact(ns: Bytes, opts: IterOptions, m: Map, l: seq<Entry>)
    requires Translatable(ns, opts) && Lists(l, m, Translate(ns, opts))
    ensures Namespaced(ns, l) && Lists(StripAll(ns, l), Stripped(ns, m), opts)
  {
    TranslateExact(ns, opts);
    var r := StripAll(ns, l);
    forall i, j | 0 <= i < j < |r| ensures Prec(opts.reverse, r[i].key, r[j].key) {
      StripAllAt(ns, l, i);
      StripAllAt(ns, l, j);
      assert l[i].key == ns + r[i].key && l[j].key == ns + r[j].key && Prec(opts.reverse, l[i].key, l[j].key);
      LtUnderPrefix(ns, r[i].key, r[j].key);
      LtUnderPrefix(ns, r[j].key, r[i].key);
    }
    forall e ensures e in r <==> e.key in Stripped(ns, m) && Stripped(ns, m)[e.key] == e.val && Selects(opts, e.key) {
      StrippedAt(ns, m, e.key);
      StripMembers(ns, l, e);
      assert (ns + e.key)[|ns|..] == e.key;
    }
  }

  lemma StripMembers(ns: Bytes, l: seq<Entry>, e: Entry)
    requires Namespaced(ns, l)
    ensures e in StripAll(ns, l) <==> Entry(ns + e.key, e.val) in l
  {
    var r, f := StripAll(ns, l), Entry(ns + e.key, e.val);
    assert (ns + e.key)[|ns|..] == e.key;
    if f in l {
      var i :| 0 <= i < |l| && l[i] == f;
      StripAllAt(ns, l, i);
      assert r[i] == e;
    }
    if e in r {
      var i :| 0 <= i < |r| && r[i] == e;
      StripAllAt(ns, l, i);
      assert l[i].key == ns + e.key;
    }
  }

  /** `namespaceIterator.Seek` lands on the same position as a seek in the stripped list. */
  lemma {:induction false} SeekExact(ns: Bytes, l: seq<Entry>, reverse: bool, key: Bytes)
    requires Namespaced(ns, l)
    ensures SeekIndex(l, reverse, ns + key) == SeekIndex(StripAll(ns, l), reverse, key)
  {
    var i, r := SeekIndex(StripAll(ns, l), reverse, key), StripAll(ns, l);
    SeekIndexSpec(r, reverse, key);
    forall j | 0 <= j < |l| ensures Prec(reverse, l[j].key, ns + key) <==> Prec(reverse, r[j].key, key) {
      StripAllAt(ns, l, j);
      assert l[j].key == ns + r[j].key;
      LtUnderPrefix(ns, r[j].key, key);
      LtUnderPrefix(ns, key, r[j].key);
    }
    SeekIndexAt(l, reverse, ns + key, i);
  }

  // ---------------------------------------------------------------- nesting

  lemma NestedAt(a: Bytes, b: Bytes, ab: Bytes, m: Map, k: Bytes)
    requires a + (b + k) == ab + k
    ensures k in Stripped(b, Stripped(a, m)) <==> k in Stripped(ab, m)
    ensures k in Stripped(ab, m) ==> Stripped(b, Stripped(a, m))[k] == Stripped(ab, m)[k]
  {
    var inner := Stripped(a, m);
    assert b + k in inner <==> ab + k in m by {
      StrippedAt(a, m, b + k);
    }
    assert ab + k in m ==> inner[b + k] == m[ab + k] by {
      StrippedAt(a, m, b + k);
    }
    StrippedAt(b, inner, k);
    StrippedAt(ab, m, k);
  }

  /** Wrapping with `a` and then `b` shows the same contents as wrapping with `a + b`. */
  lemma NestedContents(a: Bytes, b: Bytes, m: Map)
    ensures Stripped(b, Stripped(a, m)) == Stripped(a + b, m)
  {
    var nested, flat := Stripped(b, Stripped(a, m)), Stripped(a + b, m);
    assert nested.Keys == flat.Keys && forall k :: k in flat ==> nested[k] == flat[k] by {
      forall k ensures (k in nested <==> k in flat) && (k in flat ==> nested[k] == flat[k]) {
        ConcatAssoc(a, b, k);
        NestedAt(a, b, a + b, m, k);
      }
    }
  }

  /** The end computed for the namespaces one by one is the one computed for both. */
  predicate EndsCommute(a: Bytes, b: Bytes, opts: IterOptions) {
    opts.prefix.None? && opts.start.Some? && opts.end.None? ==> HasRoom(b) || !HasRoom(a)
  }

  /** Translating twice selects the same keys as translating once, exactly when the one computed bound commutes. */
  lemma NestedOptions(a: Bytes, b: Bytes, opts: IterOptions)
    ensures (forall k :: Selects(Translate(a, Translate(b, opts)), k) <==> Selects(Translate(a + b, opts), k)) <==>
              EndsCommute(a, b, opts)
    ensures Translate(a, Translate(b, opts)) == Translate(a + b, opts) <==> EndsCommute(a, b, opts)
  {
    ConcatAssoc(a, b, Contents(opts.prefix));
    ConcatAssoc(a, b, Contents(opts.start));
    ConcatAssoc(a, b, Contents(opts.end));
    PrefixEndConcat(a, b);
    TranslateTwice(a, b, a + b, opts);
    if !EndsCommute(a, b, opts) {
      NestedLoses(a, b, opts);
    }
  }

  /** If the bound does not commute, the nested range is empty, and the start of the joined one is lost. */
  lemma NestedLoses(a: Bytes, b: Bytes, opts: IterOptions)
    requires !EndsCommute(a, b, opts)
    ensures var k := a + b + opts.start.value;
            Selects(Translate(a + b, opts), k) && !Selects(Translate(a, Translate(b, opts)), k)
  {
    var ab, k := a + b, a + b + opts.start.value;
    HasRoomConcat(a, b);
    LtTrichotomy(k, k);
    AboveNamespace(ab, opts.start.value, k);
    PrefixRange(ab, k);
    assert Translate(a, Translate(b, opts)).end == Some(ab);
  }

  lemma TranslateTwice(a: Bytes, b: Bytes, ab: Bytes, opts: IterOptions)
    requires a + b == ab && a + (b + Contents(opts.prefix)) == ab + Contents(opts.prefix)
    requires a + (b + Contents(opts.start)) == ab + Contents(opts.start)
    requires a + (b + Contents(opts.end)) == ab + Contents(opts.end)
    ensures Translate(a, Translate(b, opts)) == Translate(ab, opts) <==>
              (opts.prefix.None? && opts.start.Some? && opts.end.None? ==> a + PrefixEnd(b) == PrefixEnd(ab))
  {
  }

  // ---------------------------------------------------------------- the wrapper

  datatype Reply = Found(val: Bytes) | NotFound | Exists(present: bool) | Done | EmptyKey

  class Datastore {
    const namespace: Bytes
    const store: RefStore

    constructor (store: RefStore, namespace: Bytes)
      ensures this.store == store && this.namespace == namespace
    {
      this.store, this.namespace := store, namespace;
    }

    ghost function View(): Map
      reads store
    {
      Stripped(namespace, store.contents)
    }

    method Get(key: Bytes) returns (r: Reply)
      ensures r == if key == [] then EmptyKey else if key in View() then Found(View()[key]) else NotFound
    {
      if key == [] {
        return EmptyKey;
      }
      StrippedAt(namespace, store.contents, key);
      var v := store.Get(namespace + key);
      r := if v.Some? then Found(v.value) else NotFound;
    }

    method Has(key: Bytes) returns (r: Reply)
      ensures r == if key == [] then EmptyKey else Exists(key in View())
    {
      if key == [] {
        return EmptyKey;
      }
      StrippedAt(namespace, store.contents, key);
      var v := store.Get(namespace + key);
      r := Exists(v.Some?);
    }

    /** Sets a key of the view, and touches no key outside the namespace. */
    method Set(key: Bytes, val: Bytes) returns (r: Reply)
      modifies store
      ensures key == [] ==> r == EmptyKey && store.contents == old(store.contents)
      ensures key != [] ==> r == Done && View() == old(View())[key := val]
      ensures forall k :: !(namespace <= k) ==>
                (k in store.contents <==> k in old(store.contents)) && (k in store.contents ==> store.contents[k] == old(store.contents)[k])
    {
      if key == [] {
        return EmptyKey;
      }
      store.Set(namespace + key, val);
      SetView(namespace, old(store.contents), key, val);
      r := Done;
    }

    method Delete(key: Bytes) returns (r: Reply)
      modifies store
      ensures key == [] ==> r == EmptyKey && store.contents == old(store.contents)
      ensures key != [] ==> r == Done && View() == old(View()) - {key}
      ensures forall k :: !(namespace <= k) ==>
                (k in store.contents <==> k in old(store.contents)) && (k in store.contents ==> store.contents[k] == old(store.contents)[k])
    {
      if key == [] {
        return EmptyKey;
      }
      store.Delete(namespace + key);
      DeleteView(namespace, old(store.contents), key);
      r := Done;
    }

    /** The inner iterator over the translated options. */
    method Iterator(options: IterOptions) returns (it: ListIterator)
      ensures fresh(it) && it.next == 0 && it.reverse == options.reverse
      ensures Lists(it.list, store.contents, Translate(namespace, options))
      ensures Translatable(namespace, options) ==>
                Namespaced(namespace, it.list) && Lists(StripAll(namespace, it.list), View(), options)
    {
      var opts := options;
      if opts.prefix.Some? {
        opts := opts.(prefix := Some(namespace + opts.prefix.value));
      } else if opts.start.Some? || opts.end.Some? {
        opts := opts.(start := Some(namespace + Contents(opts.start)));
        if opts.end.Some? {
          opts := opts.(end := Some(namespace + opts.end.value));
        } else {
          var end := BytesPrefixEnd(namespace);
          opts := opts.(end := Some(end));
        }
      } else {
        opts := opts.(prefix := Some(namespace));
      }
      it := store.Iterator(opts);
      if Translatable(namespace, options) {
        IteratorExact(namespace, options, store.contents, it.list);
      }
    }
  }

  lemma SetView(ns: Bytes, m: Map, key: Bytes, val: Bytes)
    ensures Stripped(ns, m[ns + key := val]) == Stripped(ns, m)[key := val]
  {
    var after, expected := Stripped(ns, m[ns + key := val]), Stripped(ns, m)[key := val];
    forall k ensures (k in after <==> k in expected) && (k in expected ==> after[k] == expected[k]) {
      StrippedAt(ns, m, k);
      StrippedAt(ns, m[ns + key := val], k);
      assert (ns + k)[|ns|..] == k && (ns + key)[|ns|..] == key;
    }
  }

  lemma DeleteView(ns: Bytes, m: Map, key: Bytes)
    ensures Stripped(ns, m - {ns + key}) == Stripped(ns, m) - {key}
  {
    var after, expected := Stripped(ns, m - {ns + key}), Stripped(ns, m) - {key};
    forall k ensures (k in after <==> k in expected) && (k in expected ==> after[k] == expected[k]) {
      StrippedAt(ns, m, k);
      StrippedAt(ns, m - {ns + key}, k);
      assert (ns + k)[|ns|..] == k && (ns + key)[|ns|..] == key;
    }
  }
}
