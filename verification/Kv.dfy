/**
 The store contract that the wrappers build on: a map with point operations and ordered
 iteration. `RefStore` and `ListIterator` meet it in the plainest way.
 */
module Kv {
  import opened Bytes

  type Map = map<Bytes, Bytes>

  datatype IterOptions = IterOptions(prefix: Option<Bytes>, start: Option<Bytes>, end: Option<Bytes>, reverse: bool)

  datatype Entry = Entry(key: Bytes, val: Bytes)

  /** The keys an iterator yields. A prefix overrides the bounds; an empty bound does not restrict. */
  predicate Selects(opts: IterOptions, k: Bytes) {
    if opts.prefix.Some? then opts.prefix.value <= k
    else !Lt(k, Contents(opts.start)) && (Contents(opts.end) == [] || Lt(k, Contents(opts.end)))
  }

  /** `a` is yielded before `b`. */
  predicate Prec(reverse: bool, a: Bytes, b: Bytes) {
    if reverse then Lt(b, a) else Lt(a, b)
  }

  ghost predicate Ordered(reverse: bool, l: seq<Entry>) {
    forall i, j :: 0 <= i < j < |l| ==> Prec(reverse, l[i].key, l[j].key)
  }

  /** `l` is what an iterator with these options yields from `m`. */
  ghost predicate Lists(l: seq<Entry>, m: Map, opts: IterOptions) {
    && Ordered(opts.reverse, l)
    && (forall e :: e in l <==> e.key in m && m[e.key] == e.val && Selects(opts, e.key))
  }

  lemma PrecTotalOrder(reverse: bool)
    ensures forall a, b :: Prec(reverse, a, b) || Prec(reverse, b, a) || a == b
    ensures forall a, b :: Prec(reverse, a, b) ==> !Prec(reverse, b, a)
    ensures forall a :: !Prec(reverse, a, a)
    ensures forall a, b, c :: Prec(reverse, a, b) && Prec(reverse, b, c) ==> Prec(reverse, a, c)
  {
    LtTotalOrder();
  }

  /** The contract fixes the list. */
  lemma {:induction false} OrderedUnique(reverse: bool, a: seq<Entry>, b: seq<Entry>)
    requires Ordered(reverse, a) && Ordered(reverse, b) && forall e :: e in a <==> e in b
    ensures a == b
  {
    assert a != [] ==> a[0] in b;
    assert b != [] ==> b[0] in a;
    if a != [] {
      PrecTotalOrder(reverse);
      assert a == [a[0]] + a[1..] && b == [b[0]] + b[1..];
      forall e | e in a[1..] ensures Prec(reverse, a[0].key, e.key) {
      }
      forall e | e in b[1..] ensures Prec(reverse, b[0].key, e.key) {
      }
      assert a[0] == b[0];
      forall e ensures e in a[1..] <==> e in b[1..] {
        assert e in a <==> e == a[0] || e in a[1..];
        assert e in b <==> e == b[0] || e in b[1..];
      }
      OrderedUnique(reverse, a[1..], b[1..]);
    }
  }

  /** The first entry at or past the sought key, in the direction of iteration. */
  function SeekIndex(l: seq<Entry>, reverse: bool, key: Bytes): (i: nat)
    ensures i <= |l|
  {
    if l == [] || !Prec(reverse, l[0].key, key) then 0 else 1 + SeekIndex(l[1..], reverse, key)
  }

  lemma {:induction false} SeekIndexAt(l: seq<Entry>, reverse: bool, key: Bytes, i: nat)
    requires i <= |l|
    requires forall j :: 0 <= j < i ==> Prec(reverse, l[j].key, key)
    requires i < |l| ==> !Prec(reverse, l[i].key, key)
    ensures SeekIndex(l, reverse, key) == i
  {
    if i > 0 {
      SeekIndexAt(l[1..], reverse, key, i - 1);
    }
  }

  lemma {:induction false} SeekIndexSpec(l: seq<Entry>, reverse: bool, key: Bytes)
    ensures var i := SeekIndex(l, reverse, key);
            && (forall j :: 0 <= j < i ==> Prec(reverse, l[j].key, key))
            && (i < |l| ==> !Prec(reverse, l[i].key, key))
  {
    if l != [] && Prec(reverse, l[0].key, key) {
      SeekIndexSpec(l[1..], reverse, key);
    }
  }

  /** What is left after a seek. */
  function SeekRest(l: seq<Entry>, reverse: bool, key: Bytes): seq<Entry> {
    l[SeekIndex(l, reverse, key)..]
  }

  // ---------------------------------------------------------------- a reference store

  class RefStore {
    var contents: Map

    constructor ()
      ensures contents == map[]
    {
      contents := map[];
    }

    method Get(key: Bytes) returns (r: Option<Bytes>)
      ensures r == if key in contents then Some(contents[key]) else None
    {
      r := if key in contents then Some(contents[key]) else None;
    }

    method Set(key: Bytes, val: Bytes)
      modifies this
      ensures contents == old(contents)[key := val]
    {
      contents := contents[key := val];
    }

    method Delete(key: Bytes)
      modifies this
      ensures contents == old(contents) - {key}
    {
      contents := contents - {key};
    }

    method Iterator(opts: IterOptions) returns (it: ListIterator)
      ensures fresh(it) && Lists(it.list, contents, opts) && it.reverse == opts.reverse && it.next == 0
    {
      var keys := set k | k in contents && Selects(opts, k);
      var todo, list := keys, [];
      while todo != {}
        invariant todo <= keys && Ordered(opts.reverse, list)
        invariant forall e :: e in list <==> e.key in keys - todo && contents[e.key] == e.val
        invariant forall e, k :: e in list && k in todo ==> Prec(opts.reverse, e.key, k)
        decreases todo
      {
        var k := FirstOf(opts.reverse, todo);
        list := list + [Entry(k, contents[k])];
        todo := todo - {k};
      }
      it := new ListIterator(list, opts.reverse);
    }
  }

  method FirstOf(reverse: bool, s: set<Bytes>) returns (k: Bytes)
    requires s != {}
    ensures k in s && forall x :: x in s ==> x == k || Prec(reverse, k, x)
  {
    PrecTotalOrder(reverse);
    k :| k in s;
    var todo := s - {k};
    while todo != {}
      invariant k in s && todo <= s
      invariant forall x :: x in s ==> x in todo || x == k || Prec(reverse, k, x)
      decreases todo
    {
      var x :| x in todo;
      if Prec(reverse, x, k) {
        k := x;
      }
      todo := todo - {x};
    }
  }

  /** The keys of a finite map can be listed. */
  lemma {:induction false} ListExists(m: Map, keys: set<Bytes>, reverse: bool) returns (l: seq<Entry>)
    requires keys <= m.Keys
    ensures Ordered(reverse, l) && forall e :: e in l <==> e.key in keys && m[e.key] == e.val
    decreases |keys|
  {
    l := [];
    if keys != {} {
      var k := Greatest(reverse, keys);
      l := ListExists(m, keys - {k}, reverse);
      l := l + [Entry(k, m[k])];
    }
  }

  lemma {:induction false} Greatest(reverse: bool, s: set<Bytes>) returns (k: Bytes)
    requires s != {}
    ensures k in s && forall x :: x in s ==> x == k || Prec(reverse, x, k)
    decreases |s|
  {
    PrecTotalOrder(reverse);
    k :| k in s;
    if s != {k} {
      var g := Greatest(reverse, s - {k});
      assert forall x :: x in s ==> x == k || x in s - {k};
      if Prec(reverse, k, g) {
        k := g;
      }
    }
  }

  /** A cursor along a list, as the iterator interface describes it. */
  class ListIterator {
    const list: seq<Entry>
    const reverse: bool
    /** How many entries have been passed, counting the current one. */
    var next: nat

    predicate Valid()
      reads this
    {
      next <= |list|
    }

    constructor (list: seq<Entry>, reverse: bool)
      ensures this.list == list && this.reverse == reverse && next == 0
    {
      this.list, this.reverse, next := list, reverse, 0;
    }

    method Next() returns (ok: bool)
      requires Valid()
      modifies this
      ensures Valid() && (ok <==> old(next) < |list|) && next == if ok then old(next) + 1 else old(next)
    {
      ok := next < |list|;
      if ok {
        next := next + 1;
      }
    }

    function Current(): Entry
      reads this
      requires Valid() && next > 0
    {
      list[next - 1]
    }

    /** Stops on the first entry at or past the key; if all come before it, the list is used up. */
    method Seek(key: Bytes) returns (ok: bool)
      requires Valid()
      modifies this
      ensures Valid() && (if ok then next > 0 && !Prec(reverse, Current().key, key) else next == |list|)
      ensures forall j :: 0 <= j < (if ok then next - 1 else next) ==> Prec(reverse, list[j].key, key)
    {
      next := 0;
      while next < |list| && Prec(reverse, list[next].key, key)
        invariant next <= |list|
        invariant forall j :: 0 <= j < next ==> Prec(reverse, list[j].key, key)
        decreases |list| - next
      {
        next := next + 1;
      }
      ok := next < |list|;
      if ok {
        next := next + 1;
      }
    }

    method Reset()
      modifies this
      ensures Valid() && next == 0
    {
      next := 0;
    }
  }
}
