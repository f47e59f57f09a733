/**
 How the chunk store lays values out over suffixed keys: splitting and joining, the keys of
 the chunks, and the correspondence between an inner store and a map of chunk lists.
 */
module ChunkLayout {
  import opened Bytes
  import opened Sequences
  import opened Kv

  // ---------------------------------------------------------------- splitting values

  /** The chunks of a value: all full but the last; one empty chunk for an empty value. */
  function Split(v: Bytes, size: nat): (cs: seq<Bytes>)
    requires size >= 1
    ensures cs != []
  {
    if |v| <= size then [v] else [v[..size]] + Split(v[size..], size)
  }

  function Join(cs: seq<Bytes>): Bytes {
    if cs == [] then [] else cs[0] + Join(cs[1..])
  }

  lemma {:induction false} JoinSplit(v: Bytes, size: nat)
    requires size >= 1
    ensures Join(Split(v, size)) == v
    ensures forall i :: 0 < i < |Split(v, size)| ==> Split(v, size)[i] != []
  {
    if |v| > size {
      JoinSplit(v[size..], size);
      var rest := Split(v[size..], size);
      assert Split(v, size)[1..] == rest;
      assert rest[0] != [] by {
        assert rest[0] == if |v[size..]| <= size then v[size..] else v[size..][..size];
      }
    } else {
      assert Split(v, size)[1..] == [];
    }
  }

  /** Every chunk but the last is full, and the last one is not empty unless the value is. */
  lemma {:induction false} SplitSizes(v: Bytes, size: nat)
    requires size >= 1
    ensures var cs := Split(v, size); var n := |cs|;
            && (forall i :: 0 <= i < n - 1 ==> |cs[i]| == size)
            && |cs[n - 1]| <= size && (v != [] ==> |cs[n - 1]| >= 1)
            && |v| == (n - 1) * size + |cs[n - 1]|
  {
    if |v| > size {
      var cs, rest := Split(v, size), Split(v[size..], size);
      SplitSizes(v[size..], size);
      assert cs == [v[..size]] + rest;
      assert (|cs| - 1) * size == (|rest| - 1) * size + size;
    }
  }

  /** The number of chunks is the length over the chunk size, rounded up, but at least one. */
  lemma SplitCount(v: Bytes, size: nat)
    requires size >= 1
    ensures |Split(v, size)| == if v == [] then 1 else (|v| + size - 1) / size
  {
    var cs := Split(v, size);
    var n, last := |cs|, |cs[|cs| - 1]|;
    SplitSizes(v, size);
    if v != [] {
      assert |v| + size - 1 == n * size + (last - 1);
      QuotientIs(|v| + size - 1, size, n, last - 1);
    }
  }

  lemma QuotientIs(a: nat, size: nat, n: nat, r: nat)
    requires r < size && a == n * size + r
    ensures a / size == n
  {
    var q := a / size;
    assert a == q * size + a % size;
    if q < n {
      assert n * size == q * size + (n - q) * size;
      Multiple(n - q, size);
    } else if q > n {
      assert q * size == n * size + (q - n) * size;
      Multiple(q - n, size);
    }
  }

  lemma Multiple(n: nat, size: nat)
    requires n >= 1
    ensures n * size >= size
  {
  }

  lemma {:induction false} JoinConcat(a: seq<Bytes>, b: seq<Bytes>)
    ensures Join(a + b) == Join(a) + Join(b)
  {
    if a == [] {
      assert a + b == b;
    } else {
      var s := a + b;
      JoinConcat(a[1..], b);
      assert s[0] == a[0] && s[1..] == a[1..] + b;
      ConcatAssoc(a[0], Join(a[1..]), Join(b));
    }
  }

  // ---------------------------------------------------------------- chunk keys

  /** The key `Set` uses for chunk `i`: the zero-suffixed key, advanced by `bytesPrefixEnd`. */
  function ChunkKey(k: Bytes, i: nat): Bytes {
    if i == 0 then k + [0] else PrefixEnd(ChunkKey(k, i - 1))
  }

  lemma NextSuffix(k: Bytes, i: Byte)
    requires i < 255
    ensures PrefixEnd(k + [i]) == k + [i + 1]
  {
    PrefixEndAt(k + [i], |k|);
    assert (k + [i])[..|k|] == k;
  }

  lemma {:induction false} ChunkKeyAt(k: Bytes, i: nat)
    requires i < 256
    ensures ChunkKey(k, i) == k + [i]
  {
    if i > 0 {
      ChunkKeyAt(k, i - 1);
      NextSuffix(k, i - 1);
    }
  }

  /**
   From the 257th chunk on, the chunk keys leave the key's range upwards; or, if nothing is
   above that range, they all stay on the last one.
   */
  lemma {:induction false} ChunkKeyLimit(k: Bytes, i: nat)
    requires i >= 256
    ensures HasRoom(k) ==> !Lt(ChunkKey(k, i), PrefixEnd(k)) && !(k <= ChunkKey(k, i))
    ensures !HasRoom(k) ==> ChunkKey(k, i) == ChunkKey(k, 255) == k + [255]
  {
    var b := ChunkKey(k, i - 1);
    ChunkKeyAt(k, 255);
    HasRoomConcat(k, [255]);
    LtTotalOrder();
    if HasRoom(k) {
      if i == 256 {
        PrefixEndDropsMax(k);
      } else {
        ChunkKeyLimit(k, i - 1);
        PrefixEndAbove(b);
      }
      PrefixRange(k, ChunkKey(k, i));
    } else if i > 256 {
      ChunkKeyLimit(k, i - 1);
    }
  }

  lemma PrefixEndAbove(b: Bytes)
    ensures PrefixEnd(b) == b || Lt(b, PrefixEnd(b))
  {
    if HasRoom(b) {
      PrefixRange(b, b);
    }
  }

  lemma {:induction false} PrefixEndDropsMax(k: Bytes)
    requires HasRoom(k)
    ensures PrefixEnd(k + [255]) == PrefixEnd(k)
  {
    assert (k + [255])[1..] == k[1..] + [255];
    HasRoomConcat(k[1..], [255]);
    HasRoomConcat(k, [255]);
    if HasRoom(k[1..]) {
      PrefixEndDropsMax(k[1..]);
    }
  }

  // ---------------------------------------------------------------- representation

  /** The chunks held for each key. */
  type Groups = map<Bytes, seq<Bytes>>

  ghost predicate WfChunks(cs: seq<Bytes>) {
    1 <= |cs| <= 256 && forall i :: 0 < i < |cs| ==> cs[i] != []
  }

  /** What one inner key holds according to `g`. */
  ghost predicate HoldsAt(m: Map, g: Groups, keyLen: nat, c: Bytes) {
    && (c in m <==> |c| == keyLen + 1 && c[..keyLen] in g && c[keyLen] < |g[c[..keyLen]]|)
    && (c in m ==> m[c] == g[c[..keyLen]][c[keyLen]])
  }

  /** The inner store holds, for each key of `g`, its chunks under one-byte suffixes, and nothing else. */
  ghost predicate Holds(m: Map, g: Groups, keyLen: nat) {
    && (forall k :: k in g ==> |k| == keyLen && WfChunks(g[k]))
    && (forall c :: HoldsAt(m, g, keyLen, c))
  }

  /** The plain map that the chunks stand for. */
  function Values(g: Groups): Map {
    map k | k in g :: Join(g[k])
  }

  function ChunksOf(g: Groups, k: Bytes): seq<Bytes> {
    if k in g then g[k] else []
  }

  /** Writing new chunks over old ones leaves the old tail in place. */
  function Overwrite(old_: seq<Bytes>, new_: seq<Bytes>): seq<Bytes> {
    if |old_| <= |new_| then new_ else new_ + old_[|new_|..]
  }

  /** The chunks found under `k` after all chunks of a value were written over the old ones. */
  function Survivors(k: Bytes, old_: seq<Bytes>, new_: seq<Bytes>): seq<Bytes> {
    if |new_| <= 256 then Overwrite(old_, new_)
    else if HasRoom(k) then new_[..256]
    else new_[..255] + [new_[|new_| - 1]]
  }

  /** The surviving chunks join to the value set, if and only if there are at most 256, and no fewer than before. */
  lemma OverwriteExact(k: Bytes, old_: seq<Bytes>, v: Bytes, size: nat)
    requires size >= 1 && |old_| <= 256 && forall i :: 0 < i < |old_| ==> old_[i] != []
    ensures Join(Survivors(k, old_, Split(v, size))) == v <==> |old_| <= |Split(v, size)| <= 256
  {
    var cs := Split(v, size);
    JoinSplit(v, size);
    if |old_| > |cs| {
      JoinLonger(cs, old_[|cs|..]);
    } else if |cs| > 256 {
      if HasRoom(k) {
        assert cs == cs[..256] + cs[256..];
        JoinLonger(cs[..256], cs[256..]);
      } else {
        var last := [cs[|cs| - 1]];
        assert cs == (cs[..255] + cs[255..|cs| - 1]) + last;
        JoinConcat(cs[..255] + cs[255..|cs| - 1], last);
        JoinConcat(cs[..255], last);
        JoinLonger(cs[..255], cs[255..|cs| - 1]);
      }
    }
  }

  lemma JoinLonger(a: seq<Bytes>, b: seq<Bytes>)
    requires b != [] && b[0] != []
    ensures |Join(a + b)| > |Join(a)|
  {
    JoinConcat(a, b);
  }

  // ---------------------------------------------------------------- reading a key

  function PrefixOptions(key: Bytes): IterOptions {
    IterOptions(Some(key), None, None, false)
  }

  function Vals(s: seq<Entry>): (r: seq<Bytes>)
    ensures |r| == |s|
  {
    if s == [] then [] else Vals(s[..|s| - 1]) + [s[|s| - 1].val]
  }

  lemma {:induction false} ValsAt(s: seq<Entry>, i: nat)
    requires i < |s|
    ensures Vals(s)[i] == s[i].val
  {
    if i < |s| - 1 {
      ValsAt(s[..|s| - 1], i);
    }
  }

  /** What `Get` returns for the entries of its prefix scan. */
  function ReadOf(l: seq<Entry>): Option<Bytes> {
    if l == [] then None else Some(Join(Vals(l)))
  }

  /** `Get` of `k` on the inner contents `m` returns `r`. */
  ghost predicate ReadsAs(m: Map, k: Bytes, r: Option<Bytes>) {
    forall l :: Lists(l, m, PrefixOptions(k)) ==> r == ReadOf(l)
  }

  lemma ReadIs(m: Map, k: Bytes, l: seq<Entry>)
    requires Lists(l, m, PrefixOptions(k))
    ensures ReadsAs(m, k, ReadOf(l))
  {
    forall l' | Lists(l', m, PrefixOptions(k)) ensures l' == l {
      OrderedUnique(false, l, l');
    }
  }

  lemma ReadUnique(m: Map, k: Bytes, r: Option<Bytes>, r': Option<Bytes>)
    requires ReadsAs(m, k, r) && ReadsAs(m, k, r')
    ensures r == r'
  {
    var l := ListExists(m, set c | c in m && k <= c, false);
    assert Lists(l, m, PrefixOptions(k));
  }

  /** The extensions of `k` in `m` are the chunks `cs` under one-byte suffixes. */
  ghost predicate HasChunks(m: Map, k: Bytes, cs: seq<Bytes>) {
    forall c :: k <= c ==>
      && (c in m <==> |c| == |k| + 1 && c[|k|] < |cs|)
      && (c in m ==> m[c] == cs[c[|k|]])
  }

  /** A prefix scan yields the chunks of the key in order. */
  lemma ScanYields(m: Map, k: Bytes, cs: seq<Bytes>)
    requires HasChunks(m, k, cs) && |cs| <= 256
    ensures Lists(Run(k, cs, false), m, PrefixOptions(k))
    ensures ReadsAs(m, k, if cs == [] then None else Some(Join(cs)))
  {
    var r := Run(k, cs, false);
    assert Ordered(false, r) by {
      RunOrdered(k, cs, false);
    }
    forall e ensures e in r <==> e.key in m && m[e.key] == e.val && k <= e.key {
      ScanMember(m, k, cs, e);
    }
    assert Vals(r) == cs by {
      RunVals(k, cs, false);
    }
    ReadIs(m, k, r);
  }

  lemma ScanMember(m: Map, k: Bytes, cs: seq<Bytes>, e: Entry)
    requires HasChunks(m, k, cs) && |cs| <= 256
    ensures e in Run(k, cs, false) <==> e.key in m && m[e.key] == e.val && k <= e.key
  {
    if e.key in m && m[e.key] == e.val && k <= e.key {
      var j := e.key[|k|];
      assert e.key == k + [j];
      assert Run(k, cs, false)[j] == e;
    }
    if e in Run(k, cs, false) {
      var j :| 0 <= j < |cs| && Run(k, cs, false)[j] == e;
      assert e.key == k + [j] && k <= e.key;
    }
  }

  /** What a plain map returns. */
  function ValueAt(m: Map, k: Bytes): Option<Bytes> {
    if k in m then Some(m[k]) else None
  }

  /** A store that holds chunks reads as the map of their values. */
  lemma GetExact(m: Map, g: Groups, k: Bytes)
    requires Holds(m, g, |k|)
    ensures HasChunks(m, k, ChunksOf(g, k)) && ReadsAs(m, k, ValueAt(Values(g), k))
  {
    forall c | k <= c
      ensures (c in m <==> |c| == |k| + 1 && c[|k|] < |ChunksOf(g, k)|) && (c in m ==> m[c] == ChunksOf(g, k)[c[|k|]])
    {
      assert HoldsAt(m, g, |k|, c) && c[..|k|] == k;
    }
    ScanYields(m, k, ChunksOf(g, k));
  }

  // ---------------------------------------------------------------- writing and removing a key

  /** The inner store after the first `n` chunks of `k` were set. */
  function StoreRun(m: Map, k: Bytes, cs: seq<Bytes>, n: nat): Map
    requires n <= |cs|
  {
    if n == 0 then m else StoreRun(m, k, cs, n - 1)[ChunkKey(k, n - 1) := cs[n - 1]]
  }

  /** Every entry is an old one or one of the chunks. */
  lemma {:induction false} StoreRunEntries(m: Map, k: Bytes, cs: seq<Bytes>, n: nat)
    requires n <= |cs|
    ensures var m' := StoreRun(m, k, cs, n);
            forall c :: c in m' ==> (c in m && m'[c] == m[c]) || m'[c] in cs
  {
    if n > 0 {
      StoreRunEntries(m, k, cs, n - 1);
    }
  }

  lemma {:induction false} StoreRunAt(m: Map, k: Bytes, cs: seq<Bytes>, n: nat, c: Bytes)
    requires n <= |cs| && n <= 256
    ensures var own := |c| == |k| + 1 && c[..|k|] == k && c[|k|] < n;
            && (c in StoreRun(m, k, cs, n) <==> own || c in m)
            && (own ==> StoreRun(m, k, cs, n)[c] == cs[c[|k|]])
            && (!own && c in m ==> StoreRun(m, k, cs, n)[c] == m[c])
  {
    if n > 0 {
      StoreRunAt(m, k, cs, n - 1, c);
      ChunkKeyAt(k, n - 1);
      assert c == k + [n - 1] <==> |c| == |k| + 1 && c[..|k|] == k && c[|k|] == n - 1 by {
        if |c| == |k| + 1 && c[..|k|] == k && c[|k|] == n - 1 {
          assert c == c[..|k|] + [c[|k|]];
        }
      }
    }
  }

  /** Chunks past the 256th are stored outside the key's range, if there is room above it. */
  lemma {:induction false} StoreRunSpills(m: Map, k: Bytes, cs: seq<Bytes>, n: nat, c: Bytes)
    requires 256 <= n <= |cs| && HasRoom(k) && k <= c
    ensures c in StoreRun(m, k, cs, n) <==> c in StoreRun(m, k, cs, 256)
    ensures c in StoreRun(m, k, cs, n) ==> StoreRun(m, k, cs, n)[c] == StoreRun(m, k, cs, 256)[c]
  {
    if n > 256 {
      StoreRunSpills(m, k, cs, n - 1, c);
      ChunkKeyLimit(k, n - 1);
    }
  }

  /** If there is no room, they replace one another. */
  lemma {:induction false} StoreRunSticks(m: Map, k: Bytes, cs: seq<Bytes>, n: nat)
    requires 256 <= n <= |cs| && !HasRoom(k)
    ensures StoreRun(m, k, cs, n) == StoreRun(m, k, cs, 255)[k + [255] := cs[n - 1]]
  {
    if n > 256 {
      StoreRunSticks(m, k, cs, n - 1);
      ChunkKeyLimit(k, n - 1);
    } else {
      ChunkKeyAt(k, 255);
    }
  }

  /** After all chunks were set, exactly the surviving ones are found under the key. */
  lemma StoreRunSurvivors(m: Map, g: Groups, k: Bytes, cs: seq<Bytes>)
    requires Holds(m, g, |k|)
    ensures HasChunks(StoreRun(m, k, cs, |cs|), k, Survivors(k, ChunksOf(g, k), cs))
  {
    forall c | k <= c
      ensures var m', s := StoreRun(m, k, cs, |cs|), Survivors(k, ChunksOf(g, k), cs);
              (c in m' <==> |c| == |k| + 1 && c[|k|] < |s|) && (c in m' ==> m'[c] == s[c[|k|]])
    {
      StoreRunSurvivorsAt(m, g, k, cs, c);
    }
  }

  lemma StoreRunSurvivorsAt(m: Map, g: Groups, k: Bytes, cs: seq<Bytes>, c: Bytes)
    requires Holds(m, g, |k|) && k <= c
    ensures var m', s := StoreRun(m, k, cs, |cs|), Survivors(k, ChunksOf(g, k), cs);
            (c in m' <==> |c| == |k| + 1 && c[|k|] < |s|) && (c in m' ==> m'[c] == s[c[|k|]])
  {
    assert HoldsAt(m, g, |k|, c) && c[..|k|] == k;
    if |cs| <= 256 {
      StoreRunAt(m, k, cs, |cs|, c);
    } else if HasRoom(k) {
      StoreRunAt(m, k, cs, 256, c);
      StoreRunSpills(m, k, cs, |cs|, c);
    } else {
      StoreRunAt(m, k, cs, 255, c);
      StoreRunSticks(m, k, cs, |cs|);
      assert |c| == |k| + 1 ==> c == k + [c[|k|]];
    }
  }

  /** At `c`, `m'` is `m` with the chunks `cs` of `k` written over it. */
  ghost predicate WrittenAt(m: Map, m': Map, k: Bytes, cs: seq<Bytes>, c: Bytes) {
    var own := |c| == |k| + 1 && c[..|k|] == k && c[|k|] < |cs|;
    && (c in m' <==> own || c in m)
    && (own ==> m'[c] == cs[c[|k|]])
    && (!own && c in m ==> m'[c] == m[c])
  }

  lemma OverwriteHoldsAt(m: Map, m': Map, g: Groups, k: Bytes, cs: seq<Bytes>, c: Bytes)
    requires HoldsAt(m, g, |k|, c) && WrittenAt(m, m', k, cs, c)
    ensures HoldsAt(m', g[k := Overwrite(ChunksOf(g, k), cs)], |k|, c)
  {
  }

  lemma OverwriteHolds(m: Map, m': Map, g: Groups, k: Bytes, cs: seq<Bytes>)
    requires Holds(m, g, |k|) && WfChunks(cs) && forall c :: WrittenAt(m, m', k, cs, c)
    ensures Holds(m', g[k := Overwrite(ChunksOf(g, k), cs)], |k|)
  {
    var g' := g[k := Overwrite(ChunksOf(g, k), cs)];
    OverwriteWf(g, k, cs);
    forall c ensures HoldsAt(m', g', |k|, c) {
      assert HoldsAt(m, g, |k|, c);
      OverwriteHoldsAt(m, m', g, k, cs, c);
    }
  }

  /** Setting all chunks of a key overwrites that key's chunks and no others. */
  lemma StoreRunHolds(m: Map, g: Groups, k: Bytes, cs: seq<Bytes>)
    requires Holds(m, g, |k|) && WfChunks(cs)
    ensures Holds(StoreRun(m, k, cs, |cs|), g[k := Overwrite(ChunksOf(g, k), cs)], |k|)
  {
    var m' := StoreRun(m, k, cs, |cs|);
    forall c ensures WrittenAt(m, m', k, cs, c) {
      StoreRunAt(m, k, cs, |cs|, c);
    }
    OverwriteHolds(m, m', g, k, cs);
  }

  lemma OverwriteWf(g: Groups, k: Bytes, cs: seq<Bytes>)
    requires WfChunks(cs) && forall q :: q in g ==> |q| == |k| && WfChunks(g[q])
    ensures var g' := g[k := Overwrite(ChunksOf(g, k), cs)]; forall q :: q in g' ==> |q| == |k| && WfChunks(g'[q])
  {
    assert WfChunks(Overwrite(ChunksOf(g, k), cs));
  }

  /** A `Set` of at most 256 chunks writes chunk i under the suffix i, and nothing else, whatever is stored. */
  lemma StoredExact(m: Map, k: Bytes, v: Bytes, size: nat, c: Bytes)
    requires size >= 1 && |Split(v, size)| <= 256
    ensures WrittenAt(m, Stored(m, k, v, size), k, Split(v, size), c)
  {
    StoreRunAt(m, k, Split(v, size), |Split(v, size)|, c);
  }

  /** What `Get` of the key returns after any `Set` of it. */
  lemma SetReadsBack(m: Map, g: Groups, k: Bytes, v: Bytes, size: nat)
    requires size >= 1 && Holds(m, g, |k|)
    ensures ReadsAs(Stored(m, k, v, size), k, Some(Join(Survivors(k, ChunksOf(g, k), Split(v, size)))))
  {
    var cs := Split(v, size);
    StoreRunSurvivors(m, g, k, cs);
    ScanYields(Stored(m, k, v, size), k, Survivors(k, ChunksOf(g, k), cs));
  }

  /** The inner store after a `Set`. */
  function Stored(m: Map, k: Bytes, v: Bytes, size: nat): Map
    requires size >= 1
  {
    StoreRun(m, k, Split(v, size), |Split(v, size)|)
  }

  /** The inner store after a `Delete`. */
  function Removed(m: Map, k: Bytes): Map {
    m - (set x | x in m && k <= x)
  }

  /** Every key of this length reads as in the plain map. */
  ghost predicate ReadsAll(m: Map, keyLen: nat, plain: Map) {
    forall q: Bytes :: |q| == keyLen ==> ReadsAs(m, q, ValueAt(plain, q))
  }

  lemma HoldsReads(m: Map, g: Groups, keyLen: nat)
    requires Holds(m, g, keyLen)
    ensures ReadsAll(m, keyLen, Values(g))
  {
    forall q: Bytes | |q| == keyLen ensures ReadsAs(m, q, ValueAt(Values(g), q)) {
      GetExact(m, g, q);
    }
  }

  /**
   A set reads back as on a plain map, for every key, if and only if the value has at most
   256 chunks, and no fewer than the value it replaces.
   */
  lemma SetExact(m: Map, g: Groups, k: Bytes, v: Bytes, size: nat)
    requires size >= 1 && Holds(m, g, |k|)
    ensures ReadsAll(Stored(m, k, v, size), |k|, Values(g)[k := v]) <==>
              |ChunksOf(g, k)| <= |Split(v, size)| <= 256
  {
    if |ChunksOf(g, k)| <= |Split(v, size)| <= 256 {
      SetFits(m, g, k, v, size);
    } else if ReadsAll(Stored(m, k, v, size), |k|, Values(g)[k := v]) {
      assert ReadsAs(Stored(m, k, v, size), k, ValueAt(Values(g)[k := v], k));
      MisfitReads(m, g, k, v, size);
    }
  }

  lemma SetFits(m: Map, g: Groups, k: Bytes, v: Bytes, size: nat)
    requires size >= 1 && Holds(m, g, |k|) && |ChunksOf(g, k)| <= |Split(v, size)| <= 256
    ensures ReadsAll(Stored(m, k, v, size), |k|, Values(g)[k := v])
  {
    var g' := g[k := Split(v, size)];
    JoinSplit(v, size);
    assert Holds(Stored(m, k, v, size), g', |k|) by {
      StoreRunHolds(m, g, k, Split(v, size));
    }
    assert Values(g') == Values(g)[k := v];
    HoldsReads(Stored(m, k, v, size), g', |k|);
  }

  /** A value that does not fit does not read back. */
  lemma MisfitReads(m: Map, g: Groups, k: Bytes, v: Bytes, size: nat)
    requires size >= 1 && Holds(m, g, |k|) && !(|ChunksOf(g, k)| <= |Split(v, size)| <= 256)
    ensures !ReadsAs(Stored(m, k, v, size), k, Some(v))
  {
    var r := Join(Survivors(k, ChunksOf(g, k), Split(v, size)));
    assert r != v by {
      OverwriteExact(k, ChunksOf(g, k), v, size);
    }
    SetReadsBack(m, g, k, v, size);
    if ReadsAs(Stored(m, k, v, size), k, Some(v)) {
      ReadUnique(Stored(m, k, v, size), k, Some(v), Some(r));
    }
  }

  /** Removing every extension of a key removes its chunks and no others. */
  lemma RemoveRunHolds(m: Map, g: Groups, k: Bytes)
    requires Holds(m, g, |k|)
    ensures Holds(Removed(m, k), g - {k}, |k|)
  {
    var m', g' := Removed(m, k), g - {k};
    forall c ensures HoldsAt(m', g', |k|, c) {
      assert HoldsAt(m, g, |k|, c);
      assert k <= c <==> |k| <= |c| && c[..|k|] == k;
    }
  }

  /** A delete always acts as on a plain map. */
  lemma DeleteExact(m: Map, g: Groups, k: Bytes)
    requires Holds(m, g, |k|)
    ensures ReadsAll(Removed(m, k), |k|, Values(g) - {k})
  {
    RemoveRunHolds(m, g, k);
    HoldsReads(Removed(m, k), g - {k}, |k|);
    assert Values(g - {k}) == Values(g) - {k};
  }

  // ---------------------------------------------------------------- iteration

  /** The chunk entries of one key, in the direction of iteration. */
  function Run(k: Bytes, cs: seq<Bytes>, reverse: bool): (r: seq<Entry>)
    requires |cs| <= 256
    ensures |r| == |cs|
  {
    seq(|cs|, i requires 0 <= i < |cs| =>
      var j := if reverse then |cs| - 1 - i else i;
      Entry(k + [j], cs[j]))
  }

  /** Chunks as they are joined: a reverse iterator meets them last to first. */
  function InOrder(reverse: bool, cs: seq<Bytes>): seq<Bytes> {
    if reverse then Reverse(cs) else cs
  }

  lemma RunVals(k: Bytes, cs: seq<Bytes>, reverse: bool)
    requires |cs| <= 256
    ensures InOrder(reverse, Vals(Run(k, cs, reverse))) == cs
  {
    var v := Vals(Run(k, cs, reverse));
    forall i | 0 <= i < |cs| ensures v[i] == cs[if reverse then |cs| - 1 - i else i] {
      ValsAt(Run(k, cs, reverse), i);
    }
    if reverse {
      ReverseLength(v);
      forall i | 0 <= i < |cs| ensures Reverse(v)[i] == cs[i] {
        ReverseAt(v, i);
      }
    }
  }

  /** All chunk entries of the listed keys. */
  function Flatten(g: Groups, reverse: bool, l: seq<Entry>): seq<Entry>
    requires forall e :: e in l ==> e.key in g && |g[e.key]| <= 256
  {
    if l == [] then [] else Run(l[0].key, g[l[0].key], reverse) + Flatten(g, reverse, l[1..])
  }

  /** Bounds no longer than the keys cannot separate the chunks of one key. */
  predicate BoundsFit(opts: IterOptions, keyLen: nat) {
    |Contents(opts.prefix)| <= keyLen && |Contents(opts.start)| <= keyLen && |Contents(opts.end)| <= keyLen
  }

  lemma SelectsChunk(opts: IterOptions, k: Bytes, i: Byte)
    requires BoundsFit(opts, |k|)
    ensures Selects(opts, k + [i]) <==> Selects(opts, k)
  {
    LtUnderSuffix(k, [i], Contents(opts.prefix));
    LtUnderSuffix(k, [i], Contents(opts.start));
    LtUnderSuffix(k, [i], Contents(opts.end));
  }

  /** Keys of one length keep their order under suffixes. */
  lemma {:induction false} LtSameLength(a: Bytes, b: Bytes, x: Bytes, y: Bytes)
    requires |a| == |b| && Lt(a, b)
    ensures Lt(a + x, b + y)
  {
    assert (a + x)[1..] == a[1..] + x && (b + y)[1..] == b[1..] + y;
    if a[0] == b[0] {
      LtSameLength(a[1..], b[1..], x, y);
    }
  }

  lemma RunOrdered(k: Bytes, cs: seq<Bytes>, reverse: bool)
    requires |cs| <= 256
    ensures Ordered(reverse, Run(k, cs, reverse))
    ensures forall e :: e in Run(k, cs, reverse) <==> exists j: Byte :: j < |cs| && e == Entry(k + [j], cs[j])
  {
    var r := Run(k, cs, reverse);
    forall a, b | 0 <= a < b < |r| ensures Prec(reverse, r[a].key, r[b].key) {
      var i := if reverse then |cs| - 1 - a else a;
      var j := if reverse then |cs| - 1 - b else b;
      LtUnderPrefix(k, [i], [j]);
      LtUnderPrefix(k, [j], [i]);
    }
    forall e, j: Byte | j < |cs| && e == Entry(k + [j], cs[j]) ensures e in r {
      var i := if reverse then |cs| - 1 - j else j;
      assert r[i] == e;
    }
  }

  /** The entries of a flattened list. */
  lemma {:induction false} FlattenMembers(g: Groups, reverse: bool, l: seq<Entry>)
    requires forall e :: e in l ==> e.key in g && |g[e.key]| <= 256
    ensures forall c :: c in Flatten(g, reverse, l) <==>
              exists e, j: Byte :: e in l && j < |g[e.key]| && c == Entry(e.key + [j], g[e.key][j])
  {
    if l != [] {
      FlattenMembers(g, reverse, l[1..]);
      RunOrdered(l[0].key, g[l[0].key], reverse);
      assert l == [l[0]] + l[1..];
    }
  }

  lemma {:induction false} FlattenOrdered(g: Groups, reverse: bool, l: seq<Entry>, keyLen: nat)
    requires forall e :: e in l ==> e.key in g && |g[e.key]| <= 256 && |e.key| == keyLen
    requires Ordered(reverse, l)
    ensures Ordered(reverse, Flatten(g, reverse, l))
  {
    if l != [] {
      var run, rest := Run(l[0].key, g[l[0].key], reverse), Flatten(g, reverse, l[1..]);
      FlattenOrdered(g, reverse, l[1..], keyLen);
      RunOrdered(l[0].key, g[l[0].key], reverse);
      FlattenMembers(g, reverse, l[1..]);
      forall x, y | x in run && y in rest ensures Prec(reverse, x.key, y.key) {
        var i: Byte :| i < |g[l[0].key]| && x == Entry(l[0].key + [i], g[l[0].key][i]);
        var e, j: Byte :| e in l[1..] && j < |g[e.key]| && y == Entry(e.key + [j], g[e.key][j]);
        assert Prec(reverse, l[0].key, e.key);
        if reverse {
          LtSameLength(e.key, l[0].key, [j], [i]);
        } else {
          LtSameLength(l[0].key, e.key, [i], [j]);
        }
      }
    }
  }
}
