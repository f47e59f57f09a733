/**
 Concrete inputs on which the namespace and the chunk store leave the contract, one for each
 condition that their exactness lemmas name.
 */
module WrapperCounterexamples {
  import opened Bytes
  import opened Kv
  import opened Namespace
  import opened ChunkLayout
  import opened ChunkStore

  const K: Bytes := [1]
  const Max: Bytes := [255]

  // ---------------------------------------------------------------- namespaces

  const FromOne := IterOptions(None, Some([1]), None, false)

  /** An all-0xff namespace loses every key of an iteration with a start and no end. */
  lemma MaximalNamespace(k: Bytes)
    ensures Selects(FromOne, [1]) && !Selects(Translate(Max, FromOne), Max + k)
  {
    LtTrichotomy([1], [1]);
    LtTrichotomy(Max + k, Max + k);
    AboveNamespace(Max, k, Max + k);
    assert Max[1..] == [];
    assert Translate(Max, FromOne).end == Some(Max);
  }

  /** An empty namespace inside another one loses such an iteration too. */
  lemma EmptyInnerNamespace()
    ensures Selects(Translate(K, FromOne), [1, 1]) && !Selects(Translate(K, Translate([], FromOne)), [1, 1])
  {
    NestedLoses(K, [], FromOne);
    assert K + [] == K && K + [1] == [1, 1];
  }

  // ---------------------------------------------------------------- chunks

  lemma NoChunks(keyLen: nat)
    ensures Holds(map[], map[], keyLen)
  {
    forall c ensures HoldsAt(map[], map[], keyLen, c) {
    }
  }

  /** A value of two chunks, replaced by one of one chunk, keeps its second chunk. */
  lemma ShrinkKeepsTail()
    ensures ReadsAs(Stored(Stored(map[], K, [7, 8], 1), K, [9], 1), K, Some([9, 8]))
  {
    var cs: seq<Bytes> := [[7], [8]];
    assert [7, 8][..1] == [7] && [7, 8][1..] == [8];
    assert Split([7, 8], 1) == [[7]] + Split([8], 1) == cs;
    NoChunks(1);
    StoreRunHolds(map[], map[], K, cs);
    var g: Groups := map[K := cs];
    assert g == map[][K := Overwrite([], cs)];
    SetReadsBack(Stored(map[], K, [7, 8], 1), g, K, [9], 1);
    assert Survivors(K, cs, Split([9], 1)) == [[9], [8]];
    var left: seq<Bytes> := [[9], [8]];
    assert left[1..] == [[8]] && left[1..][1..] == [];
    assert Join(left) == [9] + ([8] + []) == [9, 8];
  }

  /** A value of 257 chunks reads back as another one, and brings up a key that was never set. */
  lemma TooManyChunks(v: Bytes) returns (r: Bytes)
    requires |v| == 257
    ensures ReadsAs(Stored(map[], K, v, 1), K, Some(r)) && r != v
    ensures [2] in Stored(map[], K, v, 1)
  {
    NoChunks(1);
    SplitCount(v, 1);
    r := Join(Survivors(K, [], Split(v, 1)));
    SetReadsBack(map[], map[], K, v, 1);
    OverwriteExact(K, [], v, 1);
    ChunkKeyAt(K, 255);
    PrefixEndDropsMax(K);
    assert ChunkKey(K, 256) == PrefixEnd(K) == [2];
  }

  /** A reverse seek for an all-0xff key passes over the key itself. */
  lemma MaximalChunkKey()
    ensures var inner := [Entry([255, 0], [7])];
            Holds(map[[255, 0] := [7]], map[Max := [[7]]], 1) && SeekRest(inner, true, SeekKey(true, Max)) == []
  {
    var c: Bytes := [255, 0];
    NoChunks(1);
    StoreRunHolds(map[], map[], Max, [[7]]);
    assert StoreRun(map[], Max, [[7]], 1) == map[c := [7]] by {
      assert Max + [0] == c;
      assert StoreRun(map[], Max, [[7]], 1) == StoreRun(map[], Max, [[7]], 0)[ChunkKey(Max, 0) := [7]];
    }
    assert map[][Max := Overwrite([], [[7]])] == map[Max := [[7]]];
    ChunkBeforeSeek(true, Max, Max, 0);
    assert Max[1..] == [] && Max + [0] == c;
    SeekIndexAt([Entry(c, [7])], true, SeekKey(true, Max), 1);
  }
}
