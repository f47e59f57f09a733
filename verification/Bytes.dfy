/**
 Byte strings under the order of Go's `bytes.Compare`, and `bytesPrefixEnd`, the least
 string above every extension of a prefix. The memory, chunk and namespace stores all
 rest on these.
 */
module Bytes {

  type Byte = x: int | 0 <= x < 256

  type Bytes = seq<Byte>

  datatype Option<+T> = None | Some(value: T)

  /** A nil slice and an empty one have the same contents. */
  function Contents(o: Option<Bytes>): Bytes {
    if o.Some? then o.value else []
  }

  // ---------------------------------------------------------------- lexicographic order

  /** `bytes.Compare(a, b) == -1`. */
  predicate Lt(a: Bytes, b: Bytes) {
    b != [] && (a == [] || a[0] < b[0] || (a[0] == b[0] && Lt(a[1..], b[1..])))
  }

  lemma {:induction false} LtTrichotomy(a: Bytes, b: Bytes)
    ensures Lt(a, b) || Lt(b, a) || a == b
    ensures !(Lt(a, b) && Lt(b, a))
    ensures a == b ==> !Lt(a, b)
  {
    if a != [] && b != [] {
      LtTrichotomy(a[1..], b[1..]);
      assert a == [a[0]] + a[1..] && b == [b[0]] + b[1..];
    }
  }

  lemma {:induction false} LtTransitive(a: Bytes, b: Bytes, c: Bytes)
    requires Lt(a, b) && Lt(b, c)
    ensures Lt(a, c)
  {
    if a != [] && a[0] == b[0] == c[0] {
      LtTransitive(a[1..], b[1..], c[1..]);
    }
  }

  /** `Lt` is a strict total order, in a form that later proofs can instantiate. */
  lemma LtTotalOrder()
    ensures forall a, b :: Lt(a, b) || Lt(b, a) || a == b
    ensures forall a, b :: Lt(a, b) ==> !Lt(b, a)
    ensures forall a :: !Lt(a, a)
    ensures forall a, b, c :: Lt(a, b) && Lt(b, c) ==> Lt(a, c)
  {
    forall a, b ensures Lt(a, b) || Lt(b, a) || a == b ensures Lt(a, b) ==> !Lt(b, a) {
      LtTrichotomy(a, b);
    }
    forall a ensures !Lt(a, a) {
      LtTrichotomy(a, a);
    }
    forall a, b, c | Lt(a, b) && Lt(b, c) ensures Lt(a, c) {
      LtTransitive(a, b, c);
    }
  }

  /** A common prefix does not affect the order. */
  lemma {:induction false} LtUnderPrefix(p: Bytes, a: Bytes, b: Bytes)
    ensures Lt(p + a, p + b) <==> Lt(a, b)
  {
    if p == [] {
      assert p + a == a && p + b == b;
    } else {
      LtUnderPrefix(p[1..], a, b);
      assert (p + a)[1..] == p[1..] + a && (p + b)[1..] == p[1..] + b;
    }
  }

  /** Suffixes cannot reorder a string against one that is no longer than it. */
  lemma {:induction false} LtUnderSuffix(k: Bytes, suffix: Bytes, bound: Bytes)
    requires |bound| <= |k|
    ensures Lt(k + suffix, bound) <==> Lt(k, bound)
    ensures bound <= k + suffix <==> bound <= k
  {
    if bound != [] {
      LtUnderSuffix(k[1..], suffix, bound[1..]);
      assert (k + suffix)[1..] == k[1..] + suffix;
      assert bound <= k <==> bound[0] == k[0] && bound[1..] <= k[1..] by {
        assert bound == [bound[0]] + bound[1..] && k == [k[0]] + k[1..];
      }
      assert bound <= k + suffix <==> bound[0] == k[0] && bound[1..] <= k[1..] + suffix by {
        assert bound == [bound[0]] + bound[1..] && k + suffix == [k[0]] + (k[1..] + suffix);
      }
    }
  }

  lemma ConcatAssoc(a: Bytes, b: Bytes, c: Bytes)
    ensures a + (b + c) == a + b + c
  {
  }

  // ---------------------------------------------------------------- bytesPrefixEnd

  /** Some byte can be incremented; false for the empty string and for 0xff...ff. */
  predicate HasRoom(b: Bytes) {
    b != [] && (b[0] < 255 || HasRoom(b[1..]))
  }

  /** Increments the last byte below 0xff and drops what follows it. */
  function PrefixEnd(b: Bytes): Bytes {
    if !HasRoom(b) then b
    else if HasRoom(b[1..]) then [b[0]] + PrefixEnd(b[1..])
    else [b[0] + 1]
  }

  lemma {:induction false} PrefixEndAt(b: Bytes, i: nat)
    requires i < |b| && b[i] < 255
    requires forall j :: i < j < |b| ==> b[j] == 255
    ensures HasRoom(b) && PrefixEnd(b) == b[..i] + [b[i] + 1]
  {
    if i == 0 {
      NoRoomAllMax(b[1..]);
    } else {
      PrefixEndAt(b[1..], i - 1);
      assert b[..i] == [b[0]] + b[1..][..i - 1];
    }
  }

  lemma {:induction false} NoRoomAllMax(b: Bytes)
    ensures HasRoom(b) <==> exists j :: 0 <= j < |b| && b[j] < 255
  {
    if b != [] {
      NoRoomAllMax(b[1..]);
      if HasRoom(b[1..]) {
        var j :| 0 <= j < |b[1..]| && b[1..][j] < 255;
        assert b[j + 1] < 255;
      }
      if j :| 0 <= j < |b| && b[j] < 255 {
        if j > 0 {
          assert b[1..][j - 1] < 255;
        }
      }
    }
  }

  /** The in-place loop: increment from the right, carrying while a byte wraps to zero. */
  method BytesPrefixEnd(b: Bytes) returns (r: Bytes)
    ensures r == PrefixEnd(b)
  {
    var end := new Byte[|b|](i requires 0 <= i < |b| => b[i]);
    var i := |b| - 1;
    while i >= 0
      invariant -1 <= i < |b|
      invariant forall j :: 0 <= j <= i ==> end[j] == b[j]
      invariant forall j :: i < j < |b| ==> b[j] == 255
    {
      end[i] := (end[i] as int + 1) % 256;
      if end[i] != 0 {
        PrefixEndAt(b, i);
        assert end[..i] == b[..i];
        return end[..i + 1];
      }
      i := i - 1;
    }
    NoRoomAllMax(b);
    return b;
  }

  /** The half-open range from `b` to its prefix end holds exactly the extensions of `b`. */
  lemma {:induction false} PrefixRange(b: Bytes, k: Bytes)
    requires HasRoom(b)
    ensures !Lt(k, b) && Lt(k, PrefixEnd(b)) <==> b <= k
  {
    if k == [] {
      assert Lt(k, b);
    } else {
      assert b == [b[0]] + b[1..] && k == [k[0]] + k[1..];
      assert b <= k <==> b[0] == k[0] && b[1..] <= k[1..];
      if HasRoom(b[1..]) {
        PrefixRange(b[1..], k[1..]);
        assert PrefixEnd(b)[1..] == PrefixEnd(b[1..]);
      } else {
        assert !Lt(k[1..], []);
        if k[0] == b[0] {
          NoRoomPrefix(b[1..], k[1..]);
        }
      }
    }
  }

  /** Above a maximal string there are only its extensions. */
  lemma {:induction false} NoRoomPrefix(b: Bytes, k: Bytes)
    requires !HasRoom(b)
    ensures !Lt(k, b) <==> b <= k
  {
    if b != [] && k != [] {
      assert b == [b[0]] + b[1..] && k == [k[0]] + k[1..];
      NoRoomPrefix(b[1..], k[1..]);
    }
  }

  /** No smaller string bounds all extensions of `b`: one of them is not below `e`. */
  lemma PrefixEndTight(b: Bytes, e: Bytes) returns (k: Bytes)
    requires HasRoom(b) && Lt(e, PrefixEnd(b))
    ensures b <= k && !Lt(k, e)
  {
    PrefixRange(b, e);
    LtTrichotomy(e, b);
    LtTrichotomy(e, e);
    k := if Lt(e, b) then b else e;
  }

  /** The range is right precisely for the empty prefix (no bound) and those with room. */
  lemma PrefixRangeExact(b: Bytes)
    requires b != []
    ensures (forall k :: (!Lt(k, b) && Lt(k, PrefixEnd(b))) <==> b <= k) <==> HasRoom(b)
  {
    if HasRoom(b) {
      forall k ensures (!Lt(k, b) && Lt(k, PrefixEnd(b))) <==> b <= k {
        PrefixRange(b, k);
      }
    } else {
      LtTrichotomy(b, b);
      assert b <= b && !Lt(b, PrefixEnd(b));
    }
  }

  lemma {:induction false} HasRoomConcat(a: Bytes, b: Bytes)
    ensures HasRoom(a + b) <==> HasRoom(a) || HasRoom(b)
  {
    if a == [] {
      assert a + b == b;
    } else {
      HasRoomConcat(a[1..], b);
      assert (a + b)[1..] == a[1..] + b;
    }
  }

  lemma {:induction false} PrefixEndUnderPrefix(a: Bytes, b: Bytes)
    requires HasRoom(b)
    ensures PrefixEnd(a + b) == a + PrefixEnd(b)
  {
    if a == [] {
      assert a + b == b;
    } else {
      var s, e := a + b, PrefixEnd(b);
      assert s[0] == a[0] && s[1..] == a[1..] + b;
      HasRoomConcat(a[1..], b);
      assert PrefixEnd(s[1..]) == a[1..] + e by {
        PrefixEndUnderPrefix(a[1..], b);
      }
      assert a + e == [a[0]] + (a[1..] + e);
    }
  }

  /** Taking the prefix end commutes with prefixing, except when only the left side has room. */
  lemma PrefixEndConcat(a: Bytes, b: Bytes)
    ensures PrefixEnd(a + b) == a + PrefixEnd(b) <==> HasRoom(b) || !HasRoom(a)
  {
    HasRoomConcat(a, b);
    if HasRoom(b) {
      PrefixEndUnderPrefix(a, b);
    } else if HasRoom(a) {
      PrefixRange(a + b, a + b);
      LtTrichotomy(a + b, a + b);
    }
  }
}
