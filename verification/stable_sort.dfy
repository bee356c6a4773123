/** A stable sort in descending order of a real-valued key, the behaviour of
    Python's `list.sort(key=..., reverse=True)`. Modelled as insertion sort;
    `SortedStableUnique` shows that every sorted, stable rearrangement is this
    one, so the choice of algorithm does not matter. */
module StableSort {
  import opened Seqs

  ghost predicate SortedDesc<T>(s: seq<T>, key: T -> real)
  {
    forall i, j :: 0 <= i < j < |s| ==> key(s[i]) >= key(s[j])
  }

  /** The elements of `s` whose key is `v`, in their order in `s`. */
  function WithKey<T>(s: seq<T>, key: T -> real, v: real): seq<T>
  {
    if |s| == 0 then [] else (if key(s[0]) == v then [s[0]] else []) + WithKey(s[1..], key, v)
  }

  /** Stability: for every key value, the elements carrying it appear in `r`
      in the same order as in `s`. */
  ghost predicate SameTies<T>(r: seq<T>, s: seq<T>, key: T -> real)
  {
    forall v :: WithKey(r, key, v) == WithKey(s, key, v)
  }

  lemma {:induction false} WithKeyMember<T>(s: seq<T>, key: T -> real, v: real, x: T)
    ensures x in WithKey(s, key, v) <==> x in s && key(x) == v
  {
    if |s| > 0 {
      WithKeyMember(s[1..], key, v, x);
      assert s == [s[0]] + s[1..];
    }
  }

  /** Insert `x` before the first element whose key is not larger, so that it
      stays ahead of the elements it ties with. */
  function Insert<T>(x: T, s: seq<T>, key: T -> real): (r: seq<T>)
    requires SortedDesc(s, key)
    ensures |r| == |s| + 1
    ensures key(r[0]) == key(x) || (|s| > 0 && key(r[0]) == key(s[0]))
    ensures SortedDesc(r, key)
    ensures multiset(r) == multiset(s) + multiset{x}
  {
    if |s| == 0 || key(s[0]) <= key(x) then
      [x] + s
    else
      var t := Insert(x, s[1..], key);
      assert key(s[0]) >= key(t[0]);
      assert SortedDesc([s[0]] + t, key) by {
        forall i, j | 0 <= i < j < |t| + 1 ensures key(([s[0]] + t)[i]) >= key(([s[0]] + t)[j]) {
          if i == 0 {
            assert key(t[0]) >= key(t[j - 1]);
          }
        }
      }
      assert s == [s[0]] + s[1..];
      assert multiset([s[0]] + t) == multiset{s[0]} + multiset(t);
      [s[0]] + t
  }

  lemma {:induction false} InsertTies<T>(x: T, s: seq<T>, key: T -> real, v: real)
    requires SortedDesc(s, key)
    ensures WithKey(Insert(x, s, key), key, v) == (if key(x) == v then [x] else []) + WithKey(s, key, v)
  {
    var px: seq<T> := if key(x) == v then [x] else [];
    if |s| == 0 || key(s[0]) <= key(x) {
      assert Insert(x, s, key) == [x] + s;
      assert ([x] + s)[1..] == s;
      assert WithKey([x] + s, key, v) == px + WithKey(s, key, v);
    } else {
      var t := Insert(x, s[1..], key);
      InsertTies(x, s[1..], key, v);
      assert Insert(x, s, key) == [s[0]] + t;
      assert ([s[0]] + t)[1..] == t;
      var p0: seq<T> := if key(s[0]) == v then [s[0]] else [];
      assert WithKey([s[0]] + t, key, v) == p0 + WithKey(t, key, v);
      assert WithKey(s, key, v) == p0 + WithKey(s[1..], key, v);
      assert p0 == [] || px == [];
      assert p0 + (px + WithKey(s[1..], key, v)) == px + (p0 + WithKey(s[1..], key, v));
    }
  }

  /** Stable descending sort: a permutation of `s`, ordered by non-increasing
      key, with ties in their original order. */
  function Sort<T>(s: seq<T>, key: T -> real): (r: seq<T>)
    ensures |r| == |s|
    ensures multiset(r) == multiset(s)
    ensures SortedDesc(r, key)
    ensures SameTies(r, s, key)
  {
    if |s| == 0 then []
    else
      var t := Sort(s[1..], key);
      assert s == [s[0]] + s[1..];
      forall v ensures WithKey(Insert(s[0], t, key), key, v) == WithKey(s, key, v) {
        InsertTies(s[0], t, key, v);
      }
      Insert(s[0], t, key)
  }

  lemma WithKeyHead<T>(s: seq<T>, key: T -> real)
    requires |s| > 0
    ensures WithKey(s, key, key(s[0])) == [s[0]] + WithKey(s[1..], key, key(s[0]))
  {
  }

  /** Two sorted sequences with the same ties are equal. */
  lemma {:induction false} SortedStableUnique<T>(a: seq<T>, b: seq<T>, key: T -> real)
    requires SortedDesc(a, key) && SortedDesc(b, key) && SameTies(a, b, key)
    ensures a == b
    decreases |a|
  {
    if |a| == 0 {
      if |b| > 0 {
        WithKeyHead(b, key);
        assert false;
      }
    } else if |b| == 0 {
      WithKeyHead(a, key);
      assert false;
    } else {
      var va, vb := key(a[0]), key(b[0]);
      WithKeyHead(a, key);
      WithKeyHead(b, key);
      WithKeyMember(a, key, vb, WithKey(a, key, vb)[0]);
      WithKeyMember(b, key, va, WithKey(b, key, va)[0]);
      assert WithKey(b, key, va)[0] in b;
      assert WithKey(a, key, vb)[0] in a;
      assert va == vb;
      assert a[0] == WithKey(a, key, va)[0] == b[0];
      forall v ensures WithKey(a[1..], key, v) == WithKey(b[1..], key, v) {
        var p: seq<T> := if va == v then [a[0]] else [];
        assert WithKey(a, key, v) == p + WithKey(a[1..], key, v);
        assert WithKey(b, key, v) == p + WithKey(b[1..], key, v);
        assert WithKey(a[1..], key, v) == (p + WithKey(a[1..], key, v))[|p|..];
        assert WithKey(b[1..], key, v) == (p + WithKey(b[1..], key, v))[|p|..];
      }
      SortedStableUnique(a[1..], b[1..], key);
      assert a == [a[0]] + a[1..] && b == [b[0]] + b[1..];
    }
  }

  /** Any sorted, stable rearrangement of `s` (Python's Timsort included) is `Sort(s)`. */
  lemma AnyStableSortAgrees<T>(s: seq<T>, r: seq<T>, key: T -> real)
    requires SortedDesc(r, key) && SameTies(r, s, key)
    ensures r == Sort(s, key)
  {
    SortedStableUnique(r, Sort(s, key), key);
  }

  /** Already sorted input is left as it is; in particular, when every key is
      the same the order does not change. */
  lemma SortOfSorted<T>(s: seq<T>, key: T -> real)
    requires SortedDesc(s, key)
    ensures Sort(s, key) == s
  {
    SortedStableUnique(Sort(s, key), s, key);
  }

  ghost predicate IncreasingTags<T>(s: seq<T>, tag: T -> int)
  {
    forall i, j :: 0 <= i < j < |s| ==> tag(s[i]) < tag(s[j])
  }

  lemma {:induction false} WithKeyIncreasing<T>(s: seq<T>, key: T -> real, v: real, tag: T -> int)
    requires IncreasingTags(s, tag)
    ensures IncreasingTags(WithKey(s, key, v), tag)
  {
    if |s| > 0 {
      WithKeyIncreasing(s[1..], key, v, tag);
      var w := WithKey(s[1..], key, v);
      forall j | 0 <= j < |w| ensures tag(s[0]) < tag(w[j]) {
        WithKeyMember(s[1..], key, v, w[j]);
        assert w[j] in s[1..];
      }
    }
  }

  lemma {:induction false} TiesFollowTags<T>(r: seq<T>, key: T -> real, tag: T -> int, i: nat, j: nat)
    requires i < j < |r| && key(r[i]) == key(r[j])
    requires IncreasingTags(WithKey(r, key, key(r[i])), tag)
    ensures tag(r[i]) < tag(r[j])
  {
    var v := key(r[i]);
    var w := WithKey(r[1..], key, v);
    assert r[j] == r[1..][j - 1];
    WithKeyMember(r[1..], key, v, r[j]);
    if i == 0 {
      assert r[j] in w;
      var k :| 0 <= k < |w| && w[k] == r[j];
      var whole := WithKey(r, key, v);
      assert whole == [r[0]] + w;
      assert whole[0] == r[0] && whole[k + 1] == r[j];
    } else {
      var p := if key(r[0]) == v then [r[0]] else [];
      assert WithKey(r, key, v) == p + w;
      assert IncreasingTags(w, tag) by {
        forall a, b | 0 <= a < b < |w| ensures tag(w[a]) < tag(w[b]) {
          assert w[a] == (p + w)[a + |p|] && w[b] == (p + w)[b + |p|];
        }
      }
      assert r[i] == r[1..][i - 1];
      TiesFollowTags(r[1..], key, tag, i - 1, j - 1);
    }
  }

  /** When the input carries increasing tags (its original positions), tied
      elements of the output still have increasing tags. */
  lemma StableByTag<T>(s: seq<T>, key: T -> real, tag: T -> int)
    requires IncreasingTags(s, tag)
    ensures forall i, j :: 0 <= i < j < |s| && key(Sort(s, key)[i]) == key(Sort(s, key)[j]) ==>
      tag(Sort(s, key)[i]) < tag(Sort(s, key)[j])
  {
    var r := Sort(s, key);
    forall i, j | 0 <= i < j < |s| && key(r[i]) == key(r[j]) ensures tag(r[i]) < tag(r[j]) {
      WithKeyIncreasing(s, key, key(r[i]), tag);
      TiesFollowTags(r, key, tag, i, j);
    }
  }

  lemma SortedTail<T>(s: seq<T>, key: T -> real)
    requires |s| > 0 && SortedDesc(s, key)
    ensures SortedDesc(s[1..], key)
  {
  }

  /** Sorting permutes whatever is projected from the elements as well. */
  lemma SortMapMultiset<T, U>(s: seq<T>, key: T -> real, f: T -> U)
    ensures multiset(MapSeq(f, Sort(s, key))) == multiset(MapSeq(f, s))
  {
    PermutationMap(f, Sort(s, key), s);
  }

  /** Two elements come out with the strictly larger key first. */
  lemma SortPairSwaps<T>(a: T, b: T, key: T -> real)
    requires key(b) > key(a)
    ensures Sort([a, b], key) == [b, a]
  {
    var r := Sort([a, b], key);
    assert multiset(r) == multiset{a, b};
    assert r[0] in multiset(r) && r[1] in multiset(r);
  }

  lemma {:induction false} WithKeyAppend<T>(a: seq<T>, b: seq<T>, key: T -> real, v: real)
    ensures WithKey(a + b, key, v) == WithKey(a, key, v) + WithKey(b, key, v)
    decreases |a|
  {
    if |a| > 0 {
      WithKeyAppend(a[1..], b, key, v);
      assert (a + b)[1..] == a[1..] + b;
    } else {
      assert a + b == b;
    }
  }

  /** Projecting through `f` commutes with picking the elements of one key,
      when `key'` reads on the projection what `key` reads on the element. */
  lemma {:induction false} WithKeyMap<T, U>(s: seq<T>, f: T -> U, key: T -> real, key': U -> real, v: real)
    requires forall i :: 0 <= i < |s| ==> key(s[i]) == key'(f(s[i]))
    ensures MapSeq(f, WithKey(s, key, v)) == WithKey(MapSeq(f, s), key', v)
    decreases |s|
  {
    if |s| > 0 {
      WithKeyMap(s[1..], f, key, key', v);
      var p: seq<T> := if key(s[0]) == v then [s[0]] else [];
      MapSeqAppend(f, p, WithKey(s[1..], key, v));
      assert MapSeq(f, s)[1..] == MapSeq(f, s[1..]);
    }
  }

  /** Every element of `s` left out of `r` has a key no larger than that of
      any element of `r`: `r` holds the best of `s`. */
  ghost predicate KeepsBest<T>(r: seq<T>, s: seq<T>, key: T -> real)
  {
    forall x, k :: x in multiset(s) - multiset(r) && 0 <= k < |r| ==> key(x) <= key(r[k])
  }

  /** For every key value, the elements of `r` carrying it are the first ones
      of `s` carrying it, in the same order: ties are broken by position. */
  ghost predicate TiesFirst<T>(r: seq<T>, s: seq<T>, key: T -> real)
  {
    forall v :: IsPrefix(WithKey(r, key, v), WithKey(s, key, v))
  }

  /** A prefix of a sorted, stable rearrangement of `s` holds the best of `s`,
      ties taken in the order of `s`. */
  lemma SortedPrefixBest<T>(all: seq<T>, s: seq<T>, key: T -> real, n: nat)
    requires n <= |all|
    requires multiset(all) == multiset(s) && SortedDesc(all, key) && SameTies(all, s, key)
    ensures KeepsBest(all[..n], s, key)
    ensures TiesFirst(all[..n], s, key)
  {
    var r, rest := all[..n], all[n..];
    assert all == r + rest;
    forall x, k | x in multiset(s) - multiset(r) && 0 <= k < |r| ensures key(x) <= key(r[k]) {
      assert x in multiset(rest);
      var m :| 0 <= m < |rest| && rest[m] == x;
      assert all[n + m] == x && all[k] == r[k];
    }
    forall v ensures IsPrefix(WithKey(r, key, v), WithKey(s, key, v)) {
      WithKeyAppend(r, rest, key, v);
    }
  }
}
