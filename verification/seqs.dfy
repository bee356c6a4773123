/** Sequence vocabulary shared by the model: order-preserving subsequences,
    duplicate-freedom, Python's prefix slice `s[:n]` and list-comprehension filters. */
module Seqs {

  /** `a` can be obtained from `b` by deleting elements (greedy matching). */
  predicate IsSubseq<T(==)>(a: seq<T>, b: seq<T>)
    decreases |b|
  {
    if |a| == 0 then true
    else if |b| == 0 then false
    else if a[0] == b[0] then IsSubseq(a[1..], b[1..])
    else IsSubseq(a, b[1..])
  }

  ghost predicate NoDups<T>(s: seq<T>)
  {
    forall i, j :: 0 <= i < j < |s| ==> s[i] != s[j]
  }

  lemma {:induction false} SubseqMembers<T>(a: seq<T>, b: seq<T>)
    requires IsSubseq(a, b)
    ensures forall x :: x in a ==> x in b
    ensures |a| <= |b|
    decreases |b|
  {
    if |a| > 0 && |b| > 0 {
      if a[0] == b[0] {
        SubseqMembers(a[1..], b[1..]);
        assert a == [a[0]] + a[1..];
      } else {
        SubseqMembers(a, b[1..]);
      }
    }
  }

  lemma {:induction false} SubseqRefl<T>(a: seq<T>)
    ensures IsSubseq(a, a)
  {
    if |a| > 0 {
      SubseqRefl(a[1..]);
    }
  }

  lemma {:induction false} SubseqCons<T>(x: T, a: seq<T>, b: seq<T>)
    requires IsSubseq(a, b)
    ensures IsSubseq(a, [x] + b)
    decreases |b|, 1
  {
    if |a| > 0 && a[0] == x {
      assert ([x] + b)[1..] == b;
      SubseqDropHead(a, b);
    } else {
      assert ([x] + b)[1..] == b;
    }
  }

  /** Dropping the first element of a subsequence keeps it a subsequence. */
  lemma {:induction false} SubseqDropHead<T>(a: seq<T>, b: seq<T>)
    requires |a| > 0 && IsSubseq(a, b)
    ensures IsSubseq(a[1..], b)
    decreases |b|, 0
  {
    assert |b| > 0;
    if a[0] == b[0] {
      SubseqCons(b[0], a[1..], b[1..]);
      assert [b[0]] + b[1..] == b;
    } else {
      SubseqDropHead(a, b[1..]);
      SubseqCons(b[0], a[1..], b[1..]);
      assert [b[0]] + b[1..] == b;
    }
  }

  lemma {:induction false} SubseqTrans<T>(a: seq<T>, b: seq<T>, c: seq<T>)
    requires IsSubseq(a, b) && IsSubseq(b, c)
    ensures IsSubseq(a, c)
    decreases |c|
  {
    if |a| == 0 {
    } else {
      SubseqMembers(a, b);
      assert |b| > 0 && |c| > 0;
      if b[0] == c[0] {
        if a[0] == b[0] {
          SubseqTrans(a[1..], b[1..], c[1..]);
        } else {
          SubseqTrans(a, b[1..], c[1..]);
        }
      } else {
        SubseqTrans(a, b, c[1..]);
        SubseqCons(c[0], a, c[1..]);
        assert [c[0]] + c[1..] == c;
      }
    }
  }

  /** A subsequence of a duplicate-free sequence is duplicate-free. */
  lemma {:induction false} SubseqNoDups<T>(a: seq<T>, b: seq<T>)
    requires IsSubseq(a, b) && NoDups(b)
    ensures NoDups(a)
    decreases |b|
  {
    if |a| > 0 {
      if a[0] == b[0] {
        SubseqNoDups(a[1..], b[1..]);
        SubseqMembers(a[1..], b[1..]);
        forall j | 0 < j < |a| ensures a[0] != a[j] {
          assert a[j] == a[1..][j - 1];
          assert a[j] in b[1..];
        }
      } else {
        SubseqNoDups(a, b[1..]);
      }
    }
  }

  function Min(a: int, b: int): int { if a <= b then a else b }

  function Max(a: int, b: int): int { if a >= b then a else b }

  /** Python's `s[:n]`: a negative `n` counts from the end. */
  function PyPrefix<T>(s: seq<T>, n: int): (r: seq<T>)
    ensures |r| <= |s| && r == s[..|r|]
    ensures n >= 0 ==> |r| == Min(n, |s|)
    ensures n < 0 ==> |r| == Max(|s| + n, 0)
  {
    if n >= 0 then (if n <= |s| then s[..n] else s)
    else if -n <= |s| then s[..|s| + n]
    else []
  }

  /** `[x for x in xs if x in s]` */
  function Keep<T(==)>(xs: seq<T>, s: set<T>): (r: seq<T>)
  {
    if |xs| == 0 then []
    else (if xs[0] in s then [xs[0]] else []) + Keep(xs[1..], s)
  }

  /** `[x for x in xs if x not in s]` */
  function Drop<T(==)>(xs: seq<T>, s: set<T>): (r: seq<T>)
  {
    if |xs| == 0 then []
    else (if xs[0] in s then [] else [xs[0]]) + Drop(xs[1..], s)
  }

  /** `yes` and `no` split `xs` by membership in `s`: each keeps the order of
      `xs`, every element of `xs` lands in exactly one of them according to `s`,
      and no element is lost or repeated. */
  ghost predicate SplitsInOrder<T>(xs: seq<T>, yes: seq<T>, no: seq<T>, s: set<T>)
  {
    && IsSubseq(yes, xs)
    && IsSubseq(no, xs)
    && |yes| + |no| == |xs|
    && (forall x :: x in yes ==> x in s)
    && (forall x :: x in no ==> x !in s)
    && (forall x :: x in xs ==> x in yes || x in no)
  }

  lemma {:induction false} KeepDropSplit<T>(xs: seq<T>, s: set<T>)
    ensures SplitsInOrder(xs, Keep(xs, s), Drop(xs, s), s)
  {
    if |xs| > 0 {
      var k, d := Keep(xs[1..], s), Drop(xs[1..], s);
      KeepDropSplit(xs[1..], s);
      assert [xs[0]] + xs[1..] == xs;
      SubseqMembers(k, xs[1..]);
      SubseqMembers(d, xs[1..]);
      if xs[0] in s {
        assert Keep(xs, s) == [xs[0]] + k;
        assert Drop(xs, s) == d;
        SubseqCons(xs[0], d, xs[1..]);
        assert IsSubseq([xs[0]] + k, xs) by {
          assert ([xs[0]] + k)[1..] == k;
        }
      } else {
        assert Drop(xs, s) == [xs[0]] + d;
        assert Keep(xs, s) == k;
        SubseqCons(xs[0], k, xs[1..]);
        assert IsSubseq([xs[0]] + d, xs) by {
          assert ([xs[0]] + d)[1..] == d;
        }
      }
    }
  }

  /** Two splits of the same sequence never share an element. */
  lemma SplitDisjoint<T>(xs: seq<T>, yes: seq<T>, no: seq<T>, s: set<T>)
    requires SplitsInOrder(xs, yes, no, s)
    ensures forall x :: !(x in yes && x in no)
  {
  }

  /** `[f(x) for x in s]` */
  function MapSeq<T, U>(f: T -> U, s: seq<T>): (r: seq<U>)
    ensures |r| == |s|
    ensures forall i :: 0 <= i < |s| ==> r[i] == f(s[i])
  {
    if |s| == 0 then [] else [f(s[0])] + MapSeq(f, s[1..])
  }

  lemma MapSeqAppend<T, U>(f: T -> U, a: seq<T>, b: seq<T>)
    ensures MapSeq(f, a + b) == MapSeq(f, a) + MapSeq(f, b)
  {
  }

  lemma MapSeqCons<T, U>(f: T -> U, x: T, s: seq<T>)
    ensures multiset(MapSeq(f, [x] + s)) == multiset{f(x)} + multiset(MapSeq(f, s))
  {
    assert ([x] + s)[1..] == s;
  }

  /** Taking element `k` out of `b` and mapping commute, as multisets. */
  lemma MapSeqRemove<T, U>(f: T -> U, b: seq<T>, k: nat)
    requires k < |b|
    ensures multiset(MapSeq(f, b)) == multiset(MapSeq(f, b[..k] + b[k + 1..])) + multiset{f(b[k])}
  {
    var l, x, r := b[..k], b[k], b[k + 1..];
    assert b[k..] == [x] + r;
    assert b == l + ([x] + r);
    MapSeqSplice(f, l, x, r);
  }

  lemma MapSeqSplice<T, U>(f: T -> U, l: seq<T>, x: T, r: seq<T>)
    ensures multiset(MapSeq(f, l + ([x] + r))) == multiset(MapSeq(f, l + r)) + multiset{f(x)}
  {
    MapSeqAppend(f, l, [x] + r);
    MapSeqCons(f, x, r);
    MapSeqAppend(f, l, r);
  }

  /** Mapping a rearrangement gives a rearrangement of the mapped sequence. */
  lemma {:induction false} PermutationMap<T, U>(f: T -> U, a: seq<T>, b: seq<T>)
    requires multiset(a) == multiset(b)
    ensures multiset(MapSeq(f, a)) == multiset(MapSeq(f, b))
    decreases |a|
  {
    if |a| == 0 {
      assert |b| == |multiset(b)| == 0;
    } else {
      var k := PermutedHead(a, b);
      PermutationMap(f, a[1..], b[..k] + b[k + 1..]);
      MapSeqRemoveBoth(f, a, b, k);
    }
  }

  /** The inductive step of `PermutationMap`: matching first elements put
      back on both sides. */
  lemma MapSeqRemoveBoth<T, U>(f: T -> U, a: seq<T>, b: seq<T>, k: nat)
    requires 0 < |a| && k < |b| && b[k] == a[0]
    requires multiset(MapSeq(f, a[1..])) == multiset(MapSeq(f, b[..k] + b[k + 1..]))
    ensures multiset(MapSeq(f, a)) == multiset(MapSeq(f, b))
  {
    MapSeqRemove(f, b, k);
    assert a == [a[0]] + a[1..];
    MapSeqCons(f, a[0], a[1..]);
  }

  /** Where the head of `a` sits in a rearrangement `b` of it; the rest of
      the two are still rearrangements of each other. */
  lemma PermutedHead<T>(a: seq<T>, b: seq<T>) returns (k: nat)
    requires 0 < |a| && multiset(a) == multiset(b)
    ensures k < |b| && b[k] == a[0]
    ensures multiset(a[1..]) == multiset(b[..k] + b[k + 1..])
  {
    assert a[0] in multiset(b);
    k :| 0 <= k < |b| && b[k] == a[0];
    MultisetRemove(b, k);
    assert a == [a[0]] + a[1..];
    assert multiset(a) == multiset{a[0]} + multiset(a[1..]);
  }

  /** Taking element `k` out of `b` takes one copy of it out of the multiset. */
  lemma MultisetRemove<T>(b: seq<T>, k: nat)
    requires k < |b|
    ensures multiset(b[..k] + b[k + 1..]) == multiset(b) - multiset{b[k]}
  {
    var l, x, r := b[..k], b[k], b[k + 1..];
    assert b[k..] == [x] + r;
    assert b == l + b[k..];
    assert multiset(b) == multiset(l) + multiset([x] + r);
    assert multiset([x] + r) == multiset{x} + multiset(r);
    assert multiset(l + r) == multiset(l) + multiset(r);
  }

  /** Everything in a mapped sequence is the image of some element. */
  lemma MapSeqMember<T, U>(f: T -> U, s: seq<T>, y: U)
    ensures y in MapSeq(f, s) ==> exists i :: 0 <= i < |s| && y == f(s[i])
  {
    if y in MapSeq(f, s) {
      var k :| 0 <= k < |s| && MapSeq(f, s)[k] == y;
      assert y == f(s[k]);
    }
  }

  lemma MapSeqPrefix<T, U>(f: T -> U, s: seq<T>, n: nat)
    requires n <= |s|
    ensures MapSeq(f, s[..n]) == MapSeq(f, s)[..n]
  {
  }

  /** Slicing two sequences of equal length keeps as many elements of each. */
  lemma PyPrefixSameLength<T, U>(a: seq<T>, b: seq<U>, n: int)
    requires |a| == |b|
    ensures |PyPrefix(a, n)| == |PyPrefix(b, n)|
  {
  }

  /** The position of the first occurrence of `x` in `xs`. */
  function FirstIndex<T(==)>(xs: seq<T>, x: T): (i: nat)
    requires x in xs
    ensures i < |xs| && xs[i] == x && x !in xs[..i]
  {
    if xs[0] == x then 0
    else
      var i := FirstIndex(xs[1..], x);
      assert xs[..i + 1] == [xs[0]] + xs[1..][..i];
      i + 1
  }

  /** `a` is an initial piece of `b`. */
  predicate IsPrefix<T(==)>(a: seq<T>, b: seq<T>)
  {
    |a| <= |b| && a == b[..|a|]
  }

  /** A prefix holds no more of any element than the whole sequence. */
  lemma PrefixSubMultiset<T>(s: seq<T>, n: nat)
    requires n <= |s|
    ensures multiset(s[..n]) <= multiset(s)
  {
    assert s == s[..n] + s[n..];
  }

  /** A subsequence as long as the whole is the whole. */
  lemma {:induction false} SubseqEqualLength<T>(a: seq<T>, b: seq<T>)
    requires IsSubseq(a, b) && |a| == |b|
    ensures a == b
    decreases |b|
  {
    if |a| > 0 {
      if a[0] == b[0] {
        SubseqEqualLength(a[1..], b[1..]);
        assert a == [a[0]] + a[1..] && b == [b[0]] + b[1..];
      } else {
        SubseqMembers(a, b[1..]);
        assert false;
      }
    }
  }

  /** A sequence with no members is empty. */
  lemma NoMembersEmpty<T>(s: seq<T>)
    ensures (forall x :: x !in s) ==> s == []
  {
    if |s| > 0 {
      assert s[0] in s;
    }
  }

  lemma {:induction false} NoDupsCountAtMostOne<T>(s: seq<T>, x: T)
    requires NoDups(s)
    ensures multiset(s)[x] <= 1
  {
    if |s| > 0 {
      NoDupsCountAtMostOne(s[1..], x);
      assert s == [s[0]] + s[1..];
      assert s[0] !in s[1..];
    }
  }

  lemma RepeatCountsTwice<T>(s: seq<T>, i: nat, j: nat)
    requires i < j < |s|
    ensures s[i] == s[j] ==> multiset(s)[s[i]] >= 2
  {
    assert s == s[..j] + s[j..];
    assert s[i] == s[..j][i];
    assert s[j] == s[j..][0];
  }

  /** A rearrangement of a duplicate-free sequence is duplicate-free. */
  lemma PermutationNoDups<T>(a: seq<T>, b: seq<T>)
    requires multiset(a) == multiset(b) && NoDups(b)
    ensures NoDups(a)
  {
    forall i, j | 0 <= i < j < |a| ensures a[i] != a[j] {
      NoDupsCountAtMostOne(b, a[i]);
      RepeatCountsTwice(a, i, j);
    }
  }
}
