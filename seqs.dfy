/**
 * Sequence helpers shared by the pages: JavaScript's insertion-ordered `Set`
 * (spread back into an array), `slice`, chunking, minimum and maximum.
 */
module Seqs {

  datatype Option<+T> = None | Some(value: T)

  predicate NoDuplicates<T(==)>(s: seq<T>) {
    forall i, j :: 0 <= i < j < |s| ==> s[i] != s[j]
  }

  /** `[...new Set(xs)]`: the first occurrence of every element, in order. */
  function Dedupe<T(==)>(xs: seq<T>): (r: seq<T>)
    ensures NoDuplicates(r)
    ensures forall i :: 0 <= i < |r| ==> r[i] in xs
    ensures forall i :: 0 <= i < |xs| ==> xs[i] in r
    ensures |r| <= |xs|
  {
    if |xs| == 0 then []
    else
      var d := Dedupe(xs[..|xs| - 1]);
      var last := xs[|xs| - 1];
      assert xs == xs[..|xs| - 1] + [last];
      if last in d then d else d + [last]
  }

  lemma {:induction false} DedupeOfDistinct<T>(xs: seq<T>)
    requires NoDuplicates(xs)
    ensures Dedupe(xs) == xs
  {
    if |xs| > 0 {
      var init := xs[..|xs| - 1];
      DedupeOfDistinct(init);
      assert xs[|xs| - 1] !in init;
      assert init + [xs[|xs| - 1]] == xs;
    }
  }

  /** `r` is `s` with some elements left out and the others in their order. */
  ghost predicate IsSubsequence<T>(r: seq<T>, s: seq<T>)
    decreases |s|
  {
    |r| == 0 || (|s| > 0 && ((r[0] == s[0] && IsSubsequence(r[1..], s[1..])) || IsSubsequence(r, s[1..])))
  }

  /** Keeping or dropping a new first element keeps a subsequence. */
  lemma SubsequenceCons<T>(r: seq<T>, s: seq<T>, x: T)
    requires IsSubsequence(r, s)
    ensures IsSubsequence([x] + r, [x] + s) && IsSubsequence(r, [x] + s)
  {
    assert ([x] + r)[1..] == r;
    assert ([x] + s)[1..] == s;
  }

  /** Keeping or dropping a new last element keeps a subsequence. */
  lemma {:induction false} SubsequenceSnoc<T>(r: seq<T>, s: seq<T>, x: T)
    requires IsSubsequence(r, s)
    ensures IsSubsequence(r + [x], s + [x]) && IsSubsequence(r, s + [x])
    decreases |s|
  {
    if |s| == 0 {
      assert r + [x] == [x] && [x][1..] == [];
    } else {
      assert (s + [x])[1..] == s[1..] + [x];
      if |r| == 0 {
        SubsequenceSnoc(r, s[1..], x);
        assert r + [x] == [x];
      } else if r[0] == s[0] && IsSubsequence(r[1..], s[1..]) {
        SubsequenceSnoc(r[1..], s[1..], x);
        assert (r + [x])[1..] == r[1..] + [x];
      } else {
        SubsequenceSnoc(r, s[1..], x);
      }
    }
  }

  /** `[...new Set(xs)]` keeps the first occurrences in their order. */
  lemma {:induction false} DedupeInOrder<T>(xs: seq<T>)
    ensures IsSubsequence(Dedupe(xs), xs)
  {
    if |xs| > 0 {
      var init := xs[..|xs| - 1];
      var last := xs[|xs| - 1];
      DedupeInOrder(init);
      SubsequenceSnoc(Dedupe(init), init, last);
      assert init + [last] == xs;
    }
  }

  /** `set.add(x)` on a JavaScript `Set` viewed as its insertion order. */
  function SetAdd<T(==)>(s: seq<T>, x: T): (r: seq<T>)
    ensures x in r && forall i :: 0 <= i < |s| ==> s[i] in r
    ensures forall i :: 0 <= i < |r| ==> r[i] in s || r[i] == x
    ensures NoDuplicates(s) ==> NoDuplicates(r)
    ensures |r| <= |s| + 1
  {
    if x in s then s else s + [x]
  }

  /** `set.delete(x)` on a JavaScript `Set` viewed as its insertion order. */
  function SetDelete<T(==)>(s: seq<T>, x: T): (r: seq<T>)
    ensures forall i :: 0 <= i < |r| ==> r[i] in s && r[i] != x
    ensures forall i :: 0 <= i < |s| && s[i] != x ==> s[i] in r
    ensures NoDuplicates(s) ==> NoDuplicates(r)
    ensures x !in s ==> r == s
  {
    if |s| == 0 then []
    else if s[0] == x then SetDelete(s[1..], x)
    else [s[0]] + SetDelete(s[1..], x)
  }

  /** `set.has(x) ? set.delete(x) : set.add(x)`. */
  function SetToggle<T(==)>(s: seq<T>, x: T): seq<T> {
    if x in s then SetDelete(s, x) else SetAdd(s, x)
  }

  lemma SetToggleFlips<T>(s: seq<T>, x: T)
    requires NoDuplicates(s)
    ensures NoDuplicates(SetToggle(s, x))
    ensures x in SetToggle(s, x) <==> x !in s
    ensures forall y :: y != x ==> (y in SetToggle(s, x) <==> y in s)
  {
  }

  /**
   * Toggling the same element twice restores the membership of every
   * element; the order is restored too when the element was absent, while a
   * present element moves to the end (delete, then add).
   */
  lemma {:induction false} SetToggleTwice<T>(s: seq<T>, x: T)
    requires NoDuplicates(s)
    ensures forall y :: y in SetToggle(SetToggle(s, x), x) <==> y in s
    ensures x !in s ==> SetToggle(SetToggle(s, x), x) == s
  {
    if x !in s {
      var t := s + [x];
      assert SetToggle(s, x) == t;
      assert x in t;
      SetDeleteAppended(s, x);
    } else {
      SetToggleFlips(s, x);
      SetToggleFlips(SetToggle(s, x), x);
    }
  }

  lemma {:induction false} SetDeleteAppended<T>(s: seq<T>, x: T)
    requires x !in s
    ensures SetDelete(s + [x], x) == s
  {
    if |s| == 0 {
      assert [x][1..] == [];
    } else {
      assert (s + [x])[1..] == s[1..] + [x];
      SetDeleteAppended(s[1..], x);
    }
  }

  /** The set of the elements of `xs`, added one by one in order. */
  function Elements<T>(xs: seq<T>): set<T> {
    if |xs| == 0 then {} else Elements(xs[..|xs| - 1]) + {xs[|xs| - 1]}
  }

  lemma {:induction false} ElementsMembers<T>(xs: seq<T>, x: T)
    ensures x in Elements(xs) <==> x in xs
  {
    if |xs| > 0 {
      var init := xs[..|xs| - 1];
      ElementsMembers(init, x);
      assert xs == init + [xs[|xs| - 1]];
    }
  }

  /** One more element of a prefix adds that element. */
  lemma ElementsSnoc<T>(xs: seq<T>, k: int)
    requires 0 <= k < |xs|
    ensures Elements(xs[..k + 1]) == Elements(xs[..k]) + {xs[k]}
  {
    assert xs[..k + 1][..k] == xs[..k];
  }

  /** The elements of the first `n` sequences of `xss`, all together. */
  function UnionUpTo<T>(xss: seq<seq<T>>, n: int): set<T>
    requires 0 <= n <= |xss|
  {
    if n == 0 then {} else UnionUpTo(xss, n - 1) + Elements(xss[n - 1])
  }

  lemma {:induction false} UnionUpToMembers<T>(xss: seq<seq<T>>, n: int, x: T)
    requires 0 <= n <= |xss|
    ensures x in UnionUpTo(xss, n) <==> exists j :: 0 <= j < n && x in xss[j]
  {
    if n > 0 {
      UnionUpToMembers(xss, n - 1, x);
      ElementsMembers(xss[n - 1], x);
    }
  }

  /** `xs.slice(0, n)`. */
  function Take<T>(xs: seq<T>, n: nat): (r: seq<T>)
    ensures |r| == if n < |xs| then n else |xs|
    ensures forall i :: 0 <= i < |r| ==> r[i] == xs[i]
  {
    if n < |xs| then xs[..n] else xs
  }

  function Flatten<T>(rows: seq<seq<T>>): seq<T> {
    if |rows| == 0 then [] else rows[0] + Flatten(rows[1..])
  }

  lemma {:induction false} FlattenAppend<T>(rows: seq<seq<T>>, row: seq<T>)
    ensures Flatten(rows + [row]) == Flatten(rows) + row
  {
    if |rows| == 0 {
      assert [row][1..] == [];
    } else {
      assert (rows + [row])[1..] == rows[1..] + [row];
      FlattenAppend(rows[1..], row);
    }
  }

  /** Consecutive slices of length `k`; only the last may be shorter. */
  function Chunks<T>(xs: seq<T>, k: nat): (rows: seq<seq<T>>)
    requires k > 0
    decreases |xs|
  {
    if |xs| == 0 then []
    else if |xs| <= k then [xs]
    else [xs[..k]] + Chunks(xs[k..], k)
  }

  /**
   * Chunking loses nothing and reorders nothing; every chunk is non-empty,
   * holds at most `k` elements, and all chunks but the last hold exactly `k`.
   */
  lemma {:induction false} ChunksShape<T>(xs: seq<T>, k: nat)
    requires k > 0
    ensures Flatten(Chunks(xs, k)) == xs
    ensures forall i :: 0 <= i < |Chunks(xs, k)| ==> 0 < |Chunks(xs, k)[i]| <= k
    ensures forall i :: 0 <= i < |Chunks(xs, k)| - 1 ==> |Chunks(xs, k)[i]| == k
    decreases |xs|
  {
    var rows := Chunks(xs, k);
    if |xs| == 0 {
    } else if |xs| <= k {
      assert rows == [xs];
      assert Flatten(rows) == xs + Flatten([]);
    } else {
      var rest := Chunks(xs[k..], k);
      ChunksShape(xs[k..], k);
      assert rows == [xs[..k]] + rest;
      assert rows[1..] == rest;
      assert Flatten(rows) == xs[..k] + Flatten(rest);
      assert xs[..k] + xs[k..] == xs;
      forall i | 0 <= i < |rows|
        ensures 0 < |rows[i]| <= k
        ensures i < |rows| - 1 ==> |rows[i]| == k
      {
        if i > 0 {
          assert rows[i] == rest[i - 1];
        }
      }
    }
  }

  /** A list of `k * n` elements falls into exactly `n` chunks of exactly `k`. */
  lemma {:induction false} ChunksExact<T>(xs: seq<T>, k: nat, n: nat)
    requires k > 0 && |xs| == k * n
    ensures |Chunks(xs, k)| == n
    ensures forall i :: 0 <= i < n ==> |Chunks(xs, k)[i]| == k
    decreases n
  {
    if n == 0 {
    } else if n == 1 {
      assert Chunks(xs, k) == [xs];
    } else {
      assert |xs[k..]| == k * (n - 1);
      ChunksExact(xs[k..], k, n - 1);
      var rows := Chunks(xs, k);
      assert rows == [xs[..k]] + Chunks(xs[k..], k);
      forall i | 0 <= i < n
        ensures |rows[i]| == k
      {
        if i > 0 {
          assert rows[i] == Chunks(xs[k..], k)[i - 1];
        }
      }
    }
  }

  function Min(a: int, b: int): int {
    if a <= b then a else b
  }

  /** `Math.min(...xs)` for a non-empty list. */
  function SeqMin(xs: seq<int>): (m: int)
    requires |xs| > 0
    ensures m in xs
    ensures forall x :: x in xs ==> m <= x
  {
    if |xs| == 1 then xs[0]
    else
      var rest := SeqMin(xs[1..]);
      assert forall x :: x in xs ==> x == xs[0] || x in xs[1..];
      if xs[0] <= rest then xs[0] else rest
  }

  /** `Math.max(...xs)` for a non-empty list. */
  function SeqMax(xs: seq<int>): (m: int)
    requires |xs| > 0
    ensures m in xs
    ensures forall x :: x in xs ==> x <= m
  {
    if |xs| == 1 then xs[0]
    else
      var rest := SeqMax(xs[1..]);
      assert forall x :: x in xs ==> x == xs[0] || x in xs[1..];
      if xs[0] >= rest then xs[0] else rest
  }
}
