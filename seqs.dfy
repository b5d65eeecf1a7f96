/** Generic list operations behind Python's comprehensions, `set`, `list.remove` and `str.join`. */
module Seqs {

  /** `r` can be obtained from `s` by deleting elements (order is kept). */
  predicate IsSubseq<T(==)>(r: seq<T>, s: seq<T>)
    decreases |s|
  {
    if r == [] then true
    else if s == [] then false
    else if r[0] == s[0] then IsSubseq(r[1..], s[1..])
    else IsSubseq(r, s[1..])
  }

  predicate Distinct<T(==)>(s: seq<T>) {
    forall i, j :: 0 <= i < j < |s| ==> s[i] != s[j]
  }

  /** `[x for x in s if p(x)]` */
  function Filter<T(==,!new)>(s: seq<T>, p: T -> bool): (r: seq<T>)
    ensures |r| <= |s|
    ensures forall i :: 0 <= i < |r| ==> p(r[i])
    ensures forall x :: x in r <==> x in s && p(x)
    ensures IsSubseq(r, s)
    ensures (forall i :: 0 <= i < |s| ==> p(s[i])) ==> r == s
  {
    if s == [] then []
    else
      var rest := Filter(s[1..], p);
      assert forall x :: x in s <==> x == s[0] || x in s[1..] by {
        assert s == [s[0]] + s[1..];
      }
      if p(s[0]) then [s[0]] + rest
      else
        assert rest != [] ==> rest[0] != s[0];
        rest
  }

  /** Filtering keeps every kept element as often as it occurs, and no other. */
  lemma {:induction false} FilterCount<T(!new)>(s: seq<T>, p: T -> bool, x: T)
    ensures multiset(Filter(s, p))[x] == if p(x) then multiset(s)[x] else 0
  {
    if s != [] {
      assert s == [s[0]] + s[1..];
      FilterCount(s[1..], p, x);
    }
  }

  /** Two filters with disjoint conditions together keep at most every element once. */
  lemma {:induction false} FilterDisjointLength<T(!new)>(s: seq<T>, p: T -> bool, q: T -> bool)
    requires forall x :: !(p(x) && q(x))
    ensures |Filter(s, p)| + |Filter(s, q)| <= |s|
  {
    if s != [] {
      FilterDisjointLength(s[1..], p, q);
    }
  }

  lemma {:induction false} FilterAppend<T(!new)>(a: seq<T>, b: seq<T>, p: T -> bool)
    ensures Filter(a + b, p) == Filter(a, p) + Filter(b, p)
  {
    if a == [] {
      assert a + b == b;
    } else {
      var ab := a + b;
      var head := if p(a[0]) then [a[0]] else [];
      assert ab[0] == a[0] && ab[1..] == a[1..] + b;
      assert Filter(ab, p) == head + Filter(a[1..] + b, p);
      assert Filter(a, p) == head + Filter(a[1..], p);
      FilterAppend(a[1..], b, p);
      AppendAssoc(head, Filter(a[1..], p), Filter(b, p));
    }
  }

  lemma AppendAssoc<T>(a: seq<T>, b: seq<T>, c: seq<T>)
    ensures a + b + c == a + (b + c)
  {
  }

  lemma PrefixOfAppend<T>(a: seq<T>, b: seq<T>)
    ensures |a| <= |a + b| && (a + b)[..|a|] == a
  {
  }

  /** `FilterCount` for every element at once. */
  lemma FilterCountAll<T(!new)>(s: seq<T>, p: T -> bool)
    ensures forall x :: multiset(Filter(s, p))[x] == if p(x) then multiset(s)[x] else 0
  {
    forall x ensures multiset(Filter(s, p))[x] == if p(x) then multiset(s)[x] else 0 {
      FilterCount(s, p, x);
    }
  }

  /** The elements of `s`, each once, in order of first occurrence. */
  function Dedup<T(==,!new)>(s: seq<T>): (r: seq<T>)
    ensures Distinct(r)
    ensures forall x :: x in r <==> x in s
    ensures |r| <= |s|
    ensures s != [] ==> r != []
  {
    if s == [] then []
    else
      var front := Dedup(s[..|s| - 1]);
      assert s == s[..|s| - 1] + [s[|s| - 1]];
      if s[|s| - 1] in front then front else front + [s[|s| - 1]]
  }

  lemma {:induction false} DistinctCount<T>(s: seq<T>, x: T)
    requires Distinct(s)
    ensures multiset(s)[x] <= 1
    ensures x in s ==> multiset(s)[x] == 1
  {
    if s != [] {
      assert s == [s[0]] + s[1..];
      assert Distinct(s[1..]);
      DistinctCount(s[1..], x);
      if x == s[0] {
        assert x !in s[1..];
      }
    }
  }

  /** Two duplicate-free lists with the same elements are permutations of each other. */
  lemma SameSetSameMultiset<T>(a: seq<T>, b: seq<T>)
    requires Distinct(a) && Distinct(b)
    requires forall x :: x in a <==> x in b
    ensures multiset(a) == multiset(b)
  {
    forall x ensures multiset(a)[x] == multiset(b)[x] {
      DistinctCount(a, x);
      DistinctCount(b, x);
    }
  }

  /** The index of the first `x` in `s` (`list.index`). */
  function FirstIndex<T(==)>(s: seq<T>, x: T): (i: nat)
    requires x in s
    ensures i < |s| && s[i] == x && x !in s[..i]
  {
    if s[0] == x then 0
    else
      assert s == [s[0]] + s[1..];
      var i := FirstIndex(s[1..], x);
      assert s[..i + 1] == [s[0]] + s[1..][..i];
      i + 1
  }

  /** `r` is `s` with the first `x` taken out, or `s` itself when there is no `x`. */
  predicate RemovedFirst<T(==)>(s: seq<T>, x: T, r: seq<T>) {
    && multiset(r) == multiset(s) - multiset{x}
    && (x !in s ==> r == s)
    && (x in s ==> r == s[..FirstIndex(s, x)] + s[FirstIndex(s, x) + 1..])
    && IsSubseq(r, s)
  }

  /** Python's `if x in s: s.remove(x)` : drops the first occurrence only. */
  function RemoveFirst<T(==)>(s: seq<T>, x: T): (r: seq<T>)
    ensures multiset(r) == multiset(s) - multiset{x}
    ensures x !in s ==> r == s
    ensures x in s ==> r == s[..FirstIndex(s, x)] + s[FirstIndex(s, x) + 1..]
    ensures IsSubseq(r, s)
  {
    if s == [] then []
    else if s[0] == x then
      RemoveFirstHead(s, x);
      s[1..]
    else
      var rest := RemoveFirst(s[1..], x);
      RemoveFirstCons(s, x, rest);
      [s[0]] + rest
  }

  lemma RemoveFirstHead<T>(s: seq<T>, x: T)
    requires s != [] && s[0] == x
    ensures RemovedFirst(s, x, s[1..])
  {
    assert s == [s[0]] + s[1..];
    assert IsSubseq(s[1..], s) by { SubseqRefl(s[1..]); SubseqCons(s[0], s[1..], s[1..]); }
    assert s[..0] + s[0 + 1..] == s[1..];
  }

  /** Removing the first `x` behind a head that is not `x` keeps the head. */
  lemma RemoveFirstCons<T>(s: seq<T>, x: T, rest: seq<T>)
    requires s != [] && s[0] != x
    requires RemovedFirst(s[1..], x, rest)
    ensures RemovedFirst(s, x, [s[0]] + rest)
  {
    var r := [s[0]] + rest;
    assert s == [s[0]] + s[1..];
    assert multiset(r) == multiset(s) - multiset{x};
    assert IsSubseq(r, s) by {
      assert r[1..] == rest;
    }
    if x in s {
      RemoveFirstConsIndex(s, x, rest);
    }
  }

  lemma RemoveFirstConsIndex<T>(s: seq<T>, x: T, rest: seq<T>)
    requires s != [] && s[0] != x && x in s
    requires x in s[1..] && rest == s[1..][..FirstIndex(s[1..], x)] + s[1..][FirstIndex(s[1..], x) + 1..]
    ensures [s[0]] + rest == s[..FirstIndex(s, x)] + s[FirstIndex(s, x) + 1..]
  {
    var i := FirstIndex(s[1..], x);
    assert FirstIndex(s, x) == i + 1;
    assert s[..i + 1] == [s[0]] + s[1..][..i];
    assert s[i + 2..] == s[1..][i + 1..];
  }

  /** From a duplicate-free list, `remove` takes out exactly `x` and keeps the rest distinct. */
  lemma RemoveFirstDistinct<T>(s: seq<T>, x: T)
    requires Distinct(s)
    ensures forall y :: y in RemoveFirst(s, x) <==> y in s && y != x
    ensures Distinct(RemoveFirst(s, x))
  {
    var r := RemoveFirst(s, x);
    DistinctCount(s, x);
    forall y ensures y in r <==> y in s && y != x {
      assert y in r <==> y in multiset(r);
      assert y in s <==> y in multiset(s);
    }
    SubseqPairwise(r, s, (a, b) => a != b);
  }

  lemma HeadTailMembers<T>(s: seq<T>)
    requires s != []
    ensures forall x :: x in s <==> x == s[0] || x in s[1..]
  {
    assert s == [s[0]] + s[1..];
  }

  lemma DropFirst<T>(a: T, b: T, s: seq<T>)
    ensures ([a, b] + s)[1..] == [b] + s
  {
  }

  /** A subsequence stays one when an element is put in front of the whole. */
  lemma {:induction false} SubseqCons<T>(a: T, r: seq<T>, s: seq<T>)
    requires IsSubseq(r, s)
    ensures IsSubseq(r, [a] + s)
    decreases |s|, 1
  {
    assert ([a] + s)[1..] == s;
    if r != [] && r[0] == a {
      SubseqTail(r, s);
    }
  }

  /** Dropping the first element of a subsequence keeps it a subsequence. */
  lemma {:induction false} SubseqTail<T>(r: seq<T>, s: seq<T>)
    requires IsSubseq(r, s) && r != []
    ensures IsSubseq(r[1..], s)
    decreases |s|, 0
  {
    if r[0] == s[0] {
      SubseqCons(s[0], r[1..], s[1..]);
    } else {
      SubseqTail(r, s[1..]);
      SubseqCons(s[0], r[1..], s[1..]);
    }
    assert s == [s[0]] + s[1..];
  }

  lemma {:induction false} SubseqRefl<T>(s: seq<T>)
    ensures IsSubseq(s, s)
  {
    if s != [] {
      SubseqRefl(s[1..]);
    }
  }

  /** Every element of a subsequence occurs in the whole. */
  lemma {:induction false} SubseqIn<T>(r: seq<T>, s: seq<T>, x: T)
    requires IsSubseq(r, s)
    requires x in r
    ensures x in s
    decreases |s|
  {
    if r[0] == s[0] {
      if x != r[0] {
        assert x in r[1..] by { assert r == [r[0]] + r[1..]; }
        SubseqIn(r[1..], s[1..], x);
      }
    } else {
      SubseqIn(r, s[1..], x);
    }
  }

  /** A pairwise property of `s` (`R(s[i], s[j])` for every `i < j`) holds of its subsequences too. */
  lemma {:induction false} SubseqPairwise<T>(r: seq<T>, s: seq<T>, R: (T, T) -> bool)
    requires IsSubseq(r, s)
    requires forall i, j :: 0 <= i < j < |s| ==> R(s[i], s[j])
    ensures forall i, j :: 0 <= i < j < |r| ==> R(r[i], r[j])
    decreases |s|
  {
    if r != [] {
      assert forall i, j :: 0 <= i < j < |s[1..]| ==> R(s[1..][i], s[1..][j]) by {
        forall i, j | 0 <= i < j < |s[1..]| ensures R(s[1..][i], s[1..][j]) {
          assert s[1..][i] == s[i + 1] && s[1..][j] == s[j + 1];
        }
      }
      if r[0] == s[0] {
        SubseqPairwise(r[1..], s[1..], R);
        forall j | 0 < j < |r| ensures R(r[0], r[j]) {
          assert r[j] in r[1..] by { assert r[j] == r[1..][j - 1]; }
          SubseqIn(r[1..], s[1..], r[j]);
          var k :| 0 <= k < |s[1..]| && s[1..][k] == r[j];
          assert s[k + 1] == r[j];
        }
        forall i, j | 0 <= i < j < |r| ensures R(r[i], r[j]) {
          if i > 0 {
            assert r[i] == r[1..][i - 1] && r[j] == r[1..][j - 1];
          }
        }
      } else {
        SubseqPairwise(r, s[1..], R);
      }
    }
  }

  /** Python's `" ".join(words)` */
  function JoinSpace(words: seq<string>): (r: string)
    ensures words != [] ==> |words[0]| <= |r| && r[..|words[0]|] == words[0]
    ensures words != [] ==> |words[|words| - 1]| <= |r| && r[|r| - |words[|words| - 1]|..] == words[|words| - 1]
  {
    if words == [] then ""
    else if |words| == 1 then words[0]
    else words[0] + " " + JoinSpace(words[1..])
  }

  lemma {:induction false} JoinSpaceAppend(a: seq<string>, b: seq<string>)
    requires a != [] && b != []
    ensures JoinSpace(a + b) == JoinSpace(a) + " " + JoinSpace(b)
  {
    if |a| == 1 {
      assert (a + b)[1..] == b;
    } else {
      assert (a + b)[1..] == a[1..] + b;
      JoinSpaceAppend(a[1..], b);
      var head, rest := a[0] + " ", JoinSpace(a[1..]);
      AppendAssoc(head, rest, " ");
      AppendAssoc(head, rest + " ", JoinSpace(b));
    }
  }

  /** Words without spaces are joined with exactly one space between neighbours. */
  lemma {:induction false} JoinSpaceSeparators(words: seq<string>)
    requires words != [] && forall i :: 0 <= i < |words| ==> ' ' !in words[i]
    ensures multiset(JoinSpace(words))[' '] == |words| - 1
  {
    if |words| > 1 {
      JoinSpaceSeparators(words[1..]);
      assert JoinSpace(words) == words[0] + " " + JoinSpace(words[1..]);
      assert multiset(words[0])[' '] == 0;
    }
  }
}
