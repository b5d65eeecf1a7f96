/** Python's `sorted` on strings, and `sort_targets`, which lists in-tree (`velox`) names first. */
module Order {
  import opened Seqs

  /** Python's `a <= b` on `str`: lexicographic by code point, a proper prefix first. */
  predicate Leq(a: string, b: string)
    ensures a <= b ==> Leq(a, b)
  {
    |a| == 0 || (|b| > 0 && (a[0] < b[0] || (a[0] == b[0] && Leq(a[1..], b[1..]))))
  }

  lemma {:induction false} LeqTotal(a: string, b: string)
    ensures Leq(a, b) || Leq(b, a)
  {
    if |a| > 0 && |b| > 0 && a[0] == b[0] {
      LeqTotal(a[1..], b[1..]);
    }
  }

  lemma {:induction false} LeqAntisymmetric(a: string, b: string)
    requires Leq(a, b) && Leq(b, a)
    ensures a == b
  {
    if |a| > 0 {
      LeqAntisymmetric(a[1..], b[1..]);
      assert a == [a[0]] + a[1..] && b == [b[0]] + b[1..];
    }
  }

  lemma {:induction false} LeqTransitive(a: string, b: string, c: string)
    requires Leq(a, b) && Leq(b, c)
    ensures Leq(a, c)
  {
    if |a| > 0 && a[0] == b[0] && b[0] == c[0] {
      LeqTransitive(a[1..], b[1..], c[1..]);
    }
  }

  predicate Sorted(s: seq<string>) {
    forall i, j :: 0 <= i < j < |s| ==> Leq(s[i], s[j])
  }

  function Insert(x: string, s: seq<string>): (r: seq<string>)
    requires Sorted(s)
    ensures Sorted(r)
    ensures multiset(r) == multiset(s) + multiset{x}
  {
    if s == [] then [x]
    else if Leq(x, s[0]) then
      assert forall j :: 0 < j < |s| ==> Leq(x, s[j]) by {
        forall j | 0 < j < |s| ensures Leq(x, s[j]) { LeqTransitive(x, s[0], s[j]); }
      }
      [x] + s
    else
      assert s == [s[0]] + s[1..];
      var rest := Insert(x, s[1..]);
      LeqTotal(x, s[0]);
      InsertHeadBound(x, s, rest);
      [s[0]] + rest
  }

  /** What is inserted behind the head of a sorted list stays at or above that head. */
  lemma InsertHeadBound(x: string, s: seq<string>, rest: seq<string>)
    requires Sorted(s) && s != [] && Leq(s[0], x)
    requires multiset(rest) == multiset(s[1..]) + multiset{x}
    ensures forall y :: y in rest ==> Leq(s[0], y)
  {
    forall y | y in rest ensures Leq(s[0], y) {
      assert y in multiset(rest);
      if y != x {
        assert y in multiset(s[1..]);
        var k :| 0 <= k < |s[1..]| && s[1..][k] == y;
        assert s[k + 1] == y;
      }
    }
  }

  /** Python's `sorted(s)` on a list of strings. */
  function Sort(s: seq<string>): (r: seq<string>)
    ensures Sorted(r)
    ensures multiset(r) == multiset(s)
  {
    if s == [] then []
    else
      assert s == [s[0]] + s[1..];
      Insert(s[0], Sort(s[1..]))
  }

  lemma SortedHeadLeast(a: seq<string>, x: string)
    requires Sorted(a) && x in a
    ensures Leq(a[0], x)
  {
    var k :| 0 <= k < |a| && a[k] == x;
    if k == 0 { LeqRefl(x); }
  }

  lemma {:induction false} LeqRefl(a: string)
    ensures Leq(a, a)
  {
    if |a| > 0 { LeqRefl(a[1..]); }
  }

  lemma SortedTail(a: seq<string>)
    requires Sorted(a) && a != []
    ensures Sorted(a[1..])
  {
    forall i, j | 0 <= i < j < |a[1..]| ensures Leq(a[1..][i], a[1..][j]) {
      assert a[1..][i] == a[i + 1] && a[1..][j] == a[j + 1];
    }
  }

  /** A sorted list is determined by its elements: there is one sorted permutation of a list. */
  lemma {:induction false} SortedUnique(a: seq<string>, b: seq<string>)
    requires Sorted(a) && Sorted(b)
    requires multiset(a) == multiset(b)
    ensures a == b
  {
    if a != [] || b != [] {
      assert |b| == |multiset(b)| == |multiset(a)| == |a|;
      SortedHeadsEqual(a, b);
      assert multiset(a[1..]) == multiset(b[1..]) by {
        assert a == [a[0]] + a[1..] && b == [b[0]] + b[1..];
        assert multiset(a[1..]) == multiset(a) - multiset{a[0]};
        assert multiset(b[1..]) == multiset(b) - multiset{b[0]};
      }
      SortedTail(a);
      SortedTail(b);
      SortedUnique(a[1..], b[1..]);
      assert a == [a[0]] + a[1..] && b == [b[0]] + b[1..];
    }
  }

  lemma SortedHeadsEqual(a: seq<string>, b: seq<string>)
    requires Sorted(a) && Sorted(b) && a != [] && b != []
    requires multiset(a) == multiset(b)
    ensures a[0] == b[0]
  {
    assert a[0] in multiset(b) && b[0] in multiset(a);
    SortedHeadLeast(b, a[0]);
    SortedHeadLeast(a, b[0]);
    LeqAntisymmetric(a[0], b[0]);
  }

  /** Names of the project's own targets; `sort_targets` lists them first. */
  predicate IsVelox(t: string) {
    |t| >= 5 && t[..5] == "velox"
  }

  predicate IsExternal(t: string) {
    !IsVelox(t)
  }

  /** `t` may stand before `u` in the output of `sort_targets`. */
  predicate Before(t: string, u: string) {
    (IsVelox(u) ==> IsVelox(t)) && (IsVelox(t) == IsVelox(u) ==> Leq(t, u))
  }

  /** In-tree names first, each group in sorted order. */
  predicate VeloxFirst(s: seq<string>) {
    forall i, j :: 0 <= i < j < |s| ==> Before(s[i], s[j])
  }

  /** `sort_targets`: the sorted `velox` names, then the other names sorted. */
  function SortTargets(targets: seq<string>): (r: seq<string>)
    ensures multiset(r) == multiset(targets)
    ensures VeloxFirst(r)
  {
    var internal := Sort(Filter(targets, IsVelox));
    var external := Sort(Filter(targets, IsExternal));
    SplitCount(targets);
    SortFilterAll(targets, IsVelox);
    SortFilterAll(targets, IsExternal);
    GroupsVeloxFirst(internal, external);
    internal + external
  }

  lemma SplitCount(targets: seq<string>)
    ensures multiset(Sort(Filter(targets, IsVelox))) + multiset(Sort(Filter(targets, IsExternal)))
         == multiset(targets)
  {
    forall x ensures multiset(Filter(targets, IsVelox))[x] + multiset(Filter(targets, IsExternal))[x]
                  == multiset(targets)[x] {
      FilterCount(targets, IsVelox, x);
      FilterCount(targets, IsExternal, x);
    }
  }

  lemma SortFilterAll(s: seq<string>, p: string -> bool)
    ensures forall x :: x in Sort(Filter(s, p)) ==> p(x)
  {
    forall x | x in Sort(Filter(s, p)) ensures p(x) {
      assert x in multiset(Sort(Filter(s, p)));
    }
  }

  /** Two sorted groups, in-tree names then the rest, make an in-tree-first list. */
  lemma GroupsVeloxFirst(internal: seq<string>, external: seq<string>)
    requires Sorted(internal) && Sorted(external)
    requires forall x :: x in internal ==> IsVelox(x)
    requires forall x :: x in external ==> IsExternal(x)
    ensures VeloxFirst(internal + external)
  {
    var r := internal + external;
    forall i, j | 0 <= i < j < |r| ensures Before(r[i], r[j]) {
      if j < |internal| {
        assert r[i] == internal[i] && r[j] == internal[j];
      } else if i >= |internal| {
        assert r[i] == external[i - |internal|] && r[j] == external[j - |internal|];
      } else {
        assert r[i] == internal[i] && r[j] == external[j - |internal|];
        assert IsVelox(r[i]) && IsExternal(r[j]);
      }
    }
  }

  /** The output of `sort_targets` depends only on which names occur how often,
      not on the order they arrive in (so iterating a Python `set` is harmless). */
  lemma SortTargetsDeterministic(a: seq<string>, b: seq<string>)
    requires multiset(a) == multiset(b)
    ensures SortTargets(a) == SortTargets(b)
  {
    var ia, ib := Filter(a, IsVelox), Filter(b, IsVelox);
    var ea, eb := Filter(a, IsExternal), Filter(b, IsExternal);
    forall x ensures multiset(ia)[x] == multiset(ib)[x] && multiset(ea)[x] == multiset(eb)[x] {
      FilterCount(a, IsVelox, x);
      FilterCount(b, IsVelox, x);
      FilterCount(a, IsExternal, x);
      FilterCount(b, IsExternal, x);
    }
    assert multiset(ia) == multiset(ib) && multiset(ea) == multiset(eb);
    SortedUnique(Sort(ia), Sort(ib));
    SortedUnique(Sort(ea), Sort(eb));
  }

  /** `sort_targets([*set(names)])` names each distinct element of `names` once, whatever
      order the set enumerates them in: `Dedup` stands for that enumeration. */
  lemma SetEnumerationIrrelevant(names: seq<string>, enumeration: seq<string>)
    requires Distinct(enumeration)
    requires forall x :: x in enumeration <==> x in names
    ensures SortTargets(enumeration) == SortTargets(Dedup(names))
    ensures Distinct(SortTargets(Dedup(names)))
  {
    SameSetSameMultiset(enumeration, Dedup(names));
    SortTargetsDeterministic(enumeration, Dedup(names));
    DistinctPermutation(Dedup(names), SortTargets(Dedup(names)));
  }

  /** A permutation of a duplicate-free list is duplicate-free. */
  lemma DistinctPermutation<T>(a: seq<T>, b: seq<T>)
    requires Distinct(a)
    requires multiset(a) == multiset(b)
    ensures Distinct(b)
  {
    forall i, j | 0 <= i < j < |b| ensures b[i] != b[j] {
      if b[i] == b[j] {
        assert b == b[..j] + [b[j]] + b[j + 1..];
        assert b[i] in b[..j];
        assert multiset(b)[b[j]] >= 2 by {
          assert multiset(b) == multiset(b[..j]) + multiset{b[j]} + multiset(b[j + 1..]);
        }
        DistinctCount(a, b[j]);
      }
    }
  }
}
