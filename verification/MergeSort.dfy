/**
 The merge sort that both linked lists run, as a function on sequences.

 The comparator of the C code enters as `le(a, b)`, which stands for `cmp(a, b) <= 0`:
 that is the only question the merge asks. Nothing is assumed about `le` in the
 definitions; the lemmas say which facts need which law of order.
 */
module MergeSort {

  /** Takes from the left run whenever the comparator does not say "greater". */
  function Merge<T>(l: seq<T>, r: seq<T>, le: (T, T) -> bool): seq<T>
    decreases |l| + |r|
  {
    if l == [] then r
    else if r == [] then l
    else if le(l[0], r[0]) then [l[0]] + Merge(l[1..], r, le)
    else [r[0]] + Merge(l, r[1..], le)
  }

  /** The length of the front part that the slow/fast pointer walk cuts off. */
  function FrontLength(n: nat): nat {
    (n + 1) / 2
  }

  function Sort<T>(s: seq<T>, le: (T, T) -> bool): seq<T>
    decreases |s|
  {
    if |s| <= 1 then s
    else
      var k := FrontLength(|s|);
      Merge(Sort(s[..k], le), Sort(s[k..], le), le)
  }

  lemma SortUnfolds<T>(s: seq<T>, le: (T, T) -> bool)
    requires |s| > 1
    ensures var k := FrontLength(|s|); k < |s| && Sort(s, le) == Merge(Sort(s[..k], le), Sort(s[k..], le), le)
  {
  }

  /** Both halves of a split are non-empty and differ by at most one element. */
  lemma HalvesAreBalanced(n: nat)
    requires n >= 2
    ensures 0 < FrontLength(n) < n
    ensures 0 <= FrontLength(n) - (n - FrontLength(n)) <= 1
  {
  }

  // ----- what the comparator must satisfy -----

  /** `le` is total and transitive on the elements of s. */
  ghost predicate TotalPreorder<T>(s: seq<T>, le: (T, T) -> bool) {
    && (forall i, j :: 0 <= i < |s| && 0 <= j < |s| ==> le(s[i], s[j]) || le(s[j], s[i]))
    && (forall i, j, k :: 0 <= i < |s| && 0 <= j < |s| && 0 <= k < |s| && le(s[i], s[j]) && le(s[j], s[k])
          ==> le(s[i], s[k]))
  }

  /** Every element of a is an element of d. */
  ghost predicate Within<T>(a: seq<T>, d: seq<T>) {
    forall i :: 0 <= i < |a| ==> a[i] in d
  }

  ghost predicate Sorted<T>(s: seq<T>, le: (T, T) -> bool) {
    forall i, j :: 0 <= i < j < |s| ==> le(s[i], s[j])
  }

  /** The elements of s that the comparator cannot tell from x, in order. */
  ghost function Equivalents<T>(s: seq<T>, x: T, le: (T, T) -> bool): seq<T> {
    if s == [] then []
    else if le(s[0], x) && le(x, s[0]) then [s[0]] + Equivalents(s[1..], x, le)
    else Equivalents(s[1..], x, le)
  }

  /** Elements that compare equal come out in the order in which they went in. */
  ghost predicate StableVersion<T>(s: seq<T>, out: seq<T>, le: (T, T) -> bool) {
    forall i :: 0 <= i < |s| ==> Equivalents(out, s[i], le) == Equivalents(s, s[i], le)
  }

  // ----- permutation -----

  lemma HeadMultiset<T>(s: seq<T>)
    requires |s| > 0
    ensures multiset(s) == multiset{s[0]} + multiset(s[1..])
  {
    assert s == [s[0]] + s[1..];
  }

  lemma HalvesMultiset<T>(s: seq<T>, k: nat)
    requires k <= |s|
    ensures multiset(s) == multiset(s[..k]) + multiset(s[k..])
  {
    assert s == s[..k] + s[k..];
  }

  lemma {:induction false} MergePermutes<T>(l: seq<T>, r: seq<T>, le: (T, T) -> bool)
    ensures multiset(Merge(l, r, le)) == multiset(l) + multiset(r)
    ensures |Merge(l, r, le)| == |l| + |r|
    decreases |l| + |r|
  {
    if |l| > 0 && |r| > 0 {
      if le(l[0], r[0]) {
        MergePermutes(l[1..], r, le);
        HeadMultiset(l);
      } else {
        MergePermutes(l, r[1..], le);
        HeadMultiset(r);
      }
    }
  }

  lemma {:induction false} SortPermutes<T>(s: seq<T>, le: (T, T) -> bool)
    ensures multiset(Sort(s, le)) == multiset(s)
    ensures |Sort(s, le)| == |s|
    decreases |s|
  {
    if |s| > 1 {
      var k := FrontLength(|s|);
      SortUnfolds(s, le);
      hide FrontLength, Sort, Merge;
      SortPermutes(s[..k], le);
      SortPermutes(s[k..], le);
      MergePermutes(Sort(s[..k], le), Sort(s[k..], le), le);
      HalvesMultiset(s, k);
    }
  }

  lemma SameElements<T>(s: seq<T>, t: seq<T>)
    requires multiset(s) == multiset(t)
    ensures Within(s, t)
  {
    forall i | 0 <= i < |s| ensures s[i] in t {
      assert s[i] in multiset(t);
    }
  }

  lemma SortWithin<T>(s: seq<T>, le: (T, T) -> bool, d: seq<T>)
    requires Within(s, d)
    ensures Within(Sort(s, le), d)
  {
    SortPermutes(s, le);
    SameElements(Sort(s, le), s);
  }

  // ----- order -----

  /** The smaller of the two heads is below everything in both runs. */
  lemma SmallerHeadIsLeast<T>(l: seq<T>, r: seq<T>, y: T, le: (T, T) -> bool, d: seq<T>)
    requires TotalPreorder(d, le) && Within(l, d) && Within(r, d)
    requires Sorted(l, le) && Sorted(r, le) && |l| > 0 && |r| > 0
    requires y in l || y in r
    ensures le(if le(l[0], r[0]) then l[0] else r[0], y)
  {
    assert l[0] in d && r[0] in d;
    if y in l {
      var i :| 0 <= i < |l| && l[i] == y;
      assert l[i] in d && (i > 0 ==> le(l[0], l[i]));
    } else {
      var i :| 0 <= i < |r| && r[i] == y;
      assert r[i] in d && (i > 0 ==> le(r[0], r[i]));
    }
  }

  lemma {:induction false} MergeSorted<T>(l: seq<T>, r: seq<T>, le: (T, T) -> bool, d: seq<T>)
    requires TotalPreorder(d, le) && Within(l, d) && Within(r, d)
    requires Sorted(l, le) && Sorted(r, le)
    ensures Sorted(Merge(l, r, le), le)
    decreases |l| + |r|
  {
    if |l| > 0 && |r| > 0 {
      if le(l[0], r[0]) {
        MergeSorted(l[1..], r, le, d);
        HeadBelowMerged(l, r, l[1..], r, le, d);
      } else {
        MergeSorted(l, r[1..], le, d);
        HeadBelowMerged(l, r, l, r[1..], le, d);
      }
    }
  }

  lemma HeadBelowMerged<T>(l: seq<T>, r: seq<T>, l': seq<T>, r': seq<T>, le: (T, T) -> bool, d: seq<T>)
    requires TotalPreorder(d, le) && Within(l, d) && Within(r, d)
    requires Sorted(l, le) && Sorted(r, le) && |l| > 0 && |r| > 0
    requires (l' == l || l' == l[1..]) && (r' == r || r' == r[1..])
    ensures forall j :: 0 <= j < |Merge(l', r', le)| ==> le(if le(l[0], r[0]) then l[0] else r[0], Merge(l', r', le)[j])
  {
    var m := Merge(l', r', le);
    MergePermutes(l', r', le);
    SameElements(m, l' + r');
    forall j | 0 <= j < |m| ensures le(if le(l[0], r[0]) then l[0] else r[0], m[j]) {
      assert m[j] in l' + r';
      SmallerHeadIsLeast(l, r, m[j], le, d);
    }
  }

  lemma {:induction false} SortSorts<T>(s: seq<T>, le: (T, T) -> bool, d: seq<T>)
    requires TotalPreorder(d, le) && Within(s, d)
    ensures Sorted(Sort(s, le), le)
    decreases |s|
  {
    if |s| > 1 {
      var k := FrontLength(|s|);
      assert Within(s[..k], d) && Within(s[k..], d);
      SortUnfolds(s, le);
      hide FrontLength, TotalPreorder, Within, Sorted, Sort, Merge;
      SortSorts(s[..k], le, d);
      SortSorts(s[k..], le, d);
      SortWithin(s[..k], le, d);
      SortWithin(s[k..], le, d);
      MergeSorted(Sort(s[..k], le), Sort(s[k..], le), le, d);
    }
  }

  // ----- stability -----

  lemma {:induction false} EquivalentsConcat<T>(a: seq<T>, b: seq<T>, x: T, le: (T, T) -> bool)
    ensures Equivalents(a + b, x, le) == Equivalents(a, x, le) + Equivalents(b, x, le)
  {
    if a == [] {
      assert a + b == b;
    } else {
      assert (a + b)[1..] == a[1..] + b;
      EquivalentsConcat(a[1..], b, x, le);
    }
  }

  lemma EquivalentsOfHalves<T>(s: seq<T>, k: nat, x: T, le: (T, T) -> bool)
    requires k <= |s|
    ensures Equivalents(s, x, le) == Equivalents(s[..k], x, le) + Equivalents(s[k..], x, le)
  {
    hide Equivalents;
    assert s[..k] + s[k..] == s;
    EquivalentsConcat(s[..k], s[k..], x, le);
  }

  lemma {:induction false} NoEquivalents<T>(s: seq<T>, x: T, le: (T, T) -> bool)
    requires forall i :: 0 <= i < |s| ==> !(le(s[i], x) && le(x, s[i]))
    ensures Equivalents(s, x, le) == []
  {
    if s != [] {
      NoEquivalents(s[1..], x, le);
    }
  }

  /** If the head of the right run equals x and overtakes the left run, nothing on the left equals x. */
  lemma OvertakenAreGreater<T>(l: seq<T>, y: T, x: T, le: (T, T) -> bool, d: seq<T>)
    requires TotalPreorder(d, le) && x in d && y in d && Within(l, d)
    requires Sorted(l, le) && l != [] && !le(l[0], y)
    requires le(y, x) && le(x, y)
    ensures Equivalents(l, x, le) == []
  {
    assert l[0] in d;
    forall i | 0 <= i < |l| ensures !le(l[i], x) {
      assert l[i] in d;
      assert i > 0 ==> le(l[0], l[i]);
      assert !le(l[i], y);
    }
    NoEquivalents(l, x, le);
  }

  lemma {:induction false} MergeStable<T>(l: seq<T>, r: seq<T>, x: T, le: (T, T) -> bool, d: seq<T>)
    requires TotalPreorder(d, le) && x in d && Within(l, d) && Within(r, d)
    requires Sorted(l, le)
    ensures Equivalents(Merge(l, r, le), x, le) == Equivalents(l, x, le) + Equivalents(r, x, le)
    decreases |l| + |r|
  {
    if l == [] || r == [] {
    } else if le(l[0], r[0]) {
      MergeStable(l[1..], r, x, le, d);
    } else {
      MergeStable(l, r[1..], x, le, d);
      if le(r[0], x) && le(x, r[0]) {
        OvertakenAreGreater(l, r[0], x, le, d);
      }
    }
  }

  lemma {:induction false} SortStable<T>(s: seq<T>, x: T, le: (T, T) -> bool, d: seq<T>)
    requires TotalPreorder(d, le) && x in d && Within(s, d)
    ensures Equivalents(Sort(s, le), x, le) == Equivalents(s, x, le)
    decreases |s|
  {
    if |s| > 1 {
      var k := FrontLength(|s|);
      assert Within(s[..k], d) && Within(s[k..], d);
      SortUnfolds(s, le);
      hide FrontLength, TotalPreorder, Within, Sorted, Sort, Merge, Equivalents;
      SortStable(s[..k], x, le, d);
      SortStable(s[k..], x, le, d);
      SortWithin(s[..k], le, d);
      SortWithin(s[k..], le, d);
      SortSorts(s[..k], le, d);
      MergeStable(Sort(s[..k], le), Sort(s[k..], le), x, le, d);
      EquivalentsOfHalves(s, k, x, le);
    }
  }

  /** The merge sort is a stable sort wherever the comparator is a total preorder. */
  lemma SortCorrect<T>(s: seq<T>, le: (T, T) -> bool)
    requires TotalPreorder(s, le)
    ensures multiset(Sort(s, le)) == multiset(s)
    ensures Sorted(Sort(s, le), le)
    ensures StableVersion(s, Sort(s, le), le)
  {
    SortPermutes(s, le);
    SortSorts(s, le, s);
    forall i | 0 <= i < |s| ensures Equivalents(Sort(s, le), s[i], le) == Equivalents(s, s[i], le) {
      SortStable(s, s[i], le, s);
    }
  }

  // ----- the comparator that never says "greater" -----

  lemma {:induction false} MergeConcatenates<T>(l: seq<T>, r: seq<T>, le: (T, T) -> bool)
    requires forall i, j :: 0 <= i < |l| && 0 <= j < |r| ==> le(l[i], r[j])
    ensures Merge(l, r, le) == l + r
    decreases |l|
  {
    if l != [] && r != [] {
      MergeConcatenates(l[1..], r, le);
    }
  }

  /** A comparator that answers 0 throughout leaves the list as it was. */
  lemma {:induction false} SortIdentity<T>(s: seq<T>, le: (T, T) -> bool)
    requires forall i, j :: 0 <= i < |s| && 0 <= j < |s| ==> le(s[i], s[j])
    ensures Sort(s, le) == s
    decreases |s|
  {
    if |s| > 1 {
      var k := FrontLength(|s|);
      SortIdentity(s[..k], le);
      SortIdentity(s[k..], le);
      MergeConcatenates(s[..k], s[k..], le);
      assert s == s[..k] + s[k..];
    }
  }

  // ----- sequences without repetition -----

  ghost predicate Distinct<T>(s: seq<T>) {
    forall i, j :: 0 <= i < j < |s| ==> s[i] != s[j]
  }

  lemma RestDistinct<T>(l: seq<T>, r: seq<T>)
    requires Distinct(l + r) && |l| > 0 && |r| > 0
    ensures Distinct(l[1..] + r) && l[0] !in l[1..] + r
    ensures Distinct(l + r[1..]) && r[0] !in l + r[1..]
  {
    var s := l + r;
    assert l[1..] + r == s[1..] && l[0] == s[0];
    var t := l + r[1..];
    forall i | 0 <= i < |t| ensures t[i] == s[if i < |l| then i else i + 1] {
    }
    assert r[0] == s[|l|];
  }

  lemma {:induction false} MergeDistinct<T>(l: seq<T>, r: seq<T>, le: (T, T) -> bool)
    requires Distinct(l + r)
    ensures Distinct(Merge(l, r, le))
    ensures Within(Merge(l, r, le), l + r)
    decreases |l| + |r|
  {
    MergePermutes(l, r, le);
    SameElements(Merge(l, r, le), l + r);
    if |l| == 0 {
      assert l + r == r;
    } else if |r| == 0 {
      assert l + r == l;
    } else {
      RestDistinct(l, r);
      if le(l[0], r[0]) {
        MergeDistinct(l[1..], r, le);
      } else {
        MergeDistinct(l, r[1..], le);
      }
    }
  }

  lemma {:induction false} SortDistinct<T>(s: seq<T>, le: (T, T) -> bool)
    requires Distinct(s)
    ensures Distinct(Sort(s, le))
    ensures Within(Sort(s, le), s)
    ensures |Sort(s, le)| == |s|
    decreases |s|, 1
  {
    SortPermutes(s, le);
    SameElements(Sort(s, le), s);
    if |s| > 1 {
      SortedHalvesDistinct(s, FrontLength(|s|), le);
      MergeDistinct(Sort(s[..FrontLength(|s|)], le), Sort(s[FrontLength(|s|)..], le), le);
    }
  }

  /** The sorted halves hold the elements of their halves, and no element twice. */
  lemma {:induction false} SortedHalvesDistinct<T>(s: seq<T>, k: nat, le: (T, T) -> bool)
    requires Distinct(s) && 0 < k < |s|
    ensures var l, r := Sort(s[..k], le), Sort(s[k..], le);
      && Distinct(l + r) && Distinct(s[..k]) && Distinct(s[k..])
      && Within(l, s[..k]) && Within(r, s[k..]) && |l| == k && |r| == |s| - k
    ensures forall x :: x in s[..k] || x in Sort(s[..k], le) ==> x !in s[k..]
    ensures forall i, j :: 0 <= i < k <= j < |s| ==> s[i] != s[j]
    decreases |s|, 0
  {
    SortDistinct(s[..k], le);
    SortDistinct(s[k..], le);
  }
}
