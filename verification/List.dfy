/** The singly linked list of core/src/list.c: its in-place sort, its comparator and its join. */
module List {
  import opened Bytes
  import opened MergeSort

  type Data = seq<byte>
  type Compare = (Data, Data) -> int

  class Node {
    const data: Data
    var next: Node?

    constructor (data: Data)
      ensures this.data == data && next == null
    {
      this.data := data;
      next := null;
    }
  }

  /** Following `next` from h visits exactly the nodes of s and ends. */
  ghost predicate Chain(h: Node?, s: seq<Node>)
    reads s
  {
    && h == (if |s| == 0 then null else s[0])
    && forall i {:trigger s[i].next} :: 0 <= i < |s| ==> s[i].next == (if i + 1 < |s| then s[i + 1] else null)
  }

  ghost predicate Apart(s: seq<Node>, t: seq<Node>) {
    forall i, j :: 0 <= i < |s| && 0 <= j < |t| ==> s[i] != t[j]
  }

  ghost function Order(cmp: Compare): (Node, Node) -> bool {
    (x: Node, y: Node) => cmp(x.data, y.data) <= 0
  }

  lemma ChainPrepend(x: Node, rest: Node?, m: seq<Node>)
    requires Chain(rest, m) && x.next == rest
    ensures Chain(x, [x] + m)
  {
  }

  lemma ChainConcat(g: Node?, s: seq<Node>, h: Node?, t: seq<Node>)
    requires |s| > 0 && g == s[0] && Chain(h, t)
    requires forall i {:trigger s[i].next} :: 0 <= i < |s| ==> s[i].next == if i + 1 < |s| then s[i + 1] else h
    ensures Chain(g, s + t)
  {
  }

  // ----- the in-place merge sort -----

  method Split(source: Node, ghost s: seq<Node>) returns (front: Node, back: Node)
    requires |s| >= 2 && Chain(source, s) && Distinct(s)
    modifies s
    ensures 0 < FrontLength(|s|) < |s|
    ensures Chain(front, s[..FrontLength(|s|)]) && Chain(back, s[FrontLength(|s|)..])
  {
    var slow, fast := source, source.next;
    ghost var k := 0;
    while fast != null
      invariant 0 <= k && 2 * k < |s| && slow == s[k]
      invariant fast != null ==> 2 * k + 1 < |s| && fast == s[2 * k + 1]
      invariant fast == null ==> |s| <= 2 * k + 2
      decreases |s| - 2 * k, fast != null
    {
      fast := fast.next;
      if fast != null {
        slow := slow.next;
        fast := fast.next;
        k := k + 1;
      }
    }
    front := source;
    back := slow.next;
    slow.next := null;
    assert k + 1 == FrontLength(|s|);
  }

  method SortedMerge(a: Node?, b: Node?, cmp: Compare, ghost l: seq<Node>, ghost r: seq<Node>) returns (result: Node?)
    requires Chain(a, l) && Chain(b, r) && Distinct(l + r)
    modifies l, r
    ensures Chain(result, Merge(l, r, Order(cmp)))
    decreases |l| + |r|
  {
    if a == null {
      return b;
    } else if b == null {
      return a;
    }
    RestDistinct(l, r);
    var rest;
    if cmp(a.data, b.data) <= 0 {
      result := a;
      MergeDistinct(l[1..], r, Order(cmp));
      rest := SortedMerge(a.next, b, cmp, l[1..], r);
      result.next := rest;
      ChainPrepend(result, rest, Merge(l[1..], r, Order(cmp)));
    } else {
      result := b;
      MergeDistinct(l, r[1..], Order(cmp));
      rest := SortedMerge(a, b.next, cmp, l, r[1..]);
      result.next := rest;
      ChainPrepend(result, rest, Merge(l, r[1..], Order(cmp)));
    }
  }

  method MergeSortNodes(head: Node?, cmp: Compare, ghost s: seq<Node>) returns (result: Node?)
    requires Chain(head, s) && Distinct(s)
    modifies s
    ensures Chain(result, Sort(s, Order(cmp)))
    decreases |s|, 1
  {
    if head == null || head.next == null {
      return head;
    }
    var a, b := Split(head, s);
    result := SortHalves(a, b, cmp, s, FrontLength(|s|));
  }

  method SortHalves(a: Node, b: Node, cmp: Compare, ghost s: seq<Node>, ghost k: nat) returns (result: Node?)
    requires 0 < k < |s| && Distinct(s) && Chain(a, s[..k]) && Chain(b, s[k..])
    modifies s
    ensures Chain(result, Merge(Sort(s[..k], Order(cmp)), Sort(s[k..], Order(cmp)), Order(cmp)))
    decreases |s|, 0
  {
    ghost var l, r := Sort(s[..k], Order(cmp)), Sort(s[k..], Order(cmp));
    SortedHalvesDistinct(s, k, Order(cmp));
    hide Chain, Distinct, Within, Sort, Merge, Order;
    var front := MergeSortNodes(a, cmp, s[..k]);
    var back := MergeSortNodes(b, cmp, s[k..]);
    result := SortedMerge(front, back, cmp, l, r);
  }

  // ----- the list -----

  class List {
    var count: int
    var head: Node?
    var tail: Node?
    ghost var nodes: seq<Node>

    ghost predicate Valid()
      reads this, nodes
    {
      && count == |nodes|
      && Chain(head, nodes) && Distinct(nodes)
      && tail == if |nodes| == 0 then null else nodes[|nodes| - 1]
    }

    /** Sorts the nodes in place with the lexicographic comparator, then walks to the new tail. */
    method SortList()
      requires Valid()
      modifies this, nodes
      ensures Valid() && nodes == Sort(old(nodes), Order(NodeCompare))
    {
      if count < 2 {
        return;
      }
      SortDistinct(nodes, Order(NodeCompare));
      var sorted := MergeSortNodes(head, NodeCompare, nodes);
      FindTail(sorted, Sort(nodes, Order(NodeCompare)));
    }

    method FindTail(sorted: Node?, ghost s: seq<Node>)
      requires |s| > 0 && count == |s| && Chain(sorted, s) && Distinct(s)
      modifies this
      ensures Valid() && nodes == s
    {
      head := sorted;
      nodes := s;
      var current := head;
      ghost var idx := 0;
      while current.next != null
        invariant 0 <= idx < |s| && current == s[idx] && Chain(sorted, s)
        decreases |s| - idx
      {
        current := current.next;
        idx := idx + 1;
      }
      tail := current;
    }

    /** Links second behind first. The list that is not returned must not be used any more. */
    static method Join(first: List?, second: List?) returns (joined: List?)
      requires first != null ==> first.Valid()
      requires second != null ==> second.Valid()
      requires first != null && second != null ==> first != second && Apart(first.nodes, second.nodes)
      modifies first, second, if first == null then [] else first.nodes
      ensures first == null ==> joined == second
      ensures second == null ==> joined == first
      ensures joined != null ==> joined.Valid()
      ensures first != null && second != null ==>
        && (joined == first || joined == second) && joined != null
        && joined.nodes == old(first.nodes) + old(second.nodes)
    {
      if first == null {
        return second;
      }
      if second == null {
        return first;
      }
      if first.count == 0 {
        return second;
      }
      if second.count == 0 {
        return first;
      }
      first.tail.next := second.head;
      ChainConcat(first.head, first.nodes, second.head, second.nodes);
      first.tail := second.tail;
      first.count := first.count + second.count;
      first.nodes := first.nodes + second.nodes;
      second.head, second.tail, second.count, second.nodes := null, null, 0, [];
      return first;
    }
  }

  // ----- the comparator -----

  /** memcmp over the first n bytes: the sign of the first difference. */
  function MemCompare(a: Data, b: Data, n: nat): int
    requires n <= |a| && n <= |b|
  {
    if n == 0 then 0
    else if a[0] != b[0] then (a[0] as int) - (b[0] as int)
    else MemCompare(a[1..], b[1..], n - 1)
  }

  function NodeCompare(a: Data, b: Data): int {
    var c := MemCompare(a, b, if |a| < |b| then |a| else |b|);
    if c != 0 then c
    else if |a| < |b| then -1
    else if |a| > |b| then 1
    else 0
  }

  /** Dictionary order: a is a prefix of b, or smaller at the first place where they differ. */
  ghost predicate LexBelow(a: Data, b: Data) {
    a <= b || exists k :: DiffersAt(a, b, k) && a[k] < b[k]
  }

  ghost predicate DiffersAt(a: Data, b: Data, k: int) {
    0 <= k < |a| && k < |b| && a[k] != b[k] && forall i :: 0 <= i < k ==> a[i] == b[i]
  }

  lemma {:induction false} FirstDifference(a: Data, b: Data)
    ensures a <= b || b <= a || exists k :: DiffersAt(a, b, k)
  {
    if |a| > 0 && |b| > 0 {
      if a[0] != b[0] {
        assert DiffersAt(a, b, 0);
      } else {
        var a', b' := a[1..], b[1..];
        FirstDifference(a', b');
        if k :| DiffersAt(a', b', k) {
          forall i | 0 <= i < k + 1 ensures a[i] == b[i] {
            assert i > 0 ==> a'[i - 1] == b'[i - 1];
          }
          assert DiffersAt(a, b, k + 1);
        } else if a' <= b' {
          assert a == [a[0]] + a' && b == [b[0]] + b';
        } else {
          assert a == [a[0]] + a' && b == [b[0]] + b';
        }
      }
    }
  }

  lemma {:induction false} MemCompareAtDifference(a: Data, b: Data, n: nat, k: int)
    requires n <= |a| && n <= |b| && k < n && DiffersAt(a, b, k)
    ensures MemCompare(a, b, n) == a[k] as int - b[k] as int
  {
    if k > 0 {
      MemCompareAtDifference(a[1..], b[1..], n - 1, k - 1);
    }
  }

  lemma {:induction false} MemCompareOfEqual(a: Data, b: Data, n: nat)
    requires n <= |a| && n <= |b| && a[..n] == b[..n]
    ensures MemCompare(a, b, n) == 0
  {
    if n > 0 {
      assert a[..n][0] == a[0] && b[..n][0] == b[0];
      assert a[1..][..n - 1] == a[..n][1..] && b[1..][..n - 1] == b[..n][1..];
      MemCompareOfEqual(a[1..], b[1..], n - 1);
    }
  }

  /** The comparator decides dictionary order, and says 0 only of equal blocks. */
  lemma NodeCompareIsLexicographic(a: Data, b: Data)
    ensures NodeCompare(a, b) <= 0 <==> LexBelow(a, b)
    ensures NodeCompare(a, b) == 0 <==> a == b
  {
    var n := if |a| < |b| then |a| else |b|;
    FirstDifference(a, b);
    if k :| DiffersAt(a, b, k) {
      MemCompareAtDifference(a, b, n, k);
      assert !(a <= b);
    } else {
      assert a[..n] == b[..n];
      MemCompareOfEqual(a, b, n);
    }
  }

  /** Dictionary order is a total order. */
  lemma LexBelowIsTotalOrder(a: Data, b: Data, c: Data)
    ensures LexBelow(a, b) || LexBelow(b, a)
    ensures LexBelow(a, b) && LexBelow(b, a) ==> a == b
    ensures LexBelow(a, b) && LexBelow(b, c) ==> LexBelow(a, c)
  {
    NodeCompareIsLexicographic(a, b);
    NodeCompareIsLexicographic(b, a);
    FirstDifference(a, b);
    if k :| DiffersAt(a, b, k) {
      assert DiffersAt(b, a, k);
    }
    if LexBelow(a, b) && LexBelow(b, c) {
      LexTransitive(a, b, c);
    }
  }

  lemma LexTransitive(a: Data, b: Data, c: Data)
    requires LexBelow(a, b) && LexBelow(b, c)
    ensures LexBelow(a, c)
  {
    if a <= b {
      if k :| DiffersAt(b, c, k) && b[k] < c[k] {
        assert a == b[..|a|];
        if k < |a| {
          assert DiffersAt(a, c, k);
        } else {
          assert a <= c;
        }
      } else {
        assert a <= c;
      }
    } else {
      var i :| DiffersAt(a, b, i) && a[i] < b[i];
      if j :| DiffersAt(b, c, j) && b[j] < c[j] {
        var k := if i < j then i else j;
        assert DiffersAt(a, c, k) && a[k] < c[k];
      } else {
        assert b == c[..|b|];
        assert DiffersAt(a, c, i);
      }
    }
  }

  /** What the sort does to a list: the same nodes in dictionary order, equal blocks in their old order. */
  lemma SortListCorrect(s: seq<Node>)
    ensures var out := Sort(s, Order(NodeCompare));
      && multiset(out) == multiset(s)
      && (forall i, j :: 0 <= i < j < |out| ==> LexBelow(out[i].data, out[j].data))
      && StableVersion(s, out, Order(NodeCompare))
  {
    var le := Order(NodeCompare);
    NodeOrderIsTotalPreorder(s);
    SortCorrect(s, le);
    var out := Sort(s, le);
    forall i, j | 0 <= i < j < |out| ensures LexBelow(out[i].data, out[j].data) {
      assert le(out[i], out[j]);
      NodeCompareIsLexicographic(out[i].data, out[j].data);
    }
  }

  lemma NodeOrderIsTotalPreorder(s: seq<Node>)
    ensures TotalPreorder(s, Order(NodeCompare))
  {
    var le := Order(NodeCompare);
    forall i, j | 0 <= i < |s| && 0 <= j < |s| ensures le(s[i], s[j]) <==> LexBelow(s[i].data, s[j].data) {
      NodeCompareIsLexicographic(s[i].data, s[j].data);
    }
    forall i, j, k | 0 <= i < |s| && 0 <= j < |s| && 0 <= k < |s|
      ensures le(s[i], s[j]) || le(s[j], s[i])
      ensures le(s[i], s[j]) && le(s[j], s[k]) ==> le(s[i], s[k])
    {
      LexBelowIsTotalOrder(s[i].data, s[j].data, s[k].data);
    }
  }
}
