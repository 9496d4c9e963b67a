/** The doubly linked list of core/src/listdoublelinked.c. */
module ListDoubleLinked {
  import opened Bytes
  import Links
  import opened MergeSort

  type Data = seq<byte>
  type Compare = (Data, Data) -> int

  class Node {
    const data: Data
    var next: Node?
    var previous: Node?

    constructor (data: Data)
      ensures this.data == data && next == null && previous == null
    {
      this.data := data;
      next, previous := null, null;
    }
  }

  // ----- shape -----

  /** Following `next` from h visits exactly the nodes of s and ends. */
  ghost predicate Chain(h: Node?, s: seq<Node>)
    reads s
  {
    && h == (if |s| == 0 then null else s[0])
    && forall i {:trigger s[i].next} :: 0 <= i < |s| ==> s[i].next == (if i + 1 < |s| then s[i + 1] else null)
  }

  /** Every `previous` inside s points one node back. */
  ghost predicate Mirrored(s: seq<Node>)
    reads s
  {
    forall i {:trigger s[i].previous} :: 0 < i < |s| ==> s[i].previous == s[i - 1]
  }

  ghost predicate Apart(s: seq<Node>, t: seq<Node>) {
    forall i, j :: 0 <= i < |s| && 0 <= j < |t| ==> s[i] != t[j]
  }

  /** No operation stores an element of size 0. */
  ghost predicate NonEmptyData(s: seq<Node>) {
    forall i :: 0 <= i < |s| ==> s[i].data != []
  }

  ghost function Values(s: seq<Node>): (v: seq<Data>)
    ensures |v| == |s| && forall i :: 0 <= i < |s| ==> v[i] == s[i].data
  {
    seq(|s|, i requires 0 <= i < |s| => s[i].data)
  }

  /** `cmp(x, y) <= 0` on nodes. */
  ghost function Order(cmp: Compare): (Node, Node) -> bool {
    (x: Node, y: Node) => cmp(x.data, y.data) <= 0
  }

  // What relinking a few nodes does to the shape, one predicate at a time.

  lemma ChainHead(h: Node, s: seq<Node>)
    requires Chain(h, s)
    ensures |s| > 0 && h == s[0]
  {
  }

  lemma ChainPrepend(x: Node, rest: Node?, m: seq<Node>)
    requires Chain(rest, m) && x.next == rest
    ensures Chain(x, [x] + m)
  {
  }

  lemma ElementsPrepend(x: Node, s: seq<Node>)
    requires Distinct(s) && NonEmptyData(s) && x !in s && x.data != []
    ensures Distinct([x] + s) && NonEmptyData([x] + s)
  {
  }

  lemma MirroredPrepend(x: Node, m: seq<Node>)
    requires Mirrored(m) && (|m| > 0 ==> m[0].previous == x)
    ensures Mirrored([x] + m)
  {
  }

  lemma ChainAppend(h: Node, s: seq<Node>, x: Node)
    requires h == if |s| == 0 then x else s[0]
    requires forall i {:trigger s[i].next} :: 0 <= i < |s| ==> s[i].next == if i + 1 < |s| then s[i + 1] else x
    requires x.next == null
    ensures Chain(h, s + [x])
  {
  }

  lemma MirroredAppend(s: seq<Node>, x: Node)
    requires Mirrored(s) && (|s| > 0 ==> x.previous == s[|s| - 1])
    ensures Mirrored(s + [x])
  {
  }

  lemma ElementsAppend(s: seq<Node>, x: Node)
    requires Distinct(s) && NonEmptyData(s) && x !in s && x.data != []
    ensures Distinct(s + [x]) && NonEmptyData(s + [x])
  {
  }

  ghost function Inserted(s: seq<Node>, p: nat, x: Node): (t: seq<Node>)
    requires p <= |s|
    ensures |t| == |s| + 1
    ensures forall i :: 0 <= i < |t| ==> t[i] == if i < p then s[i] else if i == p then x else s[i - 1]
  {
    s[..p] + [x] + s[p..]
  }

  lemma ChainInsert(h: Node, s: seq<Node>, p: nat, x: Node)
    requires 0 < p < |s| && h == s[0]
    requires forall i {:trigger s[i].next} :: 0 <= i < |s| && i != p - 1 ==> s[i].next == (if i + 1 < |s| then s[i + 1] else null)
    requires s[p - 1].next == x && x.next == s[p]
    ensures Chain(h, Inserted(s, p, x))
  {
    var t := Inserted(s, p, x);
    forall i | 0 <= i < |t| ensures t[i].next == (if i + 1 < |t| then t[i + 1] else null) {
      if i < p - 1 {
        assert s[i].next == s[i + 1];
      } else if i > p {
        assert s[i - 1].next == (if i < |s| then s[i] else null);
      }
    }
  }

  lemma MirroredInsert(s: seq<Node>, p: nat, x: Node)
    requires 0 < p < |s|
    requires forall i {:trigger s[i].previous} :: 0 < i < |s| && i != p ==> s[i].previous == s[i - 1]
    requires s[p].previous == x && x.previous == s[p - 1]
    ensures Mirrored(Inserted(s, p, x))
  {
    var t := Inserted(s, p, x);
    forall i | 0 < i < |t| ensures t[i].previous == t[i - 1] {
      if i < p {
        assert s[i].previous == s[i - 1];
      } else if i > p + 1 {
        assert s[i - 1].previous == s[i - 2];
      }
    }
  }

  lemma ElementsInsert(s: seq<Node>, p: nat, x: Node)
    requires p <= |s| && Distinct(s) && NonEmptyData(s) && x !in s && x.data != []
    ensures Distinct(Inserted(s, p, x)) && NonEmptyData(Inserted(s, p, x))
  {
  }

  /** x has been linked in front of s[p]: `next` changed at s[p - 1] only, `previous` at s[p] only. */
  twostate lemma LinkedIn(s: seq<Node>, new p: nat, new x: Node)
    requires 0 < p < |s| && Distinct(s) && NonEmptyData(s) && x !in s && x.data != []
    requires old(Chain(s[0], s) && Mirrored(s))
    requires forall y :: y in s && y != s[p - 1] ==> y.next == old(y.next)
    requires forall y :: y in s && y != s[p] ==> y.previous == old(y.previous)
    requires s[p - 1].next == x && x.next == s[p] && s[p].previous == x && x.previous == s[p - 1]
    ensures Chain(s[0], Inserted(s, p, x)) && Mirrored(Inserted(s, p, x))
    ensures Distinct(Inserted(s, p, x)) && NonEmptyData(Inserted(s, p, x))
  {
    ChainInsert(s[0], s, p, x);
    MirroredInsert(s, p, x);
    ElementsInsert(s, p, x);
  }

  lemma ChainWithout(h: Node, s: seq<Node>, p: nat)
    requires 0 < p < |s| - 1 && h == s[0]
    requires forall i {:trigger s[i].next} :: 0 <= i < |s| && i != p - 1 ==> s[i].next == (if i + 1 < |s| then s[i + 1] else null)
    requires s[p - 1].next == s[p + 1]
    ensures Chain(h, Links.Without(s, p))
  {
    var t := Links.Without(s, p);
    forall i | 0 <= i < |t| ensures t[i].next == (if i + 1 < |t| then t[i + 1] else null) {
      if i < p - 1 {
        assert s[i].next == s[i + 1];
      } else if i >= p {
        assert s[i + 1].next == (if i + 2 < |s| then s[i + 2] else null);
      }
    }
  }

  lemma MirroredWithout(s: seq<Node>, p: nat)
    requires 0 < p < |s| - 1
    requires forall i {:trigger s[i].previous} :: 0 < i < |s| && i != p + 1 ==> s[i].previous == s[i - 1]
    requires s[p + 1].previous == s[p - 1]
    ensures Mirrored(Links.Without(s, p))
  {
    var t := Links.Without(s, p);
    forall i | 0 < i < |t| ensures t[i].previous == t[i - 1] {
      if i < p {
        assert s[i].previous == s[i - 1];
      } else if i > p {
        assert s[i + 1].previous == s[i];
      }
    }
  }

  lemma ElementsWithout(s: seq<Node>, p: nat)
    requires p < |s| && Distinct(s) && NonEmptyData(s)
    ensures Distinct(Links.Without(s, p)) && NonEmptyData(Links.Without(s, p))
  {
  }

  /** s[p] has been bridged: `next` changed at s[p - 1] only, `previous` at s[p + 1] only. */
  twostate lemma LinkedOut(s: seq<Node>, new p: nat)
    requires 0 < p < |s| - 1 && Distinct(s) && NonEmptyData(s) && old(Chain(s[0], s) && Mirrored(s))
    requires forall y :: y in s && y != s[p - 1] ==> y.next == old(y.next)
    requires forall y :: y in s && y != s[p + 1] ==> y.previous == old(y.previous)
    requires s[p - 1].next == s[p + 1] && s[p + 1].previous == s[p - 1]
    ensures Chain(s[0], Links.Without(s, p)) && Mirrored(Links.Without(s, p))
    ensures Distinct(Links.Without(s, p)) && NonEmptyData(Links.Without(s, p))
  {
    ChainWithout(s[0], s, p);
    MirroredWithout(s, p);
    ElementsWithout(s, p);
  }

  // ----- the in-place merge sort -----

  /** Walks `fast` two nodes for each node of `slow`, then cuts the chain after `slow`. */
  method Split(source: Node, ghost s: seq<Node>) returns (front: Node, back: Node)
    requires |s| >= 2
    requires Chain(source, s) && Mirrored(s) && Distinct(s)
    modifies s
    ensures var k := FrontLength(|s|);
      && 0 < k < |s|
      && Chain(front, s[..k]) && Chain(back, s[k..])
      && Mirrored(s[..k]) && Mirrored(s[k..])
    ensures front.previous == old(source.previous) && back.previous == null
  {
    var slow, fast := source, source.next;
    ghost var k := 0;
    while fast != null
      invariant 0 <= k && 2 * k < |s| && slow == s[k]
      invariant fast != null ==> 2 * k + 1 < |s| && fast == s[2 * k + 1]
      invariant fast == null ==> |s| <= 2 * k + 2
      decreases |s| - 2 * k, fast != null
    {
      fast := fast.next;
      if fast != null {
        slow := slow.next;
        fast := fast.next;
        k := k + 1;
      }
    }
    assert k + 1 == FrontLength(|s|);
    front := source;
    back := CutBehind(source, slow, s, k);
  }

  method CutBehind(source: Node, slow: Node, ghost s: seq<Node>, ghost k: nat) returns (back: Node)
    requires k + 1 < |s| && slow == s[k]
    requires Chain(source, s) && Mirrored(s) && Distinct(s)
    modifies s
    ensures Chain(source, s[..k + 1]) && Chain(back, s[k + 1..])
    ensures Mirrored(s[..k + 1]) && Mirrored(s[k + 1..])
    ensures source.previous == old(source.previous) && back.previous == null
  {
    back := slow.next;
    assert back == s[k + 1];
    slow.next := null;
    back.previous := null;
    ghost var a, b := s[..k + 1], s[k + 1..];
    forall i | 0 <= i < |b| ensures b[i].next == if i + 1 < |b| then b[i + 1] else null {
      assert b[i] == s[k + 1 + i];
    }
    forall i | 0 <= i < |b| ensures i > 0 ==> b[i].previous == b[i - 1] {
      assert b[i] == s[k + 1 + i] && (i > 0 ==> b[i - 1] == s[k + i]);
    }
  }

  method MergeSorted(left: Node?, right: Node?, cmp: Compare, ghost l: seq<Node>, ghost r: seq<Node>) returns (result: Node?)
    requires Chain(left, l) && Chain(right, r)
    requires Mirrored(l) && Mirrored(r)
    requires Distinct(l + r)
    modifies l, r
    ensures Chain(result, Merge(l, r, Order(cmp)))
    ensures Mirrored(Merge(l, r, Order(cmp)))
    ensures l != [] && r != [] ==> result != null && result.previous == null
    decreases |l| + |r|
  {
    if left == null {
      return right;
    }
    if right == null {
      return left;
    }
    ghost var l', r', m;
    if cmp(left.data, right.data) <= 0 {
      result := left;
      l', r' := l[1..], r;
    } else {
      result := right;
      l', r' := l, r[1..];
    }
    RestDistinct(l, r);
    MergeDistinct(l', r', Order(cmp));
    m := Merge(l', r', Order(cmp));
    var rest;
    if result == left {
      rest := MergeSorted(left.next, right, cmp, l[1..], r);
    } else {
      rest := MergeSorted(left, right.next, cmp, l, r[1..]);
    }
    LinkInFront(result, rest, m);
  }

  /** The end of a turn of the merge: x goes in front of the merged rest. */
  method LinkInFront(x: Node, rest: Node?, ghost m: seq<Node>)
    requires Chain(rest, m) && Mirrored(m) && Distinct(m) && x !in m
    modifies x, m
    ensures Chain(x, [x] + m) && Mirrored([x] + m) && x.previous == null
  {
    x.next := rest;
    if x.next != null {
      x.next.previous := x;
    }
    x.previous := null;
    ChainPrepend(x, rest, m);
    MirroredPrepend(x, m);
  }

  method MergeSortRecursive(head: Node?, cmp: Compare, ghost s: seq<Node>) returns (result: Node?)
    requires Chain(head, s) && Mirrored(s) && Distinct(s)
    requires head != null ==> head.previous == null
    modifies s
    ensures Chain(result, Sort(s, Order(cmp)))
    ensures Mirrored(Sort(s, Order(cmp)))
    ensures result != null ==> result.previous == null
    decreases |s|, 1
  {
    if head == null || head.next == null {
      return head;
    }
    var left, right := Split(head, s);
    result := SortHalves(left, right, cmp, s, FrontLength(|s|));
  }

  method SortHalves(front: Node, back: Node, cmp: Compare, ghost s: seq<Node>, ghost k: nat) returns (result: Node?)
    requires 0 < k < |s| && Distinct(s)
    requires Chain(front, s[..k]) && Mirrored(s[..k]) && front.previous == null
    requires Chain(back, s[k..]) && Mirrored(s[k..]) && back.previous == null
    modifies s
    ensures Chain(result, Merge(Sort(s[..k], Order(cmp)), Sort(s[k..], Order(cmp)), Order(cmp)))
    ensures Mirrored(Merge(Sort(s[..k], Order(cmp)), Sort(s[k..], Order(cmp)), Order(cmp)))
    ensures result != null && result.previous == null
    decreases |s|, 0
  {
    hide Chain, Mirrored, Distinct, Within, Sort, Merge, Order;
    ghost var l, r := Sort(s[..k], Order(cmp)), Sort(s[k..], Order(cmp));
    SortedHalvesDistinct(s, k, Order(cmp));
    ChainHead(back, s[k..]);
    assert back !in s[..k];
    var left := MergeSortRecursive(front, cmp, s[..k]);
    var right := MergeSortRecursive(back, cmp, s[k..]);
    result := MergeSorted(left, right, cmp, l, r);
  }

  // ----- the list -----

  /** The index of the first node that carries `data`, or -1. */
  ghost function IndexOf(v: seq<Data>, data: Data): (i: int)
    ensures -1 <= i < |v|
    ensures i >= 0 ==> v[i] == data && data !in v[..i]
    ensures i == -1 ==> data !in v
  {
    if v == [] then -1
    else if v[0] == data then 0
    else var i := IndexOf(v[1..], data); if i == -1 then -1 else i + 1
  }

  class List {
    var count: int
    var head: Node?
    var tail: Node?
    var cursor: Node?
    ghost var nodes: seq<Node>

    ghost predicate Valid()
      reads this, nodes
    {
      && count == |nodes|
      && NonEmptyData(nodes)
      && Chain(head, nodes) && Mirrored(nodes) && Distinct(nodes)
      && (if |nodes| == 0 then tail == null else tail == nodes[|nodes| - 1] && nodes[0].previous == null)
    }

    constructor Allocate()
      ensures Valid() && nodes == []
    {
      count, head, tail, cursor := 0, null, null, null;
      nodes := [];
    }

    /** The fields already describe t: it becomes the node sequence. */
    ghost method Adopt(t: seq<Node>)
      requires count == |t| && NonEmptyData(t)
      requires Chain(head, t) && Mirrored(t) && Distinct(t)
      requires if |t| == 0 then tail == null else tail == t[|t| - 1] && t[0].previous == null
      modifies this`nodes
      ensures Valid() && nodes == t
    {
      nodes := t;
    }

    method AddNodeToHead(ptr: Node)
      requires Valid() && ptr !in nodes && ptr.data != []
      modifies this, nodes, ptr
      ensures Valid() && nodes == [ptr] + old(nodes)
    {
      ptr.previous := null;
      ptr.next := head;
      if head != null {
        head.previous := ptr;
      }
      head := ptr;
      if tail == null {
        tail := ptr;
      }
      count := count + 1;
      ChainPrepend(ptr, ptr.next, nodes);
      MirroredPrepend(ptr, nodes);
      ElementsPrepend(ptr, nodes);
      hide Chain, Mirrored, Distinct, NonEmptyData;
      Adopt([ptr] + nodes);
    }

    method AddNodeToTail(ptr: Node)
      requires Valid() && ptr !in nodes && ptr.data != []
      modifies this, nodes, ptr
      ensures Valid() && nodes == old(nodes) + [ptr]
    {
      ptr.next := null;
      ptr.previous := tail;
      if tail != null {
        tail.next := ptr;
      }
      tail := ptr;
      if head == null {
        head := ptr;
      }
      count := count + 1;
      ChainAppend(head, nodes, ptr);
      MirroredAppend(nodes, ptr);
      ElementsAppend(nodes, ptr);
      hide Chain, Mirrored, Distinct, NonEmptyData;
      Adopt(nodes + [ptr]);
    }

    method LinkAfter(current: Node, ptr: Node, ghost p: nat)
      requires Valid() && 0 < p < |nodes| && current == nodes[p - 1] && ptr !in nodes && ptr.data != []
      modifies this, nodes, ptr
      ensures Valid() && nodes == Inserted(old(nodes), p, ptr)
    {
      assert current.next == nodes[p] && head == nodes[0];
      hide Chain, Mirrored, Distinct, NonEmptyData;
      ptr.next := current.next;
      ptr.previous := current;
      if current.next != null {
        current.next.previous := ptr;
      }
      current.next := ptr;
      count := count + 1;
      LinkedIn(nodes, p, ptr);
      Adopt(Inserted(nodes, p, ptr));
    }

    /** Positions at or below 0 mean the head, positions at or above the count the tail. */
    method Insert(data: Data, pos: int)
      requires Valid() && |nodes| < LONG_MAX
      modifies this, nodes
      ensures Valid()
      ensures data == [] ==> nodes == old(nodes)
      ensures data != [] ==>
        var p := if pos <= 0 then 0 else if pos >= |old(nodes)| then |old(nodes)| else pos;
        && |nodes| == |old(nodes)| + 1
        && nodes[..p] == old(nodes)[..p] && nodes[p + 1..] == old(nodes)[p..]
        && fresh(nodes[p]) && nodes[p].data == data
    {
      if data == [] {
        return;
      }
      var ptr := new Node(data);
      if pos <= 0 {
        AddNodeToHead(ptr);
        return;
      }
      if pos >= count {
        AddNodeToTail(ptr);
        return;
      }
      var current := head;
      for i := 0 to pos - 1
        invariant current == nodes[i]
      {
        current := current.next;
      }
      LinkAfter(current, ptr, pos);
    }

    method AddToTail(data: Data)
      requires Valid() && |nodes| < LONG_MAX
      modifies this, nodes
      ensures Valid()
      ensures data == [] ==> nodes == old(nodes)
      ensures data != [] ==>
        && |nodes| == |old(nodes)| + 1
        && nodes[..|old(nodes)|] == old(nodes)
        && fresh(nodes[|old(nodes)|]) && nodes[|old(nodes)|].data == data
    {
      Insert(data, LONG_MAX);
    }

    method RemoveNodeFromHead()
      requires Valid()
      modifies this, nodes
      ensures Valid() && nodes == if |old(nodes)| == 0 then [] else old(nodes)[1..]
    {
      if head == null {
        return;
      }
      head := head.next;
      if head != null {
        head.previous := null;
      } else {
        tail := null;
      }
      count := count - 1;
      nodes := nodes[1..];
    }

    method RemoveNodeFromTail()
      requires Valid()
      modifies this, nodes
      ensures Valid() && nodes == if |old(nodes)| == 0 then [] else old(nodes)[..|old(nodes)| - 1]
    {
      if tail == null {
        return;
      }
      tail := tail.previous;
      if tail != null {
        tail.next := null;
      } else {
        head := null;
      }
      count := count - 1;
      nodes := nodes[..|nodes| - 1];
    }

    method Unlink(ptr: Node, ghost p: nat)
      requires Valid() && 0 < p < |nodes| - 1 && nodes[p] == ptr
      modifies this, nodes
      ensures Valid() && nodes == old(nodes)[..p] + old(nodes)[p + 1..]
    {
      assert ptr.previous == nodes[p - 1] && ptr.next == nodes[p + 1] && head == nodes[0];
      hide Chain, Mirrored, Distinct, NonEmptyData;
      ptr.previous.next := ptr.next;
      ptr.next.previous := ptr.previous;
      count := count - 1;
      LinkedOut(nodes, p);
      Adopt(Links.Without(nodes, p));
    }

    /** The largest long means the last position; any other position out of range is ignored. */
    method RemoveAt(pos: int)
      requires Valid() && |nodes| < LONG_MAX
      modifies this, nodes
      ensures Valid()
      ensures var p := if pos == 0x7FFF_FFFF_FFFF_FFFF then |old(nodes)| - 1 else pos;
        nodes == if 0 <= p < |old(nodes)| then old(nodes)[..p] + old(nodes)[p + 1..] else old(nodes)
    {
      var p := pos;
      if p == LONG_MAX {
        p := count - 1;
      }
      if p < 0 || p >= count {
        return;
      }
      if p == 0 {
        RemoveNodeFromHead();
        return;
      }
      if p == count - 1 {
        RemoveNodeFromTail();
        return;
      }
      var current := head;
      for i := 0 to p
        invariant current == nodes[i]
      {
        current := current.next;
      }
      Unlink(current, p);
    }

    /** Removes the first node whose size and bytes equal those of `data`. */
    method RemoveValue(data: Data)
      requires Valid()
      modifies this, nodes
      ensures Valid()
      ensures var p := if data == [] then -1 else IndexOf(Values(old(nodes)), data);
        nodes == if p >= 0 then old(nodes)[..p] + old(nodes)[p + 1..] else old(nodes)
    {
      if data == [] {
        return;
      }
      var ptr := head;
      ghost var idx := 0;
      while ptr != null
        invariant 0 <= idx <= |nodes|
        invariant ptr == if idx < |nodes| then nodes[idx] else null
        invariant forall i :: 0 <= i < idx ==> nodes[i].data != data
        decreases |nodes| - idx
      {
        if ptr.data == data {
          assert Values(nodes)[idx] == data;
          if ptr == head {
            RemoveNodeFromHead();
            return;
          }
          if ptr == tail {
            RemoveNodeFromTail();
            return;
          }
          Unlink(ptr, idx);
          return;
        }
        ptr := ptr.next;
        idx := idx + 1;
      }
    }

    method Clear()
      requires Valid()
      modifies this, nodes
      ensures Valid() && nodes == []
    {
      ghost var all := nodes;
      while count > 0
        invariant Valid() && |nodes| <= |all| && nodes == all[..|nodes|]
        decreases count
      {
        RemoveNodeFromTail();
      }
    }

    static lemma HeadOf(list: List)
      requires list.Valid()
      ensures list.head == if |list.nodes| == 0 then null else list.nodes[0]
    {
    }

    /** Copies every element of src to the end of this list. */
    method AppendAll(src: List) returns (ghost added: seq<Node>)
      requires Valid() && src.Valid() && src != this
      requires Apart(nodes, src.nodes)
      requires |nodes| + |src.nodes| <= LONG_MAX
      modifies this, nodes
      ensures Valid() && nodes == old(nodes) + added
      ensures (forall i :: 0 <= i < |added| ==> fresh(added[i])) && Values(added) == Values(src.nodes)
    {
      hide Chain, Mirrored, Distinct, NonEmptyData;
      HeadOf(src);
      var ptr := src.head;
      ghost var idx := 0;
      added := [];
      while ptr != null
        invariant Valid() && src.Valid() && nodes == old(nodes) + added && (forall i :: 0 <= i < |added| ==> fresh(added[i]))
        invariant 0 <= idx <= |src.nodes| && |added| == idx
        invariant ptr == if idx < |src.nodes| then src.nodes[idx] else null
        invariant forall i :: 0 <= i < idx ==> added[i].data == src.nodes[i].data
        decreases |src.nodes| - idx
      {
        ghost var n;
        ptr, n := CopyNode(src, ptr, idx);
        added := added + [n];
        idx := idx + 1;
      }
    }

    method CopyNode(src: List, ptr: Node, ghost idx: nat) returns (next: Node?, ghost n: Node)
      requires Valid() && src.Valid() && src != this && |nodes| < LONG_MAX
      requires idx < |src.nodes| && ptr == src.nodes[idx]
      requires Apart(nodes, src.nodes)
      modifies this, nodes
      ensures Valid() && nodes == old(nodes) + [n] && fresh(n) && n.data == ptr.data
      ensures src.Valid() && next == if idx + 1 < |src.nodes| then src.nodes[idx + 1] else null
    {
      n := AppendOne(ptr.data);
      next := ptr.next;
    }

    method AppendOne(data: Data) returns (ghost n: Node)
      requires Valid() && |nodes| < LONG_MAX && data != []
      modifies this, nodes
      ensures Valid() && nodes == old(nodes) + [n]
      ensures fresh(n) && n.data == data
    {
      AddToTail(data);
      n := nodes[|old(nodes)|];
      assert nodes == nodes[..|old(nodes)|] + [n];
    }

    /** Sorts in place, then walks the list once to repair `previous` and `tail`. */
    method SortWith(cmp: Compare)
      requires Valid()
      modifies this, nodes
      ensures Valid() && nodes == Sort(old(nodes), Order(cmp))
    {
      if count <= 1 {
        return;
      }
      SortDistinct(nodes, Order(cmp));
      var sorted := MergeSortRecursive(head, cmp, nodes);
      RepairLinks(sorted, Sort(nodes, Order(cmp)));
    }

    method RepairLinks(sorted: Node?, ghost s: seq<Node>)
      requires |s| > 0 && count == |s| && NonEmptyData(s)
      requires Chain(sorted, s) && Mirrored(s) && Distinct(s) && s[0].previous == null
      modifies this, s
      ensures Valid() && nodes == s
    {
      head := sorted;
      nodes := s;
      var current := head;
      tail := null;
      ghost var idx := 0;
      while current != null
        invariant 0 <= idx <= |s|
        invariant current == if idx < |s| then s[idx] else null
        invariant head == sorted && nodes == s && count == |s|
        invariant Chain(sorted, s) && Mirrored(s) && s[0].previous == null
        invariant tail == if idx < |s| then null else s[|s| - 1]
        decreases |s| - idx
      {
        if current.next == null {
          tail := current;
        } else {
          current.next.previous := current;
        }
        current := current.next;
        idx := idx + 1;
      }
      cursor := null;
    }

    method SortDefault()
      requires Valid()
      modifies this, nodes
      ensures Valid() && nodes == Sort(old(nodes), Order(DefaultCompare))
    {
      SortWith(DefaultCompare);
    }

    /** A new list with copies of the elements of first, then of second; null stands for no list. */
    static method Join(first: List?, second: List?) returns (joined: List?, ghost a: seq<Node>, ghost b: seq<Node>)
      requires first != null ==> first.Valid()
      requires second != null ==> second.Valid()
      requires |Nodes(first)| + |Nodes(second)| <= LONG_MAX
      ensures joined == null <==> first == null && second == null
      ensures joined != null ==> joined.Valid() && fresh(joined) && joined.nodes == a + b
      ensures joined != null ==> (forall i :: 0 <= i < |a| ==> fresh(a[i])) && (forall i :: 0 <= i < |b| ==> fresh(b[i]))
      ensures joined != null ==> Values(a) == Values(Nodes(first)) && Values(b) == Values(Nodes(second))
    {
      if first == null && second == null {
        return null, [], [];
      }
      joined := new List.Allocate();
      a, b := joined.AppendBoth(first, second);
    }

    method AppendBoth(first: List?, second: List?) returns (ghost a: seq<Node>, ghost b: seq<Node>)
      requires Valid() && |nodes| == 0
      requires first != null ==> first.Valid() && first != this
      requires second != null ==> second.Valid() && second != this
      requires |Nodes(first)| + |Nodes(second)| <= LONG_MAX
      modifies this
      ensures Valid() && nodes == a + b
      ensures (forall i :: 0 <= i < |a| ==> fresh(a[i])) && (forall i :: 0 <= i < |b| ==> fresh(b[i]))
      ensures Values(a) == Values(Nodes(first)) && Values(b) == Values(Nodes(second))
    {
      hide Chain, Mirrored, Distinct, NonEmptyData, Values;
      a := AppendToEmpty(first, Nodes(second));
      b := AppendAny(second);
    }

    /** Copies are new nodes: they are none of the nodes t that exist already. */
    method AppendToEmpty(src: List?, ghost t: seq<Node>) returns (ghost added: seq<Node>)
      requires Valid() && |nodes| == 0 && (src != null ==> src.Valid() && src != this)
      requires |Nodes(src)| <= LONG_MAX
      modifies this
      ensures Valid() && nodes == added && (forall i :: 0 <= i < |added| ==> fresh(added[i]))
      ensures Values(added) == Values(Nodes(src)) && |added| == |Nodes(src)|
      ensures Apart(added, t)
    {
      hide Chain, Mirrored, Distinct, NonEmptyData, Values;
      added := AppendAny(src);
    }

    method AppendAny(src: List?) returns (ghost added: seq<Node>)
      requires Valid() && (src != null ==> src.Valid() && src != this)
      requires Apart(nodes, Nodes(src))
      requires |nodes| + |Nodes(src)| <= LONG_MAX
      modifies this, nodes
      ensures Valid() && nodes == old(nodes) + added
      ensures |old(nodes)| == 0 ==> nodes == added
      ensures (forall i :: 0 <= i < |added| ==> fresh(added[i])) && Values(added) == Values(Nodes(src))
    {
      added := [];
      if src != null {
        added := AppendAll(src);
      }
    }

    static ghost function Nodes(list: List?): seq<Node>
      reads list
    {
      if list == null then [] else list.nodes
    }

    /** Join, then sort. */
    static method MergeLists(first: List?, second: List?) returns (merged: List?, ghost a: seq<Node>, ghost b: seq<Node>)
      requires first != null ==> first.Valid()
      requires second != null ==> second.Valid()
      requires |Nodes(first)| + |Nodes(second)| <= LONG_MAX
      ensures merged == null <==> first == null && second == null
      ensures merged != null ==> merged.Valid() && fresh(merged)
      ensures merged != null ==> (forall i :: 0 <= i < |a| ==> fresh(a[i])) && (forall i :: 0 <= i < |b| ==> fresh(b[i]))
      ensures merged != null ==> merged.nodes == Sort(a + b, Order(DefaultCompare))
      ensures merged != null ==> Values(a) == Values(Nodes(first)) && Values(b) == Values(Nodes(second))
    {
      merged, a, b := Join(first, second);
      if merged != null {
        merged.SortDefault();
      }
    }
  }

  // ----- the default comparator -----

  const SIZEOF_INT := 4

  /** A little-endian two's complement int. */
  function ReadInt(d: Data): (n: int)
    requires |d| == SIZEOF_INT
    ensures -0x8000_0000 <= n < 0x8000_0000
  {
    var u := (d[0] as int) + 0x100 * (d[1] as int) + 0x1_0000 * (d[2] as int) + 0x100_0000 * (d[3] as int);
    if u >= 0x8000_0000 then u - 0x1_0000_0000 else u
  }

  function DefaultCompare(a: Data, b: Data): int {
    if |a| != SIZEOF_INT || |b| != SIZEOF_INT then 0
    else if ReadInt(a) < ReadInt(b) then -1
    else if ReadInt(a) > ReadInt(b) then 1
    else 0
  }

  ghost function DataOrder(cmp: Compare): (Data, Data) -> bool {
    (x: Data, y: Data) => cmp(x, y) <= 0
  }

  ghost predicate AllInts(v: seq<Data>) {
    forall i :: 0 <= i < |v| ==> |v[i]| == SIZEOF_INT
  }

  /** All elements of int size hold one and the same int. */
  ghost predicate OneIntAtMost(v: seq<Data>) {
    forall i, j :: 0 <= i < |v| && 0 <= j < |v| && |v[i]| == SIZEOF_INT && |v[j]| == SIZEOF_INT
      ==> ReadInt(v[i]) == ReadInt(v[j])
  }

  /** The default comparator orders a set of elements exactly when sizes are not mixed, or do not matter. */
  lemma DefaultCompareConsistent(v: seq<Data>)
    ensures TotalPreorder(v, DataOrder(DefaultCompare)) <==> AllInts(v) || OneIntAtMost(v)
  {
    var le := DataOrder(DefaultCompare);
    if AllInts(v) {
      forall i, j | 0 <= i < |v| && 0 <= j < |v| ensures le(v[i], v[j]) <==> ReadInt(v[i]) <= ReadInt(v[j]) {
      }
    } else if OneIntAtMost(v) {
      forall i, j | 0 <= i < |v| && 0 <= j < |v| ensures le(v[i], v[j]) {
      }
    } else {
      var k :| 0 <= k < |v| && |v[k]| != SIZEOF_INT;
      var i, j :| 0 <= i < |v| && 0 <= j < |v| && |v[i]| == SIZEOF_INT && |v[j]| == SIZEOF_INT
        && ReadInt(v[i]) < ReadInt(v[j]);
      assert le(v[j], v[k]) && le(v[k], v[i]) && !le(v[j], v[i]);
    }
  }

  /** A list with an element of another size can come out with its ints descending. */
  lemma MixedSizesAreNotSorted()
    ensures var two, one, odd := [2, 0, 0, 0], [1, 0, 0, 0], [7];
      Sort([two, odd, odd, one], DataOrder(DefaultCompare)) == [two, odd, odd, one]
  {
    var two: Data, one: Data, odd: Data := [2, 0, 0, 0], [1, 0, 0, 0], [7];
    var le := DataOrder(DefaultCompare);
    var s := [two, odd, odd, one];
    assert s[..2] == [two, odd] && s[2..] == [odd, one];
    assert DefaultCompare(two, odd) == 0 && DefaultCompare(odd, odd) == 0 && DefaultCompare(odd, one) == 0;
    assert le(two, odd) && le(odd, one) && le(odd, odd);
    MergeConcatenates([two], [odd], le);
    MergeConcatenates([odd], [one], le);
    assert [two, odd][..1] == [two] && [two, odd][1..] == [odd];
    assert [odd, one][..1] == [odd] && [odd, one][1..] == [one];
    assert Merge([odd], [odd, one], le) == [odd] + Merge([], [odd, one], le);
    assert [two, odd][1..] == [odd] && [odd][1..] == [] && [odd] + [odd, one] == [odd, odd, one];
    assert Merge([two, odd], [odd, one], le) == [two] + Merge([odd], [odd, one], le);
    assert Sort([two], le) == [two] && Sort([odd], le) == [odd] && Sort([one], le) == [one];
    assert Sort([two, odd], le) == [two, odd] && Sort([odd, one], le) == [odd, one];
    assert Sort(s, le) == Merge(Sort(s[..2], le), Sort(s[2..], le), le);
  }

  /** What the default sort does to a list of ints: the same nodes, ascending, equal ints in their old order. */
  lemma IntsSortAscending(s: seq<Node>)
    requires AllInts(Values(s))
    ensures var out := Sort(s, Order(DefaultCompare));
      && multiset(out) == multiset(s)
      && AllInts(Values(out))
      && (forall i, j :: 0 <= i < j < |out| ==> ReadInt(Values(out)[i]) <= ReadInt(Values(out)[j]))
      && StableVersion(s, out, Order(DefaultCompare))
  {
    var le := Order(DefaultCompare);
    forall i, j | 0 <= i < |s| && 0 <= j < |s| ensures le(s[i], s[j]) <==> ReadInt(Values(s)[i]) <= ReadInt(Values(s)[j]) {
    }
    SortCorrect(s, le);
    SameElements(Sort(s, le), s);
    AscendingInts(s, Sort(s, le));
  }

  lemma AscendingInts(s: seq<Node>, out: seq<Node>)
    requires AllInts(Values(s)) && Within(out, s) && Sorted(out, Order(DefaultCompare))
    ensures AllInts(Values(out))
    ensures forall i, j :: 0 <= i < j < |out| ==> ReadInt(Values(out)[i]) <= ReadInt(Values(out)[j])
  {
    forall i | 0 <= i < |out| ensures |out[i].data| == SIZEOF_INT {
      var k :| 0 <= k < |s| && s[k] == out[i];
      assert Values(s)[k] == out[i].data;
    }
    forall i, j | 0 <= i < j < |out| ensures ReadInt(out[i].data) <= ReadInt(out[j].data) {
      assert Order(DefaultCompare)(out[i], out[j]);
    }
  }

  // ----- lists of ints -----

  const INT_MIN := -0x8000_0000
  const INT_MAX := 0x7FFF_FFFF

  /** The four bytes of an int in memory: two's complement, low byte first. */
  function IntBytes(n: int): (d: Data)
    requires INT_MIN <= n <= INT_MAX
    ensures |d| == 4
  {
    var u: nat := if n < 0 then 0x1_0000_0000 + n else n;
    [u % 0x100, u / 0x100 % 0x100, u / 0x1_0000 % 0x100, u / 0x100_0000]
  }

  /** The comparator reads back every int that memory holds, and every four bytes hold one. */
  lemma ReadIntBytes(n: int)
    requires INT_MIN <= n <= INT_MAX
    ensures ReadInt(IntBytes(n)) == n
  {
    var u: nat := if n < 0 then 0x1_0000_0000 + n else n;
    assert u == u % 0x100 + 0x100 * (u / 0x100 % 0x100) + 0x1_0000 * (u / 0x1_0000 % 0x100) + 0x100_0000 * (u / 0x100_0000) by {
      Digits(u);
    }
  }

  lemma Digits(u: nat)
    ensures u == u % 0x100 + 0x100 * (u / 0x100 % 0x100) + 0x1_0000 * (u / 0x1_0000 % 0x100) + 0x100_0000 * (u / 0x100_0000)
  {
    assert u / 0x1_0000 == u / 0x100 / 0x100;
    assert u / 0x100_0000 == u / 0x1_0000 / 0x100;
  }

  lemma BytesOfReadInt(d: Data)
    requires |d| == 4
    ensures INT_MIN <= ReadInt(d) <= INT_MAX && IntBytes(ReadInt(d)) == d
  {
    var high2: nat := d[2] as int + 0x100 * d[3] as int;
    var high1: nat := d[1] as int + 0x100 * high2;
    var u: nat := d[0] as int + 0x100 * high1;
    LowDigit(u, high1, d[0]);
    LowDigit(high1, high2, d[1]);
    LowDigit(high2, d[3], d[2]);
    assert u / 0x1_0000 == u / 0x100 / 0x100 && u / 0x100_0000 == u / 0x1_0000 / 0x100;
  }

  lemma LowDigit(u: nat, high: nat, low: byte)
    requires u == low + 0x100 * high
    ensures u / 0x100 == high && u % 0x100 == low
  {
  }

  /** The sign of the default comparator on two ints in memory. */
  lemma ComparesAsInts(m: int, n: int)
    requires INT_MIN <= m <= INT_MAX && INT_MIN <= n <= INT_MAX
    ensures DefaultCompare(IntBytes(m), IntBytes(n)) < 0 <==> m < n
    ensures DefaultCompare(IntBytes(m), IntBytes(n)) > 0 <==> m > n
  {
    hide ReadInt, IntBytes;
    ReadIntBytes(m);
    ReadIntBytes(n);
  }

  /** The nodes hold these ints, one each. */
  ghost predicate HoldsInts(s: seq<Node>, ns: seq<int>) {
    |s| == |ns| && forall i :: 0 <= i < |s| ==> INT_MIN <= ns[i] <= INT_MAX && s[i].data == IntBytes(ns[i])
  }

  ghost predicate Ascending(ns: seq<int>) {
    forall i, j :: 0 <= i < j < |ns| ==> ns[i] <= ns[j]
  }

  ghost function IntsRead(s: seq<Node>): (ns: seq<int>)
    requires forall i :: 0 <= i < |s| ==> |s[i].data| == 4
    ensures |ns| == |s| && forall i :: 0 <= i < |s| ==> ns[i] == ReadInt(s[i].data)
  {
    seq(|s|, i requires 0 <= i < |s| => ReadInt(s[i].data))
  }

  lemma {:induction false} SameInts(s: seq<Node>, t: seq<Node>)
    requires multiset(s) == multiset(t)
    requires (forall i :: 0 <= i < |s| ==> |s[i].data| == 4) && (forall i :: 0 <= i < |t| ==> |t[i].data| == 4)
    ensures multiset(IntsRead(s)) == multiset(IntsRead(t))
    decreases |s|
  {
    if |s| > 0 {
      assert s[0] in multiset(t);
      var k :| 0 <= k < |t| && t[k] == s[0];
      var t' := t[..k] + t[k + 1..];
      WithoutCommon(s, t, k);
      SameInts(s[1..], t');
      TakenOut(IntsRead(t), k);
      HeadMultiset(IntsRead(s));
      assert IntsRead(t') == IntsRead(t)[..k] + IntsRead(t)[k + 1..];
      assert IntsRead(s)[1..] == IntsRead(s[1..]);
    } else {
      assert |multiset(t)| == |t|;
    }
  }

  lemma TakenOut<T>(t: seq<T>, k: nat)
    requires k < |t|
    ensures multiset(t) == multiset{t[k]} + multiset(t[..k] + t[k + 1..])
  {
    assert t == t[..k] + ([t[k]] + t[k + 1..]);
  }

  lemma WithoutCommon<T>(s: seq<T>, t: seq<T>, k: nat)
    requires multiset(s) == multiset(t) && |s| > 0 && k < |t| && t[k] == s[0]
    ensures multiset(s[1..]) == multiset(t[..k] + t[k + 1..])
  {
    var a, b := multiset(s[1..]), multiset(t[..k] + t[k + 1..]);
    TakenOut(t, k);
    HeadMultiset(s);
    assert a == (multiset{s[0]} + a) - multiset{s[0]};
    assert b == (multiset{s[0]} + b) - multiset{s[0]};
  }

  /** A list of any ints comes out as the same ints in ascending order, by their signed value. */
  lemma IntListComesOutAscending(s: seq<Node>, ns: seq<int>) returns (sorted: seq<int>)
    requires HoldsInts(s, ns)
    ensures HoldsInts(Sort(s, Order(DefaultCompare)), sorted)
    ensures Ascending(sorted) && multiset(sorted) == multiset(ns)
  {
    hide ReadInt, IntBytes, Sort, DefaultCompare;
    var out := Sort(s, Order(DefaultCompare));
    IntsSortAscending(s);
    forall i | 0 <= i < |s| ensures ReadInt(s[i].data) == ns[i] {
      ReadIntBytes(ns[i]);
    }
    assert IntsRead(s) == ns;
    forall i | 0 <= i < |out| ensures |out[i].data| == 4 {
      assert |Values(out)[i]| == 4;
    }
    sorted := IntsRead(out);
    SameInts(out, s);
    forall i | 0 <= i < |out| ensures INT_MIN <= sorted[i] <= INT_MAX && out[i].data == IntBytes(sorted[i]) {
      BytesOfReadInt(out[i].data);
    }
    forall i, j | 0 <= i < j < |sorted| ensures sorted[i] <= sorted[j] {
      assert ReadInt(Values(out)[i]) <= ReadInt(Values(out)[j]);
    }
  }

  /** A comparator that answers 0 throughout: the sort relinks every node to where it was. */
  lemma ZeroComparatorSortsNothing(s: seq<Node>, cmp: Compare)
    requires forall i, j :: 0 <= i < |s| && 0 <= j < |s| ==> cmp(s[i].data, s[j].data) == 0
    ensures Sort(s, Order(cmp)) == s
  {
    SortIdentity(s, Order(cmp));
  }

  // ----- the walk from the tail -----

  function Reversed<T>(s: seq<T>): seq<T> {
    seq(|s|, i requires 0 <= i < |s| => s[|s| - 1 - i])
  }

  /** Following `previous` from t visits exactly the nodes of s and ends. */
  ghost predicate BackwardChain(t: Node?, s: seq<Node>)
    reads s
  {
    && t == (if |s| == 0 then null else s[0])
    && forall i {:trigger s[i].previous} :: 0 <= i < |s| ==> s[i].previous == (if i + 1 < |s| then s[i + 1] else null)
  }

  lemma BackwardWalkIsReverse(list: List)
    requires list.Valid()
    ensures Chain(list.head, list.nodes) && BackwardChain(list.tail, Reversed(list.nodes))
  {
    var s, r := list.nodes, Reversed(list.nodes);
    forall i | 0 <= i < |r| ensures r[i].previous == (if i + 1 < |r| then r[i + 1] else null) {
      assert r[i] == s[|s| - 1 - i];
    }
  }
}
