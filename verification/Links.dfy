/** Singly linked chains of values, as comm/src/mqtt.c and core/src/dictionary.c keep their lists. */
module Links {

  class Link<T> {
    var value: T
    var next: Link?<T>

    constructor (value: T, next: Link?<T>)
      ensures this.value == value && this.next == next
    {
      this.value, this.next := value, next;
    }
  }

  /** Following `next` from h visits exactly the links of s, each once, and ends. */
  ghost predicate Chain<T>(h: Link?<T>, s: seq<Link<T>>)
    reads s`next
  {
    && h == (if |s| == 0 then null else s[0])
    && (forall i {:trigger s[i].next} :: 0 <= i < |s| ==> s[i].next == (if i + 1 < |s| then s[i + 1] else null))
    && (forall i, j :: 0 <= i < j < |s| ==> s[i] != s[j])
  }

  ghost function Values<T>(s: seq<Link<T>>): (v: seq<T>)
    reads s`value
    ensures |v| == |s| && forall i :: 0 <= i < |s| ==> v[i] == s[i].value
  {
    if |s| == 0 then [] else [s[0].value] + Values(s[1..])
  }

  /** The element at i taken out. */
  function Without<T>(s: seq<T>, i: nat): (r: seq<T>)
    ensures |r| == if i < |s| then |s| - 1 else |s|
    ensures forall x :: 0 <= x < |r| ==> r[x] == if x < i then s[x] else s[x + 1]
  {
    if i < |s| then s[..i] + s[i + 1..] else s
  }

  lemma LinkAt<T>(h: Link?<T>, s: seq<Link<T>>, i: nat)
    requires Chain(h, s) && i < |s|
    ensures s[i].next == if i + 1 < |s| then s[i + 1] else null
  {
  }

  lemma ValueAt<T>(s: seq<Link<T>>, i: nat)
    requires i < |s|
    ensures Values(s)[i] == s[i].value
  {
  }

  lemma ValuesLength<T>(s: seq<Link<T>>)
    ensures |Values(s)| == |s|
  {
  }

  lemma FirstLink<T>(h: Link?<T>, s: seq<Link<T>>)
    requires Chain(h, s)
    ensures h == if |s| == 0 then null else s[0]
  {
  }

  lemma ChainInFront<T>(x: Link<T>, s: seq<Link<T>>)
    requires Chain(x.next, s) && x !in s
    ensures Chain(x, [x] + s) && Values([x] + s) == [x.value] + Values(s)
  {
  }

  lemma ValuesAppended<T>(s: seq<Link<T>>, x: Link<T>)
    ensures Values(s + [x]) == Values(s) + [x.value]
  {
  }

  lemma ChainAppended<T>(h: Link<T>, s: seq<Link<T>>, x: Link<T>)
    requires h == (if |s| == 0 then x else s[0]) && x !in s && x.next == null
    requires forall i {:trigger s[i].next} :: 0 <= i < |s| ==> s[i].next == if i + 1 < |s| then s[i + 1] else x
    requires forall i, j :: 0 <= i < j < |s| ==> s[i] != s[j]
    ensures Chain(h, s + [x]) && Values(s + [x]) == Values(s) + [x.value]
  {
    ValuesAppended(s, x);
    hide Values;
  }

  /** The walk to the last link, and x behind it. */
  method AppendLast<T>(h: Link?<T>, x: Link<T>, ghost s: seq<Link<T>>) returns (head: Link<T>)
    requires Chain(h, s) && x !in s && x.next == null
    modifies s`next
    ensures Chain(head, s + [x]) && Values(s + [x]) == old(Values(s)) + [x.value]
  {
    if h == null {
      ChainAppended(x, s, x);
      return x;
    }
    var temp := h;
    ghost var i := 0;
    while temp.next != null
      invariant 0 <= i < |s| && temp == s[i] && Chain(h, s)
      decreases |s| - i
    {
      temp := temp.next;
      i := i + 1;
    }
    temp.next := x;
    head := h;
    ChainAppended(h, s, x);
  }

  /** Only the value at i has changed. */
  twostate lemma ChainWithValue<T>(s: seq<Link<T>>, new i: nat, new h: Link?<T>)
    requires i < |s| && h == s[0] && old(Chain(s[0], s))
    requires forall y :: y in s ==> y.next == old(y.next)
    requires forall y :: y in s && y != s[i] ==> y.value == old(y.value)
    ensures Chain(h, s) && Values(s) == old(Values(s))[i := s[i].value]
  {
  }

  lemma ValuesWithout<T>(s: seq<Link<T>>, i: nat)
    ensures Values(Without(s, i)) == Without(Values(s), i)
  {
  }

  lemma DistinctWithout<T>(s: seq<T>, i: nat)
    requires forall x, y :: 0 <= x < y < |s| ==> s[x] != s[y]
    ensures var t := Without(s, i); forall x, y :: 0 <= x < y < |t| ==> t[x] != t[y]
  {
  }

  lemma ChainBridged<T>(h: Link?<T>, s: seq<Link<T>>, i: nat)
    requires i < |s| && forall x, y :: 0 <= x < y < |s| ==> s[x] != s[y]
    requires forall x {:trigger s[x].next} :: 0 <= x < |s| && x != i && x + 1 != i ==>
      s[x].next == if x + 1 < |s| then s[x + 1] else null
    requires i > 0 ==> s[i - 1].next == if i + 1 < |s| then s[i + 1] else null
    requires h == if i > 0 then s[0] else if |s| > 1 then s[1] else null
    ensures Chain(h, Without(s, i))
  {
    DistinctWithout(s, i);
    var t := Without(s, i);
    forall x {:trigger t[x].next} | 0 <= x < |t| ensures t[x].next == (if x + 1 < |t| then t[x + 1] else null) {
      if x + 1 < i {
        assert s[x].next == s[x + 1];
      } else if x >= i {
        assert s[x + 1].next == if x + 2 < |s| then s[x + 2] else null;
      }
    }
  }

  /** The link at i has been bridged. */
  twostate lemma ChainWithout<T>(s: seq<Link<T>>, new i: nat, new h: Link?<T>)
    requires i < |s| && old(Chain(s[0], s))
    requires forall y :: y in s ==> y.value == old(y.value)
    requires forall y :: y in s && (i > 0 ==> y != s[i - 1]) ==> y.next == old(y.next)
    requires i > 0 ==> s[i - 1].next == old(s[i].next)
    requires h == if i > 0 then s[0] else old(s[0].next)
    ensures Chain(h, Without(s, i)) && Values(Without(s, i)) == Without(old(Values(s)), i)
  {
    hide Without;
    ChainBridged(h, s, i);
    ValuesWithout(s, i);
    assert Values(s) == old(Values(s));
  }
}
