/** The hash buckets of core/src/dictionary.c as they are linked: a chain of buckets, each with a chain of entries. */
module HashBuckets {
  import opened Links

  /** A value that the dictionary has copied, or a pointer that it only keeps. */
  datatype Value = Copied(data: string) | Reference(target: nat)

  datatype Entry = Entry(key: string, value: Value)

  /** What a bucket holds besides its link to the next one. */
  datatype Cell = Cell(hash: nat, count: nat, entries: Link?<Entry>)
  datatype Bucket = Bucket(hash: nat, count: nat, entries: seq<Entry>)

  /** The buckets and their entries, in order. */
  datatype Layout = Layout(cells: seq<Link<Cell>>, links: seq<seq<Link<Entry>>>)
  type Table = n: Layout | |n.cells| == |n.links| witness Layout([], [])

  ghost function AllLinks(n: Table): set<Link<Entry>> {
    set i, j | 0 <= i < |n.links| && 0 <= j < |n.links[i]| :: n.links[i][j]
  }

  ghost predicate Separate(links: seq<seq<Link<Entry>>>) {
    forall i, j, x, y :: 0 <= i < j < |links| && 0 <= x < |links[i]| && 0 <= y < |links[j]| ==> links[i][x] != links[j][y]
  }

  ghost predicate Linked(first: Link?<Cell>, n: Table)
    reads n.cells`next, n.cells`value, AllLinks(n)`next
  {
    && |n.links| == |n.cells| && Chain(first, n.cells) && Separate(n.links)
    && forall i :: 0 <= i < |n.cells| ==> Chain(n.cells[i].value.entries, n.links[i])
  }

  ghost function BucketAt(n: Table, i: nat): Bucket
    requires i < |n.cells| == |n.links|
    reads n.cells`value, AllLinks(n)`value
  {
    Bucket(n.cells[i].value.hash, n.cells[i].value.count, Values(n.links[i]))
  }

  ghost function FirstBuckets(n: Table, i: nat): (b: seq<Bucket>)
    requires i <= |n.cells| == |n.links|
    reads n.cells`value, AllLinks(n)`value
    ensures |b| == i && forall k :: 0 <= k < i ==> b[k] == BucketAt(n, k)
  {
    if i == 0 then [] else FirstBuckets(n, i - 1) + [BucketAt(n, i - 1)]
  }

  ghost function Buckets(n: Table): (b: seq<Bucket>)
    requires |n.links| == |n.cells|
    reads n.cells`value, AllLinks(n)`value
    ensures |b| == |n.cells| && forall i :: 0 <= i < |b| ==> b[i] == BucketAt(n, i)
  {
    FirstBuckets(n, |n.cells|)
  }

  ghost function WithCell(n: Table, c: Link<Cell>): (m: Table)
    ensures m.cells == n.cells + [c] && m.links == n.links + [[]]
  {
    Layout(n.cells + [c], n.links + [[]])
  }

  ghost function WithLink(n: Table, i: nat, x: Link<Entry>): (m: Table)
    requires i < |n.links|
    ensures m.cells == n.cells && |m.links| == |n.links| && m.links[i] == n.links[i] + [x]
    ensures forall k :: 0 <= k < |n.links| && k != i ==> m.links[k] == n.links[k]
  {
    Layout(n.cells, n.links[i := n.links[i] + [x]])
  }

  /** All links are objects of the set. */
  ghost predicate Within(n: Table, repr: set<object>) {
    (forall i :: 0 <= i < |n.cells| ==> n.cells[i] in repr) && (forall x :: x in AllLinks(n) ==> x in repr)
  }

  lemma WithinAt(n: Table, repr: set<object>, i: nat)
    requires Within(n, repr) && i < |n.cells| && i < |n.links|
    ensures n.cells[i] in repr && forall j :: 0 <= j < |n.links[i]| ==> n.links[i][j] in repr
  {
    LinksIn(n, i);
  }

  lemma WithinCells(n: Table, repr: set<object>)
    requires Within(n, repr)
    ensures forall i :: 0 <= i < |n.cells| ==> n.cells[i] in repr
  {
  }

  lemma WithinMore(n: Table, repr: set<object>, c: Link<Cell>)
    requires Within(n, repr) && Separate(n.links)
    ensures Within(WithCell(n, c), repr + {c})
  {
    NoLinksAdded(n, c);
  }

  lemma WithinLinked(n: Table, repr: set<object>, i: nat, x: Link<Entry>)
    requires Within(n, repr) && Separate(n.links) && i < |n.links| && x !in AllLinks(n)
    ensures Within(WithLink(n, i, x), repr + {x})
  {
    LinkAdded(n, i, x);
  }

  lemma NotWithin(n: Table, repr: set<object>, x: Link<Entry>)
    requires Within(n, repr) && x !in repr
    ensures x !in AllLinks(n)
  {
  }

  // ----- walks -----

  lemma CellAt(first: Link?<Cell>, n: Table, i: nat)
    requires Linked(first, n) && i < |n.cells|
    ensures n.cells[i].next == (if i + 1 < |n.cells| then n.cells[i + 1] else null)
    ensures |n.links| == |n.cells| && Chain(n.cells[i].value.entries, n.links[i])
  {
  }

  lemma FirstCell(first: Link?<Cell>, n: Table)
    requires Linked(first, n)
    ensures first == (if |n.cells| == 0 then null else n.cells[0]) && |n.links| == |n.cells|
  {
  }

  lemma LinksIn(n: Table, i: nat)
    requires i < |n.links|
    ensures forall j :: 0 <= j < |n.links[i]| ==> n.links[i][j] in AllLinks(n)
  {
  }

  lemma LinkedIsSeparate(first: Link?<Cell>, n: Table)
    requires Linked(first, n)
    ensures Separate(n.links) && |n.links| == |n.cells|
  {
  }

  lemma EntryIn(n: Table, i: nat, j: nat)
    requires i < |n.links| && j < |n.links[i]|
    ensures n.links[i][j] in AllLinks(n)
  {
  }

  lemma NotInBucket(n: Table, i: nat, x: Link<Entry>)
    requires i < |n.links| && x !in AllLinks(n)
    ensures x !in n.links[i]
  {
    forall j | 0 <= j < |n.links[i]| ensures n.links[i][j] != x {
      EntryIn(n, i, j);
    }
  }

  lemma NoLinksAdded(n: Table, c: Link<Cell>)
    requires Separate(n.links)
    ensures Separate(WithCell(n, c).links) && AllLinks(WithCell(n, c)) == AllLinks(n)
  {
    var m := WithCell(n, c);
    forall x | x in AllLinks(n) ensures x in AllLinks(m) {
      var i, j :| 0 <= i < |n.links| && 0 <= j < |n.links[i]| && n.links[i][j] == x;
      assert m.links[i][j] == x;
    }
  }

  lemma BucketsAndOne(m: Table, before: seq<Bucket>, b: Bucket)
    requires |m.links| == |m.cells| == |before| + 1 && BucketAt(m, |before|) == b
    requires forall k: nat :: k < |before| ==> BucketAt(m, k) == before[k]
    ensures Buckets(m) == before + [b]
  {
  }

  /** A new bucket behind the last one. */
  method AppendBucket(first: Link?<Cell>, hash: nat, ghost n: Table) returns (head: Link<Cell>, ghost added: Link<Cell>)
    requires Linked(first, n)
    modifies n.cells`next
    ensures fresh(added) && Linked(head, WithCell(n, added))
    ensures Buckets(WithCell(n, added)) == old(Buckets(n)) + [Bucket(hash, 0, [])]
  {
    hide Chain, Values, AllLinks;
    ghost var before := Buckets(n);
    var bucket := new Link<Cell>(Cell(hash, 0, null), null);
    added := bucket;
    ghost var m := WithCell(n, bucket);
    NoLinksAdded(n, bucket);
    head := AppendLast(first, bucket, n.cells);
    EmptyChain();
    forall k: nat | k < |n.cells| ensures Chain(m.cells[k].value.entries, m.links[k]) && BucketAt(m, k) == before[k] {
      assert before[k] == old(BucketAt(n, k));
    }
    BucketsAndOne(m, before, Bucket(hash, 0, []));
  }

  lemma EmptyChain()
    ensures var s: seq<Link<Entry>> := []; Chain(null, s) && Values(s) == []
  {
  }

  function WithEntry(b: Bucket, e: Entry): Bucket {
    b.(entries := b.entries + [e], count := b.count + 1)
  }

  lemma LinkAdded(n: Table, i: nat, x: Link<Entry>)
    requires i < |n.links| && Separate(n.links) && x !in AllLinks(n)
    ensures Separate(WithLink(n, i, x).links)
    ensures forall y :: y in AllLinks(WithLink(n, i, x)) <==> y in AllLinks(n) || y == x
  {
    var links := WithLink(n, i, x).links;
    forall y | y in AllLinks(n) || y == x ensures y in AllLinks(WithLink(n, i, x)) {
      if y == x {
        assert links[i][|n.links[i]|] == x;
      } else {
        var a, c :| 0 <= a < |n.links| && 0 <= c < |n.links[a]| && n.links[a][c] == y;
        assert links[a][c] == y;
      }
    }
    forall a, b, c, d | 0 <= a < b < |links| && 0 <= c < |links[a]| && 0 <= d < |links[b]| ensures links[a][c] != links[b][d] {
      assert c < |n.links[a]| ==> n.links[a][c] in AllLinks(n);
      assert d < |n.links[b]| ==> n.links[b][d] in AllLinks(n);
    }
  }

  /** No link of another bucket. */
  lemma InOneBucket(n: Table, i: nat, k: nat)
    requires Separate(n.links) && i < |n.links| && k < |n.links| && k != i
    ensures forall x :: x in n.links[k] ==> x !in n.links[i]
  {
  }

  lemma LinkedAgain(first: Link?<Cell>, m: Table, i: nat)
    requires |m.links| == |m.cells| && Chain(first, m.cells) && Separate(m.links)
    requires i < |m.cells| && Chain(m.cells[i].value.entries, m.links[i])
    requires forall k: nat :: k < |m.cells| && k != i ==> Chain(m.cells[k].value.entries, m.links[k])
    ensures Linked(first, m)
  {
  }

  lemma CellsDiffer(first: Link?<Cell>, cells: seq<Link<Cell>>, i: nat, k: nat)
    requires Chain(first, cells) && i < |cells| && k < |cells| && i != k
    ensures cells[i] != cells[k]
  {
  }

  lemma BucketsButOne(n: Table, before: seq<Bucket>, i: nat, b: Bucket)
    requires |n.links| == |n.cells| == |before| && i < |n.cells| && BucketAt(n, i) == b
    requires forall k: nat :: k < |n.cells| && k != i ==> BucketAt(n, k) == before[k]
    ensures Buckets(n) == before[i := b]
  {
  }

  /** The entry e has been linked into bucket i, but the bucket itself is still as before. */
  ghost predicate HalfDone(first: Link?<Cell>, m: Table, i: nat, head: Link<Entry>, before: seq<Bucket>, e: Entry)
    reads m.cells`next, m.cells`value, AllLinks(m)`next, AllLinks(m)`value
  {
    && i < |m.cells| == |m.links| == |before|
    && Chain(first, m.cells) && Separate(m.links) && Chain(head, m.links[i])
    && m.cells[i].value.hash == before[i].hash && m.cells[i].value.count == before[i].count
    && Values(m.links[i]) == before[i].entries + [e]
    && forall k: nat :: k < |m.cells| && k != i ==> Chain(m.cells[k].value.entries, m.links[k]) && BucketAt(m, k) == before[k]
  }

  /** The link of a new entry behind the last one; the other buckets keep theirs. */
  method LinkEntry(entries: Link?<Entry>, entry: Link<Entry>, ghost first: Link?<Cell>, ghost n: Table, ghost i: nat)
    returns (head: Link<Entry>)
    requires Linked(first, n) && i < |n.cells| && entries == n.cells[i].value.entries
    requires entry !in AllLinks(n) && entry.next == null
    modifies n.links[i]`next
    ensures HalfDone(first, WithLink(n, i, entry), i, head, old(Buckets(n)), entry.value)
  {
    hide Values, AllLinks, Separate;
    ghost var before := Buckets(n);
    CellAt(first, n, i);
    LinkAdded(n, i, entry);
    NotInBucket(n, i, entry);
    hide Chain;
    head := AppendLast(entries, entry, n.links[i]);
    forall k: nat | k < |n.cells| && k != i ensures Chain(n.cells[k].value.entries, n.links[k]) && BucketAt(n, k) == before[k] {
      InOneBucket(n, i, k);
      assert old(Chain(n.cells[k].value.entries, n.links[k]));
      assert forall x :: x in n.links[k] ==> x.next == old(x.next);
      assert Chain(old(n.cells[k].value.entries), n.links[k]);
    }
  }

  method SetHead(cell: Link<Cell>, head: Link<Entry>, ghost first: Link?<Cell>, ghost m: Table, ghost i: nat,
                 ghost before: seq<Bucket>, ghost e: Entry)
    requires HalfDone(first, m, i, head, before, e) && cell == m.cells[i]
    modifies cell`value
    ensures Linked(first, m) && Buckets(m) == before[i := WithEntry(before[i], e)]
  {
    hide Chain, Values, Separate;
    cell.value := cell.value.(entries := head, count := cell.value.count + 1);
    forall k: nat | k < |m.cells| && k != i ensures Chain(m.cells[k].value.entries, m.links[k]) && BucketAt(m, k) == before[k] {
      CellsDiffer(first, m.cells, i, k);
    }
    LinkedAgain(first, m, i);
    BucketsButOne(m, before, i, BucketAt(m, i));
  }

  /** A new entry behind the last one of a bucket. */
  method AppendEntry(cell: Link<Cell>, added: Link<Entry>, ghost first: Link?<Cell>, ghost n: Table, ghost i: nat)
    requires Linked(first, n) && i < |n.cells| && cell == n.cells[i]
    requires added !in AllLinks(n) && added.next == null
    modifies cell`value, n.links[i]`next
    ensures Linked(first, WithLink(n, i, added))
    ensures Buckets(WithLink(n, i, added)) == old(Buckets(n))[i := WithEntry(old(Buckets(n))[i], added.value)]
  {
    LinkedIsSeparate(first, n);
    hide Chain, AllLinks, Separate, Buckets, Linked, HalfDone;
    ghost var before := Buckets(n);
    var head := LinkEntry(cell.value.entries, added, first, n, i);
    SetHead(cell, head, first, WithLink(n, i, added), i, before, added.value);
  }

  /** A new entry, and the links and objects with it. */
  method NewEntry(cell: Link<Cell>, e: Entry, ghost first: Link?<Cell>, ghost n: Table, ghost i: nat, ghost repr: set<object>)
    returns (ghost m: Table, ghost repr': set<object>)
    requires Linked(first, n) && Within(n, repr) && i < |n.cells| && cell == n.cells[i]
    modifies cell`value, n.links[i]`next
    ensures repr <= repr' && fresh(repr' - repr) && Within(m, repr') && |m.cells| == |n.cells|
    ensures Linked(first, m) && Buckets(m) == old(Buckets(n))[i := WithEntry(old(Buckets(n))[i], e)]
  {
    LinkedIsSeparate(first, n);
    hide Linked, Buckets, Separate, Within, AllLinks;
    var entry := new Link(e, null);
    NotWithin(n, repr, entry);
    AppendEntry(cell, entry, first, n, i);
    WithinLinked(n, repr, i, entry);
    m, repr' := WithLink(n, i, entry), repr + {entry};
  }

  /** A new bucket, and the links and objects with it. */
  method NewBucket(first: Link?<Cell>, hash: nat, ghost n: Table, ghost repr: set<object>)
    returns (head: Link<Cell>, ghost m: Table, ghost repr': set<object>)
    requires Linked(first, n) && Within(n, repr)
    modifies n.cells`next
    ensures repr <= repr' && fresh(repr' - repr) && Within(m, repr') && |m.cells| == |n.cells| + 1
    ensures Linked(head, m) && Buckets(m) == old(Buckets(n)) + [Bucket(hash, 0, [])]
  {
    LinkedIsSeparate(first, n);
    hide Linked, Buckets, Separate, Within, AllLinks;
    ghost var bucket;
    head, bucket := AppendBucket(first, hash, n);
    WithinMore(n, repr, bucket);
    m, repr' := WithCell(n, bucket), repr + {bucket};
  }

  /** Another value for an entry. */
  method SetEntry(link: Link<Entry>, e: Entry, ghost first: Link?<Cell>, ghost n: Table, ghost i: nat, ghost j: nat)
    requires Linked(first, n) && i < |n.cells| && j < |n.links[i]| && link == n.links[i][j]
    modifies link`value
    ensures Linked(first, n)
    ensures var b := old(Buckets(n)); Buckets(n) == b[i := b[i].(entries := b[i].entries[j := e])]
  {
    hide Chain, Values;
    ghost var before := Buckets(n);
    ghost var s := n.links[i];
    CellAt(first, n, i);
    FirstLink(n.cells[i].value.entries, s);
    link.value := e;
    ChainWithValue(s, j, s[0]);
    forall k: nat | k < |n.cells| && k != i ensures BucketAt(n, k) == before[k] {
      assert link in n.links[i];
      InOneBucket(n, i, k);
      assert before[k] == old(BucketAt(n, k));
    }
    BucketsButOne(n, before, i, before[i].(entries := before[i].entries[j := e]));
  }
}
