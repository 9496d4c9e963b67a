/** core/src/dictionary.c: a list of hash buckets that behaves as a map, whatever the hash function does. */
module Dictionary {
  import opened CStrings
  import opened HashBuckets
  import opened KeyOrder
  import opened Links
  import opened Wrappers

  // ----- what the operations do to a map -----

  /** dictionary_set_value and dictionary_set_reference; a NULL reference is None. */
  datatype Op = SetValue(key: string, data: string) | SetReference(key: string, target: Option<nat>)

  predicate Accepted(op: Op) {
    |op.key| > 0 && (if op.SetValue? then |op.data| > 0 else op.target.Some?)
  }

  function Written(op: Op): Value
    requires Accepted(op)
  {
    if op.SetValue? then Copied(op.data) else Reference(op.target.value)
  }

  function Apply(m: map<string, Value>, op: Op): map<string, Value> {
    if Accepted(op) then m[op.key := Written(op)] else m
  }

  function Run(ops: seq<Op>): map<string, Value> {
    if |ops| == 0 then map[] else Apply(Run(ops[..|ops| - 1]), ops[|ops| - 1])
  }

  /** The i-th call is the last one that had an effect on key. */
  ghost predicate LastOn(ops: seq<Op>, key: string, i: nat) {
    && i < |ops| && Accepted(ops[i]) && ops[i].key == key
    && forall j :: i < j < |ops| ==> !(Accepted(ops[j]) && ops[j].key == key)
  }

  /** After any run a key holds what the last effective call on it wrote, and no other key is there. */
  lemma {:induction false} RunKeepsLast(ops: seq<Op>, key: string)
    ensures key in Run(ops) <==> exists i: nat :: LastOn(ops, key, i)
    ensures forall i: nat :: LastOn(ops, key, i) ==> key in Run(ops) && Run(ops)[key] == Written(ops[i])
    decreases |ops|
  {
    hide LastOn;
    if |ops| == 0 {
      NoLast(ops, key);
    }
    if |ops| > 0 {
      var n := |ops| - 1;
      RunKeepsLast(ops[..n], key);
      forall i: nat
        ensures LastOn(ops, key, i) <==>
          if Accepted(ops[n]) && ops[n].key == key then i == n else LastOn(ops[..n], key, i)
        ensures LastOn(ops[..n], key, i) ==> i < n && ops[..n][i] == ops[i]
      {
        LastOnStep(ops, key, i);
      }
      if Accepted(ops[n]) && ops[n].key == key {
        assert LastOn(ops, key, n);
      } else if i: nat :| LastOn(ops[..n], key, i) {
        assert LastOn(ops, key, i);
      }
    }
  }

  lemma NoLast(ops: seq<Op>, key: string)
    requires |ops| == 0
    ensures forall i: nat :: !LastOn(ops, key, i)
  {
  }

  lemma LastOnStep(ops: seq<Op>, key: string, i: nat)
    requires |ops| > 0
    ensures var n := |ops| - 1;
      LastOn(ops, key, i) <==> if Accepted(ops[n]) && ops[n].key == key then i == n else LastOn(ops[..n], key, i)
    ensures LastOn(ops[..|ops| - 1], key, i) ==> i < |ops| - 1 && ops[..|ops| - 1][i] == ops[i]
  {
  }

  // ----- buckets -----

  predicate InRange(bs: seq<Bucket>, i: nat, j: nat) {
    i < |bs| && j < |bs[i].entries|
  }

  function EntryAt(bs: seq<Bucket>, i: nat, j: nat): Entry
    requires InRange(bs, i, j)
  {
    bs[i].entries[j]
  }

  function TotalCount(bs: seq<Bucket>): nat {
    if |bs| == 0 then 0 else TotalCount(bs[..|bs| - 1]) + bs[|bs| - 1].count
  }

  function Keys(es: seq<Entry>): (ks: seq<string>)
    ensures |ks| == |es| && forall j :: 0 <= j < |ks| ==> ks[j] == es[j].key
  {
    seq(|es|, j requires 0 <= j < |es| => es[j].key)
  }

  function AllKeys(bs: seq<Bucket>): seq<string> {
    if |bs| == 0 then [] else AllKeys(bs[..|bs| - 1]) + Keys(bs[|bs| - 1].entries)
  }

  lemma NothingCounted(bs: seq<Bucket>)
    ensures TotalCount(bs[..0]) == 0
  {
  }

  lemma OneMoreCounted(bs: seq<Bucket>, m: nat)
    requires m < |bs|
    ensures TotalCount(bs[..m + 1]) == TotalCount(bs[..m]) + bs[m].count
  {
    assert bs[..m + 1][..m] == bs[..m];
  }

  lemma TotalCountOfUpdate(bs: seq<Bucket>, i: nat, b: Bucket)
    requires i < |bs|
    ensures TotalCount(bs[i := b]) == TotalCount(bs) - bs[i].count + b.count
  {
    var n := |bs| - 1;
    if i == n {
      assert bs[i := b][..n] == bs[..n];
    } else {
      assert bs[i := b][..n] == bs[..n][i := b];
      TotalCountOfUpdate(bs[..n], i, b);
    }
  }

  // ----- what the buckets stand for -----

  /** Every entry is the value of its key, and it is the only entry with this key. */
  ghost predicate Listed(bs: seq<Bucket>, contents: map<string, Value>, place: map<string, (nat, nat)>) {
    forall i: nat, j: nat :: InRange(bs, i, j) ==>
      var e := EntryAt(bs, i, j);
      e.key in contents && contents[e.key] == e.value && e.key in place && place[e.key] == (i, j)
  }

  /** Every key of the map has an entry. */
  ghost predicate Placed(bs: seq<Bucket>, contents: map<string, Value>, place: map<string, (nat, nat)>) {
    place.Keys == contents.Keys &&
    forall k :: k in place ==>
      InRange(bs, place[k].0, place[k].1) && EntryAt(bs, place[k].0, place[k].1).key == k
  }

  /** Every entry sits in the first bucket that has its hash. */
  ghost predicate InFirstBucket(hash: string -> nat, bs: seq<Bucket>) {
    forall i: nat, j: nat :: InRange(bs, i, j) ==>
      hash(EntryAt(bs, i, j).key) == bs[i].hash && forall m: nat :: m < i ==> bs[m].hash != bs[i].hash
  }

  /** One bucket was added for every key, and the counters say so. */
  ghost predicate Counted(bs: seq<Bucket>, contents: map<string, Value>) {
    && |bs| == |contents| == TotalCount(bs)
    && forall i :: 0 <= i < |bs| ==> bs[i].count == |bs[i].entries|
  }

  ghost predicate Represents(hash: string -> nat, bs: seq<Bucket>, contents: map<string, Value>,
                             place: map<string, (nat, nat)>)
  {
    && Listed(bs, contents, place) && Placed(bs, contents, place)
    && InFirstBucket(hash, bs) && Counted(bs, contents) && "" !in contents
  }

  // ----- a new value for an old key -----

  function Overwritten(bs: seq<Bucket>, i: nat, j: nat, e: Entry): seq<Bucket>
    requires InRange(bs, i, j)
  {
    bs[i := bs[i].(entries := bs[i].entries[j := e])]
  }

  lemma OverwrittenAt(bs: seq<Bucket>, i: nat, j: nat, e: Entry, m: nat, n: nat)
    requires InRange(bs, i, j)
    ensures var after := Overwritten(bs, i, j, e);
      && (InRange(after, m, n) <==> InRange(bs, m, n))
      && (InRange(bs, m, n) ==> EntryAt(after, m, n) == if (m, n) == (i, j) then e else EntryAt(bs, m, n))
  {
  }

  lemma OverwriteKeepsLists(bs: seq<Bucket>, contents: map<string, Value>, place: map<string, (nat, nat)>,
                            i: nat, j: nat, key: string, value: Value)
    requires Listed(bs, contents, place) && Placed(bs, contents, place)
    requires InRange(bs, i, j) && EntryAt(bs, i, j).key == key
    ensures Listed(Overwritten(bs, i, j, Entry(key, value)), contents[key := value], place)
    ensures Placed(Overwritten(bs, i, j, Entry(key, value)), contents[key := value], place)
  {
    hide InRange, EntryAt, Overwritten;
    var after := Overwritten(bs, i, j, Entry(key, value));
    forall m: nat, n: nat | InRange(after, m, n)
      ensures var e := EntryAt(after, m, n);
        e.key in contents[key := value] && contents[key := value][e.key] == e.value && e.key in place && place[e.key] == (m, n)
    {
      OverwrittenAt(bs, i, j, Entry(key, value), m, n);
    }
    forall k | k in place ensures
      InRange(after, place[k].0, place[k].1) && EntryAt(after, place[k].0, place[k].1).key == k
    {
      OverwrittenAt(bs, i, j, Entry(key, value), place[k].0, place[k].1);
    }
    assert contents[key := value].Keys == contents.Keys;
  }

  lemma OverwriteKeepsHashes(hash: string -> nat, bs: seq<Bucket>, i: nat, j: nat, key: string, value: Value)
    requires InFirstBucket(hash, bs) && InRange(bs, i, j) && EntryAt(bs, i, j).key == key
    ensures InFirstBucket(hash, Overwritten(bs, i, j, Entry(key, value)))
  {
    var after := Overwritten(bs, i, j, Entry(key, value));
    assert forall m: nat :: m < |bs| ==> after[m].hash == bs[m].hash;
    forall m: nat, n: nat | InRange(after, m, n)
      ensures hash(EntryAt(after, m, n).key) == after[m].hash && forall x: nat :: x < m ==> after[x].hash != after[m].hash
    {
      OverwrittenAt(bs, i, j, Entry(key, value), m, n);
    }
  }

  lemma OverwriteKeepsCounts(bs: seq<Bucket>, contents: map<string, Value>, i: nat, j: nat, e: Entry)
    requires Counted(bs, contents) && InRange(bs, i, j) && e.key in contents
    ensures Counted(Overwritten(bs, i, j, e), contents[e.key := e.value])
  {
    TotalCountOfUpdate(bs, i, Overwritten(bs, i, j, e)[i]);
    assert contents[e.key := e.value].Keys == contents.Keys;
    assert |contents[e.key := e.value].Keys| == |contents[e.key := e.value]|;
  }

  // ----- a new key -----

  /** Bucket i is the first with this hash, in buckets that end with a new one for it. */
  ghost predicate FirstWithHash(bs: seq<Bucket>, h: nat, i: nat) {
    i < |bs| && bs[i].hash == h && forall m: nat :: m < i ==> bs[m].hash != h
  }

  function Inserted(bs: seq<Bucket>, i: nat, h: nat, e: Entry): seq<Bucket>
    requires i <= |bs|
  {
    var more := bs + [Bucket(h, 0, [])];
    more[i := WithEntry(more[i], e)]
  }

  /** Where the new entry goes. */
  function NewPlace(bs: seq<Bucket>, i: nat): (nat, nat) {
    (i, if i < |bs| then |bs[i].entries| else 0)
  }

  lemma InsertedAt(bs: seq<Bucket>, i: nat, h: nat, e: Entry, m: nat, n: nat)
    requires i <= |bs|
    ensures var after := Inserted(bs, i, h, e);
      && (InRange(after, m, n) <==> InRange(bs, m, n) || (m, n) == NewPlace(bs, i))
      && !InRange(bs, NewPlace(bs, i).0, NewPlace(bs, i).1)
      && (InRange(after, m, n) ==>
            EntryAt(after, m, n) == if (m, n) == NewPlace(bs, i) then e else EntryAt(bs, m, n))
  {
  }

  lemma InsertKeepsLists(bs: seq<Bucket>, contents: map<string, Value>, place: map<string, (nat, nat)>,
                         i: nat, h: nat, key: string, value: Value)
    requires Listed(bs, contents, place) && Placed(bs, contents, place) && key !in contents && i <= |bs|
    ensures var after := Inserted(bs, i, h, Entry(key, value));
      && Listed(after, contents[key := value], place[key := NewPlace(bs, i)])
      && Placed(after, contents[key := value], place[key := NewPlace(bs, i)])
  {
    hide InRange, EntryAt, Inserted, NewPlace;
    var after := Inserted(bs, i, h, Entry(key, value));
    var contents' := contents[key := value];
    var place' := place[key := NewPlace(bs, i)];
    forall m: nat, n: nat | InRange(after, m, n)
      ensures var e := EntryAt(after, m, n);
        e.key in contents' && contents'[e.key] == e.value && e.key in place' && place'[e.key] == (m, n)
    {
      InsertedAt(bs, i, h, Entry(key, value), m, n);
    }
    forall k | k in place'
      ensures InRange(after, place'[k].0, place'[k].1) && EntryAt(after, place'[k].0, place'[k].1).key == k
    {
      InsertedAt(bs, i, h, Entry(key, value), place'[k].0, place'[k].1);
    }
  }

  lemma InsertKeepsHashes(hash: string -> nat, bs: seq<Bucket>, i: nat, key: string, value: Value)
    requires InFirstBucket(hash, bs) && FirstWithHash(bs + [Bucket(hash(key), 0, [])], hash(key), i)
    ensures InFirstBucket(hash, Inserted(bs, i, hash(key), Entry(key, value)))
  {
    var more := bs + [Bucket(hash(key), 0, [])];
    var after := Inserted(bs, i, hash(key), Entry(key, value));
    assert forall m: nat :: m < |after| ==> after[m].hash == more[m].hash;
    forall m: nat, n: nat | InRange(after, m, n)
      ensures hash(EntryAt(after, m, n).key) == after[m].hash && forall x: nat :: x < m ==> after[x].hash != after[m].hash
    {
      InsertedAt(bs, i, hash(key), Entry(key, value), m, n);
      if (m, n) != NewPlace(bs, i) {
        assert forall x: nat :: x < m ==> bs[x].hash != bs[m].hash;
      }
    }
  }

  lemma InsertKeepsCounts(bs: seq<Bucket>, contents: map<string, Value>, i: nat, h: nat, e: Entry)
    requires Counted(bs, contents) && i <= |bs| && e.key !in contents
    ensures Counted(Inserted(bs, i, h, e), contents[e.key := e.value])
  {
    var more := bs + [Bucket(h, 0, [])];
    assert more[..|bs|] == bs;
    TotalCountOfUpdate(more, i, WithEntry(more[i], e));
  }

  // ----- the order of the keys -----

  /** The first bucket of every hash has an entry. */
  ghost predicate HashesUsed(bs: seq<Bucket>) {
    forall i: nat :: i < |bs| && (forall m: nat :: m < i ==> bs[m].hash != bs[i].hash) ==> |bs[i].entries| > 0
  }

  lemma InsertKeepsUse(bs: seq<Bucket>, i: nat, h: nat, e: Entry)
    requires HashesUsed(bs) && FirstWithHash(bs + [Bucket(h, 0, [])], h, i)
    ensures HashesUsed(Inserted(bs, i, h, e))
  {
    var after := Inserted(bs, i, h, e);
    forall x: nat | x < |after| && (forall m: nat :: m < x ==> after[m].hash != after[x].hash)
      ensures |after[x].entries| > 0
    {
      assert forall m: nat :: m < |bs| ==> after[m].hash == bs[m].hash;
      if x == |bs| && i < x {
        assert after[i].hash == h == after[x].hash;
      }
    }
  }

  lemma OverwriteKeepsUse(bs: seq<Bucket>, i: nat, j: nat, e: Entry)
    requires HashesUsed(bs) && InRange(bs, i, j)
    ensures HashesUsed(Overwritten(bs, i, j, e))
  {
    var after := Overwritten(bs, i, j, e);
    assert forall m: nat :: m < |bs| ==> after[m].hash == bs[m].hash && |after[m].entries| == |bs[m].entries|;
  }

  lemma {:induction false} OverwriteKeepsKeys(bs: seq<Bucket>, i: nat, j: nat, e: Entry)
    requires InRange(bs, i, j) && EntryAt(bs, i, j).key == e.key
    ensures AllKeys(Overwritten(bs, i, j, e)) == AllKeys(bs)
    decreases |bs|
  {
    var n, after := |bs| - 1, Overwritten(bs, i, j, e);
    assert Keys(after[n].entries) == Keys(bs[n].entries);
    if i == n {
      assert after[..n] == bs[..n];
    } else {
      assert after[..n] == Overwritten(bs[..n], i, j, e);
      OverwriteKeepsKeys(bs[..n], i, j, e);
    }
  }

  /** No key with hash h comes from the buckets a..m. */
  lemma {:induction false} NoKeyFrom(hash: Hash, bs: seq<Bucket>, a: nat, m: nat, h: nat)
    requires a <= m <= |bs|
    requires forall b: nat, n: nat :: a <= b < m && InRange(bs, b, n) ==> hash(EntryAt(bs, b, n).key) != h
    ensures AllKeys(bs[..a]) <= AllKeys(bs[..m])
    ensures forall x :: |AllKeys(bs[..a])| <= x < |AllKeys(bs[..m])| ==> hash(AllKeys(bs[..m])[x]) != h
    decreases m
  {
    if a < m {
      NoKeyFrom(hash, bs, a, m - 1, h);
      AllKeysStep(bs, m - 1);
      hide AllKeys;
      var before, here := AllKeys(bs[..m - 1]), Keys(bs[m - 1].entries);
      forall n: nat | n < |here| ensures hash(here[n]) != h {
        assert InRange(bs, m - 1, n) && here[n] == EntryAt(bs, m - 1, n).key;
      }
    }
  }

  predicate PutIn(before: seq<string>, after: seq<string>, at: nat, key: string) {
    at <= |before| && after == before[..at] + [key] + before[at..]
  }

  lemma PutAtEnd(before: seq<string>, key: string)
    ensures PutIn(before, before + [key], |before|, key)
  {
  }

  lemma PutInFront(before: seq<string>, after: seq<string>, at: nat, key: string, more: seq<string>)
    requires PutIn(before, after, at, key)
    ensures PutIn(before + more, after + more, at, key)
  {
    assert (before + more)[..at] == before[..at] && (before + more)[at..] == before[at..] + more;
  }

  /** The new key stands behind the keys up to the bucket that got it. */
  lemma {:induction false} InsertedKeys(more: seq<Bucket>, i: nat, e: Entry, m: nat)
    requires i < m <= |more|
    ensures PutIn(AllKeys(more[..m]), AllKeys(more[i := WithEntry(more[i], e)][..m]), |AllKeys(more[..i + 1])|, e.key)
    decreases m
  {
    hide AllKeys, Keys, PutIn;
    var after := more[i := WithEntry(more[i], e)];
    AllKeysStep(more, m - 1);
    AllKeysStep(after, m - 1);
    if m == i + 1 {
      assert after[..i] == more[..i];
      assert Keys(after[i].entries) == Keys(more[i].entries) + [e.key];
      assert AllKeys(after[..m]) == AllKeys(more[..m]) + [e.key];
      PutAtEnd(AllKeys(more[..m]), e.key);
    } else {
      InsertedKeys(more, i, e, m - 1);
      assert after[m - 1] == more[m - 1];
      PutInFront(AllKeys(more[..m - 1]), AllKeys(after[..m - 1]), |AllKeys(more[..i + 1])|, e.key, Keys(more[m - 1].entries));
    }
  }

  lemma NoKeyBefore(hash: Hash, bs: seq<Bucket>, h: nat, i: nat)
    requires InFirstBucket(hash, bs) && FirstWithHash(bs + [Bucket(h, 0, [])], h, i)
    ensures forall b: nat, n: nat :: b != i && InRange(bs, b, n) ==> hash(EntryAt(bs, b, n).key) != h
  {
    var more := bs + [Bucket(h, 0, [])];
    forall b: nat, n: nat | b != i && InRange(bs, b, n) ensures hash(EntryAt(bs, b, n).key) != h {
      if b > i {
        assert more[i].hash == h && bs[i].hash != bs[b].hash;
      } else {
        assert more[b].hash != h;
      }
    }
  }

  lemma WholeIsPrefix(bs: seq<Bucket>)
    ensures bs[..|bs|] == bs
  {
  }

  lemma AllKeysWithEmpty(bs: seq<Bucket>, h: nat)
    ensures AllKeys(bs + [Bucket(h, 0, [])]) == AllKeys(bs)
  {
    assert (bs + [Bucket(h, 0, [])])[..|bs|] == bs;
  }

  /** The key order after an insertion, for any hash function. */
  lemma InsertAddsKey(hash: Hash, bs: seq<Bucket>, i: nat, key: string, value: Value)
    requires InFirstBucket(hash, bs) && HashesUsed(bs) && key !in AllKeys(bs)
    requires FirstWithHash(bs + [Bucket(hash(key), 0, [])], hash(key), i)
    ensures AllKeys(Inserted(bs, i, hash(key), Entry(key, value))) == KeyAdded(hash, AllKeys(bs), key)
  {
    var h := hash(key);
    var more := bs + [Bucket(h, 0, [])];
    var at := |AllKeys(more[..i + 1])|;
    AllKeysWithEmpty(bs, h);
    InsertedKeys(more, i, Entry(key, value), |more|);
    WholeIsPrefix(more);
    WholeIsPrefix(Inserted(bs, i, h, Entry(key, value)));
    PlaceOfKey(hash, bs, i, key);
  }

  lemma PlaceOfKey(hash: Hash, bs: seq<Bucket>, i: nat, key: string)
    requires InFirstBucket(hash, bs) && HashesUsed(bs)
    requires FirstWithHash(bs + [Bucket(hash(key), 0, [])], hash(key), i)
    ensures Place(hash, AllKeys(bs), key) == |AllKeys((bs + [Bucket(hash(key), 0, [])])[..i + 1])|
  {
    var h := hash(key);
    var more := bs + [Bucket(h, 0, [])];
    NoKeyBefore(hash, bs, h, i);
    AllKeysWithEmpty(bs, h);
    WholeIsPrefix(bs);
    WholeIsPrefix(more);
    if i == |bs| {
      NoKeyFrom(hash, bs, 0, |bs|, h);
      NoKeysYet(bs);
    } else {
      NoKeyFrom(hash, bs, i + 1, |bs|, h);
      assert more[..i + 1] == bs[..i + 1];
      LastKeyOfBucket(hash, bs, i);
    }
  }

  lemma LastKeyOfBucket(hash: Hash, bs: seq<Bucket>, i: nat)
    requires InFirstBucket(hash, bs) && i < |bs| && |bs[i].entries| > 0
    ensures var ks := AllKeys(bs[..i + 1]); |ks| > 0 && hash(ks[|ks| - 1]) == bs[i].hash
  {
    var n := |bs[i].entries| - 1;
    AllKeysStep(bs, i);
    assert InRange(bs, i, n) && Keys(bs[i].entries)[n] == EntryAt(bs, i, n).key;
  }

  /** All that an insertion keeps, and the key order after it. */
  lemma InsertKeepsAll(hash: Hash, bs: seq<Bucket>, contents: map<string, Value>, place: map<string, (nat, nat)>,
                       i: nat, key: string, value: Value)
    requires Represents(hash, bs, contents, place) && HashesUsed(bs)
    requires FirstWithHash(bs + [Bucket(hash(key), 0, [])], hash(key), i)
    requires key !in contents && key !in AllKeys(bs) && |key| > 0
    ensures var more := bs + [Bucket(hash(key), 0, [])]; i < |more|
    ensures var more := bs + [Bucket(hash(key), 0, [])]; var after := more[i := WithEntry(more[i], Entry(key, value))];
      && Represents(hash, after, contents[key := value], place[key := NewPlace(bs, i)]) && HashesUsed(after)
      && AllKeys(after) == KeyAdded(hash, AllKeys(bs), key)
      && |after| == |bs| + 1
  {
    hide Listed, Placed, InFirstBucket, Counted, HashesUsed, AllKeys, KeyAdded, NewPlace;
    InsertKeepsLists(bs, contents, place, i, hash(key), key, value);
    InsertKeepsHashes(hash, bs, i, key, value);
    InsertKeepsCounts(bs, contents, i, hash(key), Entry(key, value));
    InsertKeepsUse(bs, i, hash(key), Entry(key, value));
    InsertAddsKey(hash, bs, i, key, value);
  }

  // ----- looking a key up -----

  /** The first entry with this key, or the length. */
  function FindKey(es: seq<Entry>, key: string): (j: nat)
    ensures j <= |es| && (j < |es| ==> es[j].key == key)
    ensures forall n :: 0 <= n < j ==> es[n].key != key
  {
    if |es| == 0 then 0 else if es[0].key == key then 0 else 1 + FindKey(es[1..], key)
  }

  lemma FindKeyIs(es: seq<Entry>, key: string, j: nat)
    requires j <= |es| && (j < |es| ==> es[j].key == key) && forall n :: 0 <= n < j ==> es[n].key != key
    ensures FindKey(es, key) == j
  {
  }

  /** The key is in none of the first i buckets. */
  ghost predicate NotIn(bs: seq<Bucket>, key: string, i: nat) {
    forall m: nat, n: nat :: m < i && InRange(bs, m, n) ==> EntryAt(bs, m, n).key != key
  }

  lemma NotInNone(bs: seq<Bucket>, key: string)
    ensures NotIn(bs, key, 0)
  {
  }

  lemma SearchedBucket(bs: seq<Bucket>, key: string, i: nat)
    requires NotIn(bs, key, i) && i < |bs|
    ensures var j := FindKey(bs[i].entries, key);
      if j < |bs[i].entries| then InRange(bs, i, j) && EntryAt(bs, i, j) == bs[i].entries[j] && bs[i].entries[j].key == key
      else NotIn(bs, key, i + 1)
  {
  }

  lemma FoundIn(hash: Hash, bs: seq<Bucket>, contents: map<string, Value>, place: map<string, (nat, nat)>, i: nat, j: nat)
    requires Represents(hash, bs, contents, place) && InRange(bs, i, j)
    ensures EntryAt(bs, i, j).key in contents
  {
  }

  lemma NotAnywhere(hash: Hash, bs: seq<Bucket>, contents: map<string, Value>, place: map<string, (nat, nat)>, key: string)
    requires Represents(hash, bs, contents, place) && NotIn(bs, key, |bs|)
    ensures key !in contents
  {
    assert key in place ==> InRange(bs, place[key].0, place[key].1);
  }

  /** All that an overwrite keeps. */
  lemma OverwriteKeepsAll(hash: Hash, bs: seq<Bucket>, contents: map<string, Value>, place: map<string, (nat, nat)>,
                          i: nat, j: nat, e: Entry)
    requires Represents(hash, bs, contents, place) && HashesUsed(bs)
    requires InRange(bs, i, j) && EntryAt(bs, i, j).key == e.key
    ensures var after := bs[i := bs[i].(entries := bs[i].entries[j := e])];
      Represents(hash, after, contents[e.key := e.value], place) && HashesUsed(after) && AllKeys(after) == AllKeys(bs)
  {
    assert e.key in contents;
    hide Listed, Placed, InFirstBucket, Counted, HashesUsed, AllKeys;
    OverwriteKeepsLists(bs, contents, place, i, j, e.key, e.value);
    OverwriteKeepsHashes(hash, bs, i, j, e.key, e.value);
    OverwriteKeepsCounts(bs, contents, i, j, e);
    OverwriteKeepsUse(bs, i, j, e);
    OverwriteKeepsKeys(bs, i, j, e);
  }

  lemma ListedAreContents(hash: Hash, bs: seq<Bucket>, contents: map<string, Value>, place: map<string, (nat, nat)>)
    requires Represents(hash, bs, contents, place)
    ensures |AllKeys(bs)| == TotalCount(bs) == |contents|
    ensures forall k :: k in contents <==> k in AllKeys(bs)
    ensures forall x, y :: 0 <= x < y < |AllKeys(bs)| ==> AllKeys(bs)[x] != AllKeys(bs)[y]
  {
    hide Listed, AllKeys, TotalCount, InFirstBucket;
    AllKeysLength(bs);
    AllKeysIff(bs, contents, place, |bs|);
    assert bs[..|bs|] == bs;
    forall k ensures k in contents <==> k in AllKeys(bs) {
      assert k in place ==> InRange(bs, place[k].0, place[k].1);
    }
  }

  class Dictionary {
    const hash: string -> nat
    var hashCount: nat
    var first: Link?<Cell>

    /** The linked buckets and entries, and all objects that belong to the dictionary. */
    ghost var nodes: Table
    ghost var Repr: set<object>

    /** The map that the buckets stand for, and the place of each key. */
    ghost var contents: map<string, Value>
    ghost var place: map<string, (nat, nat)>

    /** The buckets are linked, and all of them is in Repr. */
    ghost predicate Shape()
      reads this, Repr
    {
      && this in Repr && Within(nodes, Repr)
      && Linked(first, nodes) && hashCount == |nodes.cells|
    }

    /** The buckets with their entries. */
    ghost function Listing(): seq<Bucket>
      reads this, Repr
    {
      if Within(nodes, Repr) then Buckets(nodes) else []
    }

    ghost predicate Valid()
      reads this, Repr
    {
      Shape() && Represents(hash, Listing(), contents, place) && HashesUsed(Listing())
    }

    /** The keys as they are listed. */
    ghost function Order(): seq<string>
      reads this, Repr
    {
      AllKeys(Listing())
    }

    constructor (hash: string -> nat)
      ensures Valid() && fresh(Repr) && contents == map[] && Order() == [] && this.hash == hash
    {
      this.hash := hash;
      hashCount, first, contents, place := 0, null, map[], map[];
      nodes := Layout([], []);
      Repr := {this};
    }

    /** kv is the entry at j of bucket i. */
    ghost predicate LinkOf(kv: Link<Entry>, i: nat, j: nat)
      reads this, Repr
    {
      && i < |nodes.cells| && j < |nodes.links[i]| && kv in Repr && kv == nodes.links[i][j]
      && InRange(Listing(), i, j) && EntryAt(Listing(), i, j) == kv.value
    }

    /** The two nested loops of every look-up. */
    method Search(key: string) returns (kv: Link?<Entry>, ghost i: nat, ghost j: nat)
      requires Valid()
      ensures kv != null <==> key in contents
      ensures kv != null ==> LinkOf(kv, i, j) && kv.value.key == key && kv in Repr
    {
      hide Chain, Represents, HashesUsed, Values, NotIn, InRange, EntryAt, AllLinks, Separate, Within;
      ghost var bs := Listing();
      var bucket := first;
      kv, i, j := null, 0, 0;
      FirstCell(first, nodes);
      NotInNone(bs, key);
      while bucket != null
        invariant i <= |bs| && bucket == if i < |bs| then nodes.cells[i] else null
        invariant kv == null && NotIn(bs, key, i)
        decreases |bs| - i
      {
        CellAt(first, nodes, i);
        kv, j := SearchBucket(bucket.value.entries, key, nodes.links[i]);
        SearchedBucket(bs, key, i);
        if kv != null {
          FoundIn(hash, bs, contents, place, i, j);
          WithinAt(nodes, Repr, i);
          return;
        }
        bucket := bucket.next;
        i := i + 1;
      }
      NotAnywhere(hash, bs, contents, place, key);
    }

    /** The inner loop: the entries of one bucket. */
    static method SearchBucket(entries: Link?<Entry>, key: string, ghost s: seq<Link<Entry>>) returns (kv: Link?<Entry>, ghost j: nat)
      requires Chain(entries, s)
      ensures j == FindKey(Values(s), key) && kv == if j < |s| then s[j] else null
    {
      hide Chain, Values, FindKey;
      kv, j := entries, 0;
      ghost var es := Values(s);
      FirstLink(entries, s);
      while kv != null
        invariant j <= |es| == |s| && kv == if j < |s| then s[j] else null
        invariant forall n :: 0 <= n < j ==> es[n].key != key
        decreases |s| - j
      {
        LinkAt(entries, s, j);
        ValueAt(s, j);
        if kv.value.key == key {
          FindKeyIs(es, key, j);
          return;
        }
        kv := kv.next;
        j := j + 1;
      }
      FindKeyIs(es, key, j);
    }

    method GetValue(key: string) returns (value: Option<Value>)
      requires Valid()
      ensures value == if key in contents then Some(contents[key]) else None
    {
      hide Valid, Shape, LinkOf;
      if |key| == 0 {
        EmptyKey();
        return None;
      }
      var kv, i, j := Search(key);
      if kv == null {
        return None;
      }
      ValueOfEntry(kv, i, j);
      return Some(kv.value.value);
    }

    lemma EmptyKey()
      requires Valid()
      ensures "" !in contents
    {
    }

    lemma ValueOfEntry(kv: Link<Entry>, i: nat, j: nat)
      requires Valid() && LinkOf(kv, i, j)
      ensures kv.value.key in contents && contents[kv.value.key] == kv.value.value
    {
    }

    lemma ListingIs()
      requires Shape()
      ensures Listing() == Buckets(nodes)
    {
      hide Linked, Buckets, Within;
    }

    /** The links are those of m now, and the objects those of repr. */
    ghost method Adopt(m: Table, repr: set<object>)
      requires this in repr && Within(m, repr) && Linked(first, m) && hashCount == |m.cells|
      modifies `nodes, `Repr
      ensures Shape() && Repr == repr && Listing() == old(Buckets(m))
    {
      hide Linked, Buckets, Within;
      nodes, Repr := m, repr;
    }

    /** A new bucket behind the last one. */
    method AddHashBucket(key: string)
      requires Shape()
      modifies Repr
      ensures Shape() && fresh(Repr - old(Repr))
      ensures Listing() == old(Listing()) + [Bucket(hash(key), 0, [])]
      ensures contents == old(contents) && place == old(place)
    {
      hide Linked, Buckets, Within, AllLinks, Listing;
      ListingIs();
      WithinCells(nodes, Repr);
      var head;
      ghost var m, repr;
      head, m, repr := NewBucket(first, hash(key), nodes, Repr);
      CountBucket(head, m, repr);
    }

    method CountBucket(head: Link<Cell>, ghost m: Table, ghost repr: set<object>)
      requires this in repr && Within(m, repr) && Linked(head, m) && hashCount + 1 == |m.cells|
      modifies `first, `hashCount, `nodes, `Repr
      ensures Shape() && Repr == repr && Listing() == old(Buckets(m))
    {
      hide Linked, Buckets, Within, AllLinks;
      first := head;
      hashCount := hashCount + 1;
      Adopt(m, repr);
    }

    /** Puts a new entry at the end of the first bucket with its hash. */
    method AddEntry(key: string, value: Value) returns (ghost i: nat)
      requires Shape() && exists m: nat :: m < |Listing()| && Listing()[m].hash == hash(key)
      modifies Repr
      ensures Shape() && fresh(Repr - old(Repr))
      ensures FirstWithHash(old(Listing()), hash(key), i)
      ensures Listing() == old(Listing())[i := WithEntry(old(Listing())[i], Entry(key, value))]
      ensures contents == old(contents) && place == old(place)
    {
      hide Shape, Listing, FirstWithHash;
      var bucket;
      bucket, i := FindBucket(hash(key));
      AddToBucket(bucket, Entry(key, value), i);
    }

    method AddToBucket(bucket: Link<Cell>, e: Entry, ghost i: nat)
      requires Shape() && i < |nodes.cells| && bucket == nodes.cells[i]
      modifies Repr
      ensures Shape() && fresh(Repr - old(Repr))
      ensures Listing() == old(Listing())[i := WithEntry(old(Listing())[i], e)]
      ensures contents == old(contents) && place == old(place)
    {
      hide Linked, Buckets, Within, AllLinks, Listing;
      ListingIs();
      WithinAt(nodes, Repr, i);
      ghost var m, repr := NewEntry(bucket, e, first, nodes, i, Repr);
      Adopt(m, repr);
    }

    method FindBucket(h: nat) returns (bucket: Link<Cell>, ghost i: nat)
      requires Shape() && exists m: nat :: m < |Listing()| && Listing()[m].hash == h
      ensures FirstWithHash(Listing(), h, i) && i < |nodes.cells| && bucket == nodes.cells[i]
    {
      ghost var bs := Listing();
      FirstCell(first, nodes);
      hide Chain, Values, Separate, AllLinks;
      bucket, i := first, 0;
      while bucket.value.hash != h
        invariant i < |bs| && bucket == nodes.cells[i]
        invariant forall m: nat :: m < i ==> bs[m].hash != h
        decreases |bs| - i
      {
        CellAt(first, nodes, i);
        bucket := bucket.next;
        i := i + 1;
      }
    }

    /** The value of an entry that is there. */
    method Overwrite(kv: Link<Entry>, value: Value, ghost i: nat, ghost j: nat)
      requires Valid() && LinkOf(kv, i, j)
      modifies kv`value, `contents
      ensures Valid() && contents == old(contents)[old(kv.value.key) := value] && Order() == old(Order())
    {
      hide Listed, Placed, InFirstBucket, Counted, HashesUsed, AllKeys, Linked, Within, AllLinks, Buckets;
      var e := Entry(kv.value.key, value);
      OverwriteKeepsAll(hash, Listing(), contents, place, i, j, e);
      SetEntry(kv, e, first, nodes, i, j);
      contents := contents[e.key := value];
    }

    /** A key that is not there: a new bucket, and a new entry in the first bucket with the hash. */
    method Insert(key: string, value: Value)
      requires Valid() && key !in contents && |key| > 0
      modifies Repr
      ensures Valid() && fresh(Repr - old(Repr))
      ensures contents == old(contents)[key := value] && Order() == KeyAdded(hash, old(Order()), key)
    {
      hide Represents, HashesUsed, AllKeys, KeyAdded, NewPlace, FirstWithHash, Inserted, WithEntry, Shape, Listing;
      KeyIsListed(key);
      ghost var bs := Listing();
      AddHashBucket(key);
      assert Listing()[|bs|].hash == hash(key);
      ghost var i := AddEntry(key, value);
      InsertKeepsAll(hash, bs, contents, place, i, key, value);
      Record(contents[key := value], place[key := NewPlace(bs, i)]);
    }

    ghost method Record(c: map<string, Value>, p: map<string, (nat, nat)>)
      requires Shape()
      modifies `contents, `place
      ensures Shape() && Listing() == old(Listing()) && contents == c && place == p
    {
      hide Linked, Buckets, Within;
      contents, place := c, p;
    }

    method Set(key: string, value: Value)
      requires Valid() && |key| > 0
      modifies Repr
      ensures Valid() && fresh(Repr - old(Repr))
      ensures contents == old(contents)[key := value] && Order() == KeyAdded(hash, old(Order()), key)
    {
      hide Valid, Shape, Order, Place, LinkOf;
      KeyIsListed(key);
      var kv, i, j := Search(key);
      if kv != null {
        Overwrite(kv, value, i, j);
      } else {
        Insert(key, value);
      }
    }

    method SetValue(key: string, data: string)
      requires Valid()
      modifies Repr
      ensures Valid() && fresh(Repr - old(Repr)) && contents == Apply(old(contents), Op.SetValue(key, data))
      ensures Order() == if |key| == 0 || |data| == 0 then old(Order()) else KeyAdded(hash, old(Order()), key)
    {
      hide Valid, Order, KeyAdded;
      if |key| == 0 || |data| == 0 {
        return;
      }
      Set(key, Copied(data));
    }

    method SetReference(key: string, target: Option<nat>)
      requires Valid()
      modifies Repr
      ensures Valid() && fresh(Repr - old(Repr)) && contents == Apply(old(contents), Op.SetReference(key, target))
      ensures Order() == if |key| == 0 || target == None then old(Order()) else KeyAdded(hash, old(Order()), key)
    {
      hide Valid, Order, KeyAdded;
      if |key| == 0 || target == None {
        return;
      }
      Set(key, Reference(target.value));
    }

    /** An array of the keys, bucket by bucket, with a terminator behind them. */
    method GetAllKeys() returns (keys: array<Option<string>>)
      requires Valid()
      ensures fresh(keys) && keys.Length == |contents| + 1 && keys[|contents|] == None
      ensures ListsOnce(keys[..|contents|], contents.Keys)
      ensures |Order()| == |contents| && forall x :: 0 <= x < |contents| ==> keys[x] == Some(Order()[x])
    {
      hide AllKeys, Valid, Shape, Listing, ListsOnce, Filled;
      KeysAreContents();
      ghost var bs := Listing();
      var total := CountKeys();
      keys := new Option<string>[total + 1](_ => None);
      NothingFilled(keys);
      var index := FillKeys(keys);
      FilledUpTo(keys, AllKeys(bs), index);
      FilledMeans(keys, AllKeys(bs), index, contents.Keys);
    }

    /** The keys of all buckets, from the first place on. */
    method FillKeys(keys: array<Option<string>>) returns (index: nat)
      requires Valid() && keys !in Repr && keys.Length == |AllKeys(Listing())| + 1 && Filled(keys, [], 0)
      modifies keys
      ensures Filled(keys, AllKeys(Listing()), index)
    {
      hide AllKeys, Keys, Chain, Represents, HashesUsed, Within, Values, Separate, Filled;
      ghost var bs := Listing();
      NoKeysYet(bs);
      index := 0;
      var bucket := first;
      ghost var m := 0;
      FirstCell(first, nodes);
      while bucket != null
        invariant m <= |bs| && bucket == if m < |bs| then nodes.cells[m] else null
        invariant Valid() && Listing() == bs
        invariant Filled(keys, AllKeys(bs[..m]), index)
        decreases |bs| - m
      {
        AllKeysPrefix(bs, m);
        CellAt(first, nodes, m);
        FilledUpTo(keys, AllKeys(bs[..m]), index);
        index := CopyKeys(bucket.value.entries, keys, index, AllKeys(bs[..m]), nodes.links[m]);
        bucket := bucket.next;
        m := m + 1;
      }
      assert bs[..|bs|] == bs;
    }

    method CountKeys() returns (total: nat)
      requires Valid()
      ensures total == TotalCount(Listing())
    {
      hide Chain, Within, Values, Separate, AllLinks, Represents, HashesUsed, TotalCount;
      total := 0;
      ghost var bs := Listing();
      NothingCounted(bs);
      var bucket := first;
      ghost var m := 0;
      FirstCell(first, nodes);
      while bucket != null
        invariant m <= |bs| && bucket == if m < |bs| then nodes.cells[m] else null
        invariant total == TotalCount(bs[..m])
        decreases |bs| - m
      {
        CellAt(first, nodes, m);
        total := total + bucket.value.count;
        OneMoreCounted(bs, m);
        bucket := bucket.next;
        m := m + 1;
      }
      assert bs[..|bs|] == bs;
    }

    /** The inner loop: the keys of one bucket, from index on. */
    static method CopyKeys(entries: Link?<Entry>, keys: array<Option<string>>, index: nat, ghost done: seq<string>,
                           ghost s: seq<Link<Entry>>)
      returns (next: nat)
      requires Chain(entries, s) && Filled(keys, done, index) && index + |s| < keys.Length
      modifies keys
      ensures Filled(keys, done + Keys(Values(s)), next)
    {
      hide Chain, Values;
      next := index;
      var kv := entries;
      ghost var n, es := 0, Values(s);
      FirstLink(entries, s);
      while kv != null
        invariant n <= |es| == |s| && next == index + n && kv == if n < |s| then s[n] else null
        invariant Chain(entries, s) && Values(s) == es
        invariant Filled(keys, done + Keys(es)[..n], next)
        decreases |s| - n
      {
        LinkAt(entries, s, n);
        ValueAt(s, n);
        keys[next] := Some(kv.value.key);
        next := next + 1;
        kv := kv.next;
        n := n + 1;
      }
    }

    lemma KeyIsListed(key: string)
      requires Valid()
      ensures this in Repr && (key in contents <==> key in Order())
    {
      hide Represents, HashesUsed, Order, Linked, Within;
      KeysAreContents();
    }

    lemma KeysAreContents()
      requires Valid()
      ensures |Order()| == TotalCount(Listing()) == |contents| && Order() == AllKeys(Listing())
      ensures forall k :: k in contents <==> k in Order()
      ensures forall x, y :: 0 <= x < y < |Order()| ==> Order()[x] != Order()[y]
    {
      ListedAreContents(hash, Listing(), contents, place);
    }
  }

  /** The array holds these keys, and nothing else yet. */
  ghost predicate Filled(keys: array<Option<string>>, done: seq<string>, index: nat)
    reads keys
  {
    && index == |done| < keys.Length
    && (forall x :: 0 <= x < index ==> keys[x] == Some(done[x]))
    && (forall x :: index <= x < keys.Length ==> keys[x] == None)
  }

  lemma FilledUpTo(keys: array<Option<string>>, done: seq<string>, index: nat)
    requires Filled(keys, done, index)
    ensures index == |done| < keys.Length && keys[index] == None
    ensures forall x :: 0 <= x < index ==> keys[x] == Some(done[x])
  {
  }

  lemma NothingFilled(keys: array<Option<string>>)
    requires keys.Length > 0 && forall x :: 0 <= x < keys.Length ==> keys[x] == None
    ensures Filled(keys, [], 0)
  {
  }

  lemma {:induction false} AllKeysIff(bs: seq<Bucket>, contents: map<string, Value>, place: map<string, (nat, nat)>, m: nat)
    requires Listed(bs, contents, place) && Placed(bs, contents, place) && m <= |bs|
    ensures forall k :: k in AllKeys(bs[..m]) <==> k in place && place[k].0 < m
    ensures forall x, y :: 0 <= x < y < |AllKeys(bs[..m])| ==> AllKeys(bs[..m])[x] != AllKeys(bs[..m])[y]
    decreases m
  {
    hide Listed, Placed;
    if m > 0 {
      var before, here := AllKeys(bs[..m - 1]), Keys(bs[m - 1].entries);
      AllKeysIff(bs, contents, place, m - 1);
      assert bs[..m][..m - 1] == bs[..m - 1];
      KeysOfBucket(bs, contents, place, m - 1);
      assert AllKeys(bs[..m]) == before + here;
      forall x, y | 0 <= x < y < |before + here| ensures (before + here)[x] != (before + here)[y] {
        if x < |before| <= y {
          assert before[x] in before && here[y - |before|] in here;
        }
      }
    } else {
      NoKeysYet(bs);
    }
  }

  /** Every key, and each only once. */
  ghost predicate ListsOnce(listed: seq<Option<string>>, keys: set<string>) {
    && (forall x :: 0 <= x < |listed| ==> listed[x].Some? && listed[x].value in keys)
    && (forall k :: k in keys ==> exists x :: 0 <= x < |listed| && listed[x] == Some(k))
    && (forall x, y :: 0 <= x < y < |listed| ==> listed[x] != listed[y])
  }

  lemma FilledMeans(slots: array<Option<string>>, done: seq<string>, index: nat, keys: set<string>)
    requires Filled(slots, done, index)
    requires forall k :: k in keys <==> k in done
    requires forall x, y :: 0 <= x < y < |done| ==> done[x] != done[y]
    ensures ListsOnce(slots[..index], keys)
  {
    var listed := slots[..index];
    forall x | 0 <= x < |listed| ensures listed[x] == Some(done[x]) && done[x] in keys {
    }
    forall k | k in keys ensures exists x :: 0 <= x < |listed| && listed[x] == Some(k) {
      var x :| 0 <= x < |done| && done[x] == k;
      assert listed[x] == Some(k);
    }
  }

  lemma NoKeysYet(bs: seq<Bucket>)
    ensures AllKeys(bs[..0]) == []
  {
  }

  lemma KeysOfBucket(bs: seq<Bucket>, contents: map<string, Value>, place: map<string, (nat, nat)>, m: nat)
    requires Listed(bs, contents, place) && Placed(bs, contents, place) && m < |bs|
    ensures forall k :: k in Keys(bs[m].entries) <==> k in place && place[k].0 == m
    ensures var ks := Keys(bs[m].entries); forall x, y :: 0 <= x < y < |ks| ==> ks[x] != ks[y]
  {
    var ks := Keys(bs[m].entries);
    forall n: nat | n < |ks| ensures ks[n] in place && place[ks[n]] == (m, n) {
      assert InRange(bs, m, n) && EntryAt(bs, m, n) == bs[m].entries[n];
    }
    forall k | k in place && place[k].0 == m ensures k in ks {
      assert ks[place[k].1] == k;
    }
  }

  lemma {:induction false} AllKeysLength(bs: seq<Bucket>)
    requires forall i :: 0 <= i < |bs| ==> bs[i].count == |bs[i].entries|
    ensures |AllKeys(bs)| == TotalCount(bs)
  {
    if |bs| > 0 {
      AllKeysLength(bs[..|bs| - 1]);
    }
  }

  lemma AllKeysPrefix(bs: seq<Bucket>, m: nat)
    requires m < |bs|
    ensures AllKeys(bs[..m + 1]) == AllKeys(bs[..m]) + Keys(bs[m].entries)
    ensures |AllKeys(bs[..m + 1])| <= |AllKeys(bs)|
  {
    hide AllKeys;
    AllKeysStep(bs, m);
    AllKeysGrow(bs, m + 1);
  }

  lemma AllKeysStep(bs: seq<Bucket>, m: nat)
    requires m < |bs|
    ensures AllKeys(bs[..m + 1]) == AllKeys(bs[..m]) + Keys(bs[m].entries)
  {
    assert bs[..m + 1][..m] == bs[..m];
  }

  lemma {:induction false} AllKeysGrow(bs: seq<Bucket>, m: nat)
    requires m <= |bs|
    ensures |AllKeys(bs[..m])| <= |AllKeys(bs)|
    decreases |bs| - m
  {
    if m < |bs| {
      AllKeysGrow(bs, m + 1);
      AllKeysStep(bs, m);
    } else {
      assert bs[..m] == bs;
    }
  }
}
