/** The order in which core/src/dictionary.c lists its keys, as a function of the order in which they came. */
module KeyOrder {

  type Hash = string -> nat

  /** How many keys there are up to the last one with this hash. */
  function LastWith(hash: Hash, ks: seq<string>, h: nat): (n: nat)
    ensures n <= |ks| && (n > 0 ==> hash(ks[n - 1]) == h)
    ensures forall x :: n <= x < |ks| ==> hash(ks[x]) != h
  {
    if |ks| == 0 then 0
    else if hash(ks[|ks| - 1]) == h then |ks|
    else LastWith(hash, ks[..|ks| - 1], h)
  }

  /** A new key goes behind the last one with its hash, or to the end. */
  function Place(hash: Hash, ks: seq<string>, key: string): (at: nat)
    ensures at <= |ks|
  {
    var n := LastWith(hash, ks, hash(key));
    if n == 0 then |ks| else n
  }

  function KeyAdded(hash: Hash, ks: seq<string>, key: string): seq<string> {
    var at := Place(hash, ks, key);
    if key in ks then ks else ks[..at] + [key] + ks[at..]
  }

  function KeysAdded(hash: Hash, ks: seq<string>, more: seq<string>): seq<string>
    decreases |more|
  {
    if |more| == 0 then ks else KeysAdded(hash, KeyAdded(hash, ks, more[0]), more[1..])
  }

  /** No key stands twice, and keys with one hash stand together. */
  ghost predicate Grouped(hash: Hash, ks: seq<string>) {
    && (forall x, y :: 0 <= x < y < |ks| ==> ks[x] != ks[y])
    && (forall x, y, z :: 0 <= x < y < z < |ks| ==> Together(hash, ks, x, y, z))
  }

  predicate Together(hash: Hash, ks: seq<string>, x: nat, y: nat, z: nat)
    requires x < y < z < |ks|
  {
    hash(ks[x]) == hash(ks[z]) ==> hash(ks[y]) == hash(ks[z])
  }

  lemma AddedAt(hash: Hash, ks: seq<string>, key: string, x: nat)
    requires key !in ks && x <= |ks|
    ensures var at := Place(hash, ks, key);
      |KeyAdded(hash, ks, key)| == |ks| + 1
      && KeyAdded(hash, ks, key)[x] == if x < at then ks[x] else if x == at then key else ks[x - 1]
  {
    hide LastWith;
  }

  /** What is known of the place: the key in front of it has the hash, the keys behind it do not. */
  lemma PlaceIs(hash: Hash, ks: seq<string>, key: string, x: nat)
    requires x < |ks|
    ensures var at := Place(hash, ks, key);
      && (hash(ks[x]) == hash(key) ==> x < at)
      && (hash(ks[x]) == hash(key) || at < |ks| ==> at > 0 && hash(ks[at - 1]) == hash(key))
  {
    hide LastWith;
  }

  lemma GroupStays(hash: Hash, ks: seq<string>, x: nat, y: nat, z: nat)
    requires Grouped(hash, ks) && x < y < z < |ks| && hash(ks[x]) == hash(ks[z])
    ensures hash(ks[y]) == hash(ks[z])
  {
    assert Together(hash, ks, x, y, z);
  }

  lemma AddedTogether(hash: Hash, ks: seq<string>, key: string, x: nat, y: nat, z: nat)
    requires Grouped(hash, ks) && key !in ks && x < y < z <= |ks|
    ensures |KeyAdded(hash, ks, key)| == |ks| + 1 && Together(hash, KeyAdded(hash, ks, key), x, y, z)
  {
    hide Grouped, LastWith, Place, KeyAdded;
    var at, out := Place(hash, ks, key), KeyAdded(hash, ks, key);
    AddedAt(hash, ks, key, x);
    AddedAt(hash, ks, key, y);
    AddedAt(hash, ks, key, z);
    if hash(out[x]) == hash(out[z]) {
      if z == at {
        PlaceIs(hash, ks, key, x);
        if y < at - 1 {
          GroupStays(hash, ks, x, y, at - 1);
        }
      } else if x == at {
        PlaceIs(hash, ks, key, z - 1);
      } else if y == at {
        PlaceIs(hash, ks, key, z - 1);
        if x < at - 1 {
          GroupStays(hash, ks, x, at - 1, z - 1);
        }
      } else {
        GroupStays(hash, ks, if x < at then x else x - 1, if y < at then y else y - 1, if z < at then z else z - 1);
      }
    }
  }

  lemma AddedMembers(hash: Hash, ks: seq<string>, key: string)
    ensures forall k :: k in KeyAdded(hash, ks, key) <==> k in ks || k == key
  {
    hide Place;
    var at := Place(hash, ks, key);
    assert ks == ks[..at] + ks[at..];
  }

  lemma AddedDiffer(hash: Hash, ks: seq<string>, key: string, x: nat, y: nat)
    requires Grouped(hash, ks) && key !in ks && x < y <= |ks|
    ensures |KeyAdded(hash, ks, key)| == |ks| + 1 && KeyAdded(hash, ks, key)[x] != KeyAdded(hash, ks, key)[y]
  {
    AddedAt(hash, ks, key, x);
    AddedAt(hash, ks, key, y);
    hide Place, KeyAdded, Together;
  }

  lemma AddedKeepsGroups(hash: Hash, ks: seq<string>, key: string)
    requires Grouped(hash, ks)
    ensures Grouped(hash, KeyAdded(hash, ks, key))
  {
    if key !in ks {
      AddedAt(hash, ks, key, 0);
      var out := KeyAdded(hash, ks, key);
      hide KeyAdded, Together;
      forall x, y | 0 <= x < y < |out| ensures out[x] != out[y] {
        AddedDiffer(hash, ks, key, x, y);
      }
      forall x, y, z | 0 <= x < y < z < |out| ensures Together(hash, out, x, y, z) {
        AddedTogether(hash, ks, key, x, y, z);
      }
    }
  }

  /** However the keys come, each is listed once, and keys with one hash together. */
  lemma {:induction false} RunIsGrouped(hash: Hash, ks: seq<string>, more: seq<string>)
    requires Grouped(hash, ks)
    ensures Grouped(hash, KeysAdded(hash, ks, more))
    ensures forall k :: k in KeysAdded(hash, ks, more) <==> k in ks || k in more
    decreases |more|
  {
    hide Grouped, KeyAdded;
    if |more| > 0 {
      AddedKeepsGroups(hash, ks, more[0]);
      AddedMembers(hash, ks, more[0]);
      RunIsGrouped(hash, KeyAdded(hash, ks, more[0]), more[1..]);
    }
  }

  lemma LastPlace(hash: Hash, ks: seq<string>, n: nat)
    requires Grouped(hash, ks) && n < |ks|
    ensures Place(hash, ks[..n], ks[n]) == n
  {
    hide Grouped, LastWith;
    var at := Place(hash, ks[..n], ks[n]);
    if at < n {
      GroupStays(hash, ks, at - 1, at, n);
    }
  }

  lemma AddedLast(hash: Hash, ks: seq<string>, n: nat)
    requires Grouped(hash, ks) && n < |ks|
    ensures KeyAdded(hash, ks[..n], ks[n]) == ks[..n + 1]
  {
    LastPlace(hash, ks, n);
    hide Place, Together;
    assert ks[..n][..n] == ks[..n] && ks[..n][n..] == [];
    assert ks[n] !in ks[..n];
  }

  /** Keys that come in such an order are listed in it. */
  lemma {:induction false} OrderIsKept(hash: Hash, ks: seq<string>, n: nat)
    requires Grouped(hash, ks) && n <= |ks|
    ensures KeysAdded(hash, ks[..n], ks[n..]) == ks
    decreases |ks| - n
  {
    hide Grouped, KeyAdded;
    if n < |ks| {
      assert ks[n..][0] == ks[n] && ks[n..][1..] == ks[n + 1..];
      AddedLast(hash, ks, n);
      OrderIsKept(hash, ks, n + 1);
    } else {
      assert ks[..n] == ks;
    }
  }
}
