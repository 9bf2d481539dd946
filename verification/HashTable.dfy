/**
 uthash.h: a bucket array that doubles, indexing a list kept in application order.
 Chains and the list are sequences; what HASH_FSCK checks is part of `Valid`.
 */
module HashSpec {
  import opened Basics
  import opened HashArithmetic
  import M = MergeSort

  datatype Item = Item(id: nat, key: int, hashv: nat)

  datatype Bucket = Bucket(chain: seq<Item>, count: nat, expandMult: nat)

  const EMPTY := Bucket([], 0, 0)
  const INITIAL_LOG2: nat := 5
  const CAPACITY_THRESH := 10

  /** HASH_TO_BKT */
  function BucketOf(hashv: nat, log2: nat): (b: nat)
    ensures b < Pow2(log2)
  {
    SplitBits(hashv, log2);
    And(hashv, Pow2(log2) - 1)
  }

  /** All items of all chains. */
  function Union(bs: seq<Bucket>): multiset<Item> {
    if bs == [] then multiset{} else Union(bs[..|bs| - 1]) + multiset(bs[|bs| - 1].chain)
  }

  /** Counts are right and every item is in the bucket its hash value selects. */
  predicate Placed(bs: seq<Bucket>, log2: nat) {
    && |bs| == Pow2(log2)
    && forall b :: 0 <= b < |bs| ==> BucketPlaced(bs[b], b, log2)
  }

  predicate BucketPlaced(bucket: Bucket, b: nat, log2: nat) {
    && bucket.count == |bucket.chain|
    && forall i :: 0 <= i < |bucket.chain| ==> BucketOf(bucket.chain[i].hashv, log2) == b
  }

  /** The chains hold exactly the items of the list. */
  ghost predicate Represents(bs: seq<Bucket>, log2: nat, list: seq<Item>) {
    Placed(bs, log2) && Union(bs) == multiset(list)
  }

  predicate UniqueKeys(list: seq<Item>) {
    forall i, j :: 0 <= i < j < |list| ==> list[i].key != list[j].key
  }

  function TotalCount(bs: seq<Bucket>): nat {
    if bs == [] then 0 else TotalCount(bs[..|bs| - 1]) + bs[|bs| - 1].count
  }

  /** Items beyond the ideal chain length, over all buckets. */
  function Excess(bs: seq<Bucket>, ideal: nat): nat {
    if bs == [] then 0
    else Excess(bs[..|bs| - 1], ideal) + Over(bs[|bs| - 1].count, ideal)
  }

  function Over(count: nat, ideal: nat): nat {
    if count > ideal then count - ideal else 0
  }

  /**
   The multiplier is zero up to the ideal chain length, and from there on one of the two
   numbers next to the quotient of the count by it.
   */
  predicate MultiplierFits(count: nat, mult: nat, ideal: nat) {
    && (mult == 0 <==> count <= ideal)
    && count <= (mult + 1) * ideal
    && (mult > 0 ==> (mult - 1) * ideal < count)
  }

  predicate Bounded(bs: seq<Bucket>, ideal: nat) {
    forall b :: 0 <= b < |bs| ==> MultiplierFits(bs[b].count, bs[b].expandMult, ideal)
  }

  /** The bucket is the remainder of the hash value by the number of buckets. */
  lemma BucketIsRemainder(hashv: nat, log2: nat)
    ensures BucketOf(hashv, log2) == hashv % Pow2(log2)
  {
    MaskIsModulo(hashv, log2);
  }

  function Smaller(count: nat, ideal: nat): nat {
    if count > ideal then ideal else count
  }

  /** What the buckets hold up to the ideal chain length. */
  function Room(bs: seq<Bucket>, ideal: nat): nat {
    if bs == [] then 0 else Room(bs[..|bs| - 1], ideal) + Smaller(bs[|bs| - 1].count, ideal)
  }

  /** The nonideal items are those that no bucket can hold within the ideal length. */
  lemma {:induction false} ExcessComplement(bs: seq<Bucket>, ideal: nat)
    ensures Excess(bs, ideal) + Room(bs, ideal) == TotalCount(bs)
    decreases |bs|
  {
    if bs != [] {
      ExcessComplement(bs[..|bs| - 1], ideal);
    }
  }

  // ----- The list as a map

  function ToMap(list: seq<Item>): map<int, Item> {
    if list == [] then map[] else ToMap(list[..|list| - 1])[list[|list| - 1].key := list[|list| - 1]]
  }

  lemma {:induction false} MapMeaning(list: seq<Item>)
    requires UniqueKeys(list)
    ensures forall i :: 0 <= i < |list| ==> list[i].key in ToMap(list) && ToMap(list)[list[i].key] == list[i]
    ensures forall k :: k in ToMap(list) ==> ToMap(list)[k] in list && ToMap(list)[k].key == k
    decreases |list|
  {
    if list != [] {
      MapMeaning(list[..|list| - 1]);
    }
  }

  lemma ToMapAppend(list: seq<Item>, x: Item)
    ensures ToMap(list + [x]) == ToMap(list)[x.key := x]
  {
    assert (list + [x])[..|list|] == list;
  }

  /** The position in the list does not matter to the map. */
  lemma SameItemsSameMap(a: seq<Item>, b: seq<Item>)
    requires UniqueKeys(a) && UniqueKeys(b) && forall x :: x in a <==> x in b
    ensures ToMap(a) == ToMap(b)
  {
    MapMeaning(a);
    MapMeaning(b);
    forall k | k in ToMap(a) ensures k in ToMap(b) && ToMap(b)[k] == ToMap(a)[k] {
      var i :| 0 <= i < |b| && b[i] == ToMap(a)[k];
    }
    forall k | k in ToMap(b) ensures k in ToMap(a) {
      var i :| 0 <= i < |a| && a[i] == ToMap(b)[k];
    }
  }

  function Without(list: seq<Item>, i: nat): seq<Item>
    requires i < |list|
  {
    list[..i] + list[i + 1..]
  }

  lemma UniqueWithout(list: seq<Item>, i: nat)
    requires i < |list| && UniqueKeys(list)
    ensures UniqueKeys(Without(list, i))
  {
    var rest := Without(list, i);
    assert forall j :: 0 <= j < |rest| ==> rest[j] == list[if j < i then j else j + 1];
  }

  lemma {:induction false} ToMapWithout(list: seq<Item>, i: nat)
    requires i < |list| && UniqueKeys(list)
    ensures ToMap(Without(list, i)) == ToMap(list) - {list[i].key}
    decreases |list|
  {
    var last := |list| - 1;
    var front := list[..last];
    if i == last {
      assert Without(list, i) == front;
      MapMeaning(front);
      assert list[i].key !in ToMap(front);
    } else {
      var x, k := list[last], list[i].key;
      assert Without(list, i) == Without(front, i) + [x];
      ToMapAppend(Without(front, i), x);
      ToMapWithout(front, i);
      assert x.key != k;
      assert (ToMap(front) - {k})[x.key := x] == ToMap(front)[x.key := x] - {k};
    }
  }

  /** Rearranging a list changes neither the uniqueness of its keys nor the map it stands for. */
  lemma Rearranged(a: seq<Item>, b: seq<Item>)
    requires UniqueKeys(a) && multiset(a) == multiset(b)
    ensures UniqueKeys(b) && ToMap(a) == ToMap(b)
  {
    hide ToMap;
    forall i, j | 0 <= i < j < |b| ensures b[i].key != b[j].key {
      assert b[i] in multiset(a) && b[j] in multiset(a);
      var i' :| 0 <= i' < |a| && a[i'] == b[i];
      var j' :| 0 <= j' < |a| && a[j'] == b[j];
      if i' == j' {
        Twice(b, i, j);
        AtMostOnce(a, b[i]);
      }
    }
    assert forall x: Item :: x in a <==> x in multiset(a);
    assert forall x: Item :: x in b <==> x in multiset(b);
    SameItemsSameMap(a, b);
  }

  lemma Twice(b: seq<Item>, i: nat, j: nat)
    requires i < j < |b| && b[i] == b[j]
    ensures multiset(b)[b[i]] >= 2
  {
    assert b == b[..j] + b[j..];
    assert b[i] == b[..j][i] && b[j] == b[j..][0];
    assert b[i] in b[..j] && b[i] in b[j..];
  }

  lemma {:induction false} AtMostOnce(a: seq<Item>, x: Item)
    requires UniqueKeys(a)
    ensures multiset(a)[x] <= 1
    decreases |a|
  {
    if a != [] {
      var front := a[..|a| - 1];
      assert a == front + [a[|a| - 1]];
      AtMostOnce(front, x);
      if x == a[|a| - 1] {
        assert forall i :: 0 <= i < |front| ==> front[i] != x;
        assert x !in front;
      }
    }
  }

  /** Where an item is in a list, the length of the list when it is not there. */
  function PositionOf(list: seq<Item>, x: Item): (i: nat)
    ensures i <= |list| && (i < |list| <==> x in list)
    ensures i < |list| ==> list[i] == x
  {
    if list == [] || list[0] == x then 0 else 1 + PositionOf(list[1..], x)
  }

  /** The place of the element with a key, the length of the list when there is none. */
  function KeyPosition(list: seq<Item>, key: int): (i: nat)
    ensures i <= |list|
  {
    if list == [] || list[0].key == key then 0 else 1 + KeyPosition(list[1..], key)
  }

  lemma {:induction false} KeyPositionMeaning(list: seq<Item>, key: int)
    ensures var i := KeyPosition(list, key);
            && (i < |list| ==> list[i].key == key)
            && (forall j :: 0 <= j < i ==> list[j].key != key)
  {
    if list != [] && list[0].key != key {
      KeyPositionMeaning(list[1..], key);
    }
  }

  /** A new element goes to the end, in place of the one with its key if there is one. */
  function Replaced(list: seq<Item>, x: Item): seq<Item> {
    var i := KeyPosition(list, x.key);
    (if i < |list| then Without(list, i) else list) + [x]
  }

  lemma WithoutMultiset(list: seq<Item>, i: nat)
    requires i < |list|
    ensures multiset(list) == multiset(Without(list, i)) + multiset{list[i]}
  {
    assert list == list[..i] + [list[i]] + list[i + 1..];
  }

  // ----- HASH_ADD_*_INORDER

  /** How many elements come before the first one that is greater. */
  function NotAbove(list: seq<Item>, k: int, ord: Item -> int, cmp: (int, int) -> int): (i: nat)
    ensures i <= |list|
  {
    if list == [] || cmp(ord(list[0]), k) > 0 then 0 else 1 + NotAbove(list[1..], k, ord, cmp)
  }

  function InsertedInorder(list: seq<Item>, x: Item, ord: Item -> int, cmp: (int, int) -> int): seq<Item> {
    var i := NotAbove(list, ord(x), ord, cmp);
    list[..i] + [x] + list[i..]
  }

  lemma {:induction false} NotAboveAt(list: seq<Item>, k: int, ord: Item -> int, cmp: (int, int) -> int, i: nat)
    requires i <= |list|
    requires forall j :: 0 <= j < i ==> cmp(ord(list[j]), k) <= 0
    requires i < |list| ==> cmp(ord(list[i]), k) > 0
    ensures NotAbove(list, k, ord, cmp) == i
  {
    if i > 0 {
      NotAboveAt(list[1..], k, ord, cmp, i - 1);
    }
  }

  lemma {:induction false} NotAboveMeaning(list: seq<Item>, k: int, ord: Item -> int, cmp: (int, int) -> int)
    ensures var i := NotAbove(list, k, ord, cmp);
            && (forall j :: 0 <= j < i ==> cmp(ord(list[j]), k) <= 0)
            && (i < |list| ==> cmp(ord(list[i]), k) > 0)
  {
    if list != [] && cmp(ord(list[0]), k) <= 0 {
      NotAboveMeaning(list[1..], k, ord, cmp);
    }
  }

  predicate Sorted(list: seq<Item>, ord: Item -> int, cmp: (int, int) -> int) {
    forall i, j :: 0 <= i < j < |list| ==> cmp(ord(list[i]), ord(list[j])) <= 0
  }

  lemma Chain(cmp: (int, int) -> int, a: int, b: int, c: int)
    requires M.TotalPreorder(cmp) && cmp(b, a) > 0 && (b == c || cmp(b, c) <= 0)
    ensures cmp(a, c) <= 0 && cmp(c, a) > 0
  {
    assert cmp(a, b) < 0;
    assert b != c && cmp(c, a) <= 0 ==> cmp(b, a) <= 0;
  }

  /** In-order insertion keeps a sorted table sorted, and puts the new element after its equals. */
  lemma InsertionKeepsSorted(list: seq<Item>, x: Item, ord: Item -> int, cmp: (int, int) -> int)
    requires M.TotalPreorder(cmp) && Sorted(list, ord, cmp)
    ensures Sorted(InsertedInorder(list, x, ord, cmp), ord, cmp)
    ensures var i := NotAbove(list, ord(x), ord, cmp);
            forall j :: 0 <= j < |list| && cmp(ord(list[j]), ord(x)) == 0 ==> j < i
  {
    hide M.TotalPreorder, NotAbove;
    var i, k := NotAbove(list, ord(x), ord, cmp), ord(x);
    NotAboveMeaning(list, k, ord, cmp);
    forall j | i <= j < |list| ensures cmp(k, ord(list[j])) <= 0 && cmp(ord(list[j]), k) > 0 {
      if i < j { assert cmp(ord(list[i]), ord(list[j])) <= 0; }
      Chain(cmp, k, ord(list[i]), ord(list[j]));
    }
    Spliced(list, i, x, ord, cmp);
  }

  lemma Spliced(list: seq<Item>, i: nat, x: Item, ord: Item -> int, cmp: (int, int) -> int)
    requires i <= |list| && Sorted(list, ord, cmp)
    requires forall j :: 0 <= j < i ==> cmp(ord(list[j]), ord(x)) <= 0
    requires forall j :: i <= j < |list| ==> cmp(ord(x), ord(list[j])) <= 0
    ensures Sorted(list[..i] + [x] + list[i..], ord, cmp)
  {
    var r := list[..i] + [x] + list[i..];
    forall a, b | 0 <= a < b < |r| ensures cmp(ord(r[a]), ord(r[b])) <= 0 {
      assert r[a] == if a < i then list[a] else if a == i then x else list[a - 1];
      assert r[b] == if b < i then list[b] else if b == i then x else list[b - 1];
    }
  }

  lemma InsertedMultiset(list: seq<Item>, i: nat, x: Item)
    requires i <= |list|
    ensures multiset(list[..i] + [x] + list[i..]) == multiset(list) + multiset{x} == multiset(list + [x])
  {
    assert list == list[..i] + list[i..];
  }

  // ----- Buckets

  lemma Regroup(a: multiset<Item>, c: multiset<Item>, b: multiset<Item>, d: multiset<Item>, l: multiset<Item>)
    requires a + c == b + d
    ensures (a + l) + c == (b + l) + d
  {
    assert (a + l) + c == (a + c) + l;
    assert (b + l) + d == (b + d) + l;
  }

  lemma Cancel(a: multiset<Item>, b: multiset<Item>, l: multiset<Item>)
    requires a + l == b + l
    ensures a == b
  {
    forall x: Item ensures a[x] == b[x] {
      assert (a + l)[x] == (b + l)[x];
    }
  }

  lemma {:induction false} UnionUpdate(bs: seq<Bucket>, b: nat, bucket: Bucket, ideal: nat)
    requires b < |bs|
    ensures Union(bs[b := bucket]) + multiset(bs[b].chain) == Union(bs) + multiset(bucket.chain)
    ensures TotalCount(bs[b := bucket]) + bs[b].count == TotalCount(bs) + bucket.count
    ensures Excess(bs[b := bucket], ideal) + Over(bs[b].count, ideal) == Excess(bs, ideal) + Over(bucket.count, ideal)
    decreases |bs|
  {
    var last := |bs| - 1;
    if b == last {
      assert bs[b := bucket][..last] == bs[..last];
    } else {
      assert bs[b := bucket][..last] == bs[..last][b := bucket];
      UnionUpdate(bs[..last], b, bucket, ideal);
      Regroup(Union(bs[..last][b := bucket]), multiset(bs[b].chain), Union(bs[..last]), multiset(bucket.chain),
              multiset(bs[last].chain));
    }
  }

  lemma {:induction false} UnionContains(bs: seq<Bucket>, x: Item)
    ensures x in Union(bs) <==> exists b :: 0 <= b < |bs| && x in bs[b].chain
    decreases |bs|
  {
    if bs != [] {
      UnionContains(bs[..|bs| - 1], x);
    }
  }

  /** An item is in the list exactly when it is in the one bucket where HASH_FIND looks. */
  lemma FoundInBucket(bs: seq<Bucket>, log2: nat, list: seq<Item>, x: Item)
    requires Represents(bs, log2, list)
    ensures x in list <==> x in bs[BucketOf(x.hashv, log2)].chain
  {
    UnionContains(bs, x);
    if x in list {
      assert x in Union(bs);
      var b :| 0 <= b < |bs| && x in bs[b].chain;
      assert BucketPlaced(bs[b], b, log2);
    } else {
      assert x !in Union(bs);
    }
  }

  lemma {:induction false} CountsSum(bs: seq<Bucket>)
    requires forall b :: 0 <= b < |bs| ==> bs[b].count == |bs[b].chain|
    ensures TotalCount(bs) == |Union(bs)|
    decreases |bs|
  {
    if bs != [] {
      CountsSum(bs[..|bs| - 1]);
    }
  }

  // ----- HASH_EXPAND_BUCKETS

  /** One item moved to the head of its new bucket. */
  function Move(bucket: Bucket, x: Item, ideal: nat): Bucket {
    var count := bucket.count + 1;
    Bucket([x] + bucket.chain, count,
           if count > ideal && count > bucket.expandMult * ideal then bucket.expandMult + 1 else bucket.expandMult)
  }

  lemma MoveBounded(bucket: Bucket, x: Item, ideal: nat)
    requires ideal >= 1 && MultiplierFits(bucket.count, bucket.expandMult, ideal)
    ensures var moved := Move(bucket, x, ideal);
            moved.count == bucket.count + 1 && MultiplierFits(moved.count, moved.expandMult, ideal)
  {
    var m := bucket.expandMult;
    assert (m - 1) * ideal == m * ideal - ideal;
    assert (m + 1) * ideal == m * ideal + ideal;
    assert (m + 2) * ideal == m * ideal + ideal + ideal;
  }

  /** The state of the expansion: what has been moved so far and the statistics kept about it. */
  ghost predicate Expanding(bs: seq<Bucket>, log2: nat, moved: multiset<Item>, ideal: nat, nonideal: nat) {
    Placed(bs, log2) && Union(bs) == moved && Excess(bs, ideal) == nonideal && Bounded(bs, ideal)
  }

  lemma MoveOne(bs: seq<Bucket>, log2: nat, moved: multiset<Item>, ideal: nat, nonideal: nat, x: Item)
    requires Expanding(bs, log2, moved, ideal, nonideal) && ideal >= 1
    ensures var b := BucketOf(x.hashv, log2);
            Expanding(bs[b := Move(bs[b], x, ideal)], log2, moved + multiset{x}, ideal,
                      nonideal + if bs[b].count + 1 > ideal then 1 else 0)
  {
    hide Union, Excess, BucketOf;
    var b := BucketOf(x.hashv, log2);
    var bucket := Move(bs[b], x, ideal);
    UnionUpdate(bs, b, bucket, ideal);
    assert BucketPlaced(bs[b], b, log2);
    assert multiset(bucket.chain) == multiset{x} + multiset(bs[b].chain);
    assert Union(bs) + (multiset{x} + multiset(bs[b].chain)) == Union(bs) + multiset{x} + multiset(bs[b].chain);
    Cancel(Union(bs[b := bucket]), Union(bs) + multiset{x}, multiset(bs[b].chain));
    assert Placed(bs[b := bucket], log2);
    MoveBounded(bs[b], x, ideal);
  }

  lemma {:induction false} NothingMoved(bs: seq<Bucket>, ideal: nat)
    requires forall b :: 0 <= b < |bs| ==> bs[b] == EMPTY
    ensures Union(bs) == multiset{} && Excess(bs, ideal) == 0 && Bounded(bs, ideal)
    decreases |bs|
  {
    if bs != [] {
      NothingMoved(bs[..|bs| - 1], ideal);
    }
  }
}

module HashIndex {
  import opened Basics
  import opened HashArithmetic
  import opened HashSpec
  import M = MergeSort

  class HashTable {
    const hash: int -> nat
    var buckets: array<Bucket>
    var log2NumBuckets: nat
    var numItems: nat
    var idealChainMaxlen: nat
    var nonidealItems: nat
    var ineffExpands: nat
    var noexpand: bool

    /** The elements in application order; the table exists while there are any. */
    var list: seq<Item>

    /** The checks of HASH_FSCK, and that every item is where HASH_FIND looks for it. */
    ghost predicate Valid()
      reads this, buckets
    {
      && UniqueKeys(list)
      && (forall i :: 0 <= i < |list| ==> list[i].hashv == hash(list[i].key))
      && (list != [] ==>
            && buckets.Length == Pow2(log2NumBuckets)
            && Represents(buckets[..], log2NumBuckets, list)
            && numItems == |list|)
    }

    function Contents(): map<int, Item>
      reads this
    {
      ToMap(list)
    }

    constructor (hash: int -> nat)
      ensures Valid() && list == [] && Contents() == map[] && this.hash == hash
    {
      this.hash := hash;
      buckets := new Bucket[0];
      log2NumBuckets, numItems, idealChainMaxlen, nonidealItems, ineffExpands, noexpand := 0, 0, 0, 0, 0, false;
      list := [];
    }

    /** HASH_FSCK: bucket counts add up to the number of items. */
    lemma CountsAddUp()
      requires Valid() && list != []
      ensures TotalCount(buckets[..]) == numItems
    {
      assert forall b :: 0 <= b < |buckets[..]| ==> BucketPlaced(buckets[..][b], b, log2NumBuckets);
      CountsSum(buckets[..]);
    }

    /** HASH_FIND */
    method Find(key: int) returns (out: Option<Item>)
      requires Valid()
      ensures out == if key in Contents() then Some(Contents()[key]) else None
    {
      MapMeaning(list);
      if list == [] {
        return None;
      }
      var hashval := hash(key);
      var b := BucketOf(hashval, log2NumBuckets);
      var chain := buckets[b].chain;
      var i := 0;
      while i < |chain|
        invariant 0 <= i <= |chain|
        invariant forall j :: 0 <= j < i ==> chain[j].key != key || chain[j].hashv != hashval
      {
        if chain[i].hashv == hashval && chain[i].key == key {
          FoundInBucket(buckets[..], log2NumBuckets, list, chain[i]);
          return Some(chain[i]);
        }
        i := i + 1;
      }
      if key in Contents() {
        FoundInBucket(buckets[..], log2NumBuckets, list, Contents()[key]);
      }
      out := None;
    }

    /** HASH_MAKE_TABLE */
    method MakeTable()
      modifies this`buckets, this`log2NumBuckets, this`numItems, this`idealChainMaxlen, this`nonidealItems,
               this`ineffExpands, this`noexpand
      ensures fresh(buckets) && numItems == 0 && buckets.Length == Pow2(log2NumBuckets) == 32
      ensures !noexpand && ineffExpands == 0
      ensures Represents(buckets[..], log2NumBuckets, [])
    {
      log2NumBuckets := INITIAL_LOG2;
      buckets := new Bucket[Pow2(INITIAL_LOG2)](_ => EMPTY);
      numItems, idealChainMaxlen, nonidealItems, ineffExpands, noexpand := 0, 0, 0, 0, false;
      assert Pow2(5) == 2 * Pow2(4) == 4 * Pow2(3) == 8 * Pow2(2) == 16 * Pow2(1) == 32;
      NothingMoved(buckets[..], 0);
    }

    /** HASH_ADD: the key must not be in the table. */
    method Add(x: Item)
      requires Valid() && x.key !in Contents() && x.hashv == hash(x.key)
      modifies this, buckets
      ensures Valid() && list == old(list) + [x]
      ensures Contents() == old(Contents())[x.key := x]
      ensures fresh(buckets) || buckets == old(buckets)
    {
      hide Represents, ToMap;
      ghost var before := list;
      NewKey(before, x);
      if list == [] {
        MakeTable();
      }
      list := list + [x];
      AddToTable(x, before);
    }

    /** HASH_ADD_INORDER: before the first greater element, in a table kept in that order. */
    method AddInorder(x: Item, ord: Item -> int, cmp: (int, int) -> int)
      requires Valid() && x.key !in Contents() && x.hashv == hash(x.key)
      modifies this, buckets
      ensures Valid() && list == InsertedInorder(old(list), x, ord, cmp)
      ensures Contents() == old(Contents())[x.key := x]
      ensures fresh(buckets) || buckets == old(buckets)
    {
      hide Represents, ToMap;
      ghost var before := list;
      NewKey(before, x);
      var i := 0;
      if list == [] {
        MakeTable();
        list := [x];
      } else {
        i := InsertionPoint(x, ord, cmp);
        list := list[..i] + [x] + list[i..];
      }
      InsertedMultiset(before, i, x);
      Rearranged(before + [x], list);
      HashesPlaced(before + [x], list, hash);
      AddToTable(x, before);
    }

    /** HASH_AKBI_INNER_LOOP */
    method InsertionPoint(x: Item, ord: Item -> int, cmp: (int, int) -> int) returns (i: nat)
      ensures i == NotAbove(list, ord(x), ord, cmp)
    {
      i := 0;
      while i < |list| && cmp(ord(list[i]), ord(x)) <= 0
        invariant 0 <= i <= |list|
        invariant forall j :: 0 <= j < i ==> cmp(ord(list[j]), ord(x)) <= 0
      {
        i := i + 1;
      }
      NotAboveAt(list, ord(x), ord, cmp, i);
    }

    /**
     The table has grown: twice as many buckets, right statistics, and the second growth in a
     row without effect is the last.
     */
    predicate DoubledSince(length: nat, ineffective: nat)
      reads this, buckets
    {
      && buckets.Length == 2 * length > 0 && idealChainMaxlen == (numItems + buckets.Length - 1) / buckets.Length
      && nonidealItems == Excess(buckets[..], idealChainMaxlen) && Bounded(buckets[..], idealChainMaxlen)
      && ineffExpands == (if nonidealItems > numItems / 2 then ineffective + 1 else 0)
      && (noexpand <==> ineffExpands >= 2)
    }

    /** HASH_ADD_TO_TABLE */
    method AddToTable(x: Item, ghost before: seq<Item>)
      requires buckets.Length == Pow2(log2NumBuckets) && numItems == |before|
      requires Represents(buckets[..], log2NumBuckets, before)
      requires multiset(list) == multiset(before) + multiset{x}
      modifies this, buckets
      ensures list == old(list) && buckets.Length == Pow2(log2NumBuckets) && numItems == |list|
      ensures Represents(buckets[..], log2NumBuckets, list)
      ensures fresh(buckets) || buckets == old(buckets)
      ensures var b := x.hashv % Pow2(old(log2NumBuckets));
              if !old(noexpand) && old(buckets[b].count) + 1 >= 10 * old(buckets[b].expandMult) + 10
              then DoubledSince(old(buckets.Length), old(ineffExpands))
              else buckets == old(buckets) && log2NumBuckets == old(log2NumBuckets)
                   && ineffExpands == old(ineffExpands) && noexpand == old(noexpand)
    {
      hide BucketOf, Union, Placed;
      BucketIsRemainder(x.hashv, log2NumBuckets);
      assert |list| == |multiset(list)| == |before| + 1;
      numItems := numItems + 1;
      var b := BucketOf(x.hashv, log2NumBuckets);
      AddToBucket(b, x, before);
      assert multiset(before + [x]) == multiset(list);
      if buckets[b].count >= (buckets[b].expandMult + 1) * CAPACITY_THRESH && !noexpand {
        ExpandBuckets();
      }
    }

    /** HASH_DELETE of the element at a place in the list; with the last element the table goes too. */
    method Delete(i: nat)
      requires Valid() && i < |list|
      modifies this, buckets
      ensures Valid() && list == Without(old(list), i) && buckets == old(buckets)
      ensures Contents() == old(Contents()) - {old(list)[i].key}
    {
      hide BucketOf, Union, ToMap, Placed;
      ghost var before := list;
      UniqueWithout(before, i);
      ToMapWithout(before, i);
      if |list| == 1 {
        list := [];
      } else {
        var x := list[i];
        DeleteFromBucket(x, i);
        list := list[..i] + list[i + 1..];
        numItems := numItems - 1;
      }
    }

    /** HASH_DEL_IN_BKT */
    method DeleteFromBucket(x: Item, ghost i: nat)
      requires i < |list| && list[i] == x && buckets.Length == Pow2(log2NumBuckets)
      requires Represents(buckets[..], log2NumBuckets, list)
      modifies buckets
      ensures Represents(buckets[..], log2NumBuckets, Without(list, i))
    {
      hide BucketOf, Union;
      ghost var bs := buckets[..];
      var b := BucketOf(x.hashv, log2NumBuckets);
      FoundInBucket(bs, log2NumBuckets, list, x);
      assert BucketPlaced(bs[b], b, log2NumBuckets);
      var bucket := buckets[b];
      var c := PositionOf(bucket.chain, x);
      var removed := Bucket(Without(bucket.chain, c), bucket.count - 1, bucket.expandMult);
      buckets[b] := removed;
      assert buckets[..] == bs[b := removed];
      assert forall j :: 0 <= j < |removed.chain| ==> removed.chain[j] == bucket.chain[if j < c then j else j + 1];
      Unlinked(bs, b, removed, c, list, i);
    }

    /** HASH_REPLACE */
    method Replace(x: Item) returns (replaced: Option<Item>)
      requires Valid() && x.hashv == hash(x.key)
      modifies this, buckets
      ensures Valid() && Contents() == old(Contents())[x.key := x]
      ensures replaced == if x.key in old(Contents()) then Some(old(Contents())[x.key]) else None
      ensures list == Replaced(old(list), x)
      ensures fresh(buckets) || buckets == old(buckets)
    {
      hide Represents, ToMap;
      MapMeaning(list);
      KeyPositionMeaning(list, x.key);
      replaced := Find(x.key);
      if replaced.Some? {
        Delete(PositionOf(list, replaced.value));
      }
      Add(x);
    }

    /** HASH_SRT: the list is sorted, the buckets are left alone. */
    method Sort(ord: Item -> int, cmp: (int, int) -> int)
      requires Valid()
      modifies this`list
      ensures Valid() && list == M.Sort(old(list), ord, cmp)
      ensures Contents() == old(Contents())
    {
      hide Represents, ToMap, M.Pass;
      ghost var before := list;
      if list != [] {
        var insize, looping := 1, true;
        ghost var target := M.Sort(before, ord, cmp);
        while looping
          invariant |list| == |before| && insize >= 1
          invariant if looping then M.SortFrom(list, insize, ord, cmp) == target else list == target
          decreases looping, |before| - insize
        {
          var nmerges := SortPass(insize, ord, cmp);
          if nmerges <= 1 {
            looping := false;
          }
          insize := insize * 2;
        }
      }
      M.SortFromMultiset(before, 1, ord, cmp);
      Rearranged(before, list);
      HashesPlaced(before, list, hash);
      SameRepresentation(buckets[..], log2NumBuckets, before, list);
    }

    method SortPass(insize: nat, ord: Item -> int, cmp: (int, int) -> int) returns (nmerges: nat)
      requires insize >= 1
      modifies this`list
      ensures list == M.Pass(old(list), insize, ord, cmp)
      ensures nmerges <= 1 <==> |list| <= 2 * insize
    {
      hide M.Passing, M.Remaining, M.Merge, M.Pass;
      var s, sorted := list, [];
      var p := 0;
      nmerges := 0;
      M.StartPass(s, insize, ord, cmp);
      while p < |s|
        invariant 0 <= p <= |s| && M.Passing(s, p, insize, sorted, ord, cmp)
        invariant nmerges == 0 ==> p == 0
        invariant nmerges == 1 ==> p == Min(2 * insize, |s|)
        invariant nmerges >= 2 ==> p > 2 * insize
      {
        nmerges := nmerges + 1;
        M.PassStep(s, p, insize, sorted, ord, cmp);
        sorted, p := MergeRuns(s, p, insize, sorted, ord, cmp);
      }
      M.EndPass(s, insize, sorted, ord, cmp);
      list := sorted;
    }

    /** HASH_ADD_TO_BKT up to the test for expansion. */
    method AddToBucket(b: nat, x: Item, ghost before: seq<Item>)
      requires buckets.Length == Pow2(log2NumBuckets) && b == BucketOf(x.hashv, log2NumBuckets)
      requires Represents(buckets[..], log2NumBuckets, before)
      modifies buckets
      ensures Represents(buckets[..], log2NumBuckets, before + [x])
      ensures buckets[b].count == old(buckets[b].count) + 1 && buckets[b].expandMult == old(buckets[b].expandMult)
    {
      hide BucketOf, Union;
      ghost var bs := buckets[..];
      var bucket := buckets[b];
      var added := Bucket([x] + bucket.chain, bucket.count + 1, bucket.expandMult);
      assert BucketPlaced(bs[b], b, log2NumBuckets);
      buckets[b] := added;
      assert buckets[..] == bs[b := added];
      Pushed(bs, b, added, x, before);
    }

    /** The inner loop of HASH_EXPAND_BUCKETS: one old chain is dealt out to the new buckets. */
    method MoveChain(newBuckets: array<Bucket>, log2: nat, chain: seq<Item>, ghost moved: multiset<Item>)
      requires newBuckets.Length == Pow2(log2) && newBuckets != buckets && idealChainMaxlen >= 1
      requires Expanding(newBuckets[..], log2, moved, idealChainMaxlen, nonidealItems)
      modifies newBuckets, this`nonidealItems
      ensures Expanding(newBuckets[..], log2, moved + multiset(chain), idealChainMaxlen, nonidealItems)
    {
      hide BucketOf, Expanding, Move, Pow2;
      assert chain[..0] == [] && moved + multiset([]) == moved;
      var i := 0;
      while i < |chain|
        invariant 0 <= i <= |chain|
        invariant Expanding(newBuckets[..], log2, moved + multiset(chain[..i]), idealChainMaxlen, nonidealItems)
      {
        var thh := chain[i];
        var b := BucketOf(thh.hashv, log2);
        ghost var bs, done := newBuckets[..], moved + multiset(chain[..i]);
        MoveOne(bs, log2, done, idealChainMaxlen, nonidealItems, thh);
        if newBuckets[b].count + 1 > idealChainMaxlen {
          nonidealItems := nonidealItems + 1;
        }
        newBuckets[b] := Move(newBuckets[b], thh, idealChainMaxlen);
        assert newBuckets[..] == bs[b := newBuckets[b]];
        OneMoreMoved(moved, chain, i);
        i := i + 1;
      }
      assert chain[..i] == chain;
    }

    /** HASH_EXPAND_BUCKETS */
    method ExpandBuckets()
      requires buckets.Length == Pow2(log2NumBuckets) && numItems == |list| >= 1
      requires Represents(buckets[..], log2NumBuckets, list)
      modifies this`buckets, this`log2NumBuckets, this`idealChainMaxlen, this`nonidealItems, this`ineffExpands, this`noexpand
      ensures fresh(buckets) && buckets.Length == Pow2(log2NumBuckets) == 2 * old(buckets.Length)
      ensures Represents(buckets[..], log2NumBuckets, list)
      ensures idealChainMaxlen == CeilDiv(numItems, buckets.Length) >= 1
      ensures nonidealItems == Excess(buckets[..], idealChainMaxlen)
      ensures Bounded(buckets[..], idealChainMaxlen)
      ensures ineffExpands == if nonidealItems > numItems / 2 then old(ineffExpands) + 1 else 0
      ensures noexpand <==> old(noexpand) || ineffExpands >= 2
    {
      hide BucketOf, Union, Expanding, IdealChainMaxlen, Bounded, CeilDiv;
      idealChainMaxlen := IdealChainMaxlen(numItems, log2NumBuckets);
      IdealIsCeiling(numItems, log2NumBuckets);
      AtLeastOne(numItems, 2 * Pow2(log2NumBuckets));
      nonidealItems := 0;
      ghost var oldBuckets := buckets[..];
      var newBuckets := new Bucket[2 * buckets.Length](_ => EMPTY);
      StartExpanding(newBuckets[..], log2NumBuckets + 1, idealChainMaxlen);
      var i := 0;
      while i < buckets.Length
        invariant 0 <= i <= buckets.Length
        invariant Expanding(newBuckets[..], log2NumBuckets + 1, Union(oldBuckets[..i]), idealChainMaxlen, nonidealItems)
        modifies newBuckets, this`nonidealItems
      {
        UnionSnoc(oldBuckets, i);
        MoveChain(newBuckets, log2NumBuckets + 1, buckets[i].chain, Union(oldBuckets[..i]));
        i := i + 1;
      }
      assert oldBuckets[..i] == oldBuckets;
      Expanded(newBuckets[..], log2NumBuckets + 1, Union(oldBuckets), idealChainMaxlen, nonidealItems);
      buckets := newBuckets;
      log2NumBuckets := log2NumBuckets + 1;
      ineffExpands := if nonidealItems > numItems / 2 then ineffExpands + 1 else 0;
      if ineffExpands > 1 {
        noexpand := true;
      }
    }
  }

  method MergeRuns(s: seq<Item>, start: nat, insize: nat, sorted': seq<Item>, ord: Item -> int, cmp: (int, int) -> int)
    returns (sorted: seq<Item>, q: nat)
    requires insize >= 1 && start < |s|
    ensures var m, n := start + Min(insize, |s| - start), Min(start + 2 * insize, |s|);
            q == n && sorted == sorted' + M.Merge(s[start..m], s[m..n], ord, cmp)
  {
    hide M.Remaining, M.Merge;
    var p, psize, qsize := start, Min(insize, |s| - start), insize;
    ghost var m, n := start + psize, Min(start + 2 * insize, |s|);
    q, sorted := start + psize, sorted';
    ghost var target := sorted' + M.Merge(s[start..m], s[m..n], ord, cmp);
    M.AllRemaining(s, start, m, n, sorted, ord, cmp);
    while psize > 0 || (qsize > 0 && q < |s|)
      invariant start <= p <= m <= q <= n && psize == m - p && qsize == insize - (q - m)
      invariant M.Remaining(s, p, m, q, n, sorted, target, ord, cmp)
      decreases m - p + n - q
    {
      M.Peel(s, p, m, q, n, ord, cmp, sorted, target);
      if psize == 0 {
        sorted, q, qsize := sorted + [s[q]], q + 1, qsize - 1;
      } else if qsize == 0 || q == |s| {
        sorted, p, psize := sorted + [s[p]], p + 1, psize - 1;
      } else if cmp(ord(s[p]), ord(s[q])) <= 0 {
        sorted, p, psize := sorted + [s[p]], p + 1, psize - 1;
      } else {
        sorted, q, qsize := sorted + [s[q]], q + 1, qsize - 1;
      }
    }
    M.NothingLeft(s, m, n, sorted, target, ord, cmp);
  }

  /** A key that the table does not have. */
  lemma NewKey(list: seq<Item>, x: Item)
    requires UniqueKeys(list) && x.key !in ToMap(list)
    ensures UniqueKeys(list + [x]) && ToMap(list + [x]) == ToMap(list)[x.key := x]
  {
    hide ToMap;
    MapMeaning(list);
    ToMapAppend(list, x);
  }

  lemma HashesPlaced(a: seq<Item>, b: seq<Item>, hash: int -> nat)
    requires multiset(a) == multiset(b) && forall i :: 0 <= i < |a| ==> a[i].hashv == hash(a[i].key)
    ensures forall i :: 0 <= i < |b| ==> b[i].hashv == hash(b[i].key)
  {
    forall i | 0 <= i < |b| ensures b[i].hashv == hash(b[i].key) {
      assert b[i] in multiset(a);
      var j :| 0 <= j < |a| && a[j] == b[i];
    }
  }

  lemma SameRepresentation(bs: seq<Bucket>, log2: nat, a: seq<Item>, b: seq<Item>)
    requires multiset(a) == multiset(b)
    ensures Represents(bs, log2, a) ==> Represents(bs, log2, b)
  {
  }

  lemma Unlinked(bs: seq<Bucket>, b: nat, removed: Bucket, c: nat, list: seq<Item>, i: nat)
    requires b < |bs| && c < |bs[b].chain| && i < |list| && bs[b].chain[c] == list[i]
    requires removed.chain == Without(bs[b].chain, c) && Union(bs) == multiset(list)
    ensures Union(bs[b := removed]) == multiset(Without(list, i))
  {
    hide Union;
    UnionUpdate(bs, b, removed, 0);
    WithoutMultiset(bs[b].chain, c);
    WithoutMultiset(list, i);
    var u, r, x, w := Union(bs[b := removed]), multiset(removed.chain), multiset{list[i]}, multiset(Without(list, i));
    assert u + (r + x) == (w + x) + r;
    assert u + (r + x) == (u + x) + r && (w + x) + r == w + (x + r);
    Cancel(u + x, w + x, r);
    Cancel(u, w, x);
  }

  lemma Pushed(bs: seq<Bucket>, b: nat, added: Bucket, x: Item, before: seq<Item>)
    requires b < |bs| && added.chain == [x] + bs[b].chain && Union(bs) == multiset(before)
    ensures Union(bs[b := added]) == multiset(before + [x])
  {
    hide Union;
    UnionUpdate(bs, b, added, 0);
    assert multiset(added.chain) == multiset{x} + multiset(bs[b].chain);
    assert Union(bs) + (multiset{x} + multiset(bs[b].chain)) == Union(bs) + multiset{x} + multiset(bs[b].chain);
    Cancel(Union(bs[b := added]), Union(bs) + multiset{x}, multiset(bs[b].chain));
  }

  lemma OneMoreMoved(moved: multiset<Item>, chain: seq<Item>, i: nat)
    requires i < |chain|
    ensures moved + multiset(chain[..i]) + multiset{chain[i]} == moved + multiset(chain[..i + 1])
  {
    assert chain[..i + 1] == chain[..i] + [chain[i]];
  }

  lemma UnionSnoc(bs: seq<Bucket>, i: nat)
    requires i < |bs|
    ensures Union(bs[..i + 1]) == Union(bs[..i]) + multiset(bs[i].chain)
  {
    assert bs[..i + 1][..i] == bs[..i];
  }

  lemma Expanded(bs: seq<Bucket>, log2: nat, moved: multiset<Item>, ideal: nat, nonideal: nat)
    requires Expanding(bs, log2, moved, ideal, nonideal)
    ensures Placed(bs, log2) && Union(bs) == moved && nonideal == Excess(bs, ideal) && Bounded(bs, ideal)
  {
  }

  lemma StartExpanding(bs: seq<Bucket>, log2: nat, ideal: nat)
    requires |bs| == Pow2(log2) && forall b :: 0 <= b < |bs| ==> bs[b] == EMPTY
    ensures Expanding(bs, log2, Union([]), ideal, 0)
  {
    NothingMoved(bs, ideal);
  }

  lemma AtLeastOne(n: nat, d: nat)
    requires n >= 1 && d >= 1
    ensures CeilDiv(n, d) >= 1
  {
  }
}
