/**
 The hash table with 64-bit keys: one doubly linked list of all elements, in which the elements of a bucket
 stand side by side; a bucket knows the first of them and how many they are.
 */
module HashI64 {

  class Elem {
    var iKey: nat
    var data: int
    var next: Elem?
    var prev: Elem?

    constructor (iKey: nat, data: int)
      ensures this.iKey == iKey && this.data == data
    {
      this.iKey, this.data, next, prev := iKey, data, null, null;
    }
  }

  datatype Bucket = Bucket(count: nat, chain: Elem?)

  datatype Pair = Pair(key: nat, data: int)

  function At(list: seq<Elem>, i: int): Elem? {
    if 0 <= i < |list| then list[i] else null
  }

  ghost predicate Distinct(list: seq<Elem>) {
    forall i, j :: 0 <= i < j < |list| ==> list[i] != list[j]
  }

  /** The elements are linked in both directions in this order. */
  ghost predicate Linked(list: seq<Elem>)
    reads list`next, list`prev
  {
    forall i :: 0 <= i < |list| ==> list[i].next == At(list, i + 1) && list[i].prev == At(list, i - 1)
  }

  function Inserted<T>(s: seq<T>, p: nat, x: T): (r: seq<T>)
    requires p <= |s|
    ensures |r| == |s| + 1
    ensures forall i :: 0 <= i < |r| ==> r[i] == if i < p then s[i] else if i == p then x else s[i - 1]
  {
    s[..p] + [x] + s[p..]
  }

  function Removed<T>(s: seq<T>, p: nat): (r: seq<T>)
    requires p < |s|
    ensures |r| == |s| - 1 && forall i :: 0 <= i < |r| ==> r[i] == if i < p then s[i] else s[i + 1]
  {
    s[..p] + s[p + 1..]
  }

  lemma AtInserted(list: seq<Elem>, p: nat, x: Elem, i: int)
    requires p <= |list|
    ensures At(Inserted(list, p, x), i) == if i < p then At(list, i) else if i == p then x else At(list, i - 1)
  {
  }

  lemma AtRemoved(list: seq<Elem>, p: nat, i: int)
    requires p < |list|
    ensures At(Removed(list, p), i) == if i < p then At(list, i) else At(list, i + 1)
  {
  }

  /** The pointers of a list with x put in at p, given those of the list without it. */
  lemma LinkedInserted(list: seq<Elem>, p: nat, x: Elem, nexts: seq<Elem?>, prevs: seq<Elem?>)
    requires p <= |list| == |nexts| == |prevs|
    requires forall i :: 0 <= i < |list| ==> nexts[i] == At(list, i + 1) && prevs[i] == At(list, i - 1)
    requires x.next == At(list, p) && x.prev == At(list, p - 1)
    requires forall i :: 0 <= i < |list| ==> list[i].next == if i == p - 1 then x else nexts[i]
    requires forall i :: 0 <= i < |list| ==> list[i].prev == if i == p then x else prevs[i]
    ensures Linked(Inserted(list, p, x))
  {
    hide At;
    var r := Inserted(list, p, x);
    forall i | 0 <= i < |r| ensures r[i].next == At(r, i + 1) && r[i].prev == At(r, i - 1) {
      AtInserted(list, p, x, i);
      AtInserted(list, p, x, i + 1);
      AtInserted(list, p, x, i - 1);
    }
  }

  lemma LinkedRemoved(list: seq<Elem>, p: nat, nexts: seq<Elem?>, prevs: seq<Elem?>)
    requires p < |list| == |nexts| == |prevs|
    requires forall i :: 0 <= i < |list| ==> nexts[i] == At(list, i + 1) && prevs[i] == At(list, i - 1)
    requires forall i :: 0 <= i < |list| && i != p ==> list[i].next == if i == p - 1 then nexts[p] else nexts[i]
    requires forall i :: 0 <= i < |list| && i != p ==> list[i].prev == if i == p + 1 then prevs[p] else prevs[i]
    ensures Linked(Removed(list, p))
  {
    hide At;
    var r := Removed(list, p);
    forall i | 0 <= i < |r| ensures r[i].next == At(r, i + 1) && r[i].prev == At(r, i - 1) {
      AtRemoved(list, p, i);
      AtRemoved(list, p, i + 1);
      AtRemoved(list, p, i - 1);
    }
  }

  /** Element p stands in no other place. */
  ghost predicate Only(list: seq<Elem>, p: int) {
    0 <= p < |list| ==> forall i :: 0 <= i < |list| && i != p ==> list[i] != list[p]
  }

  lemma DistinctOnly(list: seq<Elem>, p: int)
    requires Distinct(list)
    ensures Only(list, p)
  {
  }

  lemma DistinctInserted(list: seq<Elem>, p: nat, x: Elem)
    requires Distinct(list) && x !in list && p <= |list|
    ensures Distinct(Inserted(list, p, x))
  {
  }

  lemma DistinctRemoved(list: seq<Elem>, p: nat)
    requires Distinct(list) && p < |list|
    ensures Distinct(Removed(list, p))
  {
  }

  ghost function Nexts(list: seq<Elem>): (r: seq<Elem?>)
    reads list
    ensures |r| == |list| && forall i :: 0 <= i < |list| ==> r[i] == list[i].next
  {
    seq(|list|, i requires 0 <= i < |list| reads list => list[i].next)
  }

  ghost function Prevs(list: seq<Elem>): (r: seq<Elem?>)
    reads list
    ensures |r| == |list| && forall i :: 0 <= i < |list| ==> r[i] == list[i].prev
  {
    seq(|list|, i requires 0 <= i < |list| reads list => list[i].prev)
  }

  lemma Pointers(list: seq<Elem>)
    requires Linked(list)
    ensures forall i :: 0 <= i < |list| ==> Nexts(list)[i] == At(list, i + 1) && Prevs(list)[i] == At(list, i - 1)
  {
  }

  /** Links x before head. */
  method LinkBefore(ghost list: seq<Elem>, ghost p: nat, head: Elem, first: Elem?, x: Elem) returns (first': Elem?)
    requires Distinct(list) && Linked(list) && first == At(list, 0) && x !in list && p < |list| && list[p] == head
    modifies list`next, list`prev, x`next, x`prev
    ensures Distinct(Inserted(list, p, x)) && Linked(Inserted(list, p, x)) && first' == At(Inserted(list, p, x), 0)
  {
    hide Distinct, Inserted, Nexts, Prevs, Linked;
    ghost var nexts, prevs := Nexts(list), Prevs(list);
    Pointers(list);
    DistinctOnly(list, p);
    DistinctOnly(list, p - 1);
    DistinctInserted(list, p, x);
    assert head.prev == prevs[p];
    first' := first;
    x.next := head;
    x.prev := head.prev;
    if head.prev != null {
      head.prev.next := x;
    } else {
      first' := x;
    }
    head.prev := x;
    LinkedInserted(list, p, x, nexts, prevs);
    AtInserted(list, p, x, 0);
  }

  /** Links x at the front of the list. */
  method LinkFront(ghost list: seq<Elem>, first: Elem?, x: Elem) returns (first': Elem?)
    requires Distinct(list) && Linked(list) && first == At(list, 0) && x !in list
    modifies list`next, list`prev, x`next, x`prev
    ensures Distinct(Inserted(list, 0, x)) && Linked(Inserted(list, 0, x)) && first' == At(Inserted(list, 0, x), 0)
  {
    hide Distinct, Inserted, Nexts, Prevs, Linked;
    ghost var nexts, prevs := Nexts(list), Prevs(list);
    Pointers(list);
    DistinctOnly(list, 0);
    DistinctInserted(list, 0, x);
    x.next := first;
    if first != null {
      first.prev := x;
    }
    x.prev := null;
    first' := x;
    LinkedInserted(list, 0, x, nexts, prevs);
    AtInserted(list, 0, x, 0);
  }

  /** Links x before the head of its bucket, or at the front of the list when the bucket is empty. */
  method Link(ghost list: seq<Elem>, ghost p: nat, head: Elem?, first: Elem?, x: Elem) returns (first': Elem?)
    requires Distinct(list) && Linked(list) && first == At(list, 0) && x !in list
    requires if head == null then p == 0 else p < |list| && list[p] == head
    modifies list`next, list`prev, x`next, x`prev
    ensures Distinct(Inserted(list, p, x)) && Linked(Inserted(list, p, x)) && first' == At(Inserted(list, p, x), 0)
  {
    hide *;
    if head != null {
      first' := LinkBefore(list, p, head, first, x);
    } else {
      first' := LinkFront(list, first, x);
    }
  }

  /** Takes element p out of the list. */
  method Unlink(ghost list: seq<Elem>, ghost p: nat, x: Elem, first: Elem?) returns (first': Elem?)
    requires Distinct(list) && Linked(list) && first == At(list, 0) && p < |list| && list[p] == x
    modifies list`next, list`prev
    ensures Distinct(Removed(list, p)) && Linked(Removed(list, p)) && first' == At(Removed(list, p), 0)
  {
    hide Distinct, Removed, Nexts, Prevs, Linked;
    ghost var nexts, prevs := Nexts(list), Prevs(list);
    Pointers(list);
    DistinctOnly(list, p);
    DistinctOnly(list, p - 1);
    DistinctOnly(list, p + 1);
    DistinctRemoved(list, p);
    assert x.prev == prevs[p] && x.next == nexts[p];
    first' := first;
    if x.prev != null {
      x.prev.next := x.next;
    } else {
      first' := x.next;
    }
    if x.next != null {
      x.next.prev := x.prev;
    }
    LinkedRemoved(list, p, nexts, prevs);
    AtRemoved(list, p, 0);
  }

  /** The elements hold these keys and data. */
  ghost predicate Match(list: seq<Elem>, pairs: seq<Pair>)
    reads list`iKey, list`data
  {
    |list| == |pairs| && forall i :: 0 <= i < |list| ==> list[i].iKey == pairs[i].key && list[i].data == pairs[i].data
  }

  function HashOf(key: nat, n: nat): nat
    requires n > 0
    ensures HashOf(key, n) < n
  {
    key % n
  }

  /** The bucket index of a signed key: a remainder with the sign of the key, taken as an unsigned 32-bit number. */
  function Index(key: int, n: nat): nat
    requires n > 0
  {
    var rem := if key >= 0 then key % n else -(-key % n);
    rem % 0x1_0000_0000
  }

  /** Keys that are not negative have a bucket; of the others only the multiples of the number of buckets do. */
  lemma IndexIsBucketIff(key: int, n: nat)
    requires 0 < n <= 0x8000_0000
    ensures Index(key, n) < n <==> key >= 0 || -key % n == 0
    ensures key >= 0 ==> Index(key, n) == HashOf(key, n)
  {
    var rem := if key >= 0 then key % n else -(-key % n);
    if rem < 0 {
      assert rem % 0x1_0000_0000 == rem + 0x1_0000_0000;
    }
  }

  ghost predicate InSegment(start: nat, count: nat, i: nat) {
    start <= i < start + count
  }

  /** The elements of each bucket are those of its segment. */
  ghost predicate Segments(pairs: seq<Pair>, ht: seq<Bucket>, starts: seq<nat>) {
    && |starts| == |ht|
    && (forall h, i | 0 <= h < |ht| && 0 <= i < |pairs| ::
          InSegment(starts[h], ht[h].count, i) <==> HashOf(pairs[i].key, |ht|) == h)
    && (forall h :: 0 <= h < |ht| && ht[h].count > 0 ==> starts[h] + ht[h].count <= |pairs|)
  }

  /** Where an element of bucket h is put. */
  ghost function Place(ht: seq<Bucket>, starts: seq<nat>, h: nat): nat
    requires h < |ht| == |starts|
  {
    if ht[h].count > 0 then starts[h] else 0
  }

  /** The segments that begin behind the new element move by one. */
  ghost function ShiftedUp(starts: seq<nat>, p: nat, h: nat): (r: seq<nat>)
    requires h < |starts|
    ensures |r| == |starts|
    ensures forall g :: 0 <= g < |r| ==>
              r[g] == if g == h then p else if starts[g] >= p then starts[g] + 1 else starts[g]
  {
    seq(|starts|, g requires 0 <= g < |starts| =>
      if g == h then p else if starts[g] >= p then starts[g] + 1 else starts[g])
  }

  ghost function ShiftedDown(starts: seq<nat>, p: nat): (r: seq<nat>)
    ensures |r| == |starts| && forall g :: 0 <= g < |r| ==> r[g] == if starts[g] > p then starts[g] - 1 else starts[g]
  {
    seq(|starts|, g requires 0 <= g < |starts| => if starts[g] > p then starts[g] - 1 else starts[g])
  }

  lemma SegmentsInsert(pairs: seq<Pair>, ht: seq<Bucket>, starts: seq<nat>, x: Pair, b: Bucket)
    requires ht != [] && Segments(pairs, ht, starts)
    requires b.count == ht[HashOf(x.key, |ht|)].count + 1
    ensures var h := HashOf(x.key, |ht|);
            var p := Place(ht, starts, h);
            p <= |pairs| && Segments(Inserted(pairs, p, x), ht[h := b], ShiftedUp(starts, p, h))
  {
    hide HashOf, ShiftedUp;
    var n := |ht|;
    var h := HashOf(x.key, n);
    var p := Place(ht, starts, h);
    var pairs', ht', starts' := Inserted(pairs, p, x), ht[h := b], ShiftedUp(starts, p, h);
    forall g, i | 0 <= g < n && 0 <= i < |pairs'|
      ensures InSegment(starts'[g], ht'[g].count, i) <==> HashOf(pairs'[i].key, n) == g
    {
      if i != p {
        var j := if i < p then i else i - 1;
        assert pairs'[i] == pairs[j];
        assert InSegment(starts[g], ht[g].count, j) <==> HashOf(pairs[j].key, n) == g;
      }
      if ht[h].count > 0 && g != h {
        assert InSegment(starts[h], ht[h].count, p);
        assert InSegment(starts[g], ht[g].count, p) <==> HashOf(pairs[p].key, n) == g;
      }
    }
  }

  lemma SegmentsRemove(pairs: seq<Pair>, ht: seq<Bucket>, starts: seq<nat>, p: nat, b: Bucket)
    requires ht != [] && Segments(pairs, ht, starts) && p < |pairs|
    requires b.count == ht[HashOf(pairs[p].key, |ht|)].count - 1
    ensures Segments(Removed(pairs, p), ht[HashOf(pairs[p].key, |ht|) := b], ShiftedDown(starts, p))
  {
  }

  /** The chain of a bucket that is not empty starts at its first element; that of an empty one may be stale. */
  ghost predicate Chains(list: seq<Elem>, ht: seq<Bucket>, starts: seq<nat>) {
    |starts| == |ht| && forall h :: 0 <= h < |ht| && ht[h].count > 0 ==> ht[h].chain == At(list, starts[h])
  }

  lemma ChainsInsert(list: seq<Elem>, ht: seq<Bucket>, starts: seq<nat>, p: nat, h: nat, x: Elem)
    requires Chains(list, ht, starts) && p <= |list| && h < |ht|
    ensures Chains(Inserted(list, p, x), ht[h := Bucket(ht[h].count + 1, x)], ShiftedUp(starts, p, h))
  {
  }

  lemma ChainsRemove(list: seq<Elem>, pairs: seq<Pair>, ht: seq<Bucket>, starts: seq<nat>, p: nat, chain: Elem?)
    requires ht != [] && Chains(list, ht, starts) && Segments(pairs, ht, starts) && p < |list| == |pairs|
    requires Distinct(list)
    requires var h := HashOf(pairs[p].key, |ht|);
             ht[h].count > 0 && chain == if ht[h].chain == list[p] then At(list, p + 1) else ht[h].chain
    ensures var h := HashOf(pairs[p].key, |ht|);
            Chains(Removed(list, p), ht[h := Bucket(ht[h].count - 1, chain)], ShiftedDown(starts, p))
  {
  }

  ghost predicate KeysDiffer(pairs: seq<Pair>) {
    && (forall i, j :: 0 <= i < j < |pairs| ==> pairs[i].key != pairs[j].key)
    && (forall i :: 0 <= i < |pairs| ==> pairs[i].data != 0)
  }

  ghost predicate HasKey(pairs: seq<Pair>, key: nat) {
    exists i :: 0 <= i < |pairs| && pairs[i].key == key
  }

  lemma KeysInsert(pairs: seq<Pair>, p: nat, x: Pair)
    requires KeysDiffer(pairs) && p <= |pairs| && !HasKey(pairs, x.key) && x.data != 0
    ensures KeysDiffer(Inserted(pairs, p, x))
  {
  }

  lemma KeysRemove(pairs: seq<Pair>, p: nat)
    requires KeysDiffer(pairs) && p < |pairs|
    ensures KeysDiffer(Removed(pairs, p))
  {
  }

  /** The pairs are those of a map. */
  ghost predicate IsMap(pairs: seq<Pair>, m: map<nat, int>) {
    forall x: Pair :: x in pairs <==> x.key in m && m[x.key] == x.data
  }

  lemma MapInsert(pairs: seq<Pair>, m: map<nat, int>, p: nat, x: Pair)
    requires IsMap(pairs, m) && p <= |pairs| && !HasKey(pairs, x.key)
    ensures IsMap(Inserted(pairs, p, x), m[x.key := x.data]) && x.key !in m
  {
    KeyInMap(pairs, m, x.key);
    var r := Inserted(pairs, p, x);
    assert r == pairs[..p] + [x] + pairs[p..] && pairs == pairs[..p] + pairs[p..];
    forall y: Pair ensures y in r <==> y in pairs || y == x {
    }
  }

  lemma MapRemove(pairs: seq<Pair>, m: map<nat, int>, p: nat)
    requires IsMap(pairs, m) && KeysDiffer(pairs) && p < |pairs|
    ensures pairs[p].key in m && m[pairs[p].key] == pairs[p].data && IsMap(Removed(pairs, p), m - {pairs[p].key})
  {
  }

  lemma MapReplace(pairs: seq<Pair>, m: map<nat, int>, p: nat, data: int)
    requires IsMap(pairs, m) && KeysDiffer(pairs) && p < |pairs| && data != 0
    ensures pairs[p].key in m && m[pairs[p].key] == pairs[p].data
    ensures KeysDiffer(pairs[p := Pair(pairs[p].key, data)])
    ensures IsMap(pairs[p := Pair(pairs[p].key, data)], m[pairs[p].key := data])
  {
    var k := pairs[p].key;
    var r := pairs[p := Pair(k, data)];
    assert pairs[p] in pairs;
    forall y: Pair ensures y in r <==> if y.key == k then y.data == data else y in pairs {
      if y in r {
        var i :| 0 <= i < |r| && r[i] == y;
      }
      if y.key != k && y in pairs {
        var i :| 0 <= i < |pairs| && pairs[i] == y;
        assert r[i] == y;
      }
      assert r[p] == Pair(k, data);
    }
  }

  lemma KeyInMap(pairs: seq<Pair>, m: map<nat, int>, key: nat)
    requires IsMap(pairs, m)
    ensures HasKey(pairs, key) <==> key in m
  {
    if HasKey(pairs, key) {
      var i :| 0 <= i < |pairs| && pairs[i].key == key;
      assert pairs[i] in pairs;
    }
    if key in m {
      assert Pair(key, m[key]) in pairs;
    }
  }

  /** The elements are linked, hold the pairs, and stand bucket by bucket. */
  ghost predicate Shaped(first: Elem?, list: seq<Elem>, pairs: seq<Pair>, ht: seq<Bucket>, starts: seq<nat>)
    reads list
  {
    && Distinct(list) && Linked(list) && first == At(list, 0) && Match(list, pairs) && KeysDiffer(pairs)
    && Segments(pairs, ht, starts) && Chains(list, ht, starts)
  }

  lemma MatchInserted(list: seq<Elem>, pairs: seq<Pair>, p: nat, x: Elem)
    requires Match(list, pairs) && p <= |list|
    ensures Match(Inserted(list, p, x), Inserted(pairs, p, Pair(x.iKey, x.data)))
  {
  }

  lemma MatchRemoved(list: seq<Elem>, pairs: seq<Pair>, p: nat)
    requires Match(list, pairs) && p < |list|
    ensures Match(Removed(list, p), Removed(pairs, p))
  {
  }

  const SOFT_LIMIT: nat := 64

  /** A table of ten elements or more, and more than two to a bucket, gets two buckets an element, up to the limit. */
  function BucketsFor(n: nat, buckets: nat, alloc: bool): nat {
    if n >= 10 && n > 2 * buckets && alloc then (if 2 * n < 64 then 2 * n else 64) else buckets
  }

  lemma Growth(n: nat, buckets: nat, alloc: bool)
    ensures BucketsFor(n, buckets, alloc) ==
            if n >= 10 && n > 2 * buckets && alloc then (if 2 * n < 64 then 2 * n else 64) else buckets
  {
  }

  /** A call of Insert, with the outcomes of its allocations. */
  datatype Op = Op(key: nat, data: int, allocElem: bool, allocBuckets: bool)

  function MapReply(m: map<nat, int>, op: Op): int {
    if op.key in m then m[op.key] else if op.data == 0 || !op.allocElem then op.data else 0
  }

  function MapStep(m: map<nat, int>, op: Op): map<nat, int> {
    if op.data == 0 then m - {op.key}
    else if op.key in m || op.allocElem then m[op.key := op.data]
    else m
  }

  function MapAfter(m: map<nat, int>, ops: seq<Op>): map<nat, int> {
    if ops == [] then m else MapStep(MapAfter(m, ops[..|ops| - 1]), ops[|ops| - 1])
  }

  function RepliesTo(m: map<nat, int>, ops: seq<Op>): seq<int> {
    if ops == [] then []
    else
      var before := ops[..|ops| - 1];
      RepliesTo(m, before) + [MapReply(MapAfter(m, before), ops[|ops| - 1])]
  }

  class HashTable {
    var first: Elem?
    var count: nat
    var ht: seq<Bucket>
    /** All elements in the order of the list, what they hold, and where each bucket starts. */
    ghost var list: seq<Elem>
    ghost var pairs: seq<Pair>
    ghost var starts: seq<nat>
    ghost var m: map<nat, int>

    ghost predicate Valid()
      reads this, list
    {
      Shaped(first, list, pairs, ht, starts) && count == |list| && IsMap(pairs, m)
    }

    constructor ()
      ensures Valid() && m == map[] && list == []
    {
      first, count, ht := null, 0, [];
      list, pairs, starts, m := [], [], [], map[];
    }

    /** Links x into the list while there are no buckets. */
    method InsertFront(x: Elem)
      requires Shaped(first, list, pairs, ht, starts) && x !in list && x.data != 0 && !HasKey(pairs, x.iKey) && ht == []
      modifies this`first, this`list, this`pairs, list`next, list`prev, x`next, x`prev
      ensures Shaped(first, list, pairs, ht, starts)
      ensures list == Inserted(old(list), 0, x) && pairs == Inserted(old(pairs), 0, Pair(x.iKey, x.data))
    {
      hide Shaped, Distinct, Linked, At, KeysDiffer, Segments, Chains, HasKey, Inserted, ShiftedUp, Place, HashOf;
      Parts(first, list, pairs, ht, starts);
      NoBuckets(list, pairs, starts, Inserted(list, 0, x), Inserted(pairs, 0, Pair(x.iKey, x.data)));
      KeysInsert(pairs, 0, Pair(x.iKey, x.data));
      first := LinkFront(list, first, x);
      MatchInserted(list, pairs, 0, x);
      list, pairs := Inserted(list, 0, x), Inserted(pairs, 0, Pair(x.iKey, x.data));
      Whole(first, list, pairs, ht, starts);
    }

    /** Links x into the list at the front of its bucket. */
    method InsertBucket(h: nat, x: Elem) returns (ghost p: nat)
      requires Shaped(first, list, pairs, ht, starts) && x !in list && x.data != 0 && !HasKey(pairs, x.iKey)
      requires ht != [] && h == HashOf(x.iKey, |ht|)
      modifies this`first, this`ht, this`list, this`pairs, this`starts, list`next, list`prev, x`next, x`prev
      ensures Shaped(first, list, pairs, ht, starts) && |ht| == |old(ht)|
      ensures p <= |old(list)| == |old(pairs)| && list == Inserted(old(list), p, x)
      ensures pairs == Inserted(old(pairs), p, Pair(x.iKey, x.data))
    {
      hide Shaped, Distinct, Linked, At, KeysDiffer, Segments, Chains, HasKey, Inserted, ShiftedUp, Place, HashOf;
      Parts(first, list, pairs, ht, starts);
      p := Place(ht, starts, h);
      SegmentsInsert(pairs, ht, starts, Pair(x.iKey, x.data), Bucket(ht[h].count + 1, x));
      ChainsInsert(list, ht, starts, p, h, x);
      KeysInsert(pairs, p, Pair(x.iKey, x.data));
      ChainHead(list, pairs, ht, starts, h);
      first := Link(list, p, if ht[h].count > 0 then ht[h].chain else null, first, x);
      MatchInserted(list, pairs, p, x);
      starts := ShiftedUp(starts, p, h);
      ht := ht[h := Bucket(ht[h].count + 1, x)];
      list, pairs := Inserted(list, p, x), Inserted(pairs, p, Pair(x.iKey, x.data));
      Whole(first, list, pairs, ht, starts);
    }

    /** Links x into the list, and into its bucket when there are buckets. */
    method InsertElement(h: nat, x: Elem) returns (ghost p: nat)
      requires Shaped(first, list, pairs, ht, starts) && x !in list && x.data != 0 && !HasKey(pairs, x.iKey)
      requires ht != [] ==> h == HashOf(x.iKey, |ht|)
      modifies this`first, this`ht, this`list, this`pairs, this`starts, list`next, list`prev, x`next, x`prev
      ensures Shaped(first, list, pairs, ht, starts) && |ht| == |old(ht)|
      ensures p <= |old(list)| == |old(pairs)| && list == Inserted(old(list), p, x)
      ensures pairs == Inserted(old(pairs), p, Pair(x.iKey, x.data))
    {
      Parts(first, list, pairs, ht, starts);
      hide *;
      if ht != [] {
        p := InsertBucket(h, x);
      } else {
        InsertFront(x);
        p := 0;
      }
    }

    /** Looks for a key, in its bucket or, without buckets, in the whole list. */
    method FindElement(iKey: nat) returns (elem: Elem?, h: nat, ghost p: nat)
      requires Valid()
      ensures elem != null ==> p < |list| && list[p] == elem && elem.iKey == iKey
      ensures elem == null <==> !HasKey(pairs, iKey)
      ensures ht != [] ==> h == HashOf(iKey, |ht|)
    {
      Parts(first, list, pairs, ht, starts);
      assert count == |list|;
      hide *;
      if ht != [] {
        h := HashOf(iKey, |ht|);
        HashInRange(iKey, |ht|);
        ChainHead(list, pairs, ht, starts, h);
        elem, p := Walk(list, pairs, ht[h].chain, ht[h].count, iKey, starts[h]);
        BucketHolds(pairs, ht, starts, iKey, p);
      } else {
        h := 0;
        FrontOf(list);
        elem, p := Walk(list, pairs, first, count, iKey, 0);
        ListHolds(pairs, iKey, p);
      }
    }

    lemma ValidParts()
      requires Valid()
      ensures Distinct(list) && Linked(list) && first == At(list, 0) && Match(list, pairs) && |list| == |pairs| == count
      ensures KeysDiffer(pairs)
      ensures Segments(pairs, ht, starts) && Chains(list, ht, starts) && |starts| == |ht| && IsMap(pairs, m)
      ensures Shaped(first, list, pairs, ht, starts)
    {
    }

    /** Takes an element out of the list and its bucket. */
    method TakeOut(elem: Elem, h: nat, ghost p: nat)
      requires Valid() && p < |list| && list[p] == elem && (ht != [] ==> h == HashOf(elem.iKey, |ht|))
      modifies this, list`next, list`prev
      ensures Shaped(first, list, pairs, ht, starts) && count == |list| && IsMap(pairs, m)
      ensures m == old(m) - {elem.iKey} && elem.iKey in old(m) && list == Removed(old(list), p) && |ht| == |old(ht)|
    {
      hide *;
      ValidParts();
      ghost var key := elem.iKey;
      MatchAt(list, pairs, p);
      MapRemove(pairs, m, p);
      KeysRemove(pairs, p);
      AtNext(list, p);
      StillThere(list, p);
      var ht';
      ghost var starts';
      ht', starts' := DropFromBucket(list, pairs, ht, starts, h, elem, elem.next, p);
      var first' := UnlinkPair(list, pairs, p, elem, first);
      ghost var list', pairs' := Removed(list, p), Removed(pairs, p);
      Whole(first', list', pairs', ht', starts');
      first, ht, count := first', ht', count - 1;
      list, pairs, starts, m := list', pairs', starts', m - {key};
    }

    /** Removes an element; an empty table gives its buckets up. */
    method RemoveElement(elem: Elem, h: nat, ghost p: nat)
      requires Valid() && p < |list| && list[p] == elem && (ht != [] ==> h == HashOf(elem.iKey, |ht|))
      modifies this, list`next, list`prev
      ensures Valid() && m == old(m) - {elem.iKey} && elem.iKey in old(m) && (forall e :: e in list ==> e in old(list))
      ensures |list| == |old(list)| - 1 && |ht| == if list == [] then 0 else |old(ht)|
    {
      hide Shaped, IsMap, HashOf, Removed;
      StillThere(list, p);
      TakeOut(elem, h, p);
      if count == 0 {
        Parts(first, list, pairs, ht, starts);
        first, ht, starts := null, [], [];
        NothingLeft(list, pairs);
      }
    }

    /** Puts the next element of the old list into the new buckets. */
    method MoveNext(elem: Elem, ghost rest: seq<Elem>, ghost restPairs: seq<Pair>, ghost i: nat) returns (next: Elem?)
      requires i < |rest| && elem == rest[i] && ht != [] && Shaped(first, list, pairs, ht, starts)
      requires Linking(rest, i) && Match(rest, restPairs) && Moved(rest, restPairs, i, list, pairs)
      modifies this`first, this`ht, this`list, this`pairs, this`starts, rest`next, rest`prev
      ensures Shaped(first, list, pairs, ht, starts) && |ht| == |old(ht)| && next == At(rest, i + 1)
      ensures Linking(rest, i + 1) && Match(rest, restPairs) && Moved(rest, restPairs, i + 1, list, pairs)
    {
      hide Shaped, Distinct, Linked, At, KeysDiffer, Segments, Chains, HasKey, Inserted, HashOf, Moved;
      Ahead(rest, restPairs, i, list, pairs);
      next := elem.next;
      assert elem in rest;
      ghost var was, wasPairs := list, pairs;
      ghost var p := InsertElement(HashOf(elem.iKey, |ht|), elem);
      MovedStep(rest, restPairs, i, was, wasPairs, p);
    }

    /** Spreads the elements over a new number of buckets; says whether it did. */
    method Rehash(size: nat, alloc: bool) returns (ok: bool)
      requires Shaped(first, list, pairs, ht, starts) && size > 0
      modifies this`first, this`ht, this`list, this`pairs, this`starts, list`next, list`prev
      ensures Shaped(first, list, pairs, ht, starts) && |list| == |old(list)|
      ensures multiset(list) == multiset(old(list)) && multiset(pairs) == multiset(old(pairs))
      ensures if ok then ht != [] else ht == old(ht)
      ensures ok <==> alloc && (if size < 64 then size else 64) != |old(ht)|
      ensures ok ==> |ht| == if size < 64 then size else 64
    {
      var newSize := if size > SOFT_LIMIT then SOFT_LIMIT else size;
      assert newSize > 0;
      hide *;
      if newSize == |ht| || !alloc {
        return false;
      }
      ok := true;
      Parts(first, list, pairs, ht, starts);
      NoneMoved(list, pairs);
      MoveAll(newSize);
    }

    /** Links the elements of the list one by one into new buckets. */
    method MoveAll(newSize: nat)
      requires Shaped(first, list, pairs, ht, starts) && newSize > 0
      requires Linking(list, 0) && Match(list, pairs) && Moved(list, pairs, 0, [], [])
      modifies this`first, this`ht, this`list, this`pairs, this`starts, list`next, list`prev
      ensures Shaped(first, list, pairs, ht, starts) && |list| == |old(list)| && |ht| == newSize
      ensures multiset(list) == multiset(old(list)) && multiset(pairs) == multiset(old(pairs))
    {
      hide *;
      ghost var rest, restPairs := list, pairs;
      Parts(first, list, pairs, ht, starts);
      var elem := first;
      first, ht := null, seq(newSize, _ => Bucket(0, null));
      list, pairs, starts := [], [], seq(newSize, _ => 0);
      EmptyBuckets(ht, starts);
      ghost var i := 0;
      while elem != null
        invariant i <= |rest| && elem == At(rest, i) && |ht| == newSize
        invariant Shaped(first, list, pairs, ht, starts) && Linking(rest, i) && Match(rest, restPairs)
        invariant Moved(rest, restPairs, i, list, pairs)
        decreases |rest| - i
      {
        InList(rest, i);
        elem := MoveNext(elem, rest, restPairs, i);
        i := i + 1;
      }
      AllMoved(rest, restPairs, i, list, pairs);
    }

    /** What the table holds for a key; 0 when there is nothing. */
    method Find(iKey: nat) returns (data: int)
      requires Valid()
      ensures data == if iKey in m then m[iKey] else 0
    {
      hide Shaped, IsMap, HasKey, HashOf;
      var elem, h;
      ghost var p;
      elem, h, p := FindElement(iKey);
      ValidParts();
      KeyInMap(pairs, m, iKey);
      if elem == null {
        return 0;
      }
      MatchAt(list, pairs, p);
      MapAt(pairs, m, p);
      data := elem.data;
    }

    /** Links a new element in, spreading the elements over more buckets first when there are many. */
    method Add(iKey: nat, data: int, h0: nat, allocBuckets: bool)
      requires Valid() && data != 0 && iKey !in m && (ht != [] ==> h0 == HashOf(iKey, |ht|))
      modifies this, list`next, list`prev
      ensures Valid() && m == old(m)[iKey := data] && forall e :: e in list ==> e in old(list) || fresh(e)
      ensures |list| == |old(list)| + 1 && |ht| == BucketsFor(|list|, |old(ht)|, allocBuckets)
    {
      hide *;
      Growth(|list| + 1, |ht|, allocBuckets);
      ValidParts();
      KeyInMap(pairs, m, iKey);
      var h := h0;
      var x := new Elem(iKey, data);
      assert x !in list;
      count := count + 1;
      if count >= 10 && count > 2 * |ht| {
        ghost var was, wasPairs := list, pairs;
        var ok := Rehash(2 * count, allocBuckets);
        SameMembers(was, list);
        SamePairs(wasPairs, pairs, m, iKey);
        if ok {
          h := HashOf(iKey, |ht|);
        }
      }
      ghost var before, pairsBefore := list, pairs;
      ghost var p := InsertElement(h, x);
      InsertedElems(before, p, x);
      MapInsert(pairsBefore, m, p, Pair(iKey, data));
      m := m[iKey := data];
      Reassemble();
    }

    /**
     Puts data under a key and gives back what was there. No data means removal; without memory for
     the element the new data comes back and nothing changes; without memory for buckets they stay as they are.
     */
    method Insert(iKey: nat, data: int, allocElem: bool, allocBuckets: bool) returns (r: int)
      requires Valid()
      modifies this, list
      ensures Valid() && forall e :: e in list ==> e in old(list) || fresh(e)
      ensures iKey in old(m) ==> r == old(m)[iKey] && m == if data == 0 then old(m) - {iKey} else old(m)[iKey := data]
      ensures iKey !in old(m) && (data == 0 || !allocElem) ==> r == data && m == old(m)
      ensures iKey !in old(m) && data != 0 && allocElem ==> r == 0 && m == old(m)[iKey := data]
      ensures iKey !in old(m) && data != 0 && allocElem ==>
                |list| == |old(list)| + 1 && |ht| == BucketsFor(|list|, |old(ht)|, allocBuckets)
      ensures iKey in old(m) && data == 0 ==>
                |list| == |old(list)| - 1 && |ht| == if list == [] then 0 else |old(ht)|
    {
      hide Shaped, IsMap, HasKey, HashOf;
      var elem, h;
      ghost var p;
      elem, h, p := FindElement(iKey);
      ValidParts();
      KeyInMap(pairs, m, iKey);
      if elem != null {
        MatchAt(list, pairs, p);
        MapAt(pairs, m, p);
        r := elem.data;
        if data == 0 {
          RemoveElement(elem, h, p);
        } else {
          Replace(elem, data, p);
        }
        return;
      }
      if data == 0 || !allocElem {
        return data;
      }
      Add(iKey, data, h, allocBuckets);
      r := 0;
    }

    /**
     Every run of insertions, overwritings, removals and rehashings, failing or not, answers and ends as a map
     does.
     */
    method Perform(ops: seq<Op>) returns (rs: seq<int>)
      requires Valid()
      modifies this, list
      ensures Valid() && m == MapAfter(old(m), ops) && rs == RepliesTo(old(m), ops)
    {
      hide Valid, Shaped;
      rs := [];
      for i := 0 to |ops|
        invariant Valid() && m == MapAfter(old(m), ops[..i]) && rs == RepliesTo(old(m), ops[..i])
        invariant forall e :: e in list ==> e in old(list) || fresh(e)
      {
        assert ops[..i + 1][..i] == ops[..i];
        assert forall k :: 0 <= k < |list| ==> list[k] in old(list) || fresh(list[k]);
        var r := Insert(ops[i].key, ops[i].data, ops[i].allocElem, ops[i].allocBuckets);
        rs := rs + [r];
      }
      assert ops[..|ops|] == ops;
    }

    /** New data for an element. */
    method Replace(elem: Elem, data: int, ghost p: nat)
      requires Valid() && p < |list| && list[p] == elem && data != 0
      modifies this`pairs, this`m, elem`data
      ensures Valid() && elem.iKey in old(m) && m == old(m)[elem.iKey := data]
    {
      hide Shaped, Distinct, Linked, At, KeysDiffer, Segments, Chains, IsMap;
      ValidParts();
      DistinctOnly(list, p);
      MapReplace(pairs, m, p, data);
      SameSegments(pairs, ht, starts, p, data);
      elem.data := data;
      m := m[elem.iKey := data];
      pairs := pairs[p := Pair(elem.iKey, data)];
      Whole(first, list, pairs, ht, starts);
    }

    lemma Reassemble()
      requires Shaped(first, list, pairs, ht, starts) && count == |list| && IsMap(pairs, m)
      ensures Valid()
    {
    }
  }

  lemma SameSegments(pairs: seq<Pair>, ht: seq<Bucket>, starts: seq<nat>, p: nat, data: int)
    requires Segments(pairs, ht, starts) && p < |pairs|
    ensures Segments(pairs[p := Pair(pairs[p].key, data)], ht, starts)
  {
  }

  lemma MapAt(pairs: seq<Pair>, m: map<nat, int>, p: nat)
    requires IsMap(pairs, m) && p < |pairs|
    ensures pairs[p].key in m && m[pairs[p].key] == pairs[p].data
  {
  }

  lemma SamePairs(was: seq<Pair>, now: seq<Pair>, m: map<nat, int>, key: nat)
    requires multiset(was) == multiset(now) && IsMap(was, m) && !HasKey(was, key)
    ensures IsMap(now, m) && !HasKey(now, key)
  {
    forall x: Pair ensures x in now <==> x in was {
      assert x in now <==> x in multiset(now);
    }
    KeyInMap(was, m, key);
    KeyInMap(now, m, key);
  }

  lemma SameMembers(was: seq<Elem>, now: seq<Elem>)
    requires multiset(was) == multiset(now)
    ensures (forall e :: e in now <==> e in was) && (forall k :: 0 <= k < |now| ==> now[k] in was)
  {
    forall e ensures e in now <==> e in was {
      assert e in now <==> e in multiset(now);
    }
    forall k | 0 <= k < |now| ensures now[k] in was {
      assert now[k] in multiset(now);
    }
  }

  lemma InsertedElems(s: seq<Elem>, p: nat, x: Elem)
    requires p <= |s|
    ensures |Inserted(s, p, x)| == |s| + 1 && forall e :: e in Inserted(s, p, x) ==> e in s || e == x
  {
  }

  /** The first i elements of the old list are in the new one. */
  ghost predicate Moved(rest: seq<Elem>, restPairs: seq<Pair>, i: nat, list: seq<Elem>, pairs: seq<Pair>) {
    && i <= |rest| == |restPairs| && |list| == |pairs| == i && Distinct(rest) && KeysDiffer(restPairs)
    && multiset(list) == multiset(rest[..i]) && multiset(pairs) == multiset(restPairs[..i])
  }

  lemma NoneMoved(rest: seq<Elem>, restPairs: seq<Pair>)
    requires Distinct(rest) && KeysDiffer(restPairs) && |rest| == |restPairs| && Linked(rest)
    ensures Moved(rest, restPairs, 0, [], []) && Linking(rest, 0)
  {
  }

  lemma EmptyBuckets(ht: seq<Bucket>, starts: seq<nat>)
    requires |ht| == |starts| && forall h :: 0 <= h < |ht| ==> ht[h].count == 0
    ensures Shaped(null, [], [], ht, starts)
  {
  }

  lemma InList(rest: seq<Elem>, i: nat)
    requires At(rest, i) != null
    ensures i < |rest| && At(rest, i) == rest[i]
  {
  }

  lemma AllMoved(rest: seq<Elem>, restPairs: seq<Pair>, i: nat, list: seq<Elem>, pairs: seq<Pair>)
    requires Moved(rest, restPairs, i, list, pairs) && At(rest, i) == null
    ensures |list| == |rest| && multiset(list) == multiset(rest) && multiset(pairs) == multiset(restPairs)
  {
    assert rest[..i] == rest && restPairs[..i] == restPairs;
  }

  /** The elements not yet moved are not in the new list, and neither are their keys. */
  lemma Ahead(rest: seq<Elem>, restPairs: seq<Pair>, i: nat, list: seq<Elem>, pairs: seq<Pair>)
    requires Moved(rest, restPairs, i, list, pairs) && i < |rest|
    ensures |rest| == |restPairs| && restPairs[i].data != 0 && !HasKey(pairs, restPairs[i].key)
    ensures (forall k :: i <= k < |rest| ==> rest[k] !in list) && (forall k :: 0 <= k < |list| ==> list[k] in rest)
    ensures forall k :: i < k < |rest| ==> rest[k] != rest[i]
  {
    forall j | 0 <= j < |pairs| ensures pairs[j].key != restPairs[i].key {
      assert pairs[j] in multiset(restPairs[..i]);
    }
    forall e | e in list ensures e in rest[..i] {
      assert e in multiset(rest[..i]);
    }
    forall k | 0 <= k < |list| ensures list[k] in rest {
      assert list[k] in rest[..i];
    }
  }

  lemma MovedStep(rest: seq<Elem>, restPairs: seq<Pair>, i: nat, list: seq<Elem>, pairs: seq<Pair>, p: nat)
    requires Moved(rest, restPairs, i, list, pairs) && i < |rest| && p <= |list|
    ensures Moved(rest, restPairs, i + 1, Inserted(list, p, rest[i]), Inserted(pairs, p, restPairs[i]))
  {
    InsertedMembers(list, p, rest[i]);
    InsertedMembers(pairs, p, restPairs[i]);
    assert rest[..i + 1] == rest[..i] + [rest[i]] && restPairs[..i + 1] == restPairs[..i] + [restPairs[i]];
    hide Inserted, Distinct, KeysDiffer;
  }

  lemma InsertedMembers<T>(s: seq<T>, p: nat, x: T)
    requires p <= |s|
    ensures |Inserted(s, p, x)| == |s| + 1 && multiset(Inserted(s, p, x)) == multiset(s) + multiset{x}
  {
    assert s == s[..p] + s[p..];
  }

  lemma MatchAt(list: seq<Elem>, pairs: seq<Pair>, p: nat)
    requires Match(list, pairs) && p < |list|
    ensures |list| == |pairs| && list[p].iKey == pairs[p].key && list[p].data == pairs[p].data
  {
  }

  /** Takes element p out of the list, which leaves the other elements with what they hold. */
  method UnlinkPair(ghost list: seq<Elem>, ghost pairs: seq<Pair>, ghost p: nat, elem: Elem, first: Elem?)
    returns (first': Elem?)
    requires Distinct(list) && Linked(list) && first == At(list, 0) && p < |list| && list[p] == elem
    requires Match(list, pairs) && |pairs| == |list|
    modifies list`next, list`prev
    ensures Distinct(Removed(list, p)) && Linked(Removed(list, p)) && first' == At(Removed(list, p), 0)
    ensures Match(Removed(list, p), Removed(pairs, p))
  {
    hide Distinct, Linked, Removed, At;
    first' := Unlink(list, p, elem, first);
    MatchRemoved(list, pairs, p);
  }

  /** The bucket of a removed element is one shorter and, if it began with it, begins with the next one. */
  method DropFromBucket(ghost list: seq<Elem>, ghost pairs: seq<Pair>, ht: seq<Bucket>, ghost starts: seq<nat>, h: nat,
                        elem: Elem, next: Elem?, ghost p: nat)
    returns (ht': seq<Bucket>, ghost starts': seq<nat>)
    requires Segments(pairs, ht, starts) && Chains(list, ht, starts) && Distinct(list) && p < |list| == |pairs|
    requires list[p] == elem && next == At(list, p + 1) && (ht != [] ==> h == HashOf(pairs[p].key, |ht|))
    ensures Segments(Removed(pairs, p), ht', starts') && Chains(Removed(list, p), ht', starts') && |ht'| == |ht|
  {
    hide *;
    ht', starts' := ht, starts;
    if ht != [] {
      BucketOf(pairs, ht, starts, p);
      var b := Bucket(ht[h].count - 1, if ht[h].chain == elem then next else ht[h].chain);
      SegmentsRemove(pairs, ht, starts, p, b);
      ChainsRemove(list, pairs, ht, starts, p, b.chain);
      ht', starts' := ht[h := b], ShiftedDown(starts, p);
    } else {
      NoBuckets(list, pairs, starts, Removed(list, p), Removed(pairs, p));
    }
  }

  /** The bucket of an element is not empty. */
  lemma BucketOf(pairs: seq<Pair>, ht: seq<Bucket>, starts: seq<nat>, p: nat)
    requires ht != [] && Segments(pairs, ht, starts) && p < |pairs|
    ensures HashOf(pairs[p].key, |ht|) < |ht| && ht[HashOf(pairs[p].key, |ht|)].count > 0
  {
  }

  lemma AtNext(list: seq<Elem>, p: nat)
    requires Linked(list) && p < |list|
    ensures list[p].next == At(list, p + 1)
  {
  }

  lemma StillThere(list: seq<Elem>, p: nat)
    requires p < |list|
    ensures |Removed(list, p)| == |list| - 1 && forall e :: e in Removed(list, p) ==> e in list
  {
  }

  /** An empty list needs no buckets. */
  lemma NothingLeft(list: seq<Elem>, pairs: seq<Pair>)
    requires list == [] && |pairs| == 0
    ensures Shaped(null, list, pairs, [], [])
  {
  }

  /** The elements from i on are still linked forward. */
  ghost predicate Linking(rest: seq<Elem>, i: nat)
    reads rest`next
  {
    forall k :: i <= k < |rest| ==> rest[k].next == At(rest, k + 1)
  }

  lemma HashInRange(key: nat, n: nat)
    requires n > 0
    ensures HashOf(key, n) < n
  {
  }

  lemma FrontOf(list: seq<Elem>)
    ensures |list| > 0 ==> At(list, 0) == list[0]
  {
  }

  lemma NextOf(list: seq<Elem>, p: nat)
    requires Linked(list) && p < |list|
    ensures list[p].next == if p + 1 < |list| then list[p + 1] else null
  {
  }

  /** Follows n elements of the list from lo on. */
  method Walk(ghost list: seq<Elem>, ghost pairs: seq<Pair>, start: Elem?, count: nat, iKey: nat, ghost lo: nat)
    returns (elem: Elem?, ghost p: nat)
    requires Linked(list) && Match(list, pairs) && (count > 0 ==> lo + count <= |list| && start == list[lo])
    ensures |list| == |pairs|
    ensures (elem != null ==> p < |list| && list[p] == elem && elem.iKey == iKey && pairs[p].key == iKey)
    ensures elem == null ==> forall i :: lo <= i < lo + count && i < |pairs| ==> pairs[i].key != iKey
  {
    hide Linked;
    var n := count;
    elem, p := start, lo;
    while n > 0
      invariant lo <= p && p + n == lo + count && (n > 0 ==> lo + count <= |list| && elem == list[p])
      invariant forall i :: lo <= i < p && i < |pairs| ==> pairs[i].key != iKey
    {
      if elem.iKey == iKey {
        return;
      }
      NextOf(list, p);
      elem := elem.next;
      p, n := p + 1, n - 1;
    }
    elem := null;
  }

  lemma ListHolds(pairs: seq<Pair>, key: nat, p: nat)
    ensures p < |pairs| && pairs[p].key == key ==> HasKey(pairs, key)
    ensures (forall i :: 0 <= i < 0 + |pairs| && i < |pairs| ==> pairs[i].key != key) ==> !HasKey(pairs, key)
  {
  }

  /** A key can only be in the segment of its bucket. */
  lemma BucketHolds(pairs: seq<Pair>, ht: seq<Bucket>, starts: seq<nat>, key: nat, p: nat)
    requires ht != [] && Segments(pairs, ht, starts)
    ensures HashOf(key, |ht|) < |ht| == |starts|
    ensures p < |pairs| && pairs[p].key == key ==> HasKey(pairs, key)
    ensures var h := HashOf(key, |ht|);
            (forall i :: starts[h] <= i < starts[h] + ht[h].count && i < |pairs| ==> pairs[i].key != key) ==>
              !HasKey(pairs, key)
  {
  }

  lemma Parts(first: Elem?, list: seq<Elem>, pairs: seq<Pair>, ht: seq<Bucket>, starts: seq<nat>)
    requires Shaped(first, list, pairs, ht, starts)
    ensures Distinct(list) && Linked(list) && first == At(list, 0) && Match(list, pairs) && |list| == |pairs|
    ensures KeysDiffer(pairs)
    ensures Segments(pairs, ht, starts) && Chains(list, ht, starts) && |starts| == |ht|
  {
  }

  lemma Whole(first: Elem?, list: seq<Elem>, pairs: seq<Pair>, ht: seq<Bucket>, starts: seq<nat>)
    requires Distinct(list) && Linked(list) && first == At(list, 0) && Match(list, pairs) && KeysDiffer(pairs)
    requires Segments(pairs, ht, starts) && Chains(list, ht, starts)
    ensures Shaped(first, list, pairs, ht, starts)
  {
  }

  /** Without buckets there is nothing to ask of them. */
  lemma NoBuckets(list: seq<Elem>, pairs: seq<Pair>, starts: seq<nat>, list': seq<Elem>, pairs': seq<Pair>)
    requires Segments(pairs, [], starts)
    ensures Segments(pairs', [], starts) && Chains(list', [], starts)
  {
  }

  /** A bucket that is not empty has its first element for its chain. */
  lemma ChainHead(list: seq<Elem>, pairs: seq<Pair>, ht: seq<Bucket>, starts: seq<nat>, h: nat)
    requires Segments(pairs, ht, starts) && Chains(list, ht, starts) && |list| == |pairs| && h < |ht|
    ensures if ht[h].count > 0 then
              starts[h] < |list| && ht[h].chain == list[starts[h]] && Place(ht, starts, h) == starts[h]
            else Place(ht, starts, h) == 0
  {
  }
}
