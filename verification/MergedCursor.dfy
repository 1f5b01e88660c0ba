/**
 The merged cursor: three cursors, over the shared tree and the insertion and deletion trees of a
 transaction, advanced together so that they behave as one cursor over the rows the transaction sees.
 */
module MergedCursor {
  import opened RowLocks
  import opened Transactions

  datatype Row = Row(key: int, rec: Record)

  datatype Step = Moved | AtEnd | OutOfOrder

  const TWO63: int := 0x8000_0000_0000_0000

  /** The difference of two 64-bit keys in 64-bit arithmetic. */
  function Minus64(a: int, b: int): int {
    var d := a - b;
    if d >= TWO63 then d - 2 * TWO63 else if d < -TWO63 then d + 2 * TWO63 else d
  }

  predicate IsKey(k: int) { -TWO63 <= k < TWO63 }

  predicate Fits64(d: int) { -TWO63 <= d < TWO63 }

  /** Comparing keys by subtraction orders them exactly when their difference fits in 64 bits. */
  lemma CompareIsExactIff(a: int, b: int)
    requires IsKey(a) && IsKey(b)
    ensures ((Minus64(a, b) < 0 <==> a < b) && (Minus64(a, b) > 0 <==> a > b)) <==> Fits64(a - b)
  {
  }

  /** In the direction of travel a comes strictly before b. */
  predicate Ahead(next: bool, a: int, b: int) {
    if next then a < b else a > b
  }

  /** Whether the merged cursor takes the shared row rather than the inserted one. */
  predicate TakesShared(shared: int, inserted: int, next: bool) {
    var cmp := Minus64(shared, inserted);
    cmp == 0 || (cmp < 0 && next) || (cmp > 0 && !next)
  }

  /** Of two rows the cursor takes the nearer one exactly when their difference fits in 64 bits. */
  lemma TakesNearerIff(shared: int, inserted: int, next: bool)
    requires IsKey(shared) && IsKey(inserted) && shared != inserted
    ensures (TakesShared(shared, inserted, next) <==> Ahead(next, shared, inserted)) <==> Fits64(shared - inserted)
  {
  }

  ghost predicate SortedKeys(s: seq<int>, next: bool) {
    forall i, j :: 0 <= i < j < |s| ==> Ahead(next, s[i], s[j])
  }

  ghost predicate Sorted(s: seq<Row>, next: bool) {
    forall i, j :: 0 <= i < j < |s| ==> Ahead(next, s[i].key, s[j].key)
  }

  /** The elements in the order of travel. */
  function Walk<T>(s: seq<T>, next: bool): (r: seq<T>)
    ensures |r| == |s|
    ensures forall i :: 0 <= i < |s| ==> r[i] == s[if next then i else |s| - 1 - i]
  {
    if next then s else seq(|s|, i requires 0 <= i < |s| => s[|s| - 1 - i])
  }

  /** A cursor position: an index, or the place past the end of the travel. */
  predicate InRange(p: int, n: nat, next: bool) {
    if next then 0 <= p <= n else -1 <= p < n
  }

  function Start(n: nat, next: bool): int {
    if next then 0 else n - 1
  }

  function End(n: nat, next: bool): int {
    if next then n else -1
  }

  function Advanced(p: int, n: nat, next: bool): int {
    if !(0 <= p < n) then p else if next then p + 1 else p - 1
  }

  /** What is still to be visited, the present element included. */
  function Rest<T>(s: seq<T>, p: int, next: bool): seq<T>
    requires InRange(p, |s|, next)
  {
    Walk(s, next)[if next then p else |s| - 1 - p..]
  }

  lemma RestStep<T>(s: seq<T>, p: int, next: bool)
    requires InRange(p, |s|, next)
    ensures 0 <= p < |s| <==> Rest(s, p, next) != []
    ensures InRange(Advanced(p, |s|, next), |s|, next)
    ensures 0 <= p < |s| ==>
              Rest(s, p, next)[0] == s[p] && Rest(s, p, next)[1..] == Rest(s, Advanced(p, |s|, next), next)
  {
  }

  /** The rows whose key is not deleted. */
  function Alive(s: seq<Row>, del: set<int>): seq<Row> {
    if s == [] then [] else if s[0].key in del then Alive(s[1..], del) else [s[0]] + Alive(s[1..], del)
  }

  /** Two sequences of rows merged in the order of travel. */
  function Merge(a: seq<Row>, b: seq<Row>, next: bool): seq<Row> {
    if a == [] then b
    else if b == [] then a
    else if Ahead(next, a[0].key, b[0].key) then [a[0]] + Merge(a[1..], b, next)
    else [b[0]] + Merge(a, b[1..], next)
  }

  lemma {:induction false} AliveMembers(s: seq<Row>, del: set<int>)
    ensures forall r :: r in Alive(s, del) <==> r in s && r.key !in del
  {
    if s != [] {
      AliveMembers(s[1..], del);
      assert s == [s[0]] + s[1..];
    }
  }

  /** Leaving deleted rows out keeps the others in order. */
  lemma {:induction false} AliveSorted(s: seq<Row>, del: set<int>, next: bool)
    requires Sorted(s, next)
    ensures Sorted(Alive(s, del), next)
  {
    if s != [] {
      AliveSorted(s[1..], del, next);
      AliveMembers(s[1..], del);
    }
  }

  ghost predicate NoSharedKey(a: seq<Row>, b: seq<Row>) {
    forall i, j :: 0 <= i < |a| && 0 <= j < |b| ==> a[i].key != b[j].key
  }

  lemma {:induction false} MergeMembers(a: seq<Row>, b: seq<Row>, next: bool)
    ensures forall r :: r in Merge(a, b, next) <==> r in a || r in b
  {
    if a != [] && b != [] {
      assert a == [a[0]] + a[1..] && b == [b[0]] + b[1..];
      if Ahead(next, a[0].key, b[0].key) {
        MergeMembers(a[1..], b, next);
      } else {
        MergeMembers(a, b[1..], next);
      }
    }
  }

  lemma {:induction false} MergeSorted(a: seq<Row>, b: seq<Row>, next: bool)
    requires Sorted(a, next) && Sorted(b, next) && NoSharedKey(a, b)
    ensures Sorted(Merge(a, b, next), next)
  {
    if a != [] && b != [] {
      if Ahead(next, a[0].key, b[0].key) {
        MergeSorted(a[1..], b, next);
        MergeMembers(a[1..], b, next);
        FirstBeforeRest(a[0], Merge(a[1..], b, next), next);
      } else {
        MergeSorted(a, b[1..], next);
        MergeMembers(a, b[1..], next);
        FirstBeforeRest(b[0], Merge(a, b[1..], next), next);
      }
    }
  }

  lemma FirstBeforeRest(x: Row, s: seq<Row>, next: bool)
    requires Sorted(s, next) && forall r :: r in s ==> Ahead(next, x.key, r.key)
    ensures Sorted([x] + s, next)
  {
  }

  /** A set of rows has one arrangement in key order. */
  lemma {:induction false} SortedOnce(a: seq<Row>, b: seq<Row>, next: bool)
    requires Sorted(a, next) && Sorted(b, next) && forall r :: r in a <==> r in b
    ensures a == b
  {
    assert b != [] ==> b[0] in b;
    if a != [] {
      assert a[0] in a && a[0] in b && b[0] in b;
      assert a[0] == b[0] by {
        var i :| 0 <= i < |b| && b[i] == a[0];
        var j :| 0 <= j < |a| && a[j] == b[0];
      }
      forall r ensures r in a[1..] <==> r in b[1..] {
        TailMembers(a, r, next);
        TailMembers(b, r, next);
      }
      SortedOnce(a[1..], b[1..], next);
    }
  }

  lemma TailMembers(a: seq<Row>, r: Row, next: bool)
    requires Sorted(a, next) && a != []
    ensures r in a[1..] <==> r in a && r != a[0]
  {
  }

  lemma WalkSorted(s: seq<Row>, next: bool)
    requires Sorted(s, true)
    ensures Sorted(Walk(s, next), next)
    ensures forall r :: r in Walk(s, next) <==> r in s
  {
    var w := Walk(s, next);
    forall r | r in s ensures r in w {
      var i :| 0 <= i < |s| && s[i] == r;
      assert w[if next then i else |s| - 1 - i] == r;
    }
  }

  /** The rows in the order a scan in one direction visits them. */
  function Visited(shared: seq<Row>, ins: seq<Row>, del: set<int>, next: bool): seq<Row> {
    Merge(Alive(Walk(shared, next), del), Walk(ins, next), next)
  }

  ghost predicate HidesShared(shared: seq<Row>, ins: seq<Row>, del: set<int>) {
    forall i, j :: 0 <= i < |shared| && 0 <= j < |ins| && shared[i].key == ins[j].key ==> shared[i].key in del
  }

  /** A scan visits exactly the undeleted shared rows and the inserted rows, each once and in key order. */
  lemma VisitedIsOverlay(shared: seq<Row>, ins: seq<Row>, del: set<int>, next: bool)
    requires Sorted(shared, true) && Sorted(ins, true) && HidesShared(shared, ins, del)
    ensures Sorted(Visited(shared, ins, del, next), next)
    ensures forall r :: r in Visited(shared, ins, del, next) <==> (r in shared && r.key !in del) || r in ins
  {
    WalkSorted(shared, next);
    WalkSorted(ins, next);
    var a, b := Alive(Walk(shared, next), del), Walk(ins, next);
    AliveMembers(Walk(shared, next), del);
    AliveSorted(Walk(shared, next), del, next);
    assert NoSharedKey(a, b) by {
      forall i, j | 0 <= i < |a| && 0 <= j < |b| ensures a[i].key != b[j].key {
        assert a[i] in a && b[j] in b;
        var m :| 0 <= m < |shared| && shared[m] == a[i];
        var n :| 0 <= n < |ins| && ins[n] == b[j];
      }
    }
    MergeSorted(a, b, next);
    MergeMembers(a, b, next);
  }

  /** Scanning backwards visits the same rows in exactly the reverse order. */
  lemma BackwardIsReverse(shared: seq<Row>, ins: seq<Row>, del: set<int>)
    requires Sorted(shared, true) && Sorted(ins, true) && HidesShared(shared, ins, del)
    ensures Visited(shared, ins, del, false) == Walk(Visited(shared, ins, del, true), false)
  {
    VisitedIsOverlay(shared, ins, del, true);
    VisitedIsOverlay(shared, ins, del, false);
    var v := Visited(shared, ins, del, true);
    WalkSorted(v, false);
    SortedOnce(Visited(shared, ins, del, false), Walk(v, false), false);
  }

  function KeySet(s: seq<Row>): set<int> {
    set r | r in s :: r.key
  }

  lemma HeadKey(s: seq<Row>, next: bool)
    requires Sorted(s, next) && s != []
    ensures KeySet(s) == KeySet(s[1..]) + {s[0].key}
    ensures s[0].key !in KeySet(s[1..])
  {
  }

  lemma {:induction false} AliveCount(s: seq<Row>, gone: set<int>, next: bool)
    requires Sorted(s, next)
    ensures |Alive(s, gone)| + |gone * KeySet(s)| == |s|
  {
    if s == [] {
      assert gone * KeySet(s) == {};
    } else {
      AliveCount(s[1..], gone, next);
      HeadKey(s, next);
      CountKey(gone, KeySet(s[1..]), s[0].key);
    }
  }

  lemma CountKey(gone: set<int>, keys: set<int>, k: int)
    requires k !in keys
    ensures |gone * (keys + {k})| == |gone * keys| + if k in gone then 1 else 0
  {
    if k in gone {
      assert gone * (keys + {k}) == gone * keys + {k};
    } else {
      assert gone * (keys + {k}) == gone * keys;
    }
  }

  lemma {:induction false} MergeCount(a: seq<Row>, b: seq<Row>, next: bool)
    ensures |Merge(a, b, next)| == |a| + |b|
  {
    if a != [] && b != [] {
      if Ahead(next, a[0].key, b[0].key) {
        MergeCount(a[1..], b, next);
      } else {
        MergeCount(a, b[1..], next);
      }
    }
  }

  /** A scan visits as many rows as the engine counts: shared plus inserted minus deleted. */
  lemma VisitedCount(shared: seq<Row>, ins: seq<Row>, del: set<int>, next: bool)
    requires Sorted(shared, true) && del <= KeySet(shared)
    ensures |Visited(shared, ins, del, next)| == |shared| + |ins| - |del|
  {
    WalkSorted(shared, next);
    var w := Walk(shared, next);
    AliveCount(w, del, next);
    assert KeySet(w) == KeySet(shared);
    assert del * KeySet(w) == del;
    MergeCount(Alive(w, del), Walk(ins, next), next);
  }

  /** The rows of one table as the transaction protocol has them. */
  function AsRows(iTable: int, s: seq<Row>): Rows {
    if s == [] then map[] else AsRows(iTable, s[1..])[RowKey(iTable, s[0].key) := s[0].rec]
  }

  /** A sorted sequence and its map hold the same pairs. */
  lemma {:induction false} AsRowsMember(iTable: int, s: seq<Row>, next: bool, key: int, rec: Record)
    requires Sorted(s, next)
    ensures var m, k := AsRows(iTable, s), RowKey(iTable, key);
            k in m && m[k] == rec <==> Row(key, rec) in s
  {
    if s != [] {
      AsRowsMember(iTable, s[1..], next, key, rec);
      HeadKey(s, next);
      assert s == [s[0]] + s[1..];
      assert Row(key, rec) in s[1..] ==> key in KeySet(s[1..]);
    }
  }

  lemma {:induction false} AsRowsTable(iTable: int, s: seq<Row>)
    ensures forall k :: k in AsRows(iTable, s) ==> k.iTable == iTable
  {
    if s != [] {
      AsRowsTable(iTable, s[1..]);
    }
  }

  /** A pair is in what a scan shows exactly when it is in the transaction's view. */
  lemma VisitedPair(iTable: int, shared: seq<Row>, ins: seq<Row>, del: set<int>, next: bool, key: int, rec: Record)
    requires Sorted(shared, true) && Sorted(ins, true) && HidesShared(shared, ins, del)
    ensures var a, k := AsRows(iTable, Visited(shared, ins, del, next)), RowKey(iTable, key);
            var b := View(AsRows(iTable, shared), Overlay(AsRows(iTable, ins), TableKeys(iTable, del)));
            k in a && a[k] == rec <==> k in b && b[k] == rec
  {
    var k := RowKey(iTable, key);
    VisitedIsOverlay(shared, ins, del, next);
    AsRowsMember(iTable, Visited(shared, ins, del, next), next, key, rec);
    AsRowsMember(iTable, shared, true, key, rec);
    AsRowsMember(iTable, ins, true, key, rec);
    assert k in TableKeys(iTable, del) <==> key in del;
    if Row(key, rec) in shared && k in AsRows(iTable, ins) {
      var q := AsRows(iTable, ins)[k];
      AsRowsMember(iTable, ins, true, key, q);
      SameKey(shared, ins, del, Row(key, rec), Row(key, q));
    }
  }

  function TableKeys(iTable: int, del: set<int>): set<RowKey> {
    set d | d in del :: RowKey(iTable, d)
  }

  /** What a scan shows is the transaction's view, and so what its commit makes of the shared rows. */
  lemma VisitedIsView(iTable: int, shared: seq<Row>, ins: seq<Row>, del: set<int>, next: bool)
    requires Sorted(shared, true) && Sorted(ins, true) && HidesShared(shared, ins, del)
    ensures AsRows(iTable, Visited(shared, ins, del, next)) ==
            View(AsRows(iTable, shared), Overlay(AsRows(iTable, ins), TableKeys(iTable, del)))
  {
    var a := AsRows(iTable, Visited(shared, ins, del, next));
    var b := View(AsRows(iTable, shared), Overlay(AsRows(iTable, ins), TableKeys(iTable, del)));
    AsRowsTable(iTable, Visited(shared, ins, del, next));
    AsRowsTable(iTable, shared);
    AsRowsTable(iTable, ins);
    forall k | k in a || k in b ensures k in a && k in b && a[k] == b[k] {
      VisitedPair(iTable, shared, ins, del, next, k.rowid, if k in a then a[k] else b[k]);
    }
  }

  lemma SameKey(shared: seq<Row>, ins: seq<Row>, del: set<int>, r: Row, q: Row)
    requires HidesShared(shared, ins, del) && r in shared && q in ins && r.key == q.key
    ensures r.key in del
  {
  }

  /** Two keys the cursor compares, in this order. */
  datatype Pair = Pair(x: int, y: int)

  ghost predicate AllFit(s: set<Pair>) {
    forall p :: p in s ==> Fits64(p.x - p.y)
  }

  ghost function Keys(deleted: seq<int>): set<int> {
    set d | d in deleted
  }

  /** The nearer head comes first, and the rest of the merge is the merge of what remains. */
  lemma MergeHead(a: seq<Row>, b: seq<Row>, next: bool)
    requires a != [] || b != []
    ensures Merge(a, b, next) != []
    ensures a != [] && (b != [] ==> Ahead(next, a[0].key, b[0].key)) ==>
              Merge(a, b, next)[0] == a[0] && Merge(a, b, next)[1..] == Merge(a[1..], b, next)
    ensures b != [] && (a != [] ==> !Ahead(next, a[0].key, b[0].key)) ==>
              Merge(a, b, next)[0] == b[0] && Merge(a, b, next)[1..] == Merge(a, b[1..], next)
  {
  }

  lemma AliveHead(s: seq<Row>, gone: set<int>)
    requires s != [] && s[0].key !in gone
    ensures Alive(s, gone) != [] && Alive(s, gone)[0] == s[0] && Alive(s, gone)[1..] == Alive(s[1..], gone)
  {
  }

  /** By subtraction, key x lies past key y in the direction of travel. */
  predicate Past(x: int, y: int, next: bool) {
    Ahead(next, 0, Minus64(x, y))
  }

  lemma PastIff(x: int, y: int, next: bool)
    requires IsKey(x) && IsKey(y) && x != y
    ensures Minus64(x, y) != 0
    ensures (Past(x, y, next) <==> Ahead(next, y, x)) <==> Fits64(x - y)
  {
  }

  /** How a seek ends: with the shared rows and the deleted keys still ahead, or with a key out of order. */
  datatype Found = Settled(a: seq<Row>, d: seq<int>) | Corrupt

  function FirstKey(a: seq<Row>): int {
    if a == [] then 0 else a[0].key
  }

  /** What the seek for an undeleted shared row does, comparing by subtraction. */
  ghost function Seek(a: seq<Row>, d: seq<int>, oldKey: int, next: bool): (f: Found)
    ensures f.Settled? ==> |f.a| <= |a|
    decreases |a| + |d|
  {
    if a == [] || d == [] then Settled(a, d)
    else if Past(a[0].key, d[0], next) then Seek(a, d[1..], oldKey, next)
    else if Minus64(a[0].key, d[0]) == 0 then
      if |a| > 1 && oldKey != 0 && !Past(a[1].key, oldKey, next) then Corrupt
      else Seek(a[1..], d, if oldKey == 0 then FirstKey(a[1..]) else oldKey, next)
    else Settled(a, d)
  }

  /** What a scan returns: the rows it visits, and whether it ends at the end or at a key out of order. */
  datatype Scanned = Scanned(rows: seq<Row>, rc: Step)

  /** The cursor takes the shared row: there is no inserted one, or the comparison says so. */
  predicate ReadsShared(a: seq<Row>, b: seq<Row>, next: bool) {
    a != [] && (b == [] || TakesShared(a[0].key, b[0].key, next))
  }

  /** The step to the next shared row seems out of order. */
  predicate TooWide(a: seq<Row>, next: bool) {
    |a| > 1 && a[0].key != 0 && !Past(a[1].key, a[0].key, next)
  }

  /** What a scan does from a settled position on. */
  ghost function Follow(f: Found, b: seq<Row>, next: bool): (r: Scanned)
    ensures r.rc != Moved
    decreases (if f.Settled? then |f.a| else 0) + |b|, 0
  {
    if f.Corrupt? then Scanned([], OutOfOrder)
    else if f.a == [] && b == [] then Scanned([], AtEnd)
    else if ReadsShared(f.a, b, next) then
      if TooWide(f.a, next) then Scanned([f.a[0]], OutOfOrder)
      else
        var rest := Run(f.a[1..], b, f.d, next);
        Scanned([f.a[0]] + rest.rows, rest.rc)
    else
      var rest := Run(f.a, b[1..], f.d, next);
      Scanned([b[0]] + rest.rows, rest.rc)
  }

  /** What a scan does with these shared rows, inserted rows and deleted keys ahead. */
  ghost function Run(a: seq<Row>, b: seq<Row>, d: seq<int>, next: bool): (r: Scanned)
    ensures r.rc != Moved
    decreases |a| + |b|, 1
  {
    Follow(Seek(a, d, FirstKey(a), next), b, next)
  }

  /** The seek with the true order of the keys. */
  ghost function TrueSeek(a: seq<Row>, d: seq<int>, next: bool): (f: Found)
    ensures f.Settled? && |f.a| <= |a|
    decreases |a| + |d|
  {
    if a == [] || d == [] then Settled(a, d)
    else if Ahead(next, d[0], a[0].key) then TrueSeek(a, d[1..], next)
    else if a[0].key == d[0] then TrueSeek(a[1..], d, next)
    else Settled(a, d)
  }

  /** The pairs of keys that a seek in the true order compares. */
  ghost function SeekPairs(a: seq<Row>, d: seq<int>, oldKey: int, next: bool): set<Pair>
    decreases |a| + |d|
  {
    if a == [] || d == [] then {}
    else
      {Pair(a[0].key, d[0])} +
      if Ahead(next, d[0], a[0].key) then SeekPairs(a, d[1..], oldKey, next)
      else if a[0].key == d[0] then
        (if |a| > 1 then {Pair(a[1].key, oldKey)} else {}) +
        SeekPairs(a[1..], d, if oldKey == 0 then FirstKey(a[1..]) else oldKey, next)
      else {}
  }

  /** Of the two present rows the shared one is the nearer. */
  predicate SharedFirst(a: seq<Row>, b: seq<Row>, next: bool) {
    a != [] && (b == [] || Ahead(next, a[0].key, b[0].key))
  }

  /** The pairs of keys that a scan in the true order compares. */
  ghost function RunPairs(a: seq<Row>, b: seq<Row>, d: seq<int>, next: bool): set<Pair>
    decreases |a| + |b|, 1
  {
    SeekPairs(a, d, FirstKey(a), next) + PairsFrom(TrueSeek(a, d, next), b, next)
  }

  /** Those compared from a settled position on. */
  ghost function PairsFrom(f: Found, b: seq<Row>, next: bool): set<Pair>
    requires f.Settled?
    decreases |f.a| + |b|, 0
  {
    HeadPair(f.a, b) +
    if f.a == [] && b == [] then {}
    else if SharedFirst(f.a, b, next) then StepPair(f.a) + RunPairs(f.a[1..], b, f.d, next)
    else RunPairs(f.a, b[1..], f.d, next)
  }

  /** The two present rows. */
  ghost function HeadPair(a: seq<Row>, b: seq<Row>): set<Pair> {
    if a != [] && b != [] then {Pair(a[0].key, b[0].key)} else {}
  }

  /** The present shared row and its neighbour. */
  ghost function StepPair(a: seq<Row>): set<Pair> {
    if |a| > 1 then {Pair(a[1].key, a[0].key)} else {}
  }

  ghost predicate AreKeys(a: seq<Row>) {
    forall i :: 0 <= i < |a| ==> IsKey(a[i].key)
  }

  ghost predicate InOrder(a: seq<Row>, d: seq<int>, next: bool) {
    && Sorted(a, next) && SortedKeys(d, next) && AreKeys(a)
    && forall i :: 0 <= i < |d| ==> IsKey(d[i])
  }

  /** The key kept for the check is that of a shared row at or behind the present one; 0 stands for none yet. */
  ghost predicate Anchored(oldKey: int, a: seq<Row>, next: bool) {
    && IsKey(oldKey)
    && (a != [] ==> oldKey == a[0].key || (oldKey != 0 && Ahead(next, oldKey, a[0].key)))
  }

  /** A seek that compares only pairs that fit goes the true way. */
  lemma {:induction false} SeekIsRight(a: seq<Row>, d: seq<int>, oldKey: int, next: bool)
    requires InOrder(a, d, next) && Anchored(oldKey, a, next) && AllFit(SeekPairs(a, d, oldKey, next))
    ensures Seek(a, d, oldKey, next) == TrueSeek(a, d, next)
    decreases |a| + |d|
  {
    if a != [] && d != [] {
      assert Pair(a[0].key, d[0]) in SeekPairs(a, d, oldKey, next);
      if Ahead(next, d[0], a[0].key) {
        PastIff(a[0].key, d[0], next);
        SeekIsRight(a, d[1..], oldKey, next);
      } else if a[0].key == d[0] {
        if |a| > 1 && oldKey != 0 {
          assert Pair(a[1].key, oldKey) in SeekPairs(a, d, oldKey, next);
          PastIff(a[1].key, oldKey, next);
        }
        SeekIsRight(a[1..], d, if oldKey == 0 then FirstKey(a[1..]) else oldKey, next);
      } else {
        PastIff(a[0].key, d[0], next);
      }
    }
  }

  lemma {:induction false} AliveSame(a: seq<Row>, g: set<int>, h: set<int>)
    requires forall i :: 0 <= i < |a| ==> (a[i].key in g <==> a[i].key in h)
    ensures Alive(a, g) == Alive(a, h)
  {
    if a != [] {
      AliveSame(a[1..], g, h);
    }
  }

  lemma KeysHead(d: seq<int>)
    requires d != []
    ensures Keys(d) == {d[0]} + Keys(d[1..])
  {
  }

  /** A seek loses no undeleted row, and ends on one. */
  lemma {:induction false} SeekFindsAlive(a: seq<Row>, d: seq<int>, next: bool)
    requires InOrder(a, d, next)
    ensures var f := TrueSeek(a, d, next);
            && InOrder(f.a, f.d, next) && Alive(f.a, Keys(f.d)) == Alive(a, Keys(d))
            && (f.a != [] ==> f.a[0].key !in Keys(f.d))
            && (f.a != [] && f.d != [] ==> Ahead(next, f.a[0].key, f.d[0]))
    decreases |a| + |d|
  {
    if a != [] && d != [] {
      KeysHead(d);
      if Ahead(next, d[0], a[0].key) {
        SeekFindsAlive(a, d[1..], next);
        AliveSame(a, Keys(d), Keys(d[1..]));
      } else if a[0].key == d[0] {
        SeekFindsAlive(a[1..], d, next);
      }
    }
  }

  /** The trees ahead: in order, and no inserted row beside an undeleted shared one. */
  ghost predicate Trees(a: seq<Row>, b: seq<Row>, d: seq<int>, next: bool) {
    InOrder(a, d, next) && Sorted(b, next) && AreKeys(b) && NoSharedKey(Alive(a, Keys(d)), b)
  }

  /** What a scan of these trees should return. */
  ghost function Expected(a: seq<Row>, b: seq<Row>, d: seq<int>, next: bool): Scanned {
    Scanned(Merge(Alive(a, Keys(d)), b, next), AtEnd)
  }

  /** The settled position of a scan, and the trees one row further on. */
  lemma SettledTrees(a: seq<Row>, b: seq<Row>, d: seq<int>, next: bool)
    requires Trees(a, b, d, next)
    ensures var f := TrueSeek(a, d, next);
            && f.Settled? && |f.a| <= |a| && Expected(f.a, b, f.d, next) == Expected(a, b, d, next)
            && (f.a != [] && b != [] ==> f.a[0].key != b[0].key)
            && (SharedFirst(f.a, b, next) ==>
                  && f.a != [] && Sorted(f.a[1..], next)
                  && Trees(f.a[1..], b, f.d, next)
                  && Expected(f.a, b, f.d, next).rows == [f.a[0]] + Expected(f.a[1..], b, f.d, next).rows)
            && (!SharedFirst(f.a, b, next) ==> f.a == [] || b != [])
            && (b != [] && !SharedFirst(f.a, b, next) ==>
                  && Trees(f.a, b[1..], f.d, next)
                  && Expected(f.a, b, f.d, next).rows == [b[0]] + Expected(f.a, b[1..], f.d, next).rows)
  {
    SeekFindsAlive(a, d, next);
    var f := TrueSeek(a, d, next);
    if f.a != [] {
      AliveHead(f.a, Keys(f.d));
    }
    if f.a != [] || b != [] {
      MergeHead(Alive(f.a, Keys(f.d)), b, next);
    }
  }

  /** A scan that compares only pairs that fit visits the rows of the merged view. */
  lemma {:induction false} RunIsRight(a: seq<Row>, b: seq<Row>, d: seq<int>, next: bool)
    requires Trees(a, b, d, next) && AllFit(RunPairs(a, b, d, next))
    ensures Run(a, b, d, next) == Expected(a, b, d, next)
    decreases |a| + |b|
  {
    var f := TrueSeek(a, d, next);
    RunPairsStep(a, b, d, next);
    FitAlone(f.a, b);
    hide RunPairs, SeekPairs, AllFit;
    SeekIsRight(a, d, FirstKey(a), next);
    SettledTrees(a, b, d, next);
    SeekFindsAlive(a, d, next);
    if f.a != [] && b != [] {
      TakesNearerIff(f.a[0].key, b[0].key, next);
    }
    if SharedFirst(f.a, b, next) {
      if |f.a| > 1 {
        PastIff(f.a[1].key, f.a[0].key, next);
      }
      RunIsRight(f.a[1..], b, f.d, next);
    } else if b != [] {
      RunIsRight(f.a, b[1..], f.d, next);
    }
  }

  /** The shared rows whose key is among the deleted ones. */
  ghost function Common(a: seq<Row>, d: seq<int>): set<int> {
    KeySet(a) * Keys(d)
  }

  lemma CommonSkip(a: seq<Row>, d: seq<int>, next: bool)
    requires Sorted(a, next) && a != []
    ensures |Common(a, d)| == |Common(a[1..], d)| + if a[0].key in Keys(d) then 1 else 0
  {
    HeadKey(a, next);
    CountKey(Keys(d), KeySet(a[1..]), a[0].key);
    assert Common(a, d) == Keys(d) * (KeySet(a[1..]) + {a[0].key});
    assert Common(a[1..], d) == Keys(d) * KeySet(a[1..]);
  }

  lemma CommonPass(a: seq<Row>, d: seq<int>, next: bool)
    requires SortedKeys(d, next) && d != []
    ensures |Common(a, d)| == |Common(a, d[1..])| + if d[0] in KeySet(a) then 1 else 0
  {
    KeysHead(d);
    CountKey(KeySet(a), Keys(d[1..]), d[0]);
    assert Common(a, d) == KeySet(a) * (Keys(d[1..]) + {d[0]});
    assert Common(a, d[1..]) == KeySet(a) * Keys(d[1..]);
  }

  /** However it compares, a seek leaves out only rows whose key is deleted. */
  lemma {:induction false} SeekLeavesOut(a: seq<Row>, d: seq<int>, oldKey: int, next: bool)
    requires InOrder(a, d, next)
    ensures var f := Seek(a, d, oldKey, next);
            f.Settled? ==>
              InOrder(f.a, f.d, next) && |f.a| <= |a| && |f.a| - |Common(f.a, f.d)| >= |a| - |Common(a, d)|
    decreases |a| + |d|
  {
    hide Common, Keys, KeySet;
    if a != [] && d != [] {
      KeysHead(d);
      CommonSkip(a, d, next);
      CommonPass(a, d, next);
      if Past(a[0].key, d[0], next) {
        SeekLeavesOut(a, d[1..], oldKey, next);
      } else if Minus64(a[0].key, d[0]) == 0 {
        SeekLeavesOut(a[1..], d, if oldKey == 0 then FirstKey(a[1..]) else oldKey, next);
      }
    }
  }

  /** One row of a scan from a settled position, and what follows it. */
  lemma FollowStep(f: Found, b: seq<Row>, next: bool)
    requires f.Settled? && (f.a != [] || b != [])
    ensures var r, shared := Follow(f, b, next), ReadsShared(f.a, b, next);
            && (if shared then f.a != [] else b != [])
            && r.rows != [] && r.rows[0] == (if shared then f.a[0] else b[0])
            && (r.rc == AtEnd ==>
                  && (shared ==> !TooWide(f.a, next))
                  && var rest := if shared then Run(f.a[1..], b, f.d, next) else Run(f.a, b[1..], f.d, next);
                     r == Scanned([r.rows[0]] + rest.rows, AtEnd) && rest.rc == AtEnd)
  {
  }

  lemma EndsSettled(f: Found, b: seq<Row>, next: bool)
    requires Follow(f, b, next).rc == AtEnd
    ensures f.Settled?
  {
  }

  lemma InOrderTail(a: seq<Row>, d: seq<int>, next: bool)
    requires InOrder(a, d, next) && a != []
    ensures InOrder(a[1..], d, next) && |Common(a[1..], d)| <= |Common(a, d)|
  {
    CommonSkip(a, d, next);
  }

  lemma RunSeeks(a: seq<Row>, b: seq<Row>, d: seq<int>, next: bool)
    ensures Run(a, b, d, next) == Follow(Seek(a, d, FirstKey(a), next), b, next)
  {
  }

  /** However it compares, a scan to the end visits all rows but those whose key is deleted. */
  lemma {:induction false} RunVisits(a: seq<Row>, b: seq<Row>, d: seq<int>, oldKey: int, next: bool)
    requires InOrder(a, d, next) && Follow(Seek(a, d, oldKey, next), b, next).rc == AtEnd
    ensures |Follow(Seek(a, d, oldKey, next), b, next).rows| >= |a| + |b| - |Common(a, d)|
    decreases |a| + |b|
  {
    hide *;
    var f := Seek(a, d, oldKey, next);
    EndsSettled(f, b, next);
    SeekLeavesOut(a, d, oldKey, next);
    if f.a != [] || b != [] {
      FollowStep(f, b, next);
      if ReadsShared(f.a, b, next) {
        InOrderTail(f.a, f.d, next);
        RunSeeks(f.a[1..], b, f.d, next);
        RunVisits(f.a[1..], b, f.d, FirstKey(f.a[1..]), next);
      } else {
        RunSeeks(f.a, b[1..], f.d, next);
        RunVisits(f.a, b[1..], f.d, FirstKey(f.a), next);
      }
    }
  }

  /** The deleted keys ahead are those of shared rows ahead; one behind is near the present row. */
  ghost predicate Tidy(a: seq<Row>, d: seq<int>, next: bool) {
    a != [] ==> forall k :: k in d ==>
                              || k in KeySet(a)
                              || (Ahead(next, k, a[0].key) && Fits64(a[0].key - k))
  }

  /** A deleted row that is skipped stays near when the check of the next key passes. */
  lemma SkipIsNear(oldKey: int, a: seq<Row>, next: bool)
    requires |a| > 1 && Sorted(a, next) && AreKeys(a) && Anchored(oldKey, a, next)
    requires oldKey == 0 || Past(a[1].key, oldKey, next)
    ensures Fits64(a[1].key - oldKey) && Fits64(a[1].key - a[0].key)
  {
    if oldKey != 0 {
      PastIff(a[1].key, oldKey, next);
    }
  }

  lemma TidySkip(a: seq<Row>, d: seq<int>, next: bool)
    requires InOrder(a, d, next) && Tidy(a, d, next) && |a| > 1 && d != [] && a[0].key == d[0]
    requires Fits64(a[1].key - a[0].key)
    ensures Tidy(a[1..], d, next)
  {
    HeadKey(a, next);
    forall k | k in d ensures k in KeySet(a[1..]) || (Ahead(next, k, a[1].key) && Fits64(a[1].key - k)) {
      var i :| 0 <= i < |d| && d[i] == k;
      assert k == d[0] || Ahead(next, d[0], k);
    }
  }

  function NextAnchor(oldKey: int, a: seq<Row>): int {
    if oldKey == 0 then FirstKey(a) else oldKey
  }

  /** The first comparison of a seek, and what follows it. */
  lemma SeekStep(a: seq<Row>, d: seq<int>, oldKey: int, next: bool)
    requires InOrder(a, d, next) && a != [] && d != []
    ensures Past(a[0].key, d[0], next) ==> Seek(a, d, oldKey, next) == Seek(a, d[1..], oldKey, next)
    ensures a[0].key == d[0] ==>
              Seek(a, d, oldKey, next) ==
              if |a| > 1 && oldKey != 0 && !Past(a[1].key, oldKey, next) then Corrupt
              else Seek(a[1..], d, NextAnchor(oldKey, a[1..]), next)
    ensures InOrder(a, d[1..], next) && InOrder(a[1..], d, next) && SortedKeys(d, next) && Sorted(a, next)
    ensures AreKeys(a) && IsKey(a[0].key) && IsKey(d[0])
  {
  }

  lemma PairsStep(a: seq<Row>, d: seq<int>, oldKey: int, next: bool)
    requires a != [] && d != [] && Fits64(a[0].key - d[0])
    ensures Ahead(next, d[0], a[0].key) ==>
              (AllFit(SeekPairs(a, d, oldKey, next)) <==> AllFit(SeekPairs(a, d[1..], oldKey, next)))
    ensures a[0].key == d[0] ==>
              (AllFit(SeekPairs(a, d, oldKey, next)) <==>
               && (|a| > 1 ==> Fits64(a[1].key - oldKey))
               && AllFit(SeekPairs(a[1..], d, NextAnchor(oldKey, a[1..]), next)))
    ensures Ahead(next, a[0].key, d[0]) ==> AllFit(SeekPairs(a, d, oldKey, next))
  {
    var all := SeekPairs(a, d, oldKey, next);
    if Ahead(next, d[0], a[0].key) {
      assert all == {Pair(a[0].key, d[0])} + SeekPairs(a, d[1..], oldKey, next);
    } else if a[0].key == d[0] {
      var more := if |a| > 1 then {Pair(a[1].key, oldKey)} else {};
      assert all == {Pair(a[0].key, d[0])} + more + SeekPairs(a[1..], d, NextAnchor(oldKey, a[1..]), next);
    }
  }

  lemma NoPairs(a: seq<Row>, d: seq<int>, oldKey: int, next: bool)
    requires a == [] || d == []
    ensures AllFit(SeekPairs(a, d, oldKey, next))
  {
  }

  lemma TidyPass(a: seq<Row>, d: seq<int>, next: bool)
    requires InOrder(a, d, next) && Tidy(a, d, next) && a != [] && d != []
    ensures Ahead(next, d[0], a[0].key) ==> d[0] !in KeySet(a) && Fits64(a[0].key - d[0]) && Tidy(a, d[1..], next)
    ensures !Ahead(next, d[0], a[0].key) ==> d[0] in KeySet(a)
    ensures Ahead(next, d[0], a[0].key) || d[0] == a[0].key || Ahead(next, a[0].key, d[0])
  {
    assert d[0] in d;
  }

  lemma AnchorSkip(oldKey: int, a: seq<Row>, next: bool)
    requires Anchored(oldKey, a, next) && Sorted(a, next) && AreKeys(a) && a != []
    ensures Anchored(NextAnchor(oldKey, a[1..]), a[1..], next)
  {
  }

  /** A scan that visits no row too many has compared, in its seek, only pairs that fit. */
  lemma {:induction false} SeekMustFit(a: seq<Row>, b: seq<Row>, d: seq<int>, oldKey: int, next: bool)
    requires InOrder(a, d, next) && Anchored(oldKey, a, next) && Tidy(a, d, next)
    requires var r := Follow(Seek(a, d, oldKey, next), b, next);
             r.rc == AtEnd && |r.rows| == |a| + |b| - |Common(a, d)|
    ensures AllFit(SeekPairs(a, d, oldKey, next))
    decreases |a| + |d|
  {
    hide *;
    EndsSettled(Seek(a, d, oldKey, next), b, next);
    if a == [] || d == [] {
      NoPairs(a, d, oldKey, next);
    } else {
      SeekStep(a, d, oldKey, next);
      CommonPass(a, d, next);
      TidyPass(a, d, next);
      if a[0].key == d[0] {
        KeysHead(d);
        CommonSkip(a, d, next);
        AnchorSkip(oldKey, a, next);
        SameFits(a[0].key);
        if |a| > 1 {
          SkipIsNear(oldKey, a, next);
          TidySkip(a, d, next);
        } else {
          TidyEmpty(a[1..], d, next);
        }
        SeekMustFit(a[1..], b, d, NextAnchor(oldKey, a[1..]), next);
        PairsStep(a, d, oldKey, next);
      } else {
        PastIff(a[0].key, d[0], next);
        if Ahead(next, d[0], a[0].key) {
          SeekMustFit(a, b, d[1..], oldKey, next);
        } else if !Fits64(a[0].key - d[0]) {
          RunVisits(a, b, d[1..], oldKey, next);
        }
        PairsStep(a, d, oldKey, next);
      }
    }
  }

  lemma SameFits(x: int)
    ensures Fits64(x - x)
  {
  }

  lemma TidyEmpty(a: seq<Row>, d: seq<int>, next: bool)
    requires a == []
    ensures Tidy(a, d, next)
  {
  }

  /** The settled trees of a seek whose pairs fit are tidy, also one shared row further on. */
  lemma {:induction false} TidySettled(a: seq<Row>, d: seq<int>, oldKey: int, next: bool)
    requires InOrder(a, d, next) && Anchored(oldKey, a, next) && Tidy(a, d, next)
    requires AllFit(SeekPairs(a, d, oldKey, next))
    ensures var f := TrueSeek(a, d, next);
            Tidy(f.a, f.d, next) && (f.a != [] ==> Tidy(f.a[1..], f.d, next))
    decreases |a| + |d|
  {
    if a != [] && d != [] {
      if Ahead(next, d[0], a[0].key) {
        TidySettled(a, d[1..], oldKey, next);
      } else if a[0].key == d[0] {
        var old' := if oldKey == 0 then FirstKey(a[1..]) else oldKey;
        if |a| > 1 {
          assert Pair(a[1].key, d[0]) in SeekPairs(a[1..], d, old', next);
          TidySkip(a, d, next);
        }
        TidySettled(a[1..], d, old', next);
      } else {
        HeadKey(a, next);
        forall k | k in d ensures k in KeySet(a[1..]) {
          var i :| 0 <= i < |d| && d[i] == k;
          assert k == d[0] || Ahead(next, d[0], k);
        }
      }
    }
  }

  lemma ExpectedSize(a: seq<Row>, b: seq<Row>, d: seq<int>, next: bool)
    requires Sorted(a, next)
    ensures |Expected(a, b, d, next).rows| == |a| + |b| - |Common(a, d)| && Expected(a, b, d, next).rc == AtEnd
  {
    AliveCount(a, Keys(d), next);
    MergeCount(Alive(a, Keys(d)), b, next);
    assert Keys(d) * KeySet(a) == Common(a, d);
  }

  lemma TreesParts(a: seq<Row>, b: seq<Row>, d: seq<int>, next: bool)
    requires Trees(a, b, d, next)
    ensures InOrder(a, d, next) && Sorted(a, next) && Anchored(FirstKey(a), a, next)
    ensures b != [] ==> IsKey(b[0].key)
  {
  }

  lemma FitTogether(s: set<Pair>, t: set<Pair>)
    ensures AllFit(s + t) <==> AllFit(s) && AllFit(t)
  {
  }

  lemma FitAlone(a: seq<Row>, b: seq<Row>)
    ensures AllFit(HeadPair(a, b)) <==> (a != [] && b != [] ==> Fits64(a[0].key - b[0].key))
    ensures AllFit(StepPair(a)) <==> (|a| > 1 ==> Fits64(a[1].key - a[0].key))
    ensures AllFit({})
  {
    assert a != [] && b != [] ==> Pair(a[0].key, b[0].key) in HeadPair(a, b);
    assert |a| > 1 ==> Pair(a[1].key, a[0].key) in StepPair(a);
  }

  lemma RunPairsStep(a: seq<Row>, b: seq<Row>, d: seq<int>, next: bool)
    ensures var f := TrueSeek(a, d, next);
            && f.Settled?
            && (AllFit(RunPairs(a, b, d, next)) <==>
                && AllFit(SeekPairs(a, d, FirstKey(a), next)) && AllFit(HeadPair(f.a, b))
                && (SharedFirst(f.a, b, next) ==>
                      f.a != [] && AllFit(StepPair(f.a)) && AllFit(RunPairs(f.a[1..], b, f.d, next)))
                && (b != [] && !SharedFirst(f.a, b, next) ==> AllFit(RunPairs(f.a, b[1..], f.d, next))))
  {
    hide AllFit, Fits64, TrueSeek, SeekPairs, HeadPair, StepPair;
    var f := TrueSeek(a, d, next);
    FitAlone(f.a, b);
    FitTogether(SeekPairs(a, d, FirstKey(a), next), PairsFrom(f, b, next));
    if SharedFirst(f.a, b, next) {
      FitTogether(HeadPair(f.a, b), StepPair(f.a) + RunPairs(f.a[1..], b, f.d, next));
      FitTogether(StepPair(f.a), RunPairs(f.a[1..], b, f.d, next));
    } else if b != [] {
      FitTogether(HeadPair(f.a, b), RunPairs(f.a, b[1..], f.d, next));
    } else {
      FitTogether(HeadPair(f.a, b), {});
    }
  }

  /** The first step of a scan that is right: it takes the nearer row, and the pairs it compares fit. */
  lemma StepMustFit(f: Found, b: seq<Row>, next: bool, x: Row)
    requires f.Settled? && Sorted(f.a, next) && AreKeys(f.a) && (b != [] ==> IsKey(b[0].key))
    requires f.a != [] || b != []
    requires f.a != [] && b != [] ==> f.a[0].key != b[0].key
    requires Follow(f, b, next).rc == AtEnd && Follow(f, b, next).rows != [] && Follow(f, b, next).rows[0] == x
    requires x == if SharedFirst(f.a, b, next) then f.a[0] else if b != [] then b[0] else x
    ensures SharedFirst(f.a, b, next) <==> ReadsShared(f.a, b, next)
    ensures f.a != [] && b != [] ==> Fits64(f.a[0].key - b[0].key)
    ensures SharedFirst(f.a, b, next) && |f.a| > 1 ==> Fits64(f.a[1].key - f.a[0].key)
  {
    FollowStep(f, b, next);
    if f.a != [] && b != [] {
      TakesNearerIff(f.a[0].key, b[0].key, next);
    }
    if |f.a| > 1 {
      PastIff(f.a[1].key, f.a[0].key, next);
    }
  }

  lemma InOrderParts(a: seq<Row>, d: seq<int>, next: bool)
    requires InOrder(a, d, next)
    ensures Sorted(a, next) && AreKeys(a)
  {
  }

  /** A scan that visits the rows of the merged view has compared only pairs that fit. */
  lemma {:induction false} RunMustFit(a: seq<Row>, b: seq<Row>, d: seq<int>, next: bool)
    requires Trees(a, b, d, next) && Tidy(a, d, next) && Run(a, b, d, next) == Expected(a, b, d, next)
    ensures AllFit(RunPairs(a, b, d, next))
    decreases |a| + |b|
  {
    hide *;
    TreesParts(a, b, d, next);
    ExpectedSize(a, b, d, next);
    RunSeeks(a, b, d, next);
    SeekMustFit(a, b, d, FirstKey(a), next);
    SeekIsRight(a, d, FirstKey(a), next);
    SettledTrees(a, b, d, next);
    SeekFindsAlive(a, d, next);
    TidySettled(a, d, FirstKey(a), next);
    RunPairsStep(a, b, d, next);
    var f := TrueSeek(a, d, next);
    FitAlone(f.a, b);
    InOrderParts(f.a, f.d, next);
    if f.a != [] || b != [] {
      FollowStep(f, b, next);
      StepMustFit(f, b, next, Expected(f.a, b, f.d, next).rows[0]);
      if SharedFirst(f.a, b, next) {
        SameTail(f.a[0], Run(f.a[1..], b, f.d, next).rows, Expected(f.a[1..], b, f.d, next).rows);
        ExpectedSize(f.a[1..], b, f.d, next);
        RunMustFit(f.a[1..], b, f.d, next);
      } else {
        SameTail(b[0], Run(f.a, b[1..], f.d, next).rows, Expected(f.a, b[1..], f.d, next).rows);
        ExpectedSize(f.a, b[1..], f.d, next);
        RunMustFit(f.a, b[1..], f.d, next);
      }
    }
  }

  lemma SameTail(x: Row, s: seq<Row>, t: seq<Row>)
    requires [x] + s == [x] + t
    ensures s == t
  {
    assert ([x] + s)[1..] == s && ([x] + t)[1..] == t;
  }

  /** The trees of a table and their keys in order. */
  ghost predicate Ordered(shared: seq<Row>, ins: seq<Row>, deleted: seq<int>) {
    InOrder(shared, deleted, true) && Sorted(ins, true) && AreKeys(ins)
  }

  lemma WalkTrees(shared: seq<Row>, ins: seq<Row>, deleted: seq<int>, next: bool)
    requires Ordered(shared, ins, deleted) && HidesShared(shared, ins, Keys(deleted))
    ensures Keys(Walk(deleted, next)) == Keys(deleted) && KeySet(Walk(shared, next)) == KeySet(shared)
    ensures Trees(Walk(shared, next), Walk(ins, next), Walk(deleted, next), next)
  {
    WalkSorted(shared, next);
    WalkSorted(ins, next);
    var a, b, d := Walk(shared, next), Walk(ins, next), Walk(deleted, next);
    assert forall k :: k in deleted ==> k in d by {
      forall k | k in deleted ensures k in d {
        var i :| 0 <= i < |deleted| && deleted[i] == k;
        assert d[if next then i else |deleted| - 1 - i] == k;
      }
    }
    assert Keys(d) == Keys(deleted) && KeySet(a) == KeySet(shared);
    var alive := Alive(a, Keys(d));
    AliveMembers(a, Keys(d));
    forall i, j | 0 <= i < |alive| && 0 <= j < |b| ensures alive[i].key != b[j].key {
      assert alive[i] in alive && b[j] in b;
    }
  }

  /**
   A scan returns the rows of the merged view when every pair of keys it has to compare differs by an amount that
   fits in 64 bits; and only then, when the deleted keys are keys of shared rows.
   */
  lemma ScanIsRightIff(shared: seq<Row>, ins: seq<Row>, deleted: seq<int>, next: bool)
    requires Ordered(shared, ins, deleted) && HidesShared(shared, ins, Keys(deleted))
    ensures var a, b, d := Walk(shared, next), Walk(ins, next), Walk(deleted, next);
            var right := Run(a, b, d, next) == Scanned(Visited(shared, ins, Keys(deleted), next), AtEnd);
            && (AllFit(RunPairs(a, b, d, next)) ==> right)
            && (Keys(deleted) <= KeySet(shared) ==> (right <==> AllFit(RunPairs(a, b, d, next))))
  {
    var a, b, d := Walk(shared, next), Walk(ins, next), Walk(deleted, next);
    WalkTrees(shared, ins, deleted, next);
    if AllFit(RunPairs(a, b, d, next)) {
      RunIsRight(a, b, d, next);
    } else if Keys(deleted) <= KeySet(shared) && Run(a, b, d, next) == Expected(a, b, d, next) {
      RunMustFit(a, b, d, next);
    }
  }

  /** With the shared rows out of play nothing is compared. */
  lemma {:induction false} NothingCompared(b: seq<Row>, d: seq<int>, next: bool)
    ensures RunPairs([], b, d, next) == {}
  {
    if b != [] {
      NothingCompared(b[1..], d, next);
    }
  }

  /** The keys lie in a window of 2^63. */
  ghost predicate Near(lo: int, k: int) {
    lo <= k < lo + TWO63
  }

  ghost predicate AllNear(lo: int, a: seq<Row>, b: seq<Row>, d: seq<int>) {
    && AreKeys(a)
    && (forall i :: 0 <= i < |a| ==> Near(lo, a[i].key))
    && (forall i :: 0 <= i < |b| ==> Near(lo, b[i].key))
    && (forall i :: 0 <= i < |d| ==> Near(lo, d[i]))
  }

  lemma {:induction false} NearSeekFits(lo: int, a: seq<Row>, b: seq<Row>, d: seq<int>, oldKey: int, next: bool)
    requires AllNear(lo, a, b, d) && (oldKey == 0 || Near(lo, oldKey))
    ensures AllFit(SeekPairs(a, d, oldKey, next))
    ensures var f := TrueSeek(a, d, next); AllNear(lo, f.a, b, f.d)
    decreases |a| + |d|
  {
    if a != [] && d != [] {
      if Ahead(next, d[0], a[0].key) {
        NearSeekFits(lo, a, b, d[1..], oldKey, next);
      } else if a[0].key == d[0] {
        NearSeekFits(lo, a[1..], b, d, NextAnchor(oldKey, a[1..]), next);
      }
      PairsStep(a, d, oldKey, next);
    }
  }

  /** Keys in one window of 2^63, as those that are not negative, can always be compared. */
  lemma {:induction false} NearKeysFit(lo: int, a: seq<Row>, b: seq<Row>, d: seq<int>, next: bool)
    requires AllNear(lo, a, b, d)
    ensures AllFit(RunPairs(a, b, d, next))
    decreases |a| + |b|
  {
    NearSeekFits(lo, a, b, d, FirstKey(a), next);
    var f := TrueSeek(a, d, next);
    RunPairsStep(a, b, d, next);
    FitAlone(f.a, b);
    hide RunPairs, SeekPairs, AllFit;
    if SharedFirst(f.a, b, next) {
      NearKeysFit(lo, f.a[1..], b, f.d, next);
    } else if b != [] {
      NearKeysFit(lo, f.a, b[1..], f.d, next);
    }
  }

  ghost predicate StepsFit(a: seq<Row>) {
    forall i :: 0 <= i < |a| - 1 ==> Fits64(a[i + 1].key - a[i].key)
  }

  /** Without writes of the transaction a scan fails exactly when two neighbouring rows are too far apart. */
  lemma {:induction false} CleanRunIff(a: seq<Row>, next: bool)
    requires Sorted(a, next) && AreKeys(a)
    ensures Run(a, [], [], next).rc == AtEnd <==> StepsFit(a)
    ensures Run(a, [], [], next).rc == AtEnd ==> Run(a, [], [], next).rows == a
  {
    if a != [] {
      CleanRunIff(a[1..], next);
      RunSeeks(a, [], [], next);
      if |a| > 1 {
        PastIff(a[1].key, a[0].key, next);
        StepsFitHead(a);
      }
    }
  }

  lemma StepsFitHead(a: seq<Row>)
    requires |a| > 1
    ensures StepsFit(a) <==> Fits64(a[1].key - a[0].key) && StepsFit(a[1..])
  {
    if StepsFit(a) {
      forall i | 0 <= i < |a[1..]| - 1 ensures Fits64(a[1..][i + 1].key - a[1..][i].key) {
        assert Fits64(a[i + 2].key - a[i + 1].key);
      }
    }
    if Fits64(a[1].key - a[0].key) && StepsFit(a[1..]) {
      forall i | 0 <= i < |a| - 1 ensures Fits64(a[i + 1].key - a[i].key) {
        assert i > 0 ==> Fits64(a[1..][i].key - a[1..][i - 1].key);
      }
    }
  }

  class Cursor {
    const shared: seq<Row>
    const inserted: seq<Row>
    const deleted: seq<int>
    /** Set when the transaction has deleted all shared rows. */
    const deleteAll: bool

    var cur: int
    var ins: int
    var del: int
    var useShared: bool
    var useTrans: bool

    ghost const gone: set<int> := Keys(deleted)

    constructor (shared: seq<Row>, inserted: seq<Row>, deleted: seq<int>, deleteAll: bool)
      ensures this.shared == shared && this.inserted == inserted && this.deleted == deleted
      ensures this.deleteAll == deleteAll
    {
      this.shared, this.inserted, this.deleted, this.deleteAll := shared, inserted, deleted, deleteAll;
      cur, ins, del, useShared, useTrans := -1, -1, -1, true, false;
    }

    predicate OnShared() reads this { 0 <= cur < |shared| }
    predicate OnInserted() reads this { 0 <= ins < |inserted| }
    predicate OnDeleted() reads this { 0 <= del < |deleted| }

    ghost predicate InPlace(next: bool)
      reads this
    {
      InRange(cur, |shared|, next) && InRange(ins, |inserted|, next) && InRange(del, |deleted|, next)
    }

    /** The shared rows and the deleted keys ahead. */
    ghost function Place(next: bool): Found
      requires InPlace(next)
      reads this
    {
      Settled(Rest(shared, cur, next), Rest(deleted, del, next))
    }

    /** What a scan does from the present, settled position on. */
    ghost function Left(next: bool): Scanned
      requires InPlace(next)
      reads this
    {
      Follow(Place(next), Rest(inserted, ins, next), next)
    }

    /** The cursor reads the row that the comparison of its two rows says. */
    ghost predicate Positioned(next: bool)
      reads this
    {
      && InPlace(next) && useShared != useTrans && (OnShared() || OnInserted())
      && (useShared <==> ReadsShared(Rest(shared, cur, next), Rest(inserted, ins, next), next))
    }

    /** Where the cursor stands, in terms of the rows and keys ahead. */
    lemma Heads(next: bool)
      requires InPlace(next)
      ensures OnShared() <==> Rest(shared, cur, next) != []
      ensures OnShared() ==> Rest(shared, cur, next)[0] == shared[cur]
      ensures OnInserted() <==> Rest(inserted, ins, next) != []
      ensures OnInserted() ==> Rest(inserted, ins, next)[0] == inserted[ins]
      ensures OnDeleted() <==> Rest(deleted, del, next) != []
      ensures OnDeleted() ==> Rest(deleted, del, next)[0] == deleted[del]
    {
      RestStep(shared, cur, next);
      RestStep(inserted, ins, next);
      RestStep(deleted, del, next);
    }

    lemma Present(next: bool)
      requires Positioned(next)
      ensures InPlace(next) && useShared != useTrans
      ensures var a, b, d := Rest(shared, cur, next), Rest(inserted, ins, next), Rest(deleted, del, next);
              && Place(next) == Settled(a, d) && Left(next) == Follow(Settled(a, d), b, next)
              && (a != [] || b != []) && (useShared <==> ReadsShared(a, b, next))
    {
      Heads(next);
    }

    /** Reads the row the cursor stands on. */
    method Current(ghost next: bool) returns (r: Row)
      requires Positioned(next)
      ensures Left(next).rows != [] && r == Left(next).rows[0]
    {
      Heads(next);
      FollowStep(Place(next), Rest(inserted, ins, next), next);
      r := if useTrans then inserted[ins] else shared[cur];
    }

    /**
     The guard against keys out of order; a previous key of 0 means none yet. It tells the order of two keys
     exactly when their difference fits in 64 bits.
     */
    static method ValidTableKey(key: int, prev: int, isNext: bool) returns (rc: Step, prev': int)
      ensures rc != AtEnd && prev' == if prev == 0 then key else prev
      ensures rc == Moved <==> prev == 0 || Past(key, prev, isNext)
      ensures IsKey(key) && IsKey(prev) && prev != 0 && key != prev ==>
                ((rc == Moved <==> Ahead(isNext, prev, key)) <==> Fits64(key - prev))
    {
      if prev == 0 {
        return Moved, key;
      }
      var result := Minus64(key, prev);
      if (isNext && result > 0) || (!isNext && result < 0) {
        return Moved, prev;
      }
      return OutOfOrder, prev;
    }

    /** Moves the shared cursor, and the deletion cursor beside it, to the next shared row that is not deleted. */
    method SeekToExist(next: bool) returns (rc: Step)
      requires InPlace(next)
      modifies this`cur, this`del
      ensures InPlace(next) && (rc == Moved || rc == OutOfOrder)
      ensures var a, d := old(Rest(shared, cur, next)), old(Rest(deleted, del, next));
              Seek(a, d, FirstKey(a), next) == if rc == OutOfOrder then Corrupt else Place(next)
    {
      hide Rest;
      ghost var a, d := Rest(shared, cur, next), Rest(deleted, del, next);
      ghost var goal := Seek(a, d, FirstKey(a), next);
      var oldKey := 0;
      Heads(next);
      if OnShared() {
        rc, oldKey := ValidTableKey(shared[cur].key, oldKey, next);
      }
      while OnShared() && OnDeleted()
        invariant InPlace(next)
        invariant Seek(Rest(shared, cur, next), Rest(deleted, del, next), oldKey, next) == goal
        decreases |Rest(shared, cur, next)| + |Rest(deleted, del, next)|
      {
        Heads(next);
        RestStep(shared, cur, next);
        RestStep(deleted, del, next);
        var cmp := Minus64(shared[cur].key, deleted[del]);
        if (next && cmp > 0) || (!next && cmp < 0) {
          del := Advanced(del, |deleted|, next);
        } else if cmp == 0 {
          cur := Advanced(cur, |shared|, next);
          Heads(next);
          if OnShared() {
            rc, oldKey := ValidTableKey(shared[cur].key, oldKey, next);
            if rc == OutOfOrder {
              return;
            }
          }
        } else {
          return Moved;
        }
      }
      Heads(next);
      rc := Moved;
    }

    /** Chooses the tree to read, the shared one first on equal keys; tells whether a row is left. */
    method Choose(next: bool) returns (found: bool)
      requires InPlace(next)
      modifies this`useShared, this`useTrans
      ensures found <==> OnShared() || OnInserted()
      ensures found ==> Positioned(next)
    {
      Heads(next);
      found := true;
      if OnShared() {
        useShared, useTrans := true, false;
        if OnInserted() && !TakesShared(shared[cur].key, inserted[ins].key, next) {
          useShared, useTrans := false, true;
        }
      } else if OnInserted() {
        useShared, useTrans := false, true;
      } else {
        found := false;
      }
    }

    /** Settles the three cursors; tells whether a row is left or a key is out of order. */
    method SeekToExistAll(next: bool) returns (rc: Step)
      requires InPlace(next)
      modifies this
      ensures var a, b := Rest(shared, old(cur), next), Rest(inserted, old(ins), next);
              var d := Rest(deleted, old(del), next);
              if rc == OutOfOrder then Run(a, b, d, next) == Scanned([], OutOfOrder)
              else InPlace(next) && Left(next) == Run(a, b, d, next)
      ensures rc == AtEnd ==> Left(next) == Scanned([], AtEnd)
      ensures rc == Moved ==> Positioned(next)
    {
      hide Rest, Seek;
      ghost var a, b, d := Rest(shared, cur, next), Rest(inserted, ins, next), Rest(deleted, del, next);
      RunSeeks(a, b, d, next);
      rc := SeekToExist(next);
      if rc == OutOfOrder {
        return;
      }
      var found := Choose(next);
      Heads(next);
      rc := if found then Moved else AtEnd;
    }

    /** Moves to the first row of the travel: the least key forwards, the greatest backwards. */
    method Begin(next: bool) returns (rc: Step)
      modifies this
      ensures if rc == OutOfOrder then Whole(next) == Scanned([], OutOfOrder)
              else InPlace(next) && Left(next) == Whole(next)
      ensures rc == AtEnd ==> Left(next) == Scanned([], AtEnd)
      ensures rc == Moved ==> Positioned(next)
    {
      cur := Start(|shared|, next);
      ins := Start(|inserted|, next);
      del := Start(|deleted|, next);
      if deleteAll {
        cur := End(|shared|, next);
      }
      AtStart(shared, next);
      AtStart(inserted, next);
      AtStart(deleted, next);
      assert InPlace(next) && Rest(shared, cur, next) == SharedInPlay(next);
      hide *;
      rc := SeekToExistAll(next);
      WholeIs(next);
    }

    /** What a scan of the whole table does; under delete-all the shared rows are out of play. */
    ghost function Whole(next: bool): Scanned {
      Run(SharedInPlay(next), Walk(inserted, next), Walk(deleted, next), next)
    }

    lemma WholeIs(next: bool)
      ensures Whole(next) == Run(SharedInPlay(next), Walk(inserted, next), Walk(deleted, next), next)
    {
    }

    ghost function SharedInPlay(next: bool): seq<Row> {
      if deleteAll then [] else Walk(shared, next)
    }

    /**
     The loop that corrects the two positions stops at its first comparison: in a scan the tree
     not in use is never behind the one in use.
     */
    method CheckPositions(next: bool) returns (right: bool)
      requires Positioned(next)
      ensures right
    {
      Heads(next);
      right := true;
      if OnInserted() && OnShared() {
        var cmp := Minus64(shared[cur].key, inserted[ins].key);
        var insBehind := (next && cmp > 0) || (!next && cmp < 0);
        var curBehind := (next && cmp < 0) || (!next && cmp > 0);
        right := !(useShared && insBehind) && !(useTrans && curBehind);
      }
    }

    /** Moves the cursor of the tree in use. */
    method StepUsed(next: bool) returns (rc: Step)
      requires Positioned(next)
      modifies this`cur, this`ins
      ensures InPlace(next) && rc != AtEnd
      ensures rc == OutOfOrder <==> useShared && TooWide(old(Rest(shared, cur, next)), next)
      ensures Rest(shared, cur, next) ==
              if useShared then old(Rest(shared, cur, next))[1..] else old(Rest(shared, cur, next))
      ensures rc == Moved ==>
                Rest(inserted, ins, next) ==
                if useTrans then old(Rest(inserted, ins, next))[1..] else old(Rest(inserted, ins, next))
    {
      hide Rest;
      Heads(next);
      RestStep(shared, cur, next);
      RestStep(inserted, ins, next);
      rc := Moved;
      var oldKey := 0;
      if OnShared() {
        rc, oldKey := ValidTableKey(shared[cur].key, oldKey, next);
      }
      if useShared {
        cur := Advanced(cur, |shared|, next);
        Heads(next);
        if OnShared() && oldKey != 0 {
          rc, oldKey := ValidTableKey(shared[cur].key, oldKey, next);
          if rc == OutOfOrder {
            return;
          }
        }
      }
      if useTrans {
        ins := Advanced(ins, |inserted|, next);
      }
    }

    /** Steps to the next row of the travel. */
    method Advance(next: bool) returns (rc: Step)
      requires Positioned(next)
      modifies this
      ensures var was := old(Left(next));
              && was.rows != []
              && if rc == OutOfOrder then was == Scanned([was.rows[0]], OutOfOrder)
                 else InPlace(next) && Left(next) == Scanned(was.rows[1..], was.rc)
      ensures rc == AtEnd ==> Left(next) == Scanned([], AtEnd)
      ensures rc == Moved ==> Positioned(next)
    {
      hide *;
      Present(next);
      FollowIs(Place(next), Rest(inserted, ins, next), next);
      var right := CheckPositions(next);
      assert right;
      rc := StepUsed(next);
      if rc == Moved {
        rc := SeekToExistAll(next);
      }
    }

    /**
     A whole scan: the first row, then on until there is none or a key seems out of order. It visits the rows of
     the merged view when the keys it has to compare differ by amounts that fit in 64 bits, and under delete-all;
     and only then, when the deleted keys are keys of shared rows.
     */
    method Scan(next: bool) returns (rc: Step, rows: seq<Row>)
      modifies this
      ensures Scanned(rows, rc) == Whole(next)
      ensures Ordered(shared, inserted, deleted) && (deleteAll || HidesShared(shared, inserted, gone)) ==>
                var right := rc == AtEnd && rows == Visited(if deleteAll then [] else shared, inserted, gone, next);
                && (Comparable(next) ==> right)
                && (gone <= KeySet(shared) ==> (right <==> Comparable(next)))
    {
      hide *;
      rows := [];
      ghost var left := Whole(next);
      rc := Begin(next);
      while rc == Moved
        invariant rc == Moved ==> Positioned(next) && InPlace(next)
        invariant rc == Moved ==> Left(next) == left
        invariant rc == AtEnd ==> left == Scanned([], AtEnd)
        invariant rc == OutOfOrder ==> left == Scanned([], OutOfOrder)
        invariant Whole(next) == Scanned(rows + left.rows, left.rc)
        decreases rc == Moved, |left.rows|
      {
        var r := Current(next);
        MoveHead(rows, left.rows);
        rows := rows + [r];
        left := Scanned(left.rows[1..], left.rc);
        rc := Advance(next);
      }
      WholeIsRight(next);
    }

    /** Every pair of keys that a scan compares differs by an amount that fits in 64 bits. */
    ghost predicate Comparable(next: bool) {
      AllFit(RunPairs(SharedInPlay(next), Walk(inserted, next), Walk(deleted, next), next))
    }

    lemma WholeIsRight(next: bool)
      ensures Ordered(shared, inserted, deleted) && (deleteAll || HidesShared(shared, inserted, gone)) ==>
                var rows := Visited(if deleteAll then [] else shared, inserted, gone, next);
                var right := Whole(next) == Scanned(rows, AtEnd);
                && (Comparable(next) ==> right)
                && (gone <= KeySet(shared) ==> (right <==> Comparable(next)))
    {
      if Ordered(shared, inserted, deleted) && deleteAll {
        ScanIsRightIff([], inserted, deleted, next);
        NothingCompared(Walk(inserted, next), Walk(deleted, next), next);
        assert Walk<Row>([], next) == [];
      } else if Ordered(shared, inserted, deleted) && HidesShared(shared, inserted, gone) {
        ScanIsRightIff(shared, inserted, deleted, next);
      }
    }

    /** The row count, from the counts of the three trees. */
    method Count() returns (n: int)
      requires Sorted(shared, true) && SortedKeys(deleted, true) && (deleteAll || gone <= KeySet(shared))
      ensures n == |Visited(if deleteAll then [] else shared, inserted, gone, true)|
    {
      n := if deleteAll then |inserted| else |shared| + |inserted| - |deleted|;
      DistinctKeys(deleted);
      if deleteAll {
        MergeCount([], Walk(inserted, true), true);
      } else {
        VisitedCount(shared, inserted, gone, true);
      }
    }
  }

  /** Two rows too far apart, one shared and one inserted, that a scan returns in the wrong order. */
  lemma FarRowsSwap(rec: Record)
    ensures var low, high := Row(-TWO63, rec), Row(1, rec);
            && Expected([low], [high], [], true) == Scanned([low, high], AtEnd)
            && Run([low], [high], [], true) == Scanned([high, low], AtEnd)
  {
    var low, high := Row(-TWO63, rec), Row(1, rec);
    assert !TakesShared(low.key, high.key, true);
    assert Run([low], [], [], true) == Scanned([low], AtEnd) by {
      CleanRunIff([low], true);
    }
    assert [high][1..] == [];
    FollowIs(Settled([low], []), [high], true);
    MergeHead([low], [high], true);
    AliveHead([low], Keys([]));
  }

  lemma FollowIs(f: Found, b: seq<Row>, next: bool)
    requires f.Settled? && (f.a != [] || b != [])
    ensures var r := Follow(f, b, next);
            && r.rows != []
            && if ReadsShared(f.a, b, next) then
                 if TooWide(f.a, next) then r == Scanned([r.rows[0]], OutOfOrder)
                 else r == Scanned([r.rows[0]] + Run(f.a[1..], b, f.d, next).rows, Run(f.a[1..], b, f.d, next).rc)
               else r == Scanned([r.rows[0]] + Run(f.a, b[1..], f.d, next).rows, Run(f.a, b[1..], f.d, next).rc)
  {
  }

  lemma AtStart<T>(s: seq<T>, next: bool)
    ensures InRange(Start(|s|, next), |s|, next) && Rest(s, Start(|s|, next), next) == Walk(s, next)
    ensures InRange(End(|s|, next), |s|, next) && Rest(s, End(|s|, next), next) == []
  {
  }

  lemma MoveHead(a: seq<Row>, b: seq<Row>)
    requires b != []
    ensures a + b == (a + [b[0]]) + b[1..]
  {
  }

  /** A table of two rows in order, the first key and 0, that a scan takes for corrupt. */
  method WideTableIsCorrupt(rec: Record) returns (rc: Step, rows: seq<Row>)
    ensures Sorted([Row(-TWO63, rec), Row(0, rec)], true) && rc == OutOfOrder
  {
    var table := [Row(-TWO63, rec), Row(0, rec)];
    var c := new Cursor(table, [], [], false);
    rc, rows := c.Scan(true);
    CleanRunIff(table, true);
    assert !Fits64(table[1].key - table[0].key);
    assert c.Whole(true) == Run(table, [], [], true);
  }

  lemma {:induction false} DistinctKeys(d: seq<int>)
    requires SortedKeys(d, true)
    ensures |Keys(d)| == |d|
  {
    if d != [] {
      DistinctKeys(d[1..]);
      KeysHead(d);
    }
  }

}
