/**
 The circular open-addressing array shared by the row-lock and the table-lock areas:
 cyclic index arithmetic, the probing search and the recursive backward-shift deletion.
 An element is stored with the hash slot it was placed from.
 */
module SlotRing {

  /** One array element; Empty stands for an element whose iTable is 0. */
  datatype Slot<E> = Empty | Used(hash: nat, elem: E)

  datatype SearchResult = Found | Vacant | Full

  function Next(i: nat, n: nat): (r: nat)
    requires i < n
  {
    if i + 1 == n then 0 else i + 1
  }

  function Prev(i: nat, n: nat): (r: nat)
    requires i < n
  {
    if i == 0 then n - 1 else i - 1
  }

  /** Steps taken by Next to get from one slot to another. */
  function Dist(from: nat, to: nat, n: nat): (d: nat)
    requires from < n && to < n
  {
    if from <= to then to - from else to + n - from
  }

  /** The slots met by a probe that starts at hash and stops at p, both included. */
  ghost predicate OnPath(hash: nat, q: nat, p: nat, n: nat)
    requires hash < n && q < n && p < n
  {
    Dist(hash, q, n) <= Dist(hash, p, n)
  }

  ghost predicate PathUsed<E>(s: seq<Slot<E>>, hash: nat, p: nat)
    requires hash < |s| && p < |s|
  {
    forall q: nat :: q < |s| && OnPath(hash, q, p, |s|) ==> s[q].Used?
  }

  /** The element at p can be met by a probe from its hash slot. */
  ghost predicate Reachable<E>(s: seq<Slot<E>>, p: nat)
    requires p < |s|
  {
    s[p].Used? ==> s[p].hash < |s| && PathUsed(s, s[p].hash, p)
  }

  /** The probing invariant. */
  ghost predicate Probing<E>(s: seq<Slot<E>>) {
    forall p: nat :: p < |s| ==> Reachable(s, p)
  }

  /** Next and Prev are the modular steps of the array index. */
  lemma StepsAreModular(i: nat, n: nat)
    requires i < n
    ensures Next(i, n) == (i + 1) % n
    ensures Prev(i, n) == (i + n - 1) % n
  {
    if i == 0 {
      Below(n - 1, n);
    } else {
      Wrapped(i - 1, n);
    }
    if i + 1 == n {
      Wrapped(0, n);
    } else {
      Below(i + 1, n);
    }
  }

  lemma Below(i: nat, n: nat)
    requires i < n
    ensures i % n == i
  {
  }

  lemma Wrapped(i: nat, n: nat)
    requires i < n
    ensures (i + n) % n == i
  {
  }

  method Search<E>(a: array<Slot<E>>, isTarget: E -> bool, hash: nat) returns (rc: SearchResult, idx: nat)
    requires hash < a.Length
    ensures idx < a.Length
    ensures rc.Found? ==> a[idx].Used? && isTarget(a[idx].elem) && PathUsed(a[..], hash, idx)
    ensures rc.Vacant? ==> a[idx].Empty?
    ensures !rc.Full? ==>
              forall q: nat :: q < a.Length && q != idx && OnPath(hash, q, idx, a.Length) ==>
                                 a[q].Used? && !isTarget(a[q].elem)
    ensures rc.Full? ==> forall q: nat :: q < a.Length ==> a[q].Used? && !isTarget(a[q].elem)
  {
    idx := hash;
    var n := a.Length;
    while a[idx].Used?
      invariant idx < n
      invariant forall q: nat :: q < n && q != idx && OnPath(hash, q, idx, n) ==> a[q].Used? && !isTarget(a[q].elem)
      decreases n - Dist(hash, idx, n)
    {
      if isTarget(a[idx].elem) {
        return Found, idx;
      }
      var last := idx;
      idx := Next(idx, n);
      if idx == hash {
        assert forall q: nat :: q < n ==> OnPath(hash, q, last, n);
        return Full, idx;
      }
    }
    rc := Vacant;
  }

  /** A probe that stops at an empty slot has met every element stored under its hash. */
  lemma VacantMeansAbsent<E>(s: seq<Slot<E>>, hash: nat, idx: nat, p: nat)
    requires Probing(s) && hash < |s| && idx < |s| && p < |s|
    requires s[idx].Empty?
    requires s[p].Used? && s[p].hash == hash
    ensures p != idx && OnPath(hash, p, idx, |s|)
  {
    assert Reachable(s, p);
  }

  /** Filling the empty slot a probe stopped at keeps the probing invariant. */
  lemma FillKeepsProbing<E>(s: seq<Slot<E>>, hash: nat, idx: nat, x: E)
    requires Probing(s) && hash < |s| && idx < |s|
    requires forall q: nat :: q < |s| && q != idx && OnPath(hash, q, idx, |s|) ==> s[q].Used?
    ensures Probing(s[idx := Used(hash, x)])
  {
    var t := s[idx := Used(hash, x)];
    forall p: nat | p < |t| ensures Reachable(t, p) {
      assert Reachable(s, p);
    }
  }

  lemma ReplaceKeepsProbing<E>(s: seq<Slot<E>>, p: nat, x: E)
    requires Probing(s) && p < |s| && s[p].Used?
    ensures Probing(s[p := Used(s[p].hash, x)])
  {
    var t := s[p := Used(s[p].hash, x)];
    forall q: nat | q < |t| ensures Reachable(t, q) {
      assert Reachable(s, q);
    }
  }

  /** The test of the first two wrap-around patterns. */
  predicate IsTargetPattern1and2(start: nat, del: nat, hash: nat) {
    start <= hash && hash <= del
  }

  /** The test of the third wrap-around pattern. */
  predicate IsTargetPattern3(start: nat, del: nat, hash: nat) {
    hash <= del || start <= hash
  }

  predicate UsesPattern1and2(start: nat, del: nat, end: nat) {
    (start <= del && del <= end) || (end <= start && start <= del)
  }

  predicate IsMoveTarget(start: nat, del: nat, end: nat, hash: nat) {
    if UsesPattern1and2(start, del, end) then IsTargetPattern1and2(start, del, hash)
    else IsTargetPattern3(start, del, hash)
  }

  /** start..del..end in cyclic order, all used, and closed by the empty slot after end. */
  ghost predicate Run<E>(s: seq<Slot<E>>, start: nat, del: nat, end: nat) {
    && start < |s| && del < |s| && end < |s|
    && OnPath(start, del, end, |s|)
    && PathUsed(s, start, end)
    && s[Next(end, |s|)].Empty?
  }

  /** Inside a run all three patterns accept exactly the hashes lying between start and del. */
  lemma PatternsAgree(start: nat, del: nat, end: nat, hash: nat, n: nat)
    requires start < n && del < n && end < n && hash < n
    requires OnPath(start, del, end, n) && OnPath(start, hash, end, n)
    ensures IsMoveTarget(start, del, end, hash) <==> OnPath(start, hash, del, n)
    ensures !UsesPattern1and2(start, del, end) ==> del <= end && end <= start
  {
  }

  /** An element of a run that begins after an empty slot is hashed inside the run, at or before its place. */
  lemma HashInsideRun<E>(s: seq<Slot<E>>, start: nat, end: nat, p: nat)
    requires Probing(s) && Run(s, start, start, end) && s[Prev(start, |s|)].Empty?
    requires p < |s| && OnPath(start, p, end, |s|)
    ensures s[p].Used? && s[p].hash < |s| && OnPath(start, s[p].hash, p, |s|)
  {
    assert Reachable(s, p);
    var before := Prev(start, |s|);
    assert !OnPath(s[p].hash, before, p, |s|);
  }

  /** Emptying del keeps the probing invariant when nothing after del in the run is hashed at or before del. */
  lemma ClearKeepsProbing<E>(s: seq<Slot<E>>, start: nat, del: nat, end: nat)
    requires Probing(s) && Run(s, start, del, end) && s[Prev(start, |s|)].Empty?
    requires forall p: nat :: p < |s| && p != del && OnPath(del, p, end, |s|) ==>
                                s[p].Used? && s[p].hash < |s| && !OnPath(start, s[p].hash, del, |s|)
    ensures Probing(s[del := Empty])
  {
    var t := s[del := Empty];
    forall p: nat | p < |t| ensures Reachable(t, p) {
      if t[p].Used? {
        assert Reachable(s, p);
        var h := s[p].hash;
        if OnPath(h, del, p, |s|) {
          if OnPath(start, p, end, |s|) {
            HashInsideRun(s, start, end, p);
          }
          assert false;
        }
      }
    }
  }

  /** Copying an element of the run into the hole del keeps the probing invariant when it is hashed at or before del. */
  lemma CopyKeepsProbing<E>(s: seq<Slot<E>>, start: nat, del: nat, end: nat, idx: nat)
    requires Probing(s) && Run(s, start, del, end) && s[Prev(start, |s|)].Empty?
    requires idx < |s| && OnPath(start, idx, end, |s|)
    requires s[idx].Used? && s[idx].hash < |s| && OnPath(start, s[idx].hash, del, |s|)
    ensures Probing(s[del := s[idx]])
  {
    HashInsideRun(s, start, end, idx);
    var t := s[del := s[idx]];
    forall p: nat | p < |t| ensures Reachable(t, p) {
      assert Reachable(s, p);
      assert p != del ==> t[p] == s[p];
    }
  }

  ghost predicate HasEmpty<E>(s: seq<Slot<E>>) {
    exists p: nat :: p < |s| && s[p].Empty?
  }

  /** A used path in an array with an empty slot never goes all the way round. */
  lemma PathIsPartial<E>(s: seq<Slot<E>>, hash: nat, p: nat)
    requires hash < |s| && p < |s| && PathUsed(s, hash, p) && HasEmpty(s)
    ensures Next(p, |s|) != hash
  {
  }

  lemma PathExtends<E>(s: seq<Slot<E>>, hash: nat, p: nat)
    requires hash < |s| && p < |s| && PathUsed(s, hash, p) && s[Next(p, |s|)].Used? && Next(p, |s|) != hash
    ensures PathUsed(s, hash, Next(p, |s|))
  {
  }

  lemma RunTail<E>(s: seq<Slot<E>>, start: nat, del: nat, end: nat)
    requires Run(s, start, del, end)
    ensures PathUsed(s, del, end)
  {
  }

  /** Scans forwards from del for the slot before the first empty one. */
  method FindRunEnd<E>(a: array<Slot<E>>, hash: nat, del: nat) returns (end: nat)
    requires hash < a.Length && del < a.Length
    requires PathUsed(a[..], hash, del) && HasEmpty(a[..])
    ensures Run(a[..], hash, del, end)
  {
    var n := a.Length;
    end := del;
    var idx: nat := Next(del, n);
    PathIsPartial(a[..], hash, del);
    while a[idx].Used?
      invariant end < n && idx == Next(end, n) && idx != hash
      invariant OnPath(hash, del, end, n)
      invariant PathUsed(a[..], hash, end)
      decreases n - Dist(hash, end, n)
    {
      PathExtends(a[..], hash, end);
      PathIsPartial(a[..], hash, idx);
      end := idx;
      idx := Next(idx, n);
      if idx == hash {
        assert false;
      }
    }
  }

  lemma RunExtendsBack<E>(s: seq<Slot<E>>, start: nat, del: nat, end: nat)
    requires Run(s, start, del, end) && s[Prev(start, |s|)].Used?
    ensures Run(s, Prev(start, |s|), del, end)
    ensures Dist(Prev(start, |s|), end, |s|) == Dist(start, end, |s|) + 1
  {
  }

  /** Scans backwards from the hash slot for the first slot of its run. */
  method FindRunStart<E>(a: array<Slot<E>>, start: nat, del: nat, end: nat) returns (first: nat)
    requires Run(a[..], start, del, end)
    ensures Run(a[..], first, del, end) && a[Prev(first, a.Length)].Empty?
  {
    var n := a.Length;
    first := start;
    var idx: nat := Prev(start, n);
    while a[idx].Used?
      invariant Run(a[..], first, del, end) && idx == Prev(first, n)
      decreases n - Dist(first, end, n)
    {
      RunExtendsBack(a[..], first, del, end);
      first := idx;
      idx := Prev(idx, n);
      if idx == end {
        assert false;
      }
    }
  }

  /** Nothing after idx, up to end, may be moved into del. */
  ghost predicate NoneAfter<E>(s: seq<Slot<E>>, first: nat, del: nat, idx: nat, end: nat)
    requires first < |s| && del < |s| && idx < |s| && end < |s|
  {
    forall p: nat :: p < |s| && OnPath(del, p, end, |s|) && !OnPath(del, p, idx, |s|) ==>
                       s[p].Used? && s[p].hash < |s| && !OnPath(first, s[p].hash, del, |s|)
  }

  /** Scans backwards from end for an element that may fill the hole at del. */
  method FindMoveTarget<E>(a: array<Slot<E>>, first: nat, del: nat, end: nat) returns (idx: nat)
    requires Probing(a[..]) && Run(a[..], first, del, end) && a[Prev(first, a.Length)].Empty?
    ensures idx < a.Length && OnPath(del, idx, end, a.Length)
    ensures NoneAfter(a[..], first, del, idx, end)
    ensures idx != del ==> a[idx].Used? && a[idx].hash < a.Length && OnPath(first, a[idx].hash, del, a.Length)
  {
    var n := a.Length;
    idx := end;
    while idx != del
      invariant idx < n && OnPath(del, idx, end, n)
      invariant NoneAfter(a[..], first, del, idx, end)
      decreases Dist(del, idx, n)
    {
      HashInsideRun(a[..], first, end, idx);
      PatternsAgree(first, del, end, a[idx].hash, n);
      if IsMoveTarget(first, del, end, a[idx].hash) {
        break;
      }
      idx := Prev(idx, n);
    }
  }

  /** What a deletion at del may do to the array: it loses that element, and later elements of the run move up. */
  ghost predicate Removed<E>(was: seq<Slot<E>>, now: seq<Slot<E>>, del: nat, end: nat) {
    && |was| == |now| && del < |was| && end < |was|
    && multiset(now) == multiset(was) - multiset{was[del]} + multiset{Empty}
    && (forall p: nat :: p < |was| && !OnPath(del, p, end, |was|) ==> now[p] == was[p])
    && (forall p: nat :: p < |was| && OnPath(del, p, end, |was|) && now[p].Used? ==> FromLater(was, now[p], del, end))
  }

  ghost predicate FromLater<E>(was: seq<Slot<E>>, x: Slot<E>, del: nat, end: nat)
    requires del < |was| && end < |was|
  {
    exists q: nat :: q < |was| && q != del && OnPath(del, q, end, |was|) && was[q] == x
  }

  lemma RemovedByClear<E>(was: seq<Slot<E>>, del: nat, end: nat)
    requires del < |was| && end < |was|
    ensures Removed(was, was[del := Empty], del, end)
  {
  }

  lemma RemovedByMove<E>(was: seq<Slot<E>>, now: seq<Slot<E>>, del: nat, idx: nat, end: nat)
    requires del < |was| && idx < |was| && end < |was| && idx != del && OnPath(del, idx, end, |was|)
    requires Removed(was[del := was[idx]], now, idx, end)
    ensures Removed(was, now, del, end)
  {
    MovedContents(was, now, del, idx);
    hide FromLater;
    forall p: nat | p < |was| && OnPath(del, p, end, |was|) && now[p].Used?
      ensures FromLater(was, now[p], del, end)
    {
      MovedFromLater(was, now, del, idx, end, p);
    }
  }

  lemma MovedContents<E>(was: seq<Slot<E>>, now: seq<Slot<E>>, del: nat, idx: nat)
    requires del < |was| && idx < |was| && idx != del
    requires multiset(now) == multiset(was[del := was[idx]]) - multiset{was[idx]} + multiset{Empty}
    ensures multiset(now) == multiset(was) - multiset{was[del]} + multiset{Empty}
  {
    assert multiset(was[del := was[idx]]) == multiset(was) - multiset{was[del]} + multiset{was[idx]};
  }

  lemma MovedFromLater<E>(was: seq<Slot<E>>, now: seq<Slot<E>>, del: nat, idx: nat, end: nat, p: nat)
    requires del < |was| && idx < |was| && end < |was| && idx != del && OnPath(del, idx, end, |was|)
    requires Removed(was[del := was[idx]], now, idx, end)
    requires p < |was| && OnPath(del, p, end, |was|) && now[p].Used?
    ensures FromLater(was, now[p], del, end)
  {
  }

  /**
   Removes the element at del. Every other element stays reachable; elements move only from
   the slots after del, and only towards del. start is the hash slot the search began at.
   */
  method Delete<E>(a: array<Slot<E>>, start: nat, del: nat, end: nat)
    requires Probing(a[..]) && Run(a[..], start, del, end)
    modifies a
    ensures Probing(a[..])
    ensures Removed(old(a[..]), a[..], del, end)
    decreases Dist(del, end, a.Length)
  {
    ghost var was := a[..];
    var first := FindRunStart(a, start, del, end);
    var idx := FindMoveTarget(a, first, del, end);
    if idx == del {
      ClearKeepsProbing(was, first, del, end);
      RemovedByClear(was, del, end);
      a[del] := Empty;
      assert a[..] == was[del := Empty];
    } else {
      CopyKeepsProbing(was, first, del, end, idx);
      a[del] := a[idx];
      assert a[..] == was[del := was[idx]];
      Delete(a, first, idx, end);
      RemovedByMove(was, a[..], del, idx, end);
    }
  }
}
