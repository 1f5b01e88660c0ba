/**
 The shared row-lock area: lock, query, unlock and bulk release of (table, rowid) keys
 over the slot array, refining a finite map from keys to holders.
 */
module RowLocks {
  import opened SlotRing
  import opened SlotStore

  datatype RowKey = RowKey(iTable: int, rowid: int)

  /** A lock owner: the process and the connection inside it. */
  datatype Holder = Holder(pid: int, owner: int)

  type RowElem = Entry<RowKey, Holder>

  datatype Rc = Ok | Done | Locked | NoMem

  type Locks = map<RowKey, Holder>

  /** Which holders a bulk release selects: a pid or owner of 0 stands for any. */
  predicate Selects(pid: int, owner: int, h: Holder) {
    (pid == 0 || h.pid == pid) && (owner == 0 || h.owner == owner)
  }

  function Released(held: Locks, pid: int, owner: int): Locks {
    held - set k | k in held && Selects(pid, owner, held[k])
  }

  /** Elements of the run after the slot of k moved towards it, over used slots only. */
  ghost predicate ShiftedOver(was: seq<Slot<RowElem>>, now: seq<Slot<RowElem>>, k: RowKey) {
    exists del: nat, end: nat ::
      Removed(was, now, del, end) && PathUsed(was, del, end) && was[del].Used? && was[del].elem.key == k
  }

  /** A call any process may make on the area. */
  datatype Call =
    | LockRow(k: RowKey, me: Holder)
    | QueryRow(k: RowKey, me: Holder)
    | UnlockRow(k: RowKey)
    | ReleaseRows(pid: int, owner: int)

  predicate NamesTable(c: Call) {
    c.ReleaseRows? || c.k.iTable != 0
  }

  /** The reply the finite map gives; n is the number of slots. */
  function Reply(held: Locks, n: nat, c: Call): Rc {
    match c
    case LockRow(k, me) =>
      if k in held then (if held[k] == me then Done else Locked)
      else if |held| < n - 1 then Ok else NoMem
    case QueryRow(k, me) => if k in held && held[k] != me then Locked else Ok
    case _ => Ok
  }

  function After(held: Locks, n: nat, c: Call): Locks {
    match c
    case LockRow(k, me) => if Reply(held, n, c).Ok? then held[k := me] else held
    case QueryRow(_, _) => held
    case UnlockRow(k) => held - {k}
    case ReleaseRows(pid, owner) => Released(held, pid, owner)
  }

  function AfterAll(held: Locks, n: nat, calls: seq<Call>): Locks {
    if calls == [] then held else After(AfterAll(held, n, calls[..|calls| - 1]), n, calls[|calls| - 1])
  }

  function Replies(held: Locks, n: nat, calls: seq<Call>): (rcs: seq<Rc>)
    ensures |rcs| == |calls|
  {
    if calls == [] then []
    else
      var before := calls[..|calls| - 1];
      Replies(held, n, before) + [Reply(AfterAll(held, n, before), n, calls[|calls| - 1])]
  }

  predicate MayRelease(c: Call, k: RowKey, me: Holder) {
    (c.UnlockRow? && c.k == k) || (c.ReleaseRows? && Selects(c.pid, c.owner, me))
  }

  /**
   Over every run of calls by anyone, a holder keeps its row until a call that names the row or the
   holder releases it: meanwhile every other holder's request is refused and its own is acknowledged.
   */
  lemma {:induction false} HolderKeepsRow(held: Locks, n: nat, calls: seq<Call>, k: RowKey, me: Holder)
    requires k in held && held[k] == me
    requires forall c :: c in calls ==> !MayRelease(c, k, me)
    ensures k in AfterAll(held, n, calls) && AfterAll(held, n, calls)[k] == me
    ensures forall other ::
              Reply(AfterAll(held, n, calls), n, LockRow(k, other)) == if other == me then Done else Locked
    ensures forall other :: Reply(AfterAll(held, n, calls), n, QueryRow(k, other)) == if other == me then Ok else Locked
  {
    if calls != [] {
      var last := calls[|calls| - 1];
      HolderKeepsRow(held, n, calls[..|calls| - 1], k, me);
      assert !MayRelease(last, k, me);
    }
  }

  /** One call leaves a row that stays held with its holder. */
  lemma CallKeepsHolder(held: Locks, n: nat, c: Call, k: RowKey)
    requires k in held && k in After(held, n, c)
    ensures After(held, n, c)[k] == held[k]
  {
  }

  /** A row changes hands only through a state in which nobody holds it. */
  lemma {:induction false} NoTakeover(held: Locks, n: nat, calls: seq<Call>, k: RowKey)
    requires k in held && k in AfterAll(held, n, calls) && AfterAll(held, n, calls)[k] != held[k]
    ensures exists i :: 0 < i < |calls| && k !in AfterAll(held, n, calls[..i])
  {
    var before := calls[..|calls| - 1];
    var mid := AfterAll(held, n, before);
    hide After;
    if k !in mid {
      assert calls[..|calls| - 1] == before;
      assert before != [];
    } else {
      CallKeepsHolder(mid, n, calls[|calls| - 1], k);
      NoTakeover(held, n, before, k);
      var i :| 0 < i < |before| && k !in AfterAll(held, n, before[..i]);
      assert before[..i] == calls[..i];
    }
  }

  class RowLockArea {
    const slots: array<Slot<RowElem>>
    const hashOf: RowKey -> nat
    var count: nat
    ghost var held: Locks

    /** At least one slot is always empty, so every probe ends. */
    ghost predicate Valid()
      reads this, slots
    {
      && (forall k :: hashOf(k) < slots.Length)
      && Probing(slots[..])
      && Stores(slots[..], hashOf, held)
      && (forall k :: k in held ==> k.iTable != 0)
      && count == |held| < slots.Length
      && multiset(slots[..])[Empty] == slots.Length - count
    }

    constructor (nElement: nat, hashOf: RowKey -> nat)
      requires nElement > 0 && forall k :: hashOf(k) < nElement
      ensures Valid() && held == map[] && fresh(slots)
      ensures slots.Length == nElement && this.hashOf == hashOf
    {
      slots := new Slot<RowElem>[nElement](_ => Empty);
      this.hashOf := hashOf;
      count := 0;
      held := map[];
      new;
      AllEmpty(slots[..]);
    }

    /** A probe for k finds its slot exactly when k is held. */
    lemma ProbeDecides(k: RowKey, rc: SearchResult, idx: nat)
      requires Valid() && idx < slots.Length
      requires rc.Found? ==> slots[idx].Used? && slots[idx].elem.key == k
      requires rc.Vacant? ==> slots[idx].Empty?
      requires !rc.Full? ==>
                 forall q: nat :: q < slots.Length && q != idx && OnPath(hashOf(k), q, idx, slots.Length) ==>
                                    slots[q].Used? && slots[q].elem.key != k
      requires rc.Full? ==> forall q: nat :: q < slots.Length ==> slots[q].Used?
      ensures !rc.Full?
      ensures rc.Found? <==> k in held
      ensures rc.Found? ==> slots[idx].elem.val == held[k]
    {
      var s := slots[..];
      assert Empty in multiset(s);
      assert Empty in s;
      if rc.Found? {
        SlotIsEntry(s, hashOf, held, idx);
      } else if k in held {
        var p := EntryHasSlot(s, hashOf, held, k);
        VacantMeansAbsent(s, hashOf(k), idx, p);
      }
    }

    method Lock(k: RowKey, me: Holder) returns (rc: Rc)
      requires Valid() && k.iTable != 0
      modifies this, slots
      ensures Valid()
      ensures rc == if k in old(held) then (if old(held)[k] == me then Done else Locked)
                    else if |old(held)| < slots.Length - 1 then Ok else NoMem
      ensures held == if rc.Ok? then old(held)[k := me] else old(held)
      ensures !rc.Ok? ==> slots[..] == old(slots[..])
    {
      var hash := hashOf(k);
      var found, idx := Search(slots, (e: RowElem) => e.key == k, hash);
      ProbeDecides(k, found, idx);
      if found.Found? {
        return if slots[idx].elem.val == me then Done else Locked;
      }
      if count >= slots.Length - 1 {
        return NoMem;
      }
      ghost var was := slots[..];
      FillKeepsProbing(was, hash, idx, Entry(k, me));
      FillStores(was, hashOf, held, idx, k, me);
      slots[idx] := Used(hash, Entry(k, me));
      assert slots[..] == was[idx := Used(hash, Entry(k, me))];
      count := count + 1;
      held := held[k := me];
      rc := Ok;
    }

    /** Tells a caller whether another holder has the row. */
    method Query(k: RowKey, me: Holder) returns (rc: Rc)
      requires Valid() && k.iTable != 0
      ensures rc == if k in held && held[k] != me then Locked else Ok
    {
      var found, idx := Search(slots, (e: RowElem) => e.key == k, hashOf(k));
      ProbeDecides(k, found, idx);
      return if found.Found? && slots[idx].elem.val != me then Locked else Ok;
    }

    /** Deletes the element at del and uncounts it. */
    method RemoveAt(k: RowKey, hash: nat, del: nat, end: nat)
      requires Valid()
      requires Run(slots[..], hash, del, end) && PathUsed(slots[..], del, end)
      requires slots[del].Used? && slots[del].elem.key == k
      modifies this, slots
      ensures Valid()
      ensures held == old(held) - {k}
      ensures ShiftedOver(old(slots[..]), slots[..], k)
    {
      ghost var was := slots[..];
      Delete(slots, hash, del, end);
      RemoveStores(was, slots[..], hashOf, held, del, end);
      held := held - {k};
      count := count - 1;
    }

    /** Releases the row whoever holds it. */
    method Unlock(k: RowKey)
      requires Valid() && k.iTable != 0
      modifies this, slots
      ensures Valid()
      ensures held == old(held) - {k}
      ensures k in old(held) ==> ShiftedOver(old(slots[..]), slots[..], k)
      ensures k !in old(held) ==> slots[..] == old(slots[..])
    {
      var n := slots.Length;
      var hash := hashOf(k);
      ghost var was := slots[..];
      if slots[hash].Empty? {
        ProbeDecides(k, Vacant, hash);
        return;
      }
      var found, del := Search(slots, (e: RowElem) => e.key == k, hash);
      ProbeDecides(k, found, del);
      if !found.Found? {
        return;
      }
      assert HasEmpty(was) by {
        assert Empty in multiset(was);
        assert Empty in was;
      }
      var end := FindRunEnd(slots, hash, del);
      RunTail(was, hash, del, end);
      RemoveAt(k, hash, del, end);
    }

    /** Scans backwards from the last slot for an empty one. */
    method FindEmpty() returns (idx: nat)
      requires Valid()
      ensures idx < slots.Length && slots[idx].Empty?
    {
      var n := slots.Length;
      assert Empty in multiset(slots[..]);
      ghost var hole: nat :| hole < n && slots[hole].Empty?;
      idx := n - 1;
      while slots[idx].Used?
        invariant hole <= idx < n
        invariant forall p: nat :: idx < p < n ==> slots[p].Used?
        decreases idx
      {
        idx := Prev(idx, n);
        if idx == 0 {
          break;
        }
      }
    }

    /** One slot of the sweep: releases what it holds until that is not selected. */
    method ReleaseSlot(idx: nat, start: nat, pid: int, owner: int)
      requires Valid() && idx < slots.Length && start < slots.Length && slots[start].Empty?
      requires Swept(slots[..], idx, start, pid, owner)
      modifies this, slots
      ensures Valid() && slots[start].Empty?
      ensures Swept(slots[..], idx, start, pid, owner)
      ensures slots[idx].Empty? || !Selects(pid, owner, slots[idx].elem.val)
      ensures Released(held, pid, owner) == Released(old(held), pid, owner)
    {
      while slots[idx].Used? && Selects(pid, owner, slots[idx].elem.val)
        invariant Valid() && slots[start].Empty?
        invariant Swept(slots[..], idx, start, pid, owner)
        invariant Released(held, pid, owner) == Released(old(held), pid, owner)
        decreases |held|
      {
        ghost var was := slots[..];
        ghost var before := held;
        var k := slots[idx].elem.key;
        SlotIsEntry(was, hashOf, held, idx);
        Unlock(k);
        UnlockKeepsSwept(was, slots[..], hashOf, before, idx, start, pid, owner);
        ReleasedWithout(before, k, pid, owner);
      }
    }

    /**
     Bulk release: sweeps backwards from an empty slot while deletions shift elements under it.
     Exactly the locks of the selected holders are gone at the end.
     */
    method ReleaseAll(pid: int, owner: int)
      requires Valid()
      modifies this, slots
      ensures Valid()
      ensures held == Released(old(held), pid, owner)
      ensures forall k :: k in held ==> k in old(held) && held[k] == old(held)[k]
      ensures pid == 0 && owner == 0 ==> held == map[]
      ensures pid != 0 && owner == 0 ==> forall k :: k in held <==> k in old(held) && old(held)[k].pid != pid
      ensures pid == 0 && owner != 0 ==> forall k :: k in held <==> k in old(held) && old(held)[k].owner != owner
      ensures pid != 0 && owner != 0 ==>
                forall k :: k in held <==> k in old(held) && old(held)[k] != Holder(pid, owner)
    {
      ReleasedExactly(held, pid, owner);
      var n := slots.Length;
      var start := FindEmpty();
      var idx: nat := start;
      while true
        invariant Valid() && idx < n && slots[start].Empty?
        invariant Swept(slots[..], idx, start, pid, owner)
        invariant Released(held, pid, owner) == Released(old(held), pid, owner)
        decreases n - Dist(idx, start, n)
      {
        ReleaseSlot(idx, start, pid, owner);
        SweptStep(slots[..], idx, start, pid, owner);
        idx := Prev(idx, n);
        if idx == start {
          break;
        }
      }
      NothingSelected(slots[..], hashOf, held, start, pid, owner);
    }

    method Serve(c: Call) returns (rc: Rc)
      requires Valid() && NamesTable(c)
      modifies this, slots
      ensures Valid()
      ensures rc == Reply(old(held), slots.Length, c)
      ensures held == After(old(held), slots.Length, c)
    {
      rc := Ok;
      match c {
        case LockRow(k, me) => rc := Lock(k, me);
        case QueryRow(k, me) => rc := Query(k, me);
        case UnlockRow(k) => Unlock(k);
        case ReleaseRows(pid, owner) => ReleaseAll(pid, owner);
      }
    }

    /** Any run of calls answers and ends as the finite map does. */
    method Perform(calls: seq<Call>) returns (rcs: seq<Rc>)
      requires Valid() && forall i :: 0 <= i < |calls| ==> NamesTable(calls[i])
      modifies this, slots
      ensures Valid()
      ensures held == AfterAll(old(held), slots.Length, calls)
      ensures rcs == Replies(old(held), slots.Length, calls)
      decreases |calls|
    {
      if calls == [] {
        return [];
      }
      rcs := Perform(calls[..|calls| - 1]);
      var rc := Serve(calls[|calls| - 1]);
      rcs := rcs + [rc];
    }
  }

  /** What a bulk release leaves: nothing, or the locks of other processes, of other owners or of other holders. */
  lemma ReleasedExactly(held: Locks, pid: int, owner: int)
    ensures var left := Released(held, pid, owner);
            && (forall k :: k in left ==> k in held && left[k] == held[k])
            && (pid == 0 && owner == 0 ==> left == map[])
            && (pid != 0 && owner == 0 ==> forall k :: k in left <==> k in held && held[k].pid != pid)
            && (pid == 0 && owner != 0 ==> forall k :: k in left <==> k in held && held[k].owner != owner)
            && (pid != 0 && owner != 0 ==> forall k :: k in left <==> k in held && held[k] != Holder(pid, owner))
  {
  }

  lemma ReleasedWithout(held: Locks, k: RowKey, pid: int, owner: int)
    requires k in held && Selects(pid, owner, held[k])
    ensures Released(held - {k}, pid, owner) == Released(held, pid, owner)
    ensures |held - {k}| < |held|
  {
  }

  lemma SweptStep(s: seq<Slot<RowElem>>, idx: nat, start: nat, pid: int, owner: int)
    requires idx < |s| && start < |s| && s[start].Empty? && Swept(s, idx, start, pid, owner)
    requires s[idx].Empty? || !Selects(pid, owner, s[idx].elem.val)
    ensures Prev(idx, |s|) != start ==> Swept(s, Prev(idx, |s|), start, pid, owner)
    ensures Prev(idx, |s|) == start ==>
              forall q: nat :: q < |s| ==> s[q].Empty? || !Selects(pid, owner, s[q].elem.val)
  {
  }

  lemma NothingSelected(s: seq<Slot<RowElem>>, hashOf: RowKey -> nat, held: Locks, start: nat, pid: int, owner: int)
    requires Stores(s, hashOf, held)
    requires forall q: nat :: q < |s| ==> s[q].Empty? || !Selects(pid, owner, s[q].elem.val)
    ensures Released(held, pid, owner) == held
  {
    forall k | k in held ensures !Selects(pid, owner, held[k]) {
      var p := EntryHasSlot(s, hashOf, held, k);
    }
  }

  /** The slots from the one after idx round to start hold no selected element. */
  ghost predicate Swept(s: seq<Slot<RowElem>>, idx: nat, start: nat, pid: int, owner: int)
    requires idx < |s| && start < |s|
  {
    forall q: nat :: q < |s| && q != idx && OnPath(idx, q, start, |s|) ==>
                       s[q].Empty? || !Selects(pid, owner, s[q].elem.val)
  }

  lemma UnlockKeepsSwept(was: seq<Slot<RowElem>>, now: seq<Slot<RowElem>>, hashOf: RowKey -> nat, held: Locks,
                         idx: nat, start: nat, pid: int, owner: int)
    requires idx < |was| && start < |was| && was[start].Empty? && was[idx].Used?
    requires Stores(was, hashOf, held) && ShiftedOver(was, now, was[idx].elem.key)
    requires Swept(was, idx, start, pid, owner)
    ensures |now| == |was| && now[start].Empty?
    ensures Swept(now, idx, start, pid, owner)
    ensures now[idx].Empty? || !Selects(pid, owner, now[idx].elem.val)
  {
    var k := was[idx].elem.key;
    var del: nat, end: nat :|
      Removed(was, now, del, end) && PathUsed(was, del, end) && was[del].Used? && was[del].elem.key == k;
    StoredOnce(was, hashOf, held, idx, del);
    assert !OnPath(idx, start, end, |was|);
    forall q: nat | q < |now| && OnPath(idx, q, start, |now|)
      ensures now[q].Empty? || !Selects(pid, owner, now[q].elem.val)
    {
      if OnPath(idx, q, end, |was|) && now[q].Used? {
        assert FromLater(was, now[q], idx, end);
      }
    }
  }
}
