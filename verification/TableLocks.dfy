/**
 The shared table-lock area: one element per (table, holder) with a lock level, several holders
 of a table hashed to the same slot. Requests scan to the first empty slot before they are granted.
 */
module TableLocks {
  import opened SlotRing
  import opened SlotStore
  import opened RowLocks
  import opened Wrappers

  const NOT_LOCKED: nat := 0
  const READ_LOCK: nat := 1
  const WRITE_LOCK: nat := 2
  const WRITEEX_LOCK: nat := 3
  const EXCLSV_LOCK: nat := 4
  const SCHEMA_ROOT: int := 1

  /** Other stands for a mode number that has no name; it is compared with none. */
  datatype Mode = Normal | Commit | Force | Other

  datatype TableKey = TableKey(iTable: int, holder: Holder)

  type TableElem = Entry<TableKey, nat>

  type Levels = map<TableKey, nat>

  /** Another holder's lock stands in the way of a request for level e. */
  predicate Blocks(mode: Mode, iTable: int, e: nat, other: nat, otherInUse: bool) {
    if iTable == SCHEMA_ROOT then other == WRITE_LOCK || (other == READ_LOCK && e == WRITE_LOCK)
    else
      || other == EXCLSV_LOCK
      || (mode.Normal? && other >= WRITE_LOCK && e >= WRITEEX_LOCK)
      || (mode.Normal? && other >= WRITEEX_LOCK && e >= WRITE_LOCK)
      || (mode.Commit? && otherInUse)
  }

  /** No other holder's level stands in the way; the in-use flags are not counted. */
  ghost predicate Clear(held: Levels, me: Holder, mode: Mode, iTable: int, e: nat) {
    forall k :: k in held && k.iTable == iTable && k.holder != me ==> !Blocks(mode, iTable, e, held[k], false)
  }

  /** The requests the engine makes while running queries and commits. */
  predicate Proper(mode: Mode, iTable: int, e: nat) {
    && iTable != 0
    && (mode.Normal? ==> READ_LOCK <= e <= EXCLSV_LOCK)
    && (mode.Normal? && iTable == SCHEMA_ROOT ==> e <= WRITE_LOCK)
    && (mode.Commit? ==> e == if iTable == SCHEMA_ROOT then WRITE_LOCK else EXCLSV_LOCK)
    && (mode.Normal? || mode.Commit?)
  }

  /** Two levels that different holders of a table never have at the same time. */
  predicate Clash(iTable: int, a: nat, b: nat) {
    if iTable == SCHEMA_ROOT then a == WRITE_LOCK && (b == WRITE_LOCK || b == READ_LOCK)
    else (a == EXCLSV_LOCK && b == EXCLSV_LOCK) || (a == WRITEEX_LOCK && (b == WRITEEX_LOCK || b == WRITE_LOCK))
  }

  /** No writer of sqlite_master beside another reader or writer. */
  ghost predicate MasterSafe(held: Levels) {
    forall a, b :: a in held && b in held && a != b && a.iTable == b.iTable == SCHEMA_ROOT && held[a] == WRITE_LOCK ==>
                     held[b] != WRITE_LOCK && held[b] != READ_LOCK
  }

  /** Never two exclusive holders of a table. */
  ghost predicate ExclusiveSafe(held: Levels) {
    forall a, b :: a in held && b in held && a != b && a.iTable == b.iTable != SCHEMA_ROOT && held[a] == EXCLSV_LOCK ==>
                     held[b] != EXCLSV_LOCK
  }

  /** A delete-all writer never has company at its own or the ordinary write level. */
  ghost predicate WriteExSafe(held: Levels) {
    forall a, b ::
      a in held && b in held && a != b && a.iTable == b.iTable != SCHEMA_ROOT && held[a] == WRITEEX_LOCK ==>
        held[b] != WRITEEX_LOCK && held[b] != WRITE_LOCK
  }

  ghost predicate Safe(held: Levels) {
    MasterSafe(held) && ExclusiveSafe(held) && WriteExSafe(held)
  }

  function LevelOf(held: Levels, k: TableKey): nat {
    if k in held then held[k] else NOT_LOCKED
  }

  /** The level a holder has, or had before it became exclusive. */
  function Floor(held: Levels, base: Levels, k: TableKey): nat {
    if LevelOf(held, k) == EXCLSV_LOCK then LevelOf(base, k) else LevelOf(held, k)
  }

  predicate Compatible(iTable: int, a: nat, b: nat) {
    !Clash(iTable, a, b) && !Clash(iTable, b, a)
  }

  ghost predicate Bounded(held: Levels, base: Levels, k: TableKey) {
    && LevelOf(held, k) <= (if k.iTable == SCHEMA_ROOT then WRITE_LOCK else EXCLSV_LOCK)
    && Floor(held, base, k) < EXCLSV_LOCK
  }

  /** Two holders of a table are compatible at their levels, and when either goes back to its floor. */
  ghost predicate Apart(held: Levels, base: Levels, a: TableKey, b: TableKey) {
    && Compatible(a.iTable, LevelOf(held, a), LevelOf(held, b))
    && Compatible(a.iTable, Floor(held, base, a), LevelOf(held, b))
    && Compatible(a.iTable, LevelOf(held, a), Floor(held, base, b))
  }

  /** The levels are compatible, and stay so when an exclusive holder goes back to the level it had before. */
  ghost predicate Secure(held: Levels, base: Levels) {
    && (forall k :: k in held ==> Bounded(held, base, k))
    && (forall a, b :: a in held && b in held && a != b && a.iTable == b.iTable ==> Apart(held, base, a, b))
  }

  lemma SecureIsSafe(held: Levels, base: Levels)
    requires Secure(held, base)
    ensures Safe(held)
  {
    forall a, b | a in held && b in held && a != b && a.iTable == b.iTable ensures !Clash(a.iTable, held[a], held[b]) {
      assert Apart(held, base, a, b);
    }
  }

  /** A request that is granted raises the holder's level, with no other level in the way. */
  ghost predicate Raised(held: Levels, next: Levels, me: Holder, mode: Mode, iTable: int, e: nat) {
    var mine := TableKey(iTable, me);
    (mine in held ==> held[mine] < e) && next == held[mine := e] && Clear(held, me, mode, iTable, e)
  }

  /**
   A forced request sets the level of a holder that has an element; one that has none is looked out for
   only as far as exclusive holders go.
   */
  ghost predicate Forced(held: Levels, next: Levels, me: Holder, iTable: int, e: nat) {
    var mine := TableKey(iTable, me);
    next == held[mine := e] && (mine !in held ==> Clear(held, me, Force, iTable, e))
  }

  /** Forcing takes a holder back to a level it had on the way up, or gives one without a lock at most a read lock. */
  ghost predicate TakesBack(held: Levels, base: Levels, me: Holder, iTable: int, e: nat) {
    var mine := TableKey(iTable, me);
    && iTable != 0
    && if mine in held then e <= Floor(held, base, mine) else e <= READ_LOCK
  }

  ghost predicate UnlockStep(held: Levels, next: Levels, me: Holder, iTable: int) {
    next == held || next == held - {TableKey(iTable, me)}
  }

  /** One request or release by anyone; base follows the levels from which holders were raised. */
  datatype State = State(held: Levels, base: Levels)

  ghost predicate Step(s: State, next: State) {
    || next == s
    || (exists me, mode, iTable, e ::
          && Proper(mode, iTable, e) && Raised(s.held, next.held, me, mode, iTable, e)
          && next.base == s.base[TableKey(iTable, me) := LevelOf(s.held, TableKey(iTable, me))])
    || (exists me, iTable, e ::
          && TakesBack(s.held, s.base, me, iTable, e) && Forced(s.held, next.held, me, iTable, e)
          && next.base == s.base)
    || (exists me, iTable :: UnlockStep(s.held, next.held, me, iTable) && next.base == s.base)
  }

  /** Changing one holder's level keeps the levels secure when the holder stays apart from the others. */
  lemma OneChanged(held: Levels, base: Levels, next: Levels, base': Levels, mine: TableKey)
    requires Secure(held, base) && next.Keys == held.Keys + {mine} && Bounded(next, base', mine)
    requires forall k :: k in held && k != mine ==> next[k] == held[k] && LevelOf(base', k) == LevelOf(base, k)
    requires forall k :: k in held && k != mine && k.iTable == mine.iTable ==> Apart(next, base', mine, k)
    ensures Secure(next, base')
  {
    hide Compatible;
    forall k | k in next ensures Bounded(next, base', k) {
      if k != mine {
        assert Bounded(held, base, k);
      }
    }
    forall a, b | a in next && b in next && a != b && a.iTable == b.iTable ensures Apart(next, base', a, b) {
      if b == mine {
        assert Apart(next, base', mine, a);
        Symmetric(next, base', mine, a);
      } else if a != mine {
        assert Apart(held, base, a, b);
      }
    }
  }

  lemma Symmetric(held: Levels, base: Levels, a: TableKey, b: TableKey)
    requires Apart(held, base, a, b) && a.iTable == b.iTable
    ensures Apart(held, base, b, a)
  {
  }

  lemma RaiseKeepsSecure(held: Levels, base: Levels, next: Levels, me: Holder, mode: Mode, iTable: int, e: nat)
    requires Secure(held, base) && Proper(mode, iTable, e) && Raised(held, next, me, mode, iTable, e)
    ensures Secure(next, base[TableKey(iTable, me) := LevelOf(held, TableKey(iTable, me))])
  {
    var mine := TableKey(iTable, me);
    var base' := base[mine := LevelOf(held, mine)];
    assert mine in held ==> Bounded(held, base, mine);
    forall k | k in held && k != mine && k.iTable == iTable ensures Apart(next, base', mine, k) {
      assert k.holder != me && !Blocks(mode, iTable, e, held[k], false) && Bounded(held, base, k);
      assert mine in held ==> Apart(held, base, mine, k);
    }
    OneChanged(held, base, next, base', mine);
  }

  lemma ForceKeepsSecure(held: Levels, base: Levels, next: Levels, me: Holder, iTable: int, e: nat)
    requires Secure(held, base) && TakesBack(held, base, me, iTable, e) && Forced(held, next, me, iTable, e)
    ensures Secure(next, base)
  {
    var mine := TableKey(iTable, me);
    assert mine in held ==> Bounded(held, base, mine);
    forall k | k in held && k != mine && k.iTable == iTable ensures Apart(next, base, mine, k) {
      assert k.holder != me && Bounded(held, base, k);
      assert mine in held ==> Apart(held, base, mine, k);
      assert mine !in held ==> !Blocks(Force, iTable, e, held[k], false);
    }
    OneChanged(held, base, next, base, mine);
  }

  lemma UnlockKeepsSecure(held: Levels, base: Levels, next: Levels, me: Holder, iTable: int)
    requires Secure(held, base) && UnlockStep(held, next, me, iTable)
    ensures Secure(next, base)
  {
  }

  /**
   In every run of requests, forced settings back and releases by any holders, started with no locks,
   the levels stay compatible.
   */
  lemma {:induction false} RunIsSafe(run: seq<State>)
    requires |run| > 0 && run[0] == State(map[], map[])
    requires forall i :: 0 <= i < |run| - 1 ==> Step(run[i], run[i + 1])
    ensures Secure(run[|run| - 1].held, run[|run| - 1].base) && Safe(run[|run| - 1].held)
  {
    if |run| > 1 {
      RunIsSafe(run[..|run| - 1]);
      StepKeepsSecure(run[|run| - 2], run[|run| - 1]);
      SecureIsSafe(run[|run| - 1].held, run[|run| - 1].base);
    }
  }

  lemma StepKeepsSecure(s: State, next: State)
    requires Secure(s.held, s.base) && Step(s, next)
    ensures Secure(next.held, next.base)
  {
    hide Secure, Raised, Forced, UnlockStep, Proper, TakesBack;
    if me, mode, iTable, e :|
      && Proper(mode, iTable, e) && Raised(s.held, next.held, me, mode, iTable, e)
      && next.base == s.base[TableKey(iTable, me) := LevelOf(s.held, TableKey(iTable, me))]
    {
      RaiseKeepsSecure(s.held, s.base, next.held, me, mode, iTable, e);
    } else if me, iTable, e :|
      && TakesBack(s.held, s.base, me, iTable, e) && Forced(s.held, next.held, me, iTable, e)
      && next.base == s.base
    {
      ForceKeepsSecure(s.held, s.base, next.held, me, iTable, e);
    } else if me, iTable :| UnlockStep(s.held, next.held, me, iTable) && next.base == s.base {
      UnlockKeepsSecure(s.held, s.base, next.held, me, iTable);
    }
  }

  /** Forcing a level above the one held is not looked out for: two exclusive holders are possible. */
  lemma ForcedUpIsUnsafe(a: Holder, b: Holder, iTable: int)
    requires a != b && iTable != SCHEMA_ROOT
    ensures var held := map[TableKey(iTable, a) := EXCLSV_LOCK, TableKey(iTable, b) := READ_LOCK];
            var next := held[TableKey(iTable, b) := EXCLSV_LOCK];
            Secure(held, map[]) && Forced(held, next, b, iTable, EXCLSV_LOCK) && !Safe(next)
  {
    var held := map[TableKey(iTable, a) := EXCLSV_LOCK, TableKey(iTable, b) := READ_LOCK];
    var next := held[TableKey(iTable, b) := EXCLSV_LOCK];
    assert Clash(iTable, next[TableKey(iTable, a)], next[TableKey(iTable, b)]);
  }

  /** Another holder has the table at this level. */
  ghost predicate AnotherAt(held: Levels, me: Holder, iTable: int, level: nat) {
    exists k :: k in held && k.iTable == iTable && k.holder != me && held[k] == level
  }

  /** Another holder has the table at this level or above. */
  ghost predicate AnotherFrom(held: Levels, me: Holder, iTable: int, level: nat) {
    exists k :: k in held && k.iTable == iTable && k.holder != me && held[k] >= level
  }

  /** The request is not settled by what the holder has: a lower level, or no element when it is forced. */
  ghost predicate Asks(held: Levels, me: Holder, mode: Mode, iTable: int, e: nat) {
    var mine := TableKey(iTable, me);
    mine in held ==> !mode.Force? && held[mine] < e
  }

  /** How the scan for a request ends: refused, already granted, to be forced at a slot, or free to be set at one. */
  datatype Scan = Refused | Enough | ForceAt(at: nat) | SetAt(at: nat, found: bool)

  /** A slot that refuses the request. */
  ghost predicate Obstructs(x: Slot<TableElem>, flag: bool, me: Holder, mode: Mode, iTable: int, e: nat) {
    x.Used? && x.elem.key.iTable == iTable && x.elem.key.holder != me && Blocks(mode, iTable, e, x.elem.val, flag)
  }

  ghost predicate IsOthers(x: Slot<TableElem>, me: Holder, iTable: int) {
    x.Used? && x.elem.key.iTable == iTable && x.elem.key.holder != me
  }

  ghost predicate IsMine(x: Slot<TableElem>, me: Holder, iTable: int) {
    x.Used? && x.elem.key == TableKey(iTable, me)
  }

  /** The hash slot depends on the table alone. */
  ghost predicate HashesTables(hashOf: TableKey -> nat, n: nat) {
    forall k: TableKey :: hashOf(k) < n && hashOf(k) == hashOf(TableKey(k.iTable, Holder(0, 0)))
  }

  /** The wildcard comparison of table elements: owner 0 and pid 0 match anything. */
  predicate IsTarget(k: TableKey, target: TableKey) {
    && k.iTable == target.iTable
    && (k.holder.owner == 0 || target.holder.owner == 0 || k.holder.owner == target.holder.owner)
    && (k.holder.pid == 0 || target.holder.pid == 0 || k.holder.pid == target.holder.pid)
  }

  predicate Identified(k: TableKey) {
    k.iTable != 0 && k.holder.pid != 0 && k.holder.owner != 0
  }

  ghost predicate OnlyMatch(held: Levels, k: TableKey, target: TableKey) {
    k in held && IsTarget(k, target) && forall m :: m in held && IsTarget(m, target) ==> m == k
  }

  /** Somebody the target stands for has a level on its table. */
  ghost predicate HeldBy(held: Levels, target: TableKey) {
    exists k :: k in held && IsTarget(k, target) && held[k] != NOT_LOCKED
  }

  class TableLockArea {
    const slots: array<Slot<TableElem>>
    /** The in-use flag of each slot; moving an element does not move its flag. */
    const inUse: array<bool>
    const hashOf: TableKey -> nat
    var nLock: nat
    ghost var held: Levels
    /** The level each holder had before it was raised the last time. */
    ghost var base: Levels

    ghost predicate Valid()
      reads this`nLock, this`held, slots
    {
      && inUse.Length == slots.Length
      && HashesTables(hashOf, slots.Length)
      && Probing(slots[..])
      && Stores(slots[..], hashOf, held)
      && (forall k :: k in held ==> Identified(k))
      && nLock == |held| < slots.Length
      && multiset(slots[..])[Empty] == slots.Length - nLock
    }

    constructor (nElement: nat, hashOf: TableKey -> nat)
      requires nElement > 0 && HashesTables(hashOf, nElement)
      ensures Valid() && held == map[] && base == map[] && fresh(slots) && fresh(inUse)
      ensures slots.Length == nElement && this.hashOf == hashOf && forall p: nat :: p < nElement ==> slots[p].Empty?
    {
      slots := new Slot<TableElem>[nElement](_ => Empty);
      inUse := new bool[nElement](_ => false);
      this.hashOf := hashOf;
      nLock := 0;
      held, base := map[], map[];
      new;
      AllEmpty(slots[..]);
    }

    /**
     The part of the probe before idx: all used, nothing in the way, and found tells where the caller's element
     is.
     */
    ghost predicate Passed(me: Holder, mode: Mode, iTable: int, e: nat, idx: nat, found: bool, at: nat)
      requires Valid() && idx < slots.Length
      reads this, slots, inUse
    {
      && (forall q: nat ::
            q < slots.Length && q != idx && OnPath(hashOf(TableKey(iTable, me)), q, idx, slots.Length) ==>
              && slots[q].Used?
              && !Obstructs(slots[q], inUse[q], me, mode, iTable, e)
              && (IsMine(slots[q], me, iTable) ==> found && q == at))
      && (found ==> at < slots.Length && IsMine(slots[at], me, iTable) && !mode.Force? && slots[at].elem.val < e)
    }

    lemma SomeEmpty() returns (hole: nat)
      requires Valid()
      ensures hole < slots.Length && slots[hole].Empty?
    {
      assert Empty in multiset(slots[..]);
      hole :| hole < slots.Length && slots[hole].Empty?;
    }

    lemma PassNone(me: Holder, mode: Mode, iTable: int, e: nat)
      requires Valid()
      ensures hashOf(TableKey(iTable, me)) < slots.Length
      ensures Passed(me, mode, iTable, e, hashOf(TableKey(iTable, me)), false, 0)
    {
    }

    /** Without an element of the caller there is no place of it. */
    lemma NotFoundAnywhere(me: Holder, mode: Mode, iTable: int, e: nat, idx: nat, at: nat, at': nat)
      requires Valid() && idx < slots.Length && Passed(me, mode, iTable, e, idx, false, at)
      ensures Passed(me, mode, iTable, e, idx, false, at')
    {
    }

    lemma PassOne(me: Holder, mode: Mode, iTable: int, e: nat, idx: nat, found: bool, at: nat)
      requires Valid() && idx < slots.Length && Passed(me, mode, iTable, e, idx, found, at)
      requires slots[idx].Used? && !Obstructs(slots[idx], inUse[idx], me, mode, iTable, e)
      requires IsMine(slots[idx], me, iTable) ==> !mode.Force? && slots[idx].elem.val < e
      requires Next(idx, slots.Length) != hashOf(TableKey(iTable, me))
      ensures var mine := IsMine(slots[idx], me, iTable);
              Passed(me, mode, iTable, e, Next(idx, slots.Length), found || mine, if mine then idx else at)
    {
      if found && IsMine(slots[idx], me, iTable) {
        StoredOnce(slots[..], hashOf, held, at, idx);
      }
    }

    /** Another holder of the table is running a statement. */
    ghost predicate AnotherInUse(me: Holder, iTable: int)
      requires inUse.Length == slots.Length
      reads slots, inUse
    {
      exists p: nat :: p < slots.Length && IsOthers(slots[p], me, iTable) && inUse[p]
    }

    ghost predicate Obstructed(me: Holder, mode: Mode, iTable: int, e: nat)
      requires inUse.Length == slots.Length
      reads slots, inUse
    {
      exists p: nat :: p < slots.Length && Obstructs(slots[p], inUse[p], me, mode, iTable, e)
    }

    /** The elements of the others in the slots are the levels the others have. */
    lemma OthersLevels(me: Holder, iTable: int)
      requires Valid()
      ensures forall p: nat :: p < slots.Length && IsOthers(slots[p], me, iTable) ==>
                                 AnotherAt(held, me, iTable, slots[p].elem.val)
      ensures forall k :: k in held && k.iTable == iTable && k.holder != me ==>
                            exists p: nat ::
                              p < slots.Length && IsOthers(slots[p], me, iTable) && slots[p].elem.val == held[k]
    {
      forall p: nat | p < slots.Length && IsOthers(slots[p], me, iTable)
        ensures AnotherAt(held, me, iTable, slots[p].elem.val)
      {
        SlotIsEntry(slots[..], hashOf, held, p);
      }
      forall k | k in held && k.iTable == iTable && k.holder != me
        ensures exists p: nat :: p < slots.Length && IsOthers(slots[p], me, iTable) && slots[p].elem.val == held[k]
      {
        var p := EntryHasSlot(slots[..], hashOf, held, k);
        assert slots[p] == slots[..][p];
      }
    }

    /** Which levels of others stand in the way of which requests. */
    lemma ObstructedIff(me: Holder, mode: Mode, iTable: int, e: nat)
      requires Valid()
      ensures iTable == SCHEMA_ROOT && e == READ_LOCK ==>
                (Obstructed(me, mode, iTable, e) <==> AnotherAt(held, me, iTable, WRITE_LOCK))
      ensures iTable == SCHEMA_ROOT && e == WRITE_LOCK ==>
                (Obstructed(me, mode, iTable, e) <==>
                 AnotherAt(held, me, iTable, WRITE_LOCK) || AnotherAt(held, me, iTable, READ_LOCK))
      ensures iTable != SCHEMA_ROOT && mode.Normal? && e == READ_LOCK ==>
                (Obstructed(me, mode, iTable, e) <==> AnotherAt(held, me, iTable, EXCLSV_LOCK))
      ensures iTable != SCHEMA_ROOT && mode.Normal? && e == WRITE_LOCK ==>
                (Obstructed(me, mode, iTable, e) <==> AnotherFrom(held, me, iTable, WRITEEX_LOCK))
      ensures iTable != SCHEMA_ROOT && mode.Normal? && e >= WRITEEX_LOCK ==>
                (Obstructed(me, mode, iTable, e) <==> AnotherFrom(held, me, iTable, WRITE_LOCK))
      ensures iTable != SCHEMA_ROOT && mode.Normal? && e <= WRITE_LOCK && Obstructed(me, mode, iTable, e) ==>
                AnotherFrom(held, me, iTable, WRITEEX_LOCK)
      ensures iTable != SCHEMA_ROOT && mode.Commit? ==>
                (Obstructed(me, mode, iTable, e) <==>
                 AnotherAt(held, me, iTable, EXCLSV_LOCK) || AnotherInUse(me, iTable))
      ensures iTable != SCHEMA_ROOT && (mode.Force? || mode.Other?) ==>
                (Obstructed(me, mode, iTable, e) <==> AnotherAt(held, me, iTable, EXCLSV_LOCK))
    {
      OthersLevels(me, iTable);
      hide Valid;
    }

    /** No slot before p on the probe settles the request. */
    ghost predicate NothingBefore(me: Holder, mode: Mode, iTable: int, e: nat, p: nat)
      requires Valid() && p < slots.Length
      reads this, slots, inUse
    {
      forall q: nat :: q < slots.Length && q != p && OnPath(hashOf(TableKey(iTable, me)), q, p, slots.Length) ==>
                         && !Obstructs(slots[q], inUse[q], me, mode, iTable, e)
                         && (IsMine(slots[q], me, iTable) ==> !mode.Force? && slots[q].elem.val < e)
    }

    lemma PassedNothing(me: Holder, mode: Mode, iTable: int, e: nat, idx: nat, found: bool, at: nat)
      requires Valid() && idx < slots.Length && Passed(me, mode, iTable, e, idx, found, at)
      ensures NothingBefore(me, mode, iTable, e, idx)
    {
    }

    /** Looks at the elements of the table up to the first empty slot. */
    method ScanTable(me: Holder, iTable: int, e: nat, mode: Mode) returns (r: Scan, ghost p: nat)
      requires Valid()
      ensures p < slots.Length
      ensures NothingBefore(me, mode, iTable, e, p)
      ensures r.Refused? ==> Obstructs(slots[p], inUse[p], me, mode, iTable, e)
      ensures r.Enough? ==> !mode.Force? && IsMine(slots[p], me, iTable) && slots[p].elem.val >= e
      ensures r.ForceAt? ==> mode.Force? && r.at == p && IsMine(slots[p], me, iTable)
      ensures r.SetAt? ==> slots[p].Empty? && Passed(me, mode, iTable, e, p, r.found, r.at) && (!r.found ==> r.at == p)
    {
      hide Passed, Probing, Stores, HashesTables, NothingBefore;
      var n := slots.Length;
      var hash := hashOf(TableKey(iTable, me));
      PassNone(me, mode, iTable, e);
      var idx: nat := hash;
      var found, at := false, 0;
      ghost var hole := SomeEmpty();
      while slots[idx].Used?
        invariant idx < n && OnPath(hash, idx, hole, n)
        invariant Passed(me, mode, iTable, e, idx, found, at)
        decreases n - Dist(hash, idx, n)
      {
        PassedNothing(me, mode, iTable, e, idx, found, at);
        var x := slots[idx].elem;
        if x.key.iTable == iTable {
          if x.key.holder == me {
            if mode.Force? {
              return ForceAt(idx), idx;
            }
            if x.val >= e {
              return Enough, idx;
            }
            PassOne(me, mode, iTable, e, idx, found, at);
            found, at := true, idx;
          } else if Blocks(mode, iTable, e, x.val, inUse[idx]) {
            return Refused, idx;
          } else {
            PassOne(me, mode, iTable, e, idx, found, at);
          }
        } else {
          PassOne(me, mode, iTable, e, idx, found, at);
        }
        idx := Next(idx, n);
        if idx == hash {
          assert false;
        }
      }
      PassedNothing(me, mode, iTable, e, idx, found, at);
      if !found {
        NotFoundAnywhere(me, mode, iTable, e, idx, at, idx);
        at := idx;
      }
      return SetAt(at, found), idx;
    }

    /** A completed scan has seen the level of every holder of the table. */
    lemma ScanSawAll(me: Holder, mode: Mode, iTable: int, e: nat, idx: nat, found: bool, at: nat)
      requires Valid() && idx < slots.Length && slots[idx].Empty? && Passed(me, mode, iTable, e, idx, found, at)
      ensures Clear(held, me, mode, iTable, e)
      ensures forall p: nat :: p < slots.Length ==> !Obstructs(slots[p], inUse[p], me, mode, iTable, e)
      ensures found <==> TableKey(iTable, me) in held
      ensures found ==> at < slots.Length && IsMine(slots[at], me, iTable)
      ensures found ==> slots[at].elem.val == held[TableKey(iTable, me)] < e && !mode.Force?
      ensures forall q: nat ::
                q < slots.Length && q != idx && OnPath(hashOf(TableKey(iTable, me)), q, idx, slots.Length) ==>
                  slots[q].Used?
    {
      var s := slots[..];
      forall p: nat | p < |s| && s[p].Used? && s[p].elem.key.iTable == iTable
        ensures p != idx && OnPath(hashOf(TableKey(iTable, me)), p, idx, |s|)
        ensures IsEntry(s[p], hashOf, held)
      {
        SlotIsEntry(s, hashOf, held, p);
        VacantMeansAbsent(s, hashOf(TableKey(iTable, me)), idx, p);
      }
      forall k | k in held && k.iTable == iTable
        ensures k.holder != me ==> !Blocks(mode, iTable, e, held[k], false)
        ensures k.holder == me ==> found
      {
        var p := EntryHasSlot(s, hashOf, held, k);
        assert s[p] == slots[p];
      }
    }

    /** Slot at was given the element of k, and nothing else changed. */
    twostate predicate Written(at: nat, k: TableKey, e: nat)
      reads this, slots
    {
      at < slots.Length && slots[..] == old(slots[..])[at := Used(hashOf(k), Entry(k, e))]
    }

    /**
     Requests level e on a table for one holder. prev is the level replaced, when one was set; at is the slot
     written, if any.
     */
    method LockTable(me: Holder, iTable: int, e: nat, mode: Mode) returns (rc: Rc, prev: Option<nat>, ghost at: nat)
      requires Valid() && Identified(TableKey(iTable, me)) && (e == EXCLSV_LOCK ==> iTable != SCHEMA_ROOT)
      modifies this, slots, inUse
      ensures Valid()
      ensures rc != Done && (prev.Some? ==> rc.Ok?)
      // granted: the level is raised, or forced, or was high enough
      ensures rc.Ok? && !mode.Force? && prev.Some? ==> Raised(old(held), held, me, mode, iTable, e)
      ensures rc.Ok? && mode.Force? ==> Forced(old(held), held, me, iTable, e)
      ensures rc.Ok? && !mode.Force? && prev.None? ==> LevelOf(held, TableKey(iTable, me)) >= e
      ensures prev.Some? ==> prev.value == LevelOf(old(held), TableKey(iTable, me))
      ensures prev.Some? && !mode.Force? ==> base == old(base)[TableKey(iTable, me) := prev.value]
      ensures prev.None? || mode.Force? ==> base == old(base)
      // refused: there is a cause; readers and writers share a table
      ensures rc.Locked? ==>
                exists p: nat :: p < slots.Length && Obstructs(old(slots[p]), old(inUse[p]), me, mode, iTable, e)
      ensures iTable != SCHEMA_ROOT && mode.Normal? && e <= WRITE_LOCK && rc.Locked? ==>
                AnotherFrom(old(held), me, iTable, WRITEEX_LOCK)
      // sqlite_master has no writer beside others
      ensures Asks(old(held), me, mode, iTable, e) && iTable == SCHEMA_ROOT && e == READ_LOCK ==>
                (rc.Locked? <==> AnotherAt(old(held), me, iTable, WRITE_LOCK))
      ensures Asks(old(held), me, mode, iTable, e) && iTable == SCHEMA_ROOT && e == WRITE_LOCK ==>
                (rc.Locked? <==>
                 AnotherAt(old(held), me, iTable, WRITE_LOCK) || AnotherAt(old(held), me, iTable, READ_LOCK))
      // other tables, for a statement: readers beside all but an exclusive holder, writers beside readers and writers
      ensures Asks(old(held), me, mode, iTable, e) && iTable != SCHEMA_ROOT && mode.Normal? && e == READ_LOCK ==>
                (rc.Locked? <==> AnotherAt(old(held), me, iTable, EXCLSV_LOCK))
      ensures Asks(old(held), me, mode, iTable, e) && iTable != SCHEMA_ROOT && mode.Normal? && e == WRITE_LOCK ==>
                (rc.Locked? <==> AnotherFrom(old(held), me, iTable, WRITEEX_LOCK))
      ensures Asks(old(held), me, mode, iTable, e) && iTable != SCHEMA_ROOT && mode.Normal? && e >= WRITEEX_LOCK ==>
                (rc.Locked? <==> AnotherFrom(old(held), me, iTable, WRITE_LOCK))
      // for a commit: beside anyone who is neither exclusive nor running a statement
      ensures Asks(old(held), me, mode, iTable, e) && iTable != SCHEMA_ROOT && mode.Commit? ==>
                (rc.Locked? <==>
                 AnotherAt(old(held), me, iTable, EXCLSV_LOCK) || old(AnotherInUse(me, iTable)))
      ensures Asks(old(held), me, mode, iTable, e) && iTable != SCHEMA_ROOT && (mode.Force? || mode.Other?) ==>
                (rc.Locked? <==> AnotherAt(old(held), me, iTable, EXCLSV_LOCK))
      // a holder that has enough is refused only by one that the probe meets before its own element
      ensures !Asks(old(held), me, mode, iTable, e) ==>
                (rc.Locked? <==>
                 exists p: nat, q: nat ::
                   && p < slots.Length && q < slots.Length && OnPath(hashOf(TableKey(iTable, me)), p, q, slots.Length)
                   && IsMine(old(slots[q]), me, iTable)
                   && Obstructs(old(slots[p]), old(inUse[p]), me, mode, iTable, e))
      ensures rc.NoMem? <==>
              Asks(old(held), me, mode, iTable, e) && !rc.Locked? && |old(held)| == slots.Length - 1
      ensures rc.NoMem? ==> Clear(held, me, mode, iTable, e)
      // one slot is written, and a request that sets a level marks it as in use; otherwise nothing changes
      ensures prev.Some? ==>
                Written(at, TableKey(iTable, me), e) && inUse[..] == old(inUse[..])[at := true]
      ensures rc.Ok? && mode.Force? && prev.None? ==>
                Written(at, TableKey(iTable, me), e) && inUse[..] == old(inUse[..])
      ensures prev.None? && !(rc.Ok? && mode.Force?) ==>
                held == old(held) && slots[..] == old(slots[..]) && inUse[..] == old(inUse[..])
      ensures held != old(held) && TableKey(iTable, me) in old(held) ==>
                at < slots.Length && IsMine(old(slots[at]), me, iTable)
      ensures rc.Ok? && TableKey(iTable, me) !in old(held) ==>
                && at < slots.Length && old(slots[at]).Empty?
                && forall q: nat ::
                   q < slots.Length && q != at && OnPath(hashOf(TableKey(iTable, me)), q, at, slots.Length) ==>
                     old(slots[q]).Used?
    {
      hide Valid, Passed, Blocks, Clear, OnPath, Obstructs, Obstructed, Identified, NothingBefore;
      hide AnotherAt, AnotherFrom, AnotherInUse;
      prev, at := None, 0;
      ObstructedIff(me, mode, iTable, e);
      CountsHeld();
      var r, p := ScanTable(me, iTable, e, mode);
      StopIs(me, mode, iTable, e, p);
      match r
      case Refused =>
        RefusedAt(me, mode, iTable, e, p);
        rc := Locked;
      case Enough =>
        MineIsHeld(me, iTable, p);
        rc := Ok;
      case ForceAt(i) =>
        MineIsHeld(me, iTable, p);
        at := i;
        SetLevel(i, TableKey(iTable, me), e);
        rc := Ok;
      case SetAt(i, found) =>
        ScanSawAll(me, mode, iTable, e, p, found, i);
        NotObstructed(me, mode, iTable, e);
        rc, prev := SetIfRoom(me, iTable, e, mode, i, found);
        at := i;
    }

    lemma NotObstructed(me: Holder, mode: Mode, iTable: int, e: nat)
      requires Valid()
      requires forall p: nat :: p < slots.Length ==> !Obstructs(slots[p], inUse[p], me, mode, iTable, e)
      ensures !Obstructed(me, mode, iTable, e)
    {
    }

    /** A request that is refused at p is refused before the holder's own element settles it. */
    lemma RefusedAt(me: Holder, mode: Mode, iTable: int, e: nat, p: nat)
      requires Valid() && p < slots.Length && Obstructs(slots[p], inUse[p], me, mode, iTable, e)
      requires NothingBefore(me, mode, iTable, e, p)
      ensures Obstructed(me, mode, iTable, e)
      ensures !Asks(held, me, mode, iTable, e) ==>
                exists q: nat :: && q < slots.Length && OnPath(hashOf(TableKey(iTable, me)), p, q, slots.Length)
                                 && IsMine(slots[q], me, iTable)
    {
      if !Asks(held, me, mode, iTable, e) {
        var q := EntryHasSlot(slots[..], hashOf, held, TableKey(iTable, me));
        assert slots[q] == slots[..][q];
      }
    }

    /** Where the holder's own element ends the scan, nothing before it obstructs. */
    lemma StopIs(me: Holder, mode: Mode, iTable: int, e: nat, p: nat)
      requires Valid() && p < slots.Length && NothingBefore(me, mode, iTable, e, p)
      ensures IsMine(slots[p], me, iTable) ==>
                forall q: nat, s: nat ::
                  && q < slots.Length && s < slots.Length && OnPath(hashOf(TableKey(iTable, me)), q, s, slots.Length)
                  && IsMine(slots[s], me, iTable) ==>
                    !Obstructs(slots[q], inUse[q], me, mode, iTable, e)
    {
      forall q: nat, s: nat |
        && IsMine(slots[p], me, iTable) && q < slots.Length && s < slots.Length
        && OnPath(hashOf(TableKey(iTable, me)), q, s, slots.Length) && IsMine(slots[s], me, iTable)
        ensures !Obstructs(slots[q], inUse[q], me, mode, iTable, e)
      {
        StoredOnce(slots[..], hashOf, held, p, s);
      }
    }

    /** Sets the level of a holder nothing stands in the way of, unless the area is full. */
    method SetIfRoom(me: Holder, iTable: int, e: nat, mode: Mode, at: nat, found: bool)
      returns (rc: Rc, prev: Option<nat>)
      requires Valid() && Identified(TableKey(iTable, me)) && at < slots.Length && Clear(held, me, mode, iTable, e)
      requires found <==> TableKey(iTable, me) in held
      requires found ==> IsMine(slots[at], me, iTable) && slots[at].elem.val == held[TableKey(iTable, me)] < e
      requires !found ==> slots[at].Empty?
      requires !found ==>
                 forall q: nat ::
                   q < slots.Length && q != at && OnPath(hashOf(TableKey(iTable, me)), q, at, slots.Length) ==>
                     slots[q].Used?
      requires found ==> !mode.Force?
      modifies this, slots, inUse
      ensures Valid() && (rc.Ok? || rc.NoMem?) && (prev.Some? <==> rc.Ok?)
      ensures rc.Ok? ==> Raised(old(held), held, me, mode, iTable, e)
      ensures rc.Ok? ==> prev.value == LevelOf(old(held), TableKey(iTable, me))
      ensures rc.Ok? && !mode.Force? ==> base == old(base)[TableKey(iTable, me) := prev.value]
      ensures rc.NoMem? || mode.Force? ==> base == old(base)
      ensures rc.Ok? ==> Written(at, TableKey(iTable, me), e) && inUse[..] == old(inUse[..])[at := true]
      ensures rc.NoMem? <==> |old(held)| == slots.Length - 1
      ensures rc.NoMem? ==>
                && held == old(held) && slots[..] == old(slots[..]) && inUse[..] == old(inUse[..])
    {
      hide Valid, Clear, OnPath, Identified;
      CountsHeld();
      if nLock >= slots.Length - 1 {
        return NoMem, None;
      }
      prev := Some(if found then slots[at].elem.val else NOT_LOCKED);
      if !mode.Force? {
        base := base[TableKey(iTable, me) := prev.value];
      }
      Install(at, found, TableKey(iTable, me), e);
      rc := Ok;
    }

    lemma MineIsHeld(me: Holder, iTable: int, p: nat)
      requires Valid() && p < slots.Length && IsMine(slots[p], me, iTable)
      ensures TableKey(iTable, me) in held && slots[p].elem.val == held[TableKey(iTable, me)]
    {
      SlotIsEntry(slots[..], hashOf, held, p);
    }

    lemma CountsHeld()
      requires Valid()
      ensures nLock == |held| < slots.Length == inUse.Length
    {
    }

    /** Gives the holder's element its level and marks it as in use. */
    method Install(at: nat, found: bool, k: TableKey, e: nat)
      requires Valid() && at < slots.Length && |held| < slots.Length - 1 && Identified(k)
      requires found ==> slots[at].Used? && slots[at].elem.key == k
      requires !found ==> slots[at].Empty? && k !in held
      requires forall q: nat :: q < slots.Length && q != at && OnPath(hashOf(k), q, at, slots.Length) && !found
                                ==> slots[q].Used?
      modifies this`held, this`nLock, slots, inUse
      ensures Valid() && held == old(held)[k := e]
      ensures slots[..] == old(slots[..])[at := Used(hashOf(k), Entry(k, e))]
      ensures inUse[..] == old(inUse[..])[at := true]
    {
      hide Valid, OnPath, Identified;
      CountsHeld();
      if found {
        SetLevel(at, k, e);
      } else {
        AddElement(at, k, e);
      }
      inUse[at] := true;
    }

    method SetLevel(at: nat, k: TableKey, e: nat)
      requires Valid() && at < slots.Length && slots[at].Used? && slots[at].elem.key == k
      modifies this`held, slots
      ensures Valid() && held == old(held)[k := e] && k in old(held)
      ensures slots[..] == old(slots[..])[at := Used(hashOf(k), Entry(k, e))]
    {
      ghost var s := slots[..];
      SlotIsEntry(s, hashOf, held, at);
      ReplaceStores(s, hashOf, held, at, e);
      ReplaceKeepsProbing(s, at, Entry(k, e));
      slots[at] := Used(slots[at].hash, Entry(k, e));
      assert slots[..] == s[at := Used(s[at].hash, Entry(k, e))];
      assert held[k := e].Keys == held.Keys;
      held := held[k := e];
    }

    method AddElement(at: nat, k: TableKey, e: nat)
      requires Valid() && at < slots.Length && slots[at].Empty? && k !in held && |held| < slots.Length - 1
      requires Identified(k)
      requires forall q: nat :: q < slots.Length && q != at && OnPath(hashOf(k), q, at, slots.Length) ==> slots[q].Used?
      modifies this`held, this`nLock, slots
      ensures Valid() && held == old(held)[k := e]
      ensures slots[..] == old(slots[..])[at := Used(hashOf(k), Entry(k, e))]
    {
      ghost var s := slots[..];
      FillStores(s, hashOf, held, at, k, e);
      FillKeepsProbing(s, hashOf(k), at, Entry(k, e));
      slots[at] := Used(hashOf(k), Entry(k, e));
      assert slots[..] == s[at := Used(hashOf(k), Entry(k, e))];
      nLock := nLock + 1;
      held := held[k := e];
    }

    /** A probe for a target finds an element exactly when the levels hold a matching key. */
    lemma ProbeDecides(target: TableKey, rc: SearchResult, idx: nat)
      requires Valid() && idx < slots.Length
      requires rc.Found? ==> slots[idx].Used? && IsTarget(slots[idx].elem.key, target)
      requires rc.Vacant? ==> slots[idx].Empty?
      requires !rc.Full? ==>
                 forall q: nat :: q < slots.Length && q != idx && OnPath(hashOf(target), q, idx, slots.Length) ==>
                                    slots[q].Used? && !IsTarget(slots[q].elem.key, target)
      requires rc.Full? ==> forall q: nat :: q < slots.Length ==> slots[q].Used?
      ensures !rc.Full?
      ensures rc.Found? ==> slots[idx].elem.key in held && held[slots[idx].elem.key] == slots[idx].elem.val
      ensures rc.Vacant? ==> forall k :: k in held ==> !IsTarget(k, target)
    {
      var s := slots[..];
      assert Empty in multiset(s);
      assert Empty in s;
      if rc.Found? {
        SlotIsEntry(s, hashOf, held, idx);
      } else if rc.Vacant? {
        forall k | k in held ensures !IsTarget(k, target) {
          var p := EntryHasSlot(s, hashOf, held, k);
          if IsTarget(k, target) {
            VacantMeansAbsent(s, hashOf(target), idx, p);
          }
        }
      }
    }

    /** The element a probe for the target meets first. */
    ghost predicate Leads(p: nat, target: TableKey)
      requires Valid() && p < slots.Length
      reads this, slots
    {
      && slots[p].Used? && IsTarget(slots[p].elem.key, target)
      && forall q: nat :: q < slots.Length && q != p && OnPath(hashOf(target), q, p, slots.Length) && slots[q].Used? ==>
                            !IsTarget(slots[q].elem.key, target)
    }

    /** A probe for the target meets an element left at level 0 before any other. */
    ghost predicate Masked(target: TableKey)
      requires Valid()
      reads this, slots
    {
      exists p: nat :: p < slots.Length && Leads(p, target) && slots[p].elem.val == NOT_LOCKED
    }

    lemma LeadsOnce(p: nat, q: nat, target: TableKey)
      requires Valid() && p < slots.Length && q < slots.Length && Leads(p, target) && Leads(q, target)
      ensures p == q
    {
    }

    /** Where no element of the table is left at level 0, nothing is masked. */
    lemma NotMasked(target: TableKey)
      requires Valid() && forall k :: k in held && IsTarget(k, target) ==> held[k] != NOT_LOCKED
      ensures !Masked(target)
    {
      forall p: nat | p < slots.Length && Leads(p, target) ensures slots[p].elem.val != NOT_LOCKED {
        SlotIsEntry(slots[..], hashOf, held, p);
      }
    }

    /**
     The level held on a table by an owner, or by anyone when the owner is 0; the process is not compared.
     The answer is that of the first element met, so it is NOT_LOCKED also when that element was left at level 0
     and another holder has a level.
     */
    method Query(owner: int, iTable: int) returns (level: nat)
      requires Valid() && iTable != 0
      ensures level != NOT_LOCKED <==>
              HeldBy(held, TableKey(iTable, Holder(0, owner))) && !Masked(TableKey(iTable, Holder(0, owner)))
      ensures level != NOT_LOCKED ==>
                exists k :: k in held && IsTarget(k, TableKey(iTable, Holder(0, owner))) && held[k] == level
      ensures forall k :: OnlyMatch(held, k, TableKey(iTable, Holder(0, owner))) ==> level == held[k]
    {
      var target := TableKey(iTable, Holder(0, owner));
      var found, idx := Search(slots, (x: TableElem) => IsTarget(x.key, target), hashOf(target));
      ProbeDecides(target, found, idx);
      level := if found.Found? then slots[idx].elem.val else NOT_LOCKED;
      if found.Found? {
        assert Leads(idx, target);
        forall p: nat | p < slots.Length && Leads(p, target) ensures p == idx {
          LeadsOnce(p, idx, target);
        }
      }
    }

    /** Ends a holder's use of a table: of the transaction, or of a statement when only read locks go. */
    method UnlockTable(me: Holder, iTable: int, stmtOnly: bool)
      requires Valid() && Identified(TableKey(iTable, me))
      modifies this, slots, inUse
      ensures Valid()
      ensures UnlockStep(old(held), held, me, iTable)
      ensures TableKey(iTable, me) in held ==> stmtOnly && held[TableKey(iTable, me)] != READ_LOCK
      ensures stmtOnly && TableKey(iTable, me) in old(held) && old(held)[TableKey(iTable, me)] != READ_LOCK ==>
                && held == old(held) && slots[..] == old(slots[..])
                && exists p: nat ::
                   p < slots.Length && IsMine(slots[p], me, iTable) && inUse[..] == old(inUse[..])[p := false]
      ensures held != old(held) || TableKey(iTable, me) !in old(held) ==> inUse[..] == old(inUse[..])
      ensures base == old(base)
    {
      hide Valid, OnPath, PathUsed;
      var mine := TableKey(iTable, me);
      var hash := hashOf(mine);
      CountsHeld();
      HashInRange(mine);
      var found, del := Search(slots, (x: TableElem) => IsTarget(x.key, mine), hash);
      ProbeDecides(mine, found, del);
      if !found.Found? {
        assert IsTarget(mine, mine);
        return;
      }
      MatchIsMine(slots[del].elem.key, mine);
      if !stmtOnly || slots[del].elem.val == READ_LOCK {
        ghost var hole := SomeEmpty();
        assert slots[..][hole].Empty?;
        var end := FindRunEnd(slots, hash, del);
        RemoveAt(mine, hash, del, end);
      } else {
        inUse[del] := false;
      }
    }

    lemma HashInRange(k: TableKey)
      requires Valid()
      ensures hashOf(k) < slots.Length
    {
    }

    lemma MatchIsMine(k: TableKey, mine: TableKey)
      requires Valid() && k in held && Identified(mine) && IsTarget(k, mine)
      ensures k == mine
    {
    }

    method RemoveAt(k: TableKey, hash: nat, del: nat, end: nat)
      requires Valid()
      requires Run(slots[..], hash, del, end) && slots[del].Used? && slots[del].elem.key == k
      modifies this`held, this`nLock, slots
      ensures Valid()
      ensures held == old(held) - {k}
    {
      ghost var was := slots[..];
      Delete(slots, hash, del, end);
      RemoveStores(was, slots[..], hashOf, held, del, end);
      held := held - {k};
      nLock := nLock - 1;
    }

    /** Any run of the engine's requests and releases, by any holders, leaves the levels of the area compatible. */
    method Perform(requests: seq<Request>) returns (rcs: seq<Rc>)
      requires Valid() && Secure(held, base) && forall i :: 0 <= i < |requests| ==> ProperRequest(requests[i])
      modifies this, slots, inUse
      ensures Valid() && Secure(held, base) && Safe(held) && |rcs| == |requests|
    {
      hide *;
      rcs := [];
      for i := 0 to |requests|
        invariant Valid() && Secure(held, base) && |rcs| == i
      {
        var rc := Answer(requests[i]);
        rcs := rcs + [rc];
      }
      SecureIsSafe(held, base);
    }

    method Answer(r: Request) returns (rc: Rc)
      requires Valid() && Secure(held, base) && ProperRequest(r)
      modifies this, slots, inUse
      ensures Valid() && Secure(held, base)
    {
      hide *;
      ghost var was := State(held, base);
      ProperFacts(r);
      if r.LockTo? {
        var prev;
        ghost var at;
        rc, prev, at := LockTable(r.me, r.iTable, r.e, r.mode);
        if prev.Some? {
          RaiseKeepsSecure(was.held, was.base, held, r.me, r.mode, r.iTable, r.e);
        }
      } else {
        UnlockTable(r.me, r.iTable, r.stmtOnly);
        UnlockKeepsSecure(was.held, was.base, held, r.me, r.iTable);
        rc := Ok;
      }
    }
  }

  lemma ProperFacts(r: Request)
    requires ProperRequest(r)
    ensures Identified(TableKey(r.iTable, r.me))
    ensures r.LockTo? ==>
              Proper(r.mode, r.iTable, r.e) && !r.mode.Force? && (r.e == EXCLSV_LOCK ==> r.iTable != SCHEMA_ROOT)
  {
  }

  /** What a holder may ask of the area. */
  datatype Request =
    | LockTo(me: Holder, iTable: int, e: nat, mode: Mode)
    | UnlockFrom(me: Holder, iTable: int, stmtOnly: bool)

  predicate ProperRequest(r: Request) {
    Identified(TableKey(r.iTable, r.me)) && (r.LockTo? ==> Proper(r.mode, r.iTable, r.e))
  }
}
