/**
 The exclusive table locks a commit takes, and what is left of them when it cannot take them all.
 */
module CommitLocks {
  import opened RowLocks
  import opened TableLocks
  import opened Wrappers

  /**
   A table of the transaction: how reading it ends, the numbers of rows in its insertion and deletion trees, and
   the delete-all flag of its root page.
   */
  datatype Target = Target(iTable: int, read: Rc, inserted: nat, deleted: nat, deleteAll: bool)

  /**
   What the commit tests for. The delete-all flag it looks at is that of its own new cursor, which nothing ever
   sets, and not that of the root page.
   */
  predicate IsModified(x: Target) {
    x.inserted > 0 || x.deleted > 0
  }

  const MODE_FORCE: nat := 2

  /** The mode a number stands for. */
  function ModeOf(n: nat): Mode {
    if n == 0 then Normal else if n == 1 then Commit else if n == MODE_FORCE then Force else Other
  }

  predicate Takes(x: Target) {
    x.read.Ok? && IsModified(x)
  }

  /** Different ordinary tables; the connection is a writer of those it has modified. */
  ghost predicate Ready(held: Levels, me: Holder, tables: seq<Target>) {
    && me.pid != 0 && me.owner != 0
    && (forall i, j :: 0 <= i < j < |tables| ==> tables[i].iTable != tables[j].iTable)
    && (forall i :: 0 <= i < |tables| ==> tables[i].iTable != 0 && tables[i].iTable != SCHEMA_ROOT)
    && (forall i :: 0 <= i < |tables| && Takes(tables[i]) ==>
          LevelOf(held, TableKey(tables[i].iTable, me)) >= WRITE_LOCK)
  }

  /** The level after a table was taken. */
  function Taken(level: nat): nat {
    if level < EXCLSV_LOCK then EXCLSV_LOCK else level
  }

  /** The level after the attempt to give a taken table back. */
  function GivenBack(level: nat): nat {
    if level == WRITE_LOCK then WRITE_LOCK else Taken(level)
  }

  ghost predicate SameLevel(was: Levels, now: Levels, k: TableKey) {
    (k in now <==> k in was) && LevelOf(now, k) == LevelOf(was, k)
  }

  /** The first a tables have been given back, those up to k are taken, and no other level has changed. */
  ghost predicate Stage(was: Levels, now: Levels, me: Holder, tables: seq<Target>, a: nat, k: nat)
    requires a <= k <= |tables|
  {
    && (forall j :: 0 <= j < a && Takes(tables[j]) ==>
          LevelOf(now, TableKey(tables[j].iTable, me)) == GivenBack(LevelOf(was, TableKey(tables[j].iTable, me))))
    && (forall j :: a <= j < k && Takes(tables[j]) ==>
          LevelOf(now, TableKey(tables[j].iTable, me)) == Taken(LevelOf(was, TableKey(tables[j].iTable, me))))
    && (forall x: TableKey :: !IsTaken(x, me, tables, k) ==> SameLevel(was, now, x))
  }

  ghost predicate IsTaken(x: TableKey, me: Holder, tables: seq<Target>, k: nat)
    requires k <= |tables|
  {
    x.holder == me && exists j :: 0 <= j < k && Takes(tables[j]) && tables[j].iTable == x.iTable
  }

  lemma StageTake(was: Levels, now: Levels, next: Levels, me: Holder, tables: seq<Target>, i: nat)
    requires Ready(was, me, tables) && i < |tables| && Takes(tables[i]) && Stage(was, now, me, tables, 0, i)
    requires var k := TableKey(tables[i].iTable, me);
             if LevelOf(now, k) < EXCLSV_LOCK then next == now[k := EXCLSV_LOCK] else next == now
    ensures Stage(was, next, me, tables, 0, i + 1)
  {
    var k := TableKey(tables[i].iTable, me);
    assert !IsTaken(k, me, tables, i);
    assert SameLevel(was, now, k);
    forall x: TableKey | !IsTaken(x, me, tables, i + 1) ensures SameLevel(was, next, x) {
      assert !IsTaken(x, me, tables, i);
      assert x != k;
    }
  }

  lemma StageSkip(was: Levels, now: Levels, me: Holder, tables: seq<Target>, i: nat)
    requires i < |tables| && !Takes(tables[i]) && Stage(was, now, me, tables, 0, i)
    ensures Stage(was, now, me, tables, 0, i + 1)
  {
    forall x: TableKey | !IsTaken(x, me, tables, i + 1) ensures SameLevel(was, now, x) {
      assert !IsTaken(x, me, tables, i);
    }
  }

  lemma StageGive(was: Levels, now: Levels, next: Levels, me: Holder, tables: seq<Target>, a: nat, k: nat)
    requires Ready(was, me, tables) && a < k <= |tables| && Stage(was, now, me, tables, a, k)
    requires var x := TableKey(tables[a].iTable, me);
             if Takes(tables[a]) && LevelOf(was, x) == WRITE_LOCK then next == now[x := WRITE_LOCK] else next == now
    ensures Stage(was, next, me, tables, a + 1, k)
  {
    var y := TableKey(tables[a].iTable, me);
    if Takes(tables[a]) {
      forall x: TableKey | !IsTaken(x, me, tables, k) ensures SameLevel(was, next, x) {
        assert x != y;
      }
    }
  }

  /** The levels before are remembered for the first k tables; base has them too. */
  ghost predicate Remembers(was: Levels, base: Levels, me: Holder, tables: seq<Target>, prevs: seq<nat>, k: nat) {
    && k <= |tables| == |prevs|
    && (forall j :: 0 <= j < k && Takes(tables[j]) ==>
          var x := TableKey(tables[j].iTable, me);
          if LevelOf(was, x) < EXCLSV_LOCK then prevs[j] == LevelOf(was, x) == LevelOf(base, x) else prevs[j] == 0)
    && (forall j :: k <= j < |tables| ==> prevs[j] == 0)
  }

  /** The tables marked as modified are those looked at: the first k, and the one that was refused. */
  ghost predicate Marks(tables: seq<Target>, marks: seq<bool>, k: nat, refused: bool) {
    && k <= |tables| == |marks|
    && (refused ==> k < |tables| && Takes(tables[k]))
    && forall j :: 0 <= j < |tables| ==> (marks[j] <==> (j < k && Takes(tables[j])) || (j == k && refused))
  }

  function Master(me: Holder): TableKey {
    TableKey(SCHEMA_ROOT, me)
  }

  /** The levels with sqlite_master locked for a commit. */
  function WithMaster(held: Levels, me: Holder): Levels {
    if LevelOf(held, Master(me)) < WRITE_LOCK then held[Master(me) := WRITE_LOCK] else held
  }

  /** Nobody else has a lock. */
  ghost predicate Alone(held: Levels, me: Holder) {
    forall k :: k in held ==> k.holder == me
  }

  /** There is nobody to be refused by. */
  lemma AloneIsClear(area: TableLockArea, me: Holder, mode: Mode, iTable: int, e: nat)
    requires area.Valid() && Alone(area.held, me)
    ensures forall p: nat :: p < area.slots.Length ==> !Obstructs(area.slots[p], area.inUse[p], me, mode, iTable, e)
  {
    forall p: nat | p < area.slots.Length && area.slots[p].Used? ensures area.slots[p].elem.key.holder == me {
      area.MineIsHeld(area.slots[p].elem.key.holder, area.slots[p].elem.key.iTable, p);
    }
  }

  lemma AloneRaised(held: Levels, me: Holder, iTable: int, e: nat)
    ensures var next := held[TableKey(iTable, me) := e];
            (Alone(held, me) ==> Alone(next, me)) && |next| <= |held| + 1
  {
    var k := TableKey(iTable, me);
    assert held[k := e].Keys == held.Keys + {k};
  }

  /** Raises one lock for a commit. */
  method Take(area: TableLockArea, me: Holder, iTable: int, e: nat) returns (rc: Rc, prev: nat)
    requires area.Valid() && Secure(area.held, area.base) && Identified(TableKey(iTable, me))
    requires Proper(Commit, iTable, e)
    modifies area, area.slots, area.inUse
    ensures area.Valid() && Secure(area.held, area.base)
    ensures var k := TableKey(iTable, me);
            if rc.Ok? && LevelOf(old(area.held), k) < e then
              && area.held == old(area.held)[k := e]
              && prev == LevelOf(old(area.held), k) && area.base == old(area.base)[k := prev]
            else area.held == old(area.held) && area.base == old(area.base) && prev == 0
    ensures Alone(old(area.held), me) && |old(area.held)| < area.slots.Length - 1 ==> rc.Ok?
    ensures (Alone(old(area.held), me) ==> Alone(area.held, me)) && |area.held| <= |old(area.held)| + 1
  {
    hide Secure, TableLockArea.Valid, Clear, Alone, Obstructs;
    ghost var was, base := area.held, area.base;
    if Alone(was, me) {
      AloneIsClear(area, me, Commit, iTable, e);
    }
    AloneRaised(was, me, iTable, e);
    ghost var at;
    var before;
    rc, before, at := area.LockTable(me, iTable, e, Commit);
    prev := 0;
    if before.Some? {
      RaiseKeepsSecure(was, base, area.held, me, Commit, iTable, e);
      prev := before.value;
    }
  }

  /** With the holder exclusive, nobody is in the way of forcing its level. */
  lemma NobodyInTheWay(area: TableLockArea, me: Holder, iTable: int, e: nat)
    requires area.Valid() && Secure(area.held, area.base) && iTable != SCHEMA_ROOT
    requires LevelOf(area.held, TableKey(iTable, me)) == EXCLSV_LOCK
    ensures forall p: nat :: p < area.slots.Length ==> !Obstructs(area.slots[p], area.inUse[p], me, Force, iTable, e)
  {
    forall p: nat | p < area.slots.Length && area.slots[p].Used? && area.slots[p].elem.key.iTable == iTable
      ensures area.slots[p].elem.key.holder != me ==> area.slots[p].elem.val != EXCLSV_LOCK
    {
      var x := area.slots[p].elem.key;
      area.MineIsHeld(x.holder, iTable, p);
      if x.holder != me {
        assert Apart(area.held, area.base, TableKey(iTable, me), x);
      }
    }
  }

  /**
   The call that is meant to give a lock back. It names the mode where the level belongs and the level before
   where the mode belongs, so it asks for MODE_FORCE, that is WRITE_LOCK, in the mode of that number.
   */
  method GiveBack(area: TableLockArea, me: Holder, iTable: int, prev: nat)
    requires area.Valid() && Secure(area.held, area.base) && Identified(TableKey(iTable, me))
    requires LevelOf(area.held, TableKey(iTable, me)) >= WRITE_LOCK
    requires prev == WRITE_LOCK ==>
               && iTable != SCHEMA_ROOT && LevelOf(area.held, TableKey(iTable, me)) == EXCLSV_LOCK
               && LevelOf(area.base, TableKey(iTable, me)) == WRITE_LOCK
    modifies area, area.slots, area.inUse
    ensures area.Valid() && Secure(area.held, area.base) && area.base == old(area.base)
    ensures area.held ==
            if prev == WRITE_LOCK then old(area.held)[TableKey(iTable, me) := WRITE_LOCK] else old(area.held)
  {
    hide Secure, TableLockArea.Valid, Clear, Blocks;
    ghost var was, base := area.held, area.base;
    if prev == WRITE_LOCK {
      NobodyInTheWay(area, me, iTable, MODE_FORCE);
    }
    ghost var at;
    var rc, before;
    rc, before, at := area.LockTable(me, iTable, MODE_FORCE, ModeOf(prev));
    if prev == WRITE_LOCK {
      ForceKeepsSecure(was, base, area.held, me, iTable, WRITE_LOCK);
    }
  }

  /** Nobody else has a lock, there is room for more, and every table can be read. */
  ghost predicate Unhindered(held: Levels, me: Holder, tables: seq<Target>, n: nat) {
    Alone(held, me) && |held| + |tables| < n && forall i :: 0 <= i < |tables| ==> tables[i].read.Ok?
  }

  /** Takes the modified tables one after the other until one is refused. */
  method TakeAll(area: TableLockArea, me: Holder, tables: seq<Target>)
    returns (rc: Rc, marks: seq<bool>, prevs: seq<nat>, ghost k: nat)
    requires area.Valid() && Secure(area.held, area.base) && Ready(area.held, me, tables)
    modifies area, area.slots, area.inUse
    ensures area.Valid() && Secure(area.held, area.base)
    ensures k <= |tables| && Stage(old(area.held), area.held, me, tables, 0, k)
    ensures rc.Ok? <==> k == |tables|
    ensures rc.Ok? ==> forall i :: 0 <= i < |tables| ==> tables[i].read.Ok?
    ensures Unhindered(old(area.held), me, tables, area.slots.Length) ==> rc.Ok?
    ensures k < |tables| && !tables[k].read.Ok? ==> rc == tables[k].read
    ensures k < |tables| && tables[k].read.Ok? ==> IsModified(tables[k])
    ensures Remembers(old(area.held), area.base, me, tables, prevs, k)
    ensures Marks(tables, marks, k, k < |tables| && Takes(tables[k]))
  {
    hide Secure, TableLockArea.Valid, Stage, Alone;
    ghost var was := area.held;
    marks, prevs := seq(|tables|, _ => false), seq(|tables|, _ => 0);
    k := 0;
    StageNone(was, me, tables);
    var i := 0;
    while i < |tables|
      invariant 0 <= i <= |tables| && k == i
      invariant area.Valid() && Secure(area.held, area.base)
      invariant Stage(was, area.held, me, tables, 0, i)
      invariant Remembers(was, area.base, me, tables, prevs, i)
      invariant Marks(tables, marks, i, false)
      invariant forall j :: 0 <= j < i ==> tables[j].read.Ok?
      invariant (Alone(was, me) ==> Alone(area.held, me)) && |area.held| <= |was| + i
    {
      var x := tables[i];
      if !x.read.Ok? {
        return x.read, marks, prevs, i;
      }
      if IsModified(x) {
        marks := marks[i := true];
        ghost var now := area.held;
        var prev;
        rc, prev := Take(area, me, x.iTable, EXCLSV_LOCK);
        if !rc.Ok? {
          return rc, marks, prevs, i;
        }
        prevs := prevs[i := prev];
        LevelUntaken(was, now, me, tables, i);
        StageTake(was, now, area.held, me, tables, i);
      } else {
        StageSkip(was, area.held, me, tables, i);
      }
      i := i + 1;
      k := i;
    }
    rc := Ok;
  }

  lemma StageNone(was: Levels, me: Holder, tables: seq<Target>)
    ensures Stage(was, was, me, tables, 0, 0)
  {
  }

  /** A table not yet reached has the level it had. */
  lemma LevelUntaken(was: Levels, now: Levels, me: Holder, tables: seq<Target>, i: nat)
    requires Ready(was, me, tables) && i < |tables| && Stage(was, now, me, tables, 0, i)
    ensures LevelOf(now, TableKey(tables[i].iTable, me)) == LevelOf(was, TableKey(tables[i].iTable, me))
  {
    assert !IsTaken(TableKey(tables[i].iTable, me), me, tables, i);
  }

  /** What a table marked as modified has before it is given back. */
  lemma BeforeGiving(was: Levels, now: Levels, base: Levels, me: Holder, tables: seq<Target>, prevs: seq<nat>,
                     i: nat, k: nat)
    requires Ready(was, me, tables) && Remembers(was, base, me, tables, prevs, k)
    requires k <= |tables| && i < |tables| && Takes(tables[i]) && Stage(was, now, me, tables, if i < k then i else k, k)
    ensures |prevs| == |tables|
    ensures var x := TableKey(tables[i].iTable, me);
            && LevelOf(now, x) >= WRITE_LOCK
            && (prevs[i] == WRITE_LOCK <==> i < k && LevelOf(was, x) == WRITE_LOCK)
            && (prevs[i] == WRITE_LOCK ==> LevelOf(now, x) == EXCLSV_LOCK && LevelOf(base, x) == WRITE_LOCK)
  {
    var x := TableKey(tables[i].iTable, me);
    if i >= k {
      assert !IsTaken(x, me, tables, k);
      assert SameLevel(was, now, x);
    }
  }

  /** Goes over the tables marked as modified to give them back. */
  method GiveBackAll(area: TableLockArea, me: Holder, tables: seq<Target>, marks: seq<bool>, prevs: seq<nat>,
                     ghost was: Levels, ghost k: nat)
    requires area.Valid() && Secure(area.held, area.base) && Ready(was, me, tables)
    requires k <= |tables| && Stage(was, area.held, me, tables, 0, k)
    requires Remembers(was, area.base, me, tables, prevs, k)
    requires Marks(tables, marks, k, k < |tables| && Takes(tables[k]))
    modifies area, area.slots, area.inUse
    ensures area.Valid() && Secure(area.held, area.base)
    ensures Stage(was, area.held, me, tables, k, k)
  {
    hide Secure, TableLockArea.Valid, Stage, Remembers;
    ghost var base := area.base;
    var i := 0;
    while i < |tables|
      invariant 0 <= i <= |tables|
      invariant area.Valid() && Secure(area.held, area.base) && area.base == base
      invariant Stage(was, area.held, me, tables, if i < k then i else k, k)
    {
      ghost var now := area.held;
      if marks[i] {
        BeforeGiving(was, now, base, me, tables, prevs, i, k);
        GiveBack(area, me, tables[i].iTable, prevs[i]);
      }
      if i < k {
        StageGive(was, now, area.held, me, tables, i, k);
      }
      i := i + 1;
    }
  }

  /**
   Every level is as before exactly when sqlite_master was locked already and no table taken had the
   delete-all level.
   */
  lemma RestoredIff(was: Levels, now: Levels, base: Levels, me: Holder, tables: seq<Target>, k: nat)
    requires Secure(was, base) && Ready(was, me, tables) && k <= |tables|
    requires Stage(WithMaster(was, me), now, me, tables, k, k)
    ensures now == was <==>
            && LevelOf(was, Master(me)) >= WRITE_LOCK
            && forall j :: 0 <= j < k && Takes(tables[j]) ==>
                             LevelOf(was, TableKey(tables[j].iTable, me)) != WRITEEX_LOCK
  {
    var with := WithMaster(was, me);
    assert !IsTaken(Master(me), me, tables, k);
    assert SameLevel(with, now, Master(me));
    forall j | 0 <= j < k && Takes(tables[j])
      ensures var x := TableKey(tables[j].iTable, me);
              (LevelOf(now, x) == LevelOf(was, x) <==> LevelOf(was, x) != WRITEEX_LOCK)
    {
      assert Bounded(was, base, TableKey(tables[j].iTable, me));
    }
    if LevelOf(was, Master(me)) >= WRITE_LOCK &&
      forall j :: 0 <= j < k && Takes(tables[j]) ==> LevelOf(was, TableKey(tables[j].iTable, me)) != WRITEEX_LOCK
    {
      forall x ensures x in now <==> x in was
               ensures LevelOf(now, x) == LevelOf(was, x)
      {
        if !IsTaken(x, me, tables, k) {
          assert SameLevel(with, now, x);
        }
      }
      assert forall x :: x in was ==> LevelOf(now, x) == LevelOf(was, x);
    }
  }

  /**
   When the attempt succeeds every table the commit writes to is exclusive exactly when those it writes to by
   delete-all alone were exclusive before.
   */
  lemma ExclusiveIff(was: Levels, now: Levels, base: Levels, me: Holder, tables: seq<Target>)
    requires Secure(now, base) && Ready(was, me, tables)
    requires forall j :: 0 <= j < |tables| ==> tables[j].read.Ok?
    requires Stage(WithMaster(was, me), now, me, tables, 0, |tables|)
    ensures AllExclusive(now, me, tables) <==> ClearedExclusive(was, me, tables)
  {
    forall j | 0 <= j < |tables|
      ensures var x := TableKey(tables[j].iTable, me);
              if IsModified(tables[j]) then LevelOf(now, x) == EXCLSV_LOCK else LevelOf(now, x) == LevelOf(was, x)
    {
      var x := TableKey(tables[j].iTable, me);
      if IsModified(tables[j]) {
        assert x in now && Bounded(now, base, x);
      } else {
        assert !IsTaken(x, me, tables, |tables|);
        assert SameLevel(WithMaster(was, me), now, x);
      }
    }
  }

  ghost predicate AllExclusive(held: Levels, me: Holder, tables: seq<Target>) {
    forall j :: 0 <= j < |tables| && (tables[j].deleteAll || tables[j].inserted > 0 || tables[j].deleted > 0) ==>
                  LevelOf(held, TableKey(tables[j].iTable, me)) == EXCLSV_LOCK
  }

  ghost predicate ClearedExclusive(held: Levels, me: Holder, tables: seq<Target>) {
    forall j :: 0 <= j < |tables| && tables[j].deleteAll && tables[j].inserted == 0 && tables[j].deleted == 0 ==>
                  LevelOf(held, TableKey(tables[j].iTable, me)) == EXCLSV_LOCK
  }

  /**
   Takes sqlite_master and the modified tables for a commit, or fails and tries to give back what it took.
   k is the number of tables passed before a failure, None when it ended before sqlite_master was locked.
   cursor and memory tell whether the cursor and the arrays could be allocated.
   */
  method ExclusiveLockTables(area: TableLockArea, me: Holder, tables: seq<Target>, cursor: bool, memory: bool)
    returns (rc: Rc, ghost k: Option<nat>)
    requires area.Valid() && Secure(area.held, area.base) && Ready(area.held, me, tables)
    modifies area, area.slots, area.inUse
    ensures area.Valid() && Secure(area.held, area.base)
    ensures k.Some? ==> k.value <= |tables|
    ensures rc.Ok? && tables != [] ==> Stage(WithMaster(old(area.held), me), area.held, me, tables, 0, |tables|)
    ensures rc.Ok? && tables != [] ==> LevelOf(area.held, TableKey(SCHEMA_ROOT, me)) >= WRITE_LOCK
    ensures rc.Ok? ==> (AllExclusive(area.held, me, tables) <==> ClearedExclusive(old(area.held), me, tables))
    ensures cursor && memory && Unhindered(old(area.held), me, tables, area.slots.Length - 1) ==> rc.Ok?
    ensures tables == [] ==> area.held == old(area.held) && (rc.Ok? <==> cursor)
    ensures !rc.Ok? && k.None? ==> area.held == old(area.held)
    ensures !cursor ==> rc == NoMem
    ensures !rc.Ok? && k.Some? && memory ==>
              && k.value < |tables|
              && if tables[k.value].read.Ok? then IsModified(tables[k.value]) else rc == tables[k.value].read
    ensures !rc.Ok? && k.Some? ==> Stage(WithMaster(old(area.held), me), area.held, me, tables, k.value, k.value)
    ensures !rc.Ok? && k.Some? ==>
              (area.held == old(area.held) <==>
               && LevelOf(old(area.held), Master(me)) >= WRITE_LOCK
               && forall j :: 0 <= j < k.value && Takes(tables[j]) ==>
                                LevelOf(old(area.held), TableKey(tables[j].iTable, me)) != WRITEEX_LOCK)
  {
    hide Secure, TableLockArea.Valid, Stage, Remembers, Marks, Ready, Alone;
    ghost var was, base := area.held, area.base;
    k := None;
    if !cursor {
      return NoMem, None;
    }
    if tables == [] {
      return Ok, None;
    }
    StartFacts(was, me, tables);
    var prevMaster;
    rc, prevMaster := Take(area, me, SCHEMA_ROOT, WRITE_LOCK);
    if !rc.Ok? {
      return;
    }
    ghost var with := area.held;
    k := Some(0);
    if !memory {
      StageNone(with, me, tables);
      rc := NoMem;
    } else {
      var marks, prevs;
      ghost var n;
      rc, marks, prevs, n := TakeAll(area, me, tables);
      k := Some(n);
      if rc.Ok? {
        MasterStays(with, area.held, me, tables, 0, n);
        ExclusiveIff(was, area.held, area.base, me, tables);
        return;
      }
      GiveBackAll(area, me, tables, marks, prevs, with, n);
    }
    MasterStays(with, area.held, me, tables, k.value, k.value);
    GiveBack(area, me, SCHEMA_ROOT, prevMaster);
    RestoredIff(was, area.held, base, me, tables, k.value);
  }

  lemma StartFacts(held: Levels, me: Holder, tables: seq<Target>)
    requires Ready(held, me, tables)
    ensures Identified(Master(me)) && Proper(Commit, SCHEMA_ROOT, WRITE_LOCK)
    ensures Ready(WithMaster(held, me), me, tables)
  {
  }

  lemma MasterStays(with: Levels, now: Levels, me: Holder, tables: seq<Target>, a: nat, k: nat)
    requires a <= k <= |tables| && Stage(with, now, me, tables, a, k) && Ready(with, me, tables)
    ensures LevelOf(now, Master(me)) == LevelOf(with, Master(me))
  {
    assert !IsTaken(Master(me), me, tables, k);
    assert SameLevel(with, now, Master(me));
  }

  /**
   A transaction that deletes all rows of a table and commits: the commit is granted, and the table it empties is
   not exclusively locked.
   */
  method ClearedTableIsNotTaken(me: Holder, iTable: int) returns (area: TableLockArea, rc: Rc)
    requires Identified(TableKey(iTable, me)) && iTable != SCHEMA_ROOT
    ensures area.Valid() && rc.Ok? && LevelOf(area.held, TableKey(iTable, me)) == WRITEEX_LOCK
  {
    hide *;
    area := ClearAlone(me, iTable);
    var x := Target(iTable, Ok, 0, 0, true);
    ghost var held := area.held;
    ReadyToCommit(held, me, x, area.slots.Length - 1);
    ghost var k;
    rc, k := ExclusiveLockTables(area, me, [x], true, true);
    NothingTaken(held, area.held, me, x);
  }

  lemma ReadyToCommit(held: Levels, me: Holder, x: Target, n: nat)
    requires Identified(TableKey(x.iTable, me)) && x.iTable != SCHEMA_ROOT && x.read.Ok?
    requires x.inserted == 0 && x.deleted == 0
    requires Alone(held, me) && |held| <= 1 && n > 2
    ensures Ready(held, me, [x]) && Unhindered(held, me, [x], n) && !IsModified(x)
  {
  }

  /** A new area in which one connection takes the lock for deleting all rows of a table. */
  method ClearAlone(me: Holder, iTable: int) returns (area: TableLockArea)
    requires Identified(TableKey(iTable, me)) && iTable != SCHEMA_ROOT
    ensures fresh(area) && fresh(area.slots) && fresh(area.inUse) && area.slots.Length == 10
    ensures area.Valid() && Secure(area.held, area.base)
    ensures LevelOf(area.held, TableKey(iTable, me)) == WRITEEX_LOCK && Alone(area.held, me) && |area.held| == 1
  {
    hide Secure, TableLockArea.Valid, Clear, Obstructs, AnotherAt, AnotherFrom;
    area := new TableLockArea(10, k => 0);
    NoLocks(area.base);
    AloneIsClear(area, me, Normal, iTable, WRITEEX_LOCK);
    ghost var was, base := area.held, area.base;
    ghost var at;
    var rc, prev;
    rc, prev, at := area.LockTable(me, iTable, WRITEEX_LOCK, Normal);
    RaiseKeepsSecure(was, base, area.held, me, Normal, iTable, WRITEEX_LOCK);
  }

  lemma NoLocks(base: Levels)
    ensures Secure(map[], base)
  {
  }

  lemma NothingTaken(was: Levels, now: Levels, me: Holder, x: Target)
    requires !IsModified(x) && x.iTable != SCHEMA_ROOT && Stage(WithMaster(was, me), now, me, [x], 0, 1)
    ensures LevelOf(now, TableKey(x.iTable, me)) == LevelOf(was, TableKey(x.iTable, me))
  {
    assert SameLevel(WithMaster(was, me), now, TableKey(x.iTable, me));
  }
}
