/**
 The cached-rowid array kept beside the table locks: a dense prefix of distinct tables.
 */
module CachedRowids {
  import opened RowLocks
  import opened SlotRing
  import opened SlotStore
  import opened TableLocks

  const U64: nat := 0x1_0000_0000_0000_0000

  datatype Cached = Cached(iTable: int, rowid: int)

  const NONE: Cached := Cached(0, 0)

  /** Unsigned 64-bit decrement and increment. */
  function Dec(x: nat): nat
    requires x < U64
  {
    if x == 0 then U64 - 1 else x - 1
  }

  function Inc(x: nat): nat
    requires x < U64
  {
    if x == U64 - 1 then 0 else x + 1
  }

  /** The first n elements are distinct tables. */
  ghost predicate Prefix(s: seq<Cached>, n: nat) {
    && n <= |s|
    && (forall i :: 0 <= i < n ==> s[i].iTable != 0)
    && (forall i, j :: 0 <= i < j < n ==> s[i].iTable != s[j].iTable)
  }

  /** The elements after the prefix are clear. */
  ghost predicate Dense(s: seq<Cached>, n: nat) {
    Prefix(s, n) && forall i :: n <= i < |s| ==> s[i] == NONE
  }

  /** The map a prefix of distinct tables stands for. */
  ghost function AsMap(s: seq<Cached>, n: nat): map<int, int>
    requires n <= |s|
  {
    if n == 0 then map[] else AsMap(s, n - 1)[s[n - 1].iTable := s[n - 1].rowid]
  }

  lemma {:induction false} PlaceInMap(s: seq<Cached>, n: nat, i: nat)
    requires Prefix(s, n) && i < n
    ensures s[i].iTable in AsMap(s, n) && AsMap(s, n)[s[i].iTable] == s[i].rowid
  {
    if i < n - 1 {
      PlaceInMap(s, n - 1, i);
    }
  }

  lemma {:induction false} PlaceOf(s: seq<Cached>, n: nat, t: int) returns (i: nat)
    requires n <= |s| && t in AsMap(s, n)
    ensures i < n && s[i].iTable == t
  {
    if s[n - 1].iTable == t {
      i := n - 1;
    } else {
      i := PlaceOf(s, n - 1, t);
    }
  }

  lemma {:induction false} AsMapSize(s: seq<Cached>, n: nat)
    requires Prefix(s, n)
    ensures |AsMap(s, n)| == n
  {
    if n > 0 {
      AsMapSize(s, n - 1);
      if s[n - 1].iTable in AsMap(s, n - 1) {
        var i := PlaceOf(s, n - 1, s[n - 1].iTable);
      }
    }
  }

  /** Two prefixes with the same pairs stand for the same map. */
  lemma SamePairs(s: seq<Cached>, n: nat, m: map<int, int>)
    requires Prefix(s, n)
    requires forall i :: 0 <= i < n ==> s[i].iTable in m && m[s[i].iTable] == s[i].rowid
    requires forall t :: t in m ==> exists i :: 0 <= i < n && s[i].iTable == t
    ensures AsMap(s, n) == m
  {
    forall t | t in m ensures t in AsMap(s, n) && AsMap(s, n)[t] == m[t] {
      var i :| 0 <= i < n && s[i].iTable == t;
      PlaceInMap(s, n, i);
    }
    forall t | t in AsMap(s, n) ensures t in m {
      var i := PlaceOf(s, n, t);
    }
  }

  lemma PutPair(s: seq<Cached>, n: nat, i: nat, t: int, rowid: int)
    requires Dense(s, n) && i < |s| && i <= n && t != 0
    requires i < n ==> s[i].iTable == t
    requires i == n ==> forall j :: 0 <= j < n ==> s[j].iTable != t
    ensures var m := if i == n then n + 1 else n;
            Dense(s[i := Cached(t, rowid)], m) && AsMap(s[i := Cached(t, rowid)], m) == AsMap(s, n)[t := rowid]
  {
    var r, m := s[i := Cached(t, rowid)], if i == n then n + 1 else n;
    var all := AsMap(s, n)[t := rowid];
    forall j | 0 <= j < m ensures r[j].iTable in all && all[r[j].iTable] == r[j].rowid {
      if j != i {
        PlaceInMap(s, n, j);
      }
    }
    forall u | u in all ensures exists j :: 0 <= j < m && r[j].iTable == u {
      if u == t {
        assert r[i].iTable == t;
      } else {
        var j := PlaceOf(s, n, u);
        assert r[j].iTable == u;
      }
    }
    SamePairs(r, m, all);
  }

  /** Filling a removed place from the tail keeps the prefix dense and drops just that table. */
  lemma TakePair(s: seq<Cached>, n: nat, i: nat)
    requires Dense(s, n) && i < n
    ensures var r := s[i := s[n - 1]][n - 1 := NONE];
            Dense(r, n - 1) && AsMap(r, n - 1) == AsMap(s, n) - {s[i].iTable}
  {
    var r, t := s[i := s[n - 1]][n - 1 := NONE], s[i].iTable;
    var rest := AsMap(s, n) - {t};
    forall j | 0 <= j < n - 1 ensures r[j].iTable in rest && rest[r[j].iTable] == r[j].rowid {
      PlaceInMap(s, n, if j == i then n - 1 else j);
    }
    forall u | u in rest ensures exists j :: 0 <= j < n - 1 && r[j].iTable == u {
      var j := PlaceOf(s, n, u);
      assert r[if j == n - 1 then i else j].iTable == u;
    }
    SamePairs(r, n - 1, rest);
  }

  /**
   The tables still cached are known from before, those dropped since are free,
   and the places from i on keep tables that are not free.
   */
  ghost predicate SweptTo(s: seq<Cached>, n: nat, i: nat, was: map<int, int>, free: set<int>) {
    && Dense(s, n)
    && (forall t :: t in AsMap(s, n) ==> t in was && AsMap(s, n)[t] == was[t])
    && (forall t :: t in was && t !in AsMap(s, n) ==> t in free)
    && (forall j :: i <= j < n ==> s[j].iTable !in free)
  }

  lemma SweepStep(s: seq<Cached>, n: nat, i: nat, was: map<int, int>, free: set<int>)
    requires i < n && SweptTo(s, n, i + 1, was, free)
    ensures s[i].iTable in was && Dense(s, n)
    ensures if s[i].iTable in free then SweptTo(s[i := s[n - 1]][n - 1 := NONE], n - 1, i, was, free)
            else SweptTo(s, n, i, was, free)
  {
    PlaceInMap(s, n, i);
    TakePair(s, n, i);
  }

  /** The target of a query regardless of the owner. */
  function Anyone(iTable: int): TableKey {
    TableKey(iTable, Holder(0, 0))
  }

  /** Somebody has a level on the table, and no element left at level 0 is met before. */
  ghost predicate Seen(locks: TableLockArea, iTable: int)
    requires locks.Valid()
    reads locks, locks.slots
  {
    HeldBy(locks.held, Anyone(iTable)) && !locks.Masked(Anyone(iTable))
  }

  ghost predicate NoneAtZero(held: Levels, iTable: int) {
    forall k :: k in held && k.iTable == iTable ==> held[k] != NOT_LOCKED
  }

  ghost predicate Present(held: Levels, iTable: int) {
    exists k :: k in held && k.iTable == iTable
  }

  /** With no element of the table at level 0, a level is seen exactly when somebody has an element. */
  lemma SeenIffPresent(locks: TableLockArea, iTable: int)
    requires locks.Valid() && NoneAtZero(locks.held, iTable)
    ensures Seen(locks, iTable) <==> Present(locks.held, iTable)
  {
    locks.NotMasked(Anyone(iTable));
    if Present(locks.held, iTable) {
      var k :| k in locks.held && k.iTable == iTable;
      assert IsTarget(k, Anyone(iTable));
    }
  }

  class CachedRowidArea {
    const cache: array<Cached>
    var nCache: nat

    ghost predicate Valid()
      reads this, cache
    {
      cache.Length < U64 && Dense(cache[..], nCache)
    }

    /** The rowids cached, by table. */
    ghost function Rowids(): map<int, int>
      requires Valid()
      reads this, cache
    {
      AsMap(cache[..], nCache)
    }

    constructor (nElement: nat)
      requires nElement < U64
      ensures Valid() && Rowids() == map[] && fresh(cache) && cache.Length == nElement
    {
      cache := new Cached[nElement](_ => NONE);
      nCache := 0;
    }

    method Set(iTable: int, rowid: int) returns (rc: Rc)
      requires Valid()
      modifies this, cache
      ensures Valid()
      ensures rc == if iTable == 0 || iTable in old(Rowids()) || |old(Rowids())| < cache.Length then Ok else NoMem
      ensures Rowids() == if iTable == 0 || rc.NoMem? then old(Rowids()) else old(Rowids())[iTable := rowid]
    {
      if iTable == 0 {
        return Ok;
      }
      ghost var s := cache[..];
      AsMapSize(s, nCache);
      var i := 0;
      while i < cache.Length
        invariant 0 <= i <= nCache
        invariant forall j :: 0 <= j < i ==> cache[j].iTable != iTable
      {
        if cache[i].iTable == iTable || cache[i].iTable == 0 {
          PutPair(s, nCache, i, iTable, rowid);
          if i < nCache {
            PlaceInMap(s, nCache, i);
          }
          if cache[i].iTable == 0 {
            nCache := nCache + 1;
            assert i + 1 == nCache;
          }
          assert i < nCache;
          cache[i] := Cached(iTable, rowid);
          assert cache[..] == s[i := Cached(iTable, rowid)];
          return Ok;
        }
        i := i + 1;
      }
      if iTable in AsMap(s, nCache) {
        var j := PlaceOf(s, nCache, iTable);
      }
      return NoMem;
    }

    /** 0 stands for no cached rowid. */
    method Get(iTable: int) returns (rowid: int)
      requires Valid()
      ensures rowid == if iTable in Rowids() then Rowids()[iTable] else 0
    {
      rowid := 0;
      var i := 0;
      while i < nCache
        invariant 0 <= i <= nCache
        invariant forall j :: 0 <= j < i ==> cache[j].iTable != iTable
      {
        if cache[i].iTable == iTable {
          PlaceInMap(cache[..], nCache, i);
          return cache[i].rowid;
        }
        i := i + 1;
      }
      if iTable in AsMap(cache[..], nCache) {
        ghost var j := PlaceOf(cache[..], nCache, iTable);
      }
    }

    method DropTable(iTable: int)
      requires Valid()
      modifies this, cache
      ensures Valid()
      ensures Rowids() == old(Rowids()) - {iTable}
    {
      var i := 0;
      while i < nCache && cache[i].iTable != iTable
        invariant 0 <= i <= nCache
        invariant forall j :: 0 <= j < i ==> cache[j].iTable != iTable
      {
        i := i + 1;
      }
      ghost var s := cache[..];
      if i == nCache {
        if iTable in AsMap(s, nCache) {
          ghost var j := PlaceOf(s, nCache, iTable);
        }
        return;
      }
      TakePair(s, nCache, i);
      cache[i] := NONE;
      var last := nCache - 1;
      cache[i] := cache[last];
      cache[last] := NONE;
      nCache := nCache - 1;
      assert cache[..] == s[i := s[last]][last := NONE];
    }

    static method IsUnlocked(locks: TableLockArea, iTable: int) returns (b: bool)
      requires locks.Valid() && iTable != 0
      ensures b <==> !Seen(locks, iTable)
    {
      var level := locks.Query(0, iTable);
      b := level == NOT_LOCKED;
    }

    /** free names the tables of was on which no level is seen. */
    static ghost predicate Agrees(locks: TableLockArea, was: map<int, int>, free: set<int>)
      requires locks.Valid()
      reads locks, locks.slots
    {
      forall t :: t in was ==> (t in free <==> !Seen(locks, t))
    }

    /** One place of the sweep: the tail fills it when no level is seen on its table. */
    method SweepOne(locks: TableLockArea, i: nat, tail: nat, ghost was: map<int, int>, ghost free: set<int>)
      returns (tail': nat)
      requires locks.Valid() && Agrees(locks, was, free)
      requires i <= tail < cache.Length < U64 && SweptTo(cache[..], tail + 1, i + 1, was, free)
      modifies cache
      ensures tail' < U64 && i <= Inc(tail') <= cache.Length
      ensures SweptTo(cache[..], Inc(tail'), i, was, free)
    {
      ghost var s := cache[..];
      SweepStep(s, tail + 1, i, was, free);
      var unlocked := IsUnlocked(locks, cache[i].iTable);
      tail' := tail;
      if unlocked {
        cache[i] := cache[tail];
        cache[tail] := NONE;
        tail' := Dec(tail);
        assert cache[..] == s[i := s[tail]][tail := NONE];
        assert Inc(tail') == tail;
      } else {
        assert Inc(tail') == tail + 1 && cache[..] == s;
      }
    }

    /**
     Forgets the rowids of the tables on which no level is seen: a downward sweep that fills each
     removed place from the tail, on unsigned indexes. Where no element was left at level 0, these
     are the tables nobody has locked.
     */
    method Reset(locks: TableLockArea)
      requires Valid() && locks.Valid() && locks.slots as object != cache && locks as object != this
      modifies this, cache
      ensures Valid()
      ensures forall t :: t in Rowids() <==> t in old(Rowids()) && Seen(locks, t)
      ensures (forall t :: t in old(Rowids()) ==> NoneAtZero(locks.held, t)) ==>
                forall t :: t in Rowids() <==> t in old(Rowids()) && Present(locks.held, t)
      ensures forall t :: t in Rowids() ==> Rowids()[t] == old(Rowids())[t]
    {
      hide TableLockArea.Valid, Seen, NoneAtZero, Present;
      forall t | NoneAtZero(locks.held, t) ensures Seen(locks, t) <==> Present(locks.held, t) {
        SeenIffPresent(locks, t);
      }
      if nCache == 0 {
        return;
      }
      var tail := nCache - 1;
      var i := nCache - 1;
      ghost var was := Rowids();
      ghost var free := set t | t in was && !Seen(locks, t);
      while true
        invariant 0 <= i <= tail < cache.Length < U64
        invariant locks.Valid()
        invariant SweptTo(cache[..], tail + 1, i + 1, was, free)
        invariant Agrees(locks, was, free)
        decreases i
      {
        tail := SweepOne(locks, i, tail, was, free);
        if i == 0 {
          break;
        }
        i := i - 1;
      }
      nCache := Inc(tail);
      KeptAll(cache[..], nCache, was, free);
    }
  }

  lemma KeptAll(s: seq<Cached>, n: nat, was: map<int, int>, free: set<int>)
    requires SweptTo(s, n, 0, was, free)
    ensures Dense(s, n)
    ensures forall t :: t in AsMap(s, n) ==> t in was && AsMap(s, n)[t] == was[t]
    ensures forall t :: t in AsMap(s, n) <==> t in was && t !in free
  {
    forall t | t in AsMap(s, n) ensures t !in free {
      var i := PlaceOf(s, n, t);
    }
  }

  /** Takes a write lock of a table whose other holders are writers, in an area filled from slot 0. */
  method TakeWrite(locks: TableLockArea, me: Holder, iTable: int, ghost used: nat)
    requires locks.Valid() && Identified(TableKey(iTable, me)) && iTable != SCHEMA_ROOT
    requires TableKey(iTable, me) !in locks.held && locks.hashOf(TableKey(iTable, me)) == 0
    requires used == |locks.held| < locks.slots.Length - 1
    requires forall p: nat :: p < locks.slots.Length ==> (locks.slots[p].Used? <==> p < used)
    requires forall p: nat :: p < used ==> locks.slots[p].elem.val == WRITE_LOCK
    modifies locks, locks.slots, locks.inUse
    ensures locks.Valid() && locks.held == old(locks.held)[TableKey(iTable, me) := WRITE_LOCK]
    ensures locks.slots[..] == old(locks.slots[..])[used := Used(0, Entry(TableKey(iTable, me), WRITE_LOCK))]
  {
    hide TableLockArea.Valid, Clear;
    ghost var at;
    var rc, prev;
    rc, prev, at := locks.LockTable(me, iTable, WRITE_LOCK, Normal);
    assert rc.Ok? && prev.Some?;
    assert OnPath(0, used, at, locks.slots.Length);
  }

  /** Takes the holder at slot 0 back to level 0; the level of the one behind it is not seen any more. */
  method GoBack(locks: TableLockArea, me: Holder, iTable: int)
    requires locks.Valid() && Identified(TableKey(iTable, me)) && iTable != SCHEMA_ROOT
    requires locks.slots.Length == 3 && locks.hashOf(Anyone(iTable)) == 0
    requires locks.slots[0].Used? && locks.slots[0].elem.key == TableKey(iTable, me)
    requires locks.slots[1].Used? && locks.slots[1].elem.key.holder != me && locks.slots[1].elem.val == WRITE_LOCK
    requires locks.slots[2].Empty? && LevelOf(locks.held, TableKey(iTable, me)) == WRITE_LOCK
    modifies locks, locks.slots, locks.inUse
    ensures locks.Valid() && !Seen(locks, iTable)
    ensures locks.held == old(locks.held)[TableKey(iTable, me) := NOT_LOCKED]
  {
    hide TableLockArea.Valid, Clear;
    ghost var at;
    var rc, prev;
    rc, prev, at := locks.LockTable(me, iTable, NOT_LOCKED, Force);
    assert rc.Ok?;
    assert at == 0;
    assert locks.Leads(0, Anyone(iTable));
  }

  /**
   A level that no query for anyone sees: a locks the table and goes back to level 0, as a rollback to a
   savepoint does, and b has it at WRITE_LOCK. A probe stops at the element of a.
   */
  method HidesLevel(a: Holder, b: Holder, iTable: int) returns (locks: TableLockArea)
    requires a != b && Identified(TableKey(iTable, a)) && Identified(TableKey(iTable, b)) && iTable != SCHEMA_ROOT
    ensures fresh(locks) && fresh(locks.slots) && locks.Valid() && !Seen(locks, iTable)
    ensures LevelOf(locks.held, TableKey(iTable, b)) == WRITE_LOCK
  {
    hide TableLockArea.Valid, TableLockArea.Masked;
    locks := new TableLockArea(3, k => 0);
    TakeWrite(locks, a, iTable, 0);
    TakeWrite(locks, b, iTable, 1);
    assert locks.slots[0].elem == Entry(TableKey(iTable, a), WRITE_LOCK);
    assert locks.slots[1].elem == Entry(TableKey(iTable, b), WRITE_LOCK);
    assert locks.slots[2].Empty?;
    GoBack(locks, a, iTable);
  }

  /** So the rowid of a table that b is writing is forgotten. */
  method ForgetsLockedTable(a: Holder, b: Holder, iTable: int, rowid: int) returns (locks: TableLockArea, got: int)
    requires a != b && Identified(TableKey(iTable, a)) && Identified(TableKey(iTable, b)) && iTable != SCHEMA_ROOT
    requires rowid != 0
    ensures locks.Valid() && LevelOf(locks.held, TableKey(iTable, b)) == WRITE_LOCK && got == 0
  {
    hide TableLockArea.Valid, TableLockArea.Masked, Seen;
    locks := HidesLevel(a, b, iTable);
    var cache := new CachedRowidArea(3);
    var rc := cache.Set(iTable, rowid);
    cache.Reset(locks);
    got := cache.Get(iTable);
  }
}
