/**
 The statements, commit and rollback of the row-lock engine performed in place on the shared rows, the
 overlays and the row-lock area, each proved to be its step of the transaction protocol.
 */
module Database {
  import opened RowLocks
  import opened Transactions

  class Engine {
    var shared: Rows
    var overlays: map<Holder, Overlay>
    const locks: RowLockArea

    ghost function State(): Db
      reads this, locks
    {
      Db(shared, overlays, locks.held)
    }

    ghost predicate Valid()
      reads this, locks, locks.slots
    {
      locks.Valid() && Inv(State())
    }

    constructor (rows: Rows, locks: RowLockArea)
      requires locks.Valid() && locks.held == map[]
      ensures Valid() && State() == Db(rows, map[], map[]) && this.locks == locks
    {
      shared := rows;
      overlays := map[];
      this.locks := locks;
    }

    function OwnOf(c: Holder): Overlay
      reads this
    {
      if c in overlays then overlays[c] else EMPTY
    }

    /** Writes a row for a connection: an update of a shared row also records the row as deleted. */
    method Write(c: Holder, k: RowKey, rec: Record, append: bool, st: CursorState) returns (rc: Rc)
      requires Valid() && k.iTable != 0 && IsConnection(c) && Enabled(State(), c, Insert(k, rec, append, st))
      modifies this, locks, locks.slots
      ensures Valid()
      ensures State() == Step(old(State()), locks.slots.Length, c, Insert(k, rec, append, st))
      ensures rc.Ok? <==> Obtains(old(locks.held), locks.slots.Length, c, k)
      ensures !rc.Ok? ==> rc == if k in old(locks.held) then Locked else NoMem
      ensures locks.held == if rc.Ok? then old(locks.held)[k := c] else old(locks.held)
      ensures var was := View(old(shared), old(OwnOf(c)));
              View(shared, OwnOf(c)) == if rc.Ok? then was[k := rec] else was
    {
      hide *;
      ghost var op := Insert(k, rec, append, st);
      Parts();
      StepKeepsInv(State(), locks.slots.Length, c, op);
      StatementSeen(State(), locks.slots.Length, c, op);
      StatementLocks(State(), locks.slots.Length, c, op);
      InsertIs(State(), locks.slots.Length, c, op);
      rc := PutRow(c, k, rec, append, st);
      Parts();
    }

    lemma Parts()
      ensures Valid() <==> locks.Valid() && Inv(State())
      ensures State() == Db(shared, overlays, locks.held) && forall d :: OwnOf(d) == Own(State(), d)
    {
    }

    method PutRow(c: Holder, k: RowKey, rec: Record, append: bool, st: CursorState) returns (rc: Rc)
      requires locks.Valid() && k.iTable != 0
      modifies this`overlays, locks, locks.slots
      ensures locks.Valid()
      ensures rc.Ok? <==> Obtains(old(locks.held), locks.slots.Length, c, k)
      ensures !rc.Ok? ==> rc == if k in old(locks.held) then Locked else NoMem
      ensures locks.held == if rc.Ok? then old(locks.held)[k := c] else old(locks.held)
      ensures var o, update := old(OwnOf(c)), !append && UsesShared(st) && k in shared;
              overlays == if rc.Ok? then
                            old(overlays)[c := Overlay(o.ins[k := rec], if update then o.del + {k} else o.del)]
                          else old(overlays)
    {
      hide RowLockArea.Valid;
      ghost var held := locks.held;
      var isUpdate := false;
      if !append && UsesShared(st) {
        isUpdate := k in shared;
      }
      rc := locks.Lock(k, c);
      if !rc.Done? && !rc.Ok? {
        return;
      }
      assert rc.Done? ==> held[k := c] == held;
      var o := OwnOf(c);
      if isUpdate {
        o := Overlay(o.ins, o.del + {k});
      }
      o := Overlay(o.ins[k := rec], o.del);
      overlays := overlays[c := o];
      rc := Ok;
    }

    static lemma InsertIs(db: Db, n: nat, c: Holder, op: Op)
      requires op.Insert?
      ensures var o, update := Own(db, c), !op.append && UsesShared(op.st) && op.k in db.shared;
              Step(db, n, c, op) ==
              if Obtains(db.held, n, c, op.k) then
                Db(db.shared,
                   db.overlays[c := Overlay(o.ins[op.k := op.rec], if update then o.del + {op.k} else o.del)],
                   db.held[op.k := c])
              else db
    {
      LockIs(db, n, c, op.k);
    }

    /** Removes the row a cursor stands on: from the insertion tree, or by recording a shared row as deleted. */
    method Remove(c: Holder, k: RowKey, st: CursorState) returns (rc: Rc)
      requires Valid() && k.iTable != 0 && IsConnection(c) && Enabled(State(), c, Delete(k, st))
      modifies this, locks, locks.slots
      ensures Valid()
      ensures State() == Step(old(State()), locks.slots.Length, c, Delete(k, st))
      ensures rc.Ok? <==> st != OnShared || Obtains(old(locks.held), locks.slots.Length, c, k)
      ensures !rc.Ok? ==> rc == if k in old(locks.held) then Locked else NoMem
      ensures locks.held ==
              if st != OnShared then (if k in old(OwnOf(c)).del then old(locks.held) else old(locks.held) - {k})
              else if rc.Ok? then old(locks.held)[k := c]
              else old(locks.held)
      ensures var was := View(old(shared), old(OwnOf(c)));
              View(shared, OwnOf(c)) == if rc.Ok? then was - {k} else was
    {
      hide *;
      ghost var op := Delete(k, st);
      Parts();
      StepKeepsInv(State(), locks.slots.Length, c, op);
      StatementSeen(State(), locks.slots.Length, c, op);
      StatementLocks(State(), locks.slots.Length, c, op);
      rc := TakeRow(c, k, st);
      Parts();
    }

    method TakeRow(c: Holder, k: RowKey, st: CursorState) returns (rc: Rc)
      requires locks.Valid() && k.iTable != 0
      modifies this`overlays, locks, locks.slots
      ensures locks.Valid() && State() == Step(old(State()), locks.slots.Length, c, Delete(k, st))
      ensures rc.Ok? <==> st != OnShared || Obtains(old(locks.held), locks.slots.Length, c, k)
      ensures !rc.Ok? ==> rc == if k in old(locks.held) then Locked else NoMem
    {
      if UsesTrans(st) {
        RemoveInserted(c, k);
        return Ok;
      }
      rc := RemoveShared(c, k);
    }

    method RemoveInserted(c: Holder, k: RowKey)
      requires locks.Valid() && k.iTable != 0
      modifies this`overlays, locks, locks.slots
      ensures locks.Valid()
      ensures locks.held == if k in old(OwnOf(c)).del then old(locks.held) else old(locks.held) - {k}
      ensures overlays == old(overlays)[c := Overlay(old(OwnOf(c)).ins - {k}, old(OwnOf(c)).del)]
    {
      var o := OwnOf(c);
      if k !in o.del {
        locks.Unlock(k);
      }
      overlays := overlays[c := Overlay(o.ins - {k}, o.del)];
    }

    method RemoveShared(c: Holder, k: RowKey) returns (rc: Rc)
      requires locks.Valid() && k.iTable != 0
      modifies this`overlays, locks, locks.slots
      ensures locks.Valid()
      ensures var reply := Reply(old(locks.held), locks.slots.Length, LockRow(k, c));
              && rc == (if Granted(reply) then Ok else reply)
              && locks.held == After(old(locks.held), locks.slots.Length, LockRow(k, c))
              && var o := old(OwnOf(c));
                 overlays == if Granted(reply) then old(overlays)[c := Overlay(o.ins, o.del + {k})] else old(overlays)
    {
      rc := locks.Lock(k, c);
      if !rc.Done? && !rc.Ok? {
        return;
      }
      var o := OwnOf(c);
      overlays := overlays[c := Overlay(o.ins, o.del + {k})];
      rc := Ok;
    }

    /** Drops the overlay and releases the connection's locks. */
    method Rollback(c: Holder)
      requires Valid() && IsConnection(c)
      modifies this, locks, locks.slots
      ensures Valid()
      ensures State() == Step(old(State()), locks.slots.Length, c, Transactions.Rollback)
      ensures forall k :: k in locks.held <==> k in old(locks.held) && old(locks.held)[k] != c
      ensures forall k :: k in locks.held ==> locks.held[k] == old(locks.held)[k]
      ensures OwnOf(c).ins == map[] && OwnOf(c).del == {} && forall d :: d != c ==> OwnOf(d) == old(OwnOf(d))
      ensures shared == old(shared)
    {
      hide *;
      Parts();
      StepKeepsInv(State(), locks.slots.Length, c, Transactions.Rollback);
      EndFrees(State(), locks.slots.Length, c, Transactions.Rollback);
      EndIs(State(), locks.slots.Length, c);
      EndTransaction(c);
      Parts();
    }

    static lemma EndIs(db: Db, n: nat, c: Holder)
      ensures var overlays, held := db.overlays[c := EMPTY], Released(db.held, c.pid, c.owner);
              && Step(db, n, c, Transactions.Rollback) == Db(db.shared, overlays, held)
              && Step(db, n, c, Transactions.Commit) == Db(View(db.shared, Own(db, c)), overlays, held)
    {
    }

    static lemma ViewIs(shared: Rows, o: Overlay)
      ensures var rows := View(shared, o);
              && (forall k :: k in rows <==> k in o.ins || (k in shared && k !in o.del))
              && (forall k :: k in rows ==> rows[k] == if k in o.ins then o.ins[k] else shared[k])
    {
    }

    static lemma DeletedAreShared(shared: Rows, o: Overlay)
      requires Fits(shared, o)
      ensures forall k :: k in o.del ==> k in shared
    {
    }

    method EndTransaction(c: Holder)
      requires locks.Valid()
      modifies this`overlays, locks, locks.slots
      ensures locks.Valid()
      ensures overlays == old(overlays)[c := EMPTY]
      ensures locks.held == Released(old(locks.held), c.pid, c.owner)
    {
      overlays := overlays[c := EMPTY];
      locks.ReleaseAll(c.pid, c.owner);
    }

    /**
     Publishes the overlay: every deleted key is found and removed from the shared rows, then
     every inserted row is written there, in whatever order the trees are walked.
     */
    method Commit(c: Holder)
      requires Valid() && IsConnection(c)
      modifies this, locks, locks.slots
      ensures Valid()
      ensures State() == Step(old(State()), locks.slots.Length, c, Transactions.Commit)
      ensures shared == View(old(shared), old(OwnOf(c)))
      ensures var o := old(OwnOf(c));
              && (forall k :: k in shared <==> k in o.ins || (k in old(shared) && k !in o.del))
              && (forall k :: k in shared ==> shared[k] == if k in o.ins then o.ins[k] else old(shared)[k])
      ensures |shared| == |old(shared)| + |old(OwnOf(c)).ins| - |old(OwnOf(c)).del|
      ensures forall k :: k in locks.held <==> k in old(locks.held) && old(locks.held)[k] != c
      ensures forall k :: k in locks.held ==> locks.held[k] == old(locks.held)[k]
      ensures OwnOf(c).ins == map[] && OwnOf(c).del == {} && forall d :: d != c ==> OwnOf(d) == old(OwnOf(d))
    {
      hide *;
      Parts();
      StepKeepsInv(State(), locks.slots.Length, c, Transactions.Commit);
      EndFrees(State(), locks.slots.Length, c, Transactions.Commit);
      EndIs(State(), locks.slots.Length, c);
      var o := OwnOf(c);
      OwnFits(State(), c);
      ViewSize(shared, o);
      DeletedAreShared(shared, o);
      ViewIs(shared, o);
      Publish(o);
      EndTransaction(c);
      Parts();
    }

    method Publish(o: Overlay)
      requires forall k :: k in o.del ==> k in shared
      modifies this`shared
      ensures shared == View(old(shared), o)
    {
      CommitDeletes(o.del);
      CommitInserts(o.ins);
    }

    method CommitDeletes(del: set<RowKey>)
      requires forall k :: k in del ==> k in shared
      modifies this`shared
      ensures shared == old(shared) - del
    {
      var todo := del;
      while todo != {}
        invariant todo <= del
        invariant shared == old(shared) - (del - todo)
        decreases |todo|
      {
        var k :| k in todo;
        assert k in shared;
        shared := shared - {k};
        todo := todo - {k};
      }
    }

    method CommitInserts(ins: Rows)
      modifies this`shared
      ensures shared == old(shared) + ins
    {
      var todo := ins.Keys;
      while todo != {}
        invariant todo <= ins.Keys
        invariant shared == old(shared) + (ins - todo)
        decreases |todo|
      {
        var k :| k in todo;
        shared := shared[k := ins[k]];
        todo := todo - {k};
      }
      assert ins - {} == ins;
    }
  }
}
