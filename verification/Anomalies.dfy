/** Short runs in which a promise of the transaction manager is broken: a flush that
    forgets a position, an erase that meets another open writer, and an erase of one
    duplicate that is taken for the erase of the key. */
module Anomalies {
  import opened Actions
  import opened Seqs
  import opened Transactions
  import opened Serializability

  /** Key 7 has two records, and no transaction is open. */
  const TWO_RECORDS := Env(map[7 := [10, 20]], [], map[], [], 1, 0)

  lemma RunTwo(e: Env, steps: seq<Step>, a: Step, b: Step)
    requires steps == [a, b]
    ensures Run(e, steps) == Next(Next(e, a), b)
  {
    assert steps[..1] == [a] && [a][..0] == [];
    assert Run(e, []) == e && Run(e, [a]) == Next(e, a);
  }

  lemma RunFour(e: Env, steps: seq<Step>, a: Step, b: Step, c: Step, d: Step)
    requires steps == [a, b, c, d]
    ensures Run(e, steps) == Next(Next(Next(Next(e, a), b), c), d)
  {
    RunTwo(e, [a, b], a, b);
    assert steps[..3] == [a, b, c] && [a, b, c][..2] == [a, b];
  }

  lemma FoldOne(o: Op, d: Dups)
    ensures Fold([o], d) == Consolidate(o.act, d)
  {
    assert [o][..0] == [];
  }

  lemma StoreOne(o: Op, bt: map<Key, Dups>)
    ensures ApplyAll([o], bt) == bt[o.key := Apply(o.act, Get(bt, o.key))]
  {
    assert [o][..0] == [];
  }

  /** What a key reads after one committed operation. */
  lemma ViewOfOne(e: Env, o: Op)
    requires e.log == [o] && o.txn in e.status && e.status[o.txn] == Committed
    ensures View(e, o.key) == Consolidate(o.act, Get(e.btree, o.key))
  {
    assert On(e.log, o.key) == [o] by { FilterAll(OnKey(o.key), [o]); }
    assert CommittedOps(e, o.key) == [o] by { FilterAll(Having(e.status, Committed), [o]); }
    FoldOne(o, Get(e.btree, o.key));
  }

  /** What a key reads after its one committed operation has been flushed. */
  lemma FlushOfOne(e: Env, o: Op)
    requires e.log == [o] && e.order == [o.txn] && e.status == map[o.txn := Committed]
    ensures View(DoFlush(e), o.key) == Apply(o.act, Get(e.btree, o.key))
  {
    OneFlushed(e, o);
    StoreOne(o, e.btree);
    NothingPending(DoFlush(e), o.key);
  }

  lemma OneFlushed(e: Env, o: Op)
    requires e.log == [o] && e.order == [o.txn] && e.status == map[o.txn := Committed]
    ensures DoFlush(e).btree == ApplyAll([o], e.btree) && DoFlush(e).log == []
  {
    var ids := Flushable(e.order, e.status);
    assert ids == [o.txn] by { FlushableOne(o.txn, e.status); }
    assert FlushedOps(ids, e.log) == [o] && Filter(NotOf(ids), e.log) == [] by { FlushedOne(o); }
  }

  lemma FlushableOne(t: TxnId, status: map<TxnId, Status>)
    requires !(t in status && status[t] == Active)
    ensures Flushable([t], status) == [t]
  {
    assert [t][1..] == [];
  }

  lemma FlushedOne(o: Op)
    ensures FlushedOps([o.txn], [o]) == [o] && Filter(NotOf([o.txn]), [o]) == []
  {
    assert [o.txn][..0] == [];
    FilterAll(OfTxn(o.txn), [o]);
    FilterNone(NotOf([o.txn]), [o]);
  }

  lemma NothingPending(e: Env, k: Key)
    requires e.log == []
    ensures View(e, k) == Get(e.btree, k)
  {
  }

  /** The state after a transaction has begun, carried out one operation and
      committed. */
  function Solo(e: Env, k: Key, a: Action): Env {
    var t := e.lastId + 1; Next(Next(Next(e, Begin), Write(t, k, a)), Commit(t))
  }

  /** With nothing else going on: what readers see before and after its flush. */
  lemma SoloViews(e: Env, k: Key, a: Action)
    requires Fresh(e) && Check(DoBegin(e), e.lastId + 1, k, a) == Done
    ensures View(Solo(e, k, a), k) == Consolidate(a, Get(e.btree, k))
    ensures View(Next(Solo(e, k, a), Flush), k) == Apply(a, Get(e.btree, k))
  {
    var o := Op(e.lastId + 1, k, a, e.lsn + 1);
    SoloState(e, k, a);
    ViewOfOne(Solo(e, k, a), o);
    FlushOfOne(Solo(e, k, a), o);
  }

  lemma SoloState(e: Env, k: Key, a: Action)
    requires Fresh(e) && Check(DoBegin(e), e.lastId + 1, k, a) == Done
    ensures var t, s := e.lastId + 1, Solo(e, k, a);
            s.log == [Op(t, k, a, e.lsn + 1)] && s.btree == e.btree && s.order == [t] && s.status == map[t := Committed]
  {
  }

  lemma NeverRefused(e: Env, k: Key, a: Action)
    requires Fresh(e) && a.InsertDup?
    ensures Check(DoBegin(e), e.lastId + 1, k, a) == Done
  {
  }

  lemma BeforeTheSecond(r: Rec, x: Rec, y: Rec)
    ensures Consolidate(InsertDup(r, Before, 2), [x, y]) == [x, r, y]
    ensures Apply(InsertDup(r, Before, 2), [x, y]) == [r, x, y]
  {
    assert InsertAt([x, y], 1, r) == [x, r, y];
  }

  /** Key 7 has two records, and a third is inserted before the second: readers find
      it there, until the flush puts it before the first. */
  lemma PositionForgotten(e: Env)
    requires Fresh(e) && Get(e.btree, 7) == [10, 20]
    ensures var s := Solo(e, 7, InsertDup(15, Before, 2));
            View(s, 7) == [10, 15, 20] && View(Next(s, Flush), 7) == [15, 10, 20]
  {
    var a := InsertDup(15, Before, 2);
    NeverRefused(e, 7, a);
    SoloViews(e, 7, a);
    BeforeTheSecond(15, 10, 20);
  }

  const OVERWRITTEN := Op(1, 7, Overwrite(11, 1), 3)
  const ERASED := Op(2, 7, Erase(1), 4)

  const BOTH_OPEN := Env(map[7 := [10, 20]], [1, 2], map[1 := Active, 2 := Active], [OVERWRITTEN, ERASED], 5, 2)

  /** One transaction overwrites a duplicate, and another one erases the same
      duplicate while the first is open: neither is refused. */
  lemma EraseUnchecked(steps: seq<Step>)
    requires steps == [Begin, Begin, Write(1, 7, Overwrite(11, 1)), Write(2, 7, Erase(1))]
    ensures var e := Run(TWO_RECORDS, steps);
            && IsActive(e, 1) && IsActive(e, 2) && On(e.log, 7) == [OVERWRITTEN, ERASED] && !Isolated(e, 7)
  {
    var a, b := Write(1, 7, Overwrite(11, 1)), Write(2, 7, Erase(1));
    RunFour(TWO_RECORDS, steps, Begin, Begin, a, b);
    NeitherRefused(a, b);
    NotIsolated();
  }

  lemma NeitherRefused(a: Step, b: Step)
    requires a == Write(1, 7, Overwrite(11, 1)) && b == Write(2, 7, Erase(1))
    ensures Next(Next(Next(Next(TWO_RECORDS, Begin), Begin), a), b) == BOTH_OPEN
  {
    var one := Env(map[7 := [10, 20]], [1], map[1 := Active], [], 2, 1);
    var two := Env(map[7 := [10, 20]], [1, 2], map[1 := Active, 2 := Active], [], 3, 2);
    assert Next(TWO_RECORDS, Begin) == one && Next(one, Begin) == two;
    assert Next(two, a) == two.(log := [OVERWRITTEN], lsn := 4);
    assert [OVERWRITTEN] + [ERASED] == [OVERWRITTEN, ERASED];
  }

  lemma NotIsolated()
    ensures On(BOTH_OPEN.log, 7) == [OVERWRITTEN, ERASED] && !Isolated(BOTH_OPEN, 7)
  {
    FilterAll(OnKey(7), BOTH_OPEN.log);
    FilterAll(Having(BOTH_OPEN.status, Active), BOTH_OPEN.log);
    assert OVERWRITTEN in BOTH_OPEN.log && ERASED in BOTH_OPEN.log;
  }

  const ONE_ERASED := Op(1, 7, Erase(1), 2)

  const PARTLY_ERASED := Env(map[7 := [10, 20]], [1], map[1 := Active], [ONE_ERASED], 3, 1)

  /** A transaction erases one of two duplicates. It still sees the other one, but an
      insert that should be refused is not, and an erase that should succeed finds
      no key. */
  lemma PartialEraseMisread(steps: seq<Step>, r: Rec)
    requires steps == [Begin, Write(1, 7, Erase(1))]
    ensures var e := Run(TWO_RECORDS, steps);
            && OwnView(e, 1, 7) == [20]
            && Check(e, 1, 7, Insert(r)) == Done && Check(e, 1, 7, Erase(0)) == KeyNotFound
  {
    RunTwo(TWO_RECORDS, steps, Begin, Write(1, 7, Erase(1)));
    assert Next(TWO_RECORDS, Begin) == Env(map[7 := [10, 20]], [1], map[1 := Active], [], 2, 1);
    assert Next(Next(TWO_RECORDS, Begin), Write(1, 7, Erase(1))) == PARTLY_ERASED;
    OneLeft();
  }

  lemma OneLeft()
    ensures On(PARTLY_ERASED.log, 7) == [ONE_ERASED] && OwnView(PARTLY_ERASED, 1, 7) == [20]
  {
    var own := OwnOrCommitted(PARTLY_ERASED.status, 1);
    assert On(PARTLY_ERASED.log, 7) == [ONE_ERASED] by { FilterAll(OnKey(7), [ONE_ERASED]); }
    assert Filter(own, [ONE_ERASED]) == [ONE_ERASED] by { FilterAll(own, [ONE_ERASED]); }
    assert Fold([ONE_ERASED], [10, 20]) == [20] by { FoldOne(ONE_ERASED, [10, 20]); }
  }
}
