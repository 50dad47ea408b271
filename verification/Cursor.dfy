/** The cursor over both trees (4cursor/cursor_local.cc): a btree cursor and a
    transaction cursor walk their own tree, and the cursor shows the nearer of the
    two, duplicate by duplicate. The two directions share one text where the
    source only exchanges the ends; `fwd` is NEXT and FIRST. */
module Cursor {
  import opened Trees
  import opened MergeWalk
  import opened Fronts
  import opened DupLines
  import Actions

  datatype Side = Neither | Btree | Txn

  datatype LastOp = None | WentNext | WentPrevious | LookupOrInsert

  /** UPS_SKIP_DUPLICATES and UPS_ONLY_DUPLICATES. */
  datatype Mode = All | SkipDuplicates | OnlyDuplicates

  /** The fields of a LocalCursor that moves change: the btree cursor and the
      transaction cursor, -1 if nil, the latter coupled to an operation of its
      node; the last comparison; the side that is shown; the duplicate cache and
      the 1-based index in it, 0 if it is not in use. */
  datatype State = State(b: int, t: int, op: nat, lastCmp: int, side: Side, cache: seq<int>, idx: nat)

  function Sign(x: int): int { if x < 0 then -1 else if x > 0 then 1 else 0 }

  function Went(fwd: bool): LastOp { if fwd then WentNext else WentPrevious }

  function Tail<T>(s: seq<T>): seq<T> { if s == [] then [] else s[1..] }

  /** The lines of the duplicate cache at the first key of a front. */
  function LinesAt(fwd: bool, g: Front): seq<int>
    requires !Empty(g)
  {
    if TxnFirst(fwd, g) then
      Actions.ConsolidateAll(CodedOps(g.ts[0].ops), if BtreeFirst(fwd, g) then BtreeLines(|g.bs[0].recs|) else [])
    else BtreeLines(|g.bs[0].recs|)
  }

  /** Read as records, the lines of a node are what the node makes of the btree's
      records, which are not looked at if the btree cursor is elsewhere. */
  lemma NodeLines(ops: seq<Op>, recs: seq<Rec>, withBtree: bool)
    ensures var base := if withBtree then BtreeLines(|recs|) else [];
            var ls := Actions.ConsolidateAll(CodedOps(ops), base);
            && AllFit(ops, recs, ls)
            && RecsAt(ops, recs, ls) == Actions.ConsolidateAll(Acts(ops), if withBtree then recs else [])
            && (!withBtree ==> forall i :: 0 <= i < |ls| ==> ls[i] >= 0)
  {
    var base := if withBtree then BtreeLines(|recs|) else [];
    LinesAreRecords(ops, |ops|, recs, base);
    assert CodedOps(ops)[..|ops|] == CodedOps(ops) && Acts(ops)[..|ops|] == Acts(ops);
    assert RecsAt(ops, recs, base) == if withBtree then recs else [];
    if !withBtree {
      LinesAreRecords(ops, |ops|, [], []);
    }
  }

  lemma EntryLines(ops: seq<Op>, recs: seq<Rec>)
    ensures AllFit(ops, recs, BtreeLines(|recs|)) && RecsAt(ops, recs, BtreeLines(|recs|)) == recs
  {
  }

  class LocalCursor {
    const db: Database
    var c: State
    var lastOp: LastOp

    constructor (d: Database)
      ensures db == d && Valid(c) && Nil(c) && lastOp == None
    {
      db := d;
      c := State(-1, -1, 0, 0, Neither, [], 0);
      lastOp := None;
    }

    ghost predicate Valid(c: State) {
      && At(db, c.b, c.t, c.op)
      && (c.side == Btree ==> c.b >= 0) && (c.side == Txn ==> c.t >= 0)
      && (!db.dup ==> c.cache == [] && c.idx == 0)
    }

    predicate Nil(c: State) {
      c.b == -1 && c.t == -1
    }

    /** What is ahead of the two cursors. */
    ghost function Here(c: State, fwd: bool): Front
      requires Valid(c)
    {
      FrontOf(db, fwd, c.b, c.t, c.op)
    }

    ghost predicate CmpFits(c: State)
      requires Valid(c)
    {
      c.b >= 0 && c.t >= 0 ==> c.lastCmp == Sign(db.btree[c.b].key - db.nodes[c.t].key)
    }

    // ---- the single cursors ----

    method BtreeStep(fwd: bool) returns (st: Status)
      requires Valid(c) && c.b >= 0
      modifies this`c
      ensures Valid(c) && Here(c, fwd).ts == old(Here(c, fwd).ts)
      ensures st == Ok ==> c.b >= 0 && Here(c, fwd).bs == old(Here(c, fwd).bs)[1..]
      ensures st != Ok ==> st == KeyNotFound && c.b == old(c.b) && |old(Here(c, fwd).bs)| == 1
      ensures c == old(c).(b := c.b)
    {
      var n := Beside(fwd, c.b);
      assert EntriesOn(db.btree, fwd, c.b)[1..] == EntriesOn(db.btree, fwd, n);
      if 0 <= n < |db.btree| {
        c := c.(b := n);
        st := Ok;
      } else {
        st := KeyNotFound;
      }
    }

    /** TxnCursor::move(NEXT) and (PREVIOUS): nodes without an operation of the
        reader or of a committed transaction are skipped. */
    method TxnStep(fwd: bool) returns (st: Status)
      requires Valid(c) && c.t >= 0
      modifies this`c
      ensures Valid(c) && Here(c, fwd).bs == old(Here(c, fwd).bs)
      ensures st == Ok ==> c.t >= 0 && Here(c, fwd).ts == old(Here(c, fwd).ts)[1..]
      ensures st != Ok ==> st == KeyNotFound && c.t == old(c.t) && c.op == old(c.op) && |old(Here(c, fwd).ts)| == 1
      ensures c == old(c).(t := c.t, op := c.op)
    {
      var n := Beside(fwd, c.t);
      ghost var r := ItemsOn(db, fwd, n);
      while 0 <= n < |db.nodes|
        invariant -1 <= n <= |db.nodes| && ItemsOn(db, fwd, n) == r
        decreases ToGo(|db.nodes|, fwd, n)
      {
        var i := NewestMine(db.nodes[n].ops);
        if i >= 0 {
          c := c.(t := n, op := i);
          return Ok;
        }
        n := Beside(fwd, n);
      }
      st := KeyNotFound;
    }

    /** check_if_btree_key_is_erased_or_overwritten: an exact lookup with
        conflicts reported. */
    method CheckBtreeKey() returns (st: Status)
      requires Valid(c) && c.b >= 0
      ensures var n := NodeOf(db.nodes, db.btree[c.b].key); st == if n == -1 then KeyNotFound else Strict(db.nodes[n])
      ensures st == TxnConflict <==> db.btree[c.b].key in ForeignKeys(db.nodes)
    {
      var n := 0;
      while n < |db.nodes|
        invariant 0 <= n <= |db.nodes| && forall i :: 0 <= i < n ==> db.nodes[i].key != db.btree[c.b].key
      {
        if db.nodes[n].key == db.btree[c.b].key {
          NodeOfNode(db.nodes, n);
          return Strict(db.nodes[n]);
        }
        n := n + 1;
      }
      st := KeyNotFound;
    }

    // ---- single steps ----

    /** The outcome of one step over the first key of front f. */
    ghost predicate Stepped(c: State, fwd: bool, f: Front, st: Status, conflict: bool) {
      && Valid(c) && !Empty(f)
      && var g := Drop(fwd, f);
         if Empty(g) then st == KeyNotFound
         else st == Ok && Here(c, fwd) == g && (conflict <==> Jump(fwd, f, ForeignKeys(db.nodes)))
    }

    /** Both cursors have moved on, or the one that is not nil. */
    ghost predicate BothMoved(c: State, fwd: bool, f: Front, st: Status) {
      && Valid(c)
      && var g := Front(Tail(f.bs), Tail(f.ts)); if Empty(g) then st == KeyNotFound else st == Ok && Here(c, fwd) == g
    }

    /** The first part of move_next_key_singlestep, for cursors that show the same
        key, or one of which is nil. */
    method AdvanceBoth() returns (st: Status, conflict: bool)
      requires Valid(c) && !Nil(c) && c.lastCmp == 0
      modifies this`c
      ensures BothMoved(c, true, old(Here(c, true)), st) && (st == Ok && c.b == -1 ==> c.lastCmp >= 0)
      ensures st == Ok ==> (conflict <==>
              old(c.t) >= 0 && c.b >= 0 && c.t == -1 && db.btree[c.b].key in ForeignKeys(db.nodes))
      ensures c.cache == old(c.cache) && c.idx == old(c.idx)
    {
      st, conflict := Ok, false;
      if c.b >= 0 {
        var bs := BtreeStep(true);
        if bs == KeyNotFound {
          c := c.(b := -1);
          if c.t == -1 {
            c := c.(side := Neither);
            return KeyNotFound, false;
          }
          c := c.(side := Txn);
          c := c.(lastCmp := 1);
        }
      }
      if c.t >= 0 {
        var ts := TxnStep(true);
        if ts == KeyNotFound {
          if c.b == -1 {
            return KeyNotFound, false;
          }
          c := c.(t := -1);
          c := c.(side := Btree);
          c := c.(lastCmp := -1);
          var chk := CheckBtreeKey();
          conflict := chk == TxnConflict;
        }
      }
    }

    /** The btree cursor is behind and moves on. */
    method AdvanceBtree(fwd: bool) returns (conflict: bool)
      requires Valid(c) && c.b >= 0 && c.t >= 0 && Prior(fwd, db.btree[c.b].key, db.nodes[c.t].key)
      modifies this`c
      ensures Stepped(c, fwd, old(Here(c, fwd)), Ok, conflict)
      ensures c.b == -1 ==> c.lastCmp == if fwd then 1 else -1
      ensures c.cache == old(c.cache) && c.idx == old(c.idx)
    {
      BtreeMoves(fwd, Here(c, fwd), ForeignKeys(db.nodes));
      conflict := false;
      var bs := BtreeStep(fwd);
      if bs == KeyNotFound {
        c := c.(b := -1);
        c := c.(side := Txn);
        c := c.(lastCmp := if fwd then 1 else -1);
      } else {
        var chk := CheckBtreeKey();
        conflict := chk == TxnConflict;
      }
    }

    /** The transaction cursor is behind and moves on. The btree key is checked only
        going backward. */
    method AdvanceTxn(fwd: bool) returns (conflict: bool)
      requires Valid(c) && c.b >= 0 && c.t >= 0 && Prior(fwd, db.nodes[c.t].key, db.btree[c.b].key)
      modifies this`c
      ensures Stepped(c, fwd, old(Here(c, fwd)), Ok, conflict) && c.b >= 0
      ensures c.cache == old(c.cache) && c.idx == old(c.idx)
    {
      TxnMoves(fwd, Here(c, fwd), ForeignKeys(db.nodes));
      conflict := false;
      var ts := TxnStep(fwd);
      if ts == KeyNotFound {
        c := c.(t := -1);
        c := c.(side := Btree);
        c := c.(lastCmp := if fwd then -1 else 1);
        if !fwd {
          var chk := CheckBtreeKey();
          conflict := chk == TxnConflict;
        }
      }
    }

    /** The first part of move_next_key_singlestep: the cursor that is behind
        moves on, or both if they show the same key. */
    method AdvanceNext() returns (st: Status, conflict: bool)
      requires Valid(c) && !Nil(c) && CmpFits(c)
      modifies this`c
      ensures Stepped(c, true, old(Here(c, true)), st, conflict) && (st == Ok && c.b == -1 ==> c.lastCmp >= 0)
      ensures c.cache == old(c.cache) && c.idx == old(c.idx)
    {
      st, conflict := Ok, false;
      if c.b == -1 || c.t == -1 {
        c := c.(lastCmp := 0);
      }
      if c.lastCmp == 0 {
        BothMove(true, Here(c, true), ForeignKeys(db.nodes));
        st, conflict := AdvanceBoth();
      } else if c.lastCmp < 0 {
        conflict := AdvanceBtree(true);
      } else {
        conflict := AdvanceTxn(true);
      }
    }

    /** The first part of move_previous_key_singlestep. */
    method RetreatBoth() returns (st: Status)
      requires Valid(c) && !Nil(c) && c.lastCmp == 0
      modifies this`c
      ensures BothMoved(c, false, old(Here(c, false)), st) && (st == Ok && c.b == -1 ==> c.lastCmp <= 0)
      ensures c.cache == old(c.cache) && c.idx == old(c.idx)
    {
      st := Ok;
      if c.b >= 0 {
        var bs := BtreeStep(false);
        if bs == KeyNotFound {
          if c.t == -1 {
            return KeyNotFound;
          }
          c := c.(b := -1);
          c := c.(side := Txn);
          c := c.(lastCmp := -1);
        }
      }
      if c.t >= 0 {
        var ts := TxnStep(false);
        if ts == KeyNotFound {
          if c.b == -1 {
            return KeyNotFound;
          }
          c := c.(t := -1);
          c := c.(side := Btree);
          c := c.(lastCmp := 1);
        }
      }
    }

    method AdvancePrevious() returns (st: Status, conflict: bool)
      requires Valid(c) && !Nil(c) && CmpFits(c)
      modifies this`c
      ensures Stepped(c, false, old(Here(c, false)), st, conflict) && (st == Ok && c.b == -1 ==> c.lastCmp <= 0)
      ensures c.cache == old(c.cache) && c.idx == old(c.idx)
    {
      st, conflict := Ok, false;
      if c.b == -1 || c.t == -1 {
        c := c.(lastCmp := 0);
      }
      if c.lastCmp == 0 {
        BothMove(false, Here(c, false), ForeignKeys(db.nodes));
        st := RetreatBoth();
      } else if c.lastCmp > 0 {
        conflict := AdvanceBtree(false);
      } else {
        conflict := AdvanceTxn(false);
      }
    }

    // ---- the duplicate cache ----

    /** The lines of the keys that the two cursors are at. */
    ghost function Gathered(c: State, useBtree: bool, useTxn: bool): seq<int>
      requires Valid(c)
    {
      Actions.ConsolidateAll(if useTxn && c.t >= 0 then CodedOps(db.nodes[c.t].ops) else [],
                             if useBtree && c.b >= 0 then BtreeLines(|db.btree[c.b].recs|) else [])
    }

    /** update_duplicate_cache: an existing cache is kept. A btree cursor that is
        nil has been looked up before. */
    method UpdateDuplicateCache(useBtree: bool, useTxn: bool)
      requires Valid(c)
      modifies this`c
      ensures Valid(c)
      ensures c.cache == if db.dup && old(c.cache) == [] then Gathered(c, useBtree, useTxn) else old(c.cache)
      ensures c == old(c).(cache := c.cache)
    {
      if !db.dup || c.cache != [] {
        return;
      }
      if useBtree && c.b >= 0 {
        c := c.(cache := BtreeLines(|db.btree[c.b].recs|));
      }
      if useTxn && c.t >= 0 {
        var found := Actions.BuildDuplicateCache(c.cache, CodedOps(db.nodes[c.t].ops));
        c := c.(cache := found);
      }
    }

    /** The cursors have arrived at the front g and show its first key. */
    ghost predicate ArrivedAt(c: State, fwd: bool, g: Front) {
      && Valid(c) && !Empty(g) && Here(c, fwd) == g && CmpFits(c)
      && c.side == (if TxnFirst(fwd, g) then Txn else Btree)
      && (db.dup ==> c.cache == LinesAt(fwd, g))
    }

    /** The last part of the single steps: the nearer key is shown. */
    method ShowNearer(fwd: bool)
      requires Valid(c) && !Nil(c) && c.cache == [] && CmpFits(c)
      requires c.b == -1 ==> if fwd then c.lastCmp >= 0 else c.lastCmp <= 0
      modifies this`c
      ensures Valid(c) && ArrivedAt(c, fwd, old(Here(c, fwd)))
      ensures c == old(c).(side := c.side, cache := c.cache)
    {
      var cmp := if fwd then c.lastCmp else -c.lastCmp;
      if cmp < 0 || c.t == -1 {
        c := c.(side := Btree);
        UpdateDuplicateCache(true, false);
      } else if cmp > 0 || c.b == -1 {
        c := c.(side := Txn);
        UpdateDuplicateCache(false, true);
      } else {
        c := c.(side := Txn);
        UpdateDuplicateCache(true, true);
      }
    }

    /** compare: the order of the two keys is noted if both cursors are coupled. */
    method Compare()
      requires Valid(c)
      modifies this`c
      ensures Valid(c) && CmpFits(c) && c == old(c).(lastCmp := c.lastCmp)
      ensures c.b == -1 || c.t == -1 ==> c.lastCmp == old(c.lastCmp)
    {
      if c.b >= 0 && c.t >= 0 {
        c := c.(lastCmp := Sign(db.btree[c.b].key - db.nodes[c.t].key));
      }
    }

    /** One step in either direction, with the comparison that follows it. */
    method Advance(fwd: bool) returns (st: Status, conflict: bool)
      requires Valid(c) && !Nil(c) && CmpFits(c)
      modifies this`c
      ensures Stepped(c, fwd, old(Here(c, fwd)), st, conflict)
      ensures st == Ok ==> CmpFits(c) && (c.b == -1 ==> if fwd then c.lastCmp >= 0 else c.lastCmp <= 0)
      ensures c.cache == old(c.cache) && c.idx == old(c.idx)
    {
      if fwd {
        st, conflict := AdvanceNext();
      } else {
        st, conflict := AdvancePrevious();
      }
      Compare();
    }

    /** move_next_key_singlestep and move_previous_key_singlestep. */
    method MoveKeySinglestep(fwd: bool) returns (st: Status)
      requires Valid(c) && !Nil(c) && c.cache == [] && CmpFits(c)
      modifies this`c
      ensures Valid(c)
      ensures var g := Land(fwd, old(Here(c, fwd)), ForeignKeys(db.nodes));
              if Empty(g) then st == KeyNotFound else st == Ok && ArrivedAt(c, fwd, g)
      decreases Size(Here(c, fwd))
      ensures c.idx == old(c.idx)
    {
      var conflict;
      st, conflict := Advance(fwd);
      if st == KeyNotFound {
        return;
      }
      if conflict {
        st := MoveKeySinglestep(fwd);
      } else {
        ShowNearer(fwd);
      }
    }

    // ---- what the cursor shows ----

    function ShownKey(c: State): Key
      requires Valid(c) && c.side != Neither
    {
      if c.side == Btree then db.btree[c.b].key else db.nodes[c.t].key
    }

    /** The cursors can follow the lines of the cache. */
    ghost predicate Tied(c: State)
      requires Valid(c) && c.side != Neither
    {
      && AllFit(OpsOf(db.nodes, ShownKey(c)), RecsOf(db.btree, ShownKey(c)), c.cache)
      && (forall i :: 0 <= i < |c.cache| && c.cache[i] < 0 ==> c.b >= 0 && db.btree[c.b].key == ShownKey(c))
      && (forall i :: 0 <= i < |c.cache| && c.cache[i] >= 0 ==> c.t >= 0 && db.nodes[c.t].key == ShownKey(c))
    }

    /** The cursor shows a record. */
    ghost predicate Placed(c: State) {
      && Valid(c) && c.side != Neither
      && (db.dup ==> Tied(c) && 1 <= c.idx <= |c.cache| && (c.side == Btree <==> c.cache[c.idx-1] < 0))
      && (!db.dup && c.side == Txn ==> !db.nodes[c.t].ops[c.op].act.Erase?)
    }

    /** All duplicates of the key that is shown. */
    ghost function List(c: State): (ls: seq<Rec>)
      requires Placed(c)
    {
      if db.dup then RecsAt(OpsOf(db.nodes, ShownKey(c)), RecsOf(db.btree, ShownKey(c)), c.cache)
      else [if c.side == Btree then db.btree[c.b].recs[0] else db.nodes[c.t].ops[c.op].act.rec]
    }

    ghost function Place(c: State): (p: nat)
      requires Placed(c)
      ensures 1 <= p <= |List(c)|
    {
      if db.dup then c.idx else 1
    }

    ghost function Shown(c: State): Row
      requires Placed(c)
    {
      Row(ShownKey(c), Place(c), List(c)[Place(c)-1])
    }

    /** The cursor shows the records ls of the first key of g, at the near end. */
    ghost predicate Standing(c: State, fwd: bool, g: Front, ls: seq<Rec>) {
      && Placed(c) && CmpFits(c) && !Empty(g) && Here(c, fwd) == g && ShownKey(c) == Head(fwd, g)
      && List(c) == ls && Place(c) == if fwd then 1 else |ls|
    }

    /** couple_to_duplicate. */
    method CoupleToDuplicate(i: nat)
      requires Valid(c) && c.side != Neither && db.dup && Tied(c) && 1 <= i <= |c.cache|
      modifies this`c
      ensures Placed(c) && c.idx == i && ShownKey(c) == old(ShownKey(c))
      ensures forall fwd :: Here(c, fwd) == old(Here(c, fwd))
      ensures c == old(c).(side := c.side, op := c.op, idx := c.idx)
    {
      var l := c.cache[i-1];
      assert Fit(OpsOf(db.nodes, ShownKey(c)), RecsOf(db.btree, ShownKey(c)), l);
      if l < 0 {
        c := c.(side := Btree);
      } else {
        NodeOfNode(db.nodes, c.t);
        c := c.(side := Txn, op := l);
      }
      c := c.(idx := i);
    }

    // ---- moving to another key ----

    /** The cache at the key that was reached. */
    lemma CacheIsList(c: State, fwd: bool)
      requires Valid(c) && !Nil(c) && db.dup && ArrivedAt(c, fwd, Here(c, fwd))
      ensures Tied(c)
      ensures Shows(db, fwd, Here(c, fwd)) == Lines(RecsAt(OpsOf(db.nodes, ShownKey(c)),
              RecsOf(db.btree, ShownKey(c)), c.cache))
    {
      var g := Here(c, fwd);
      if c.b >= 0 {
        RecsOfEntry(db.btree, c.b);
      }
      if TxnFirst(fwd, g) {
        NodeOfNode(db.nodes, c.t);
        NodeLines(db.nodes[c.t].ops, RecsOf(db.btree, ShownKey(c)), BtreeFirst(fwd, g));
      } else {
        EntryLines(OpsOf(db.nodes, ShownKey(c)), RecsOf(db.btree, ShownKey(c)));
      }
    }

    /** move_first_duplicate and move_last_duplicate. */
    method ShowDuplicate(fwd: bool)
      requires Valid(c) && !Nil(c) && db.dup && ArrivedAt(c, fwd, Here(c, fwd)) && c.cache != []
      modifies this`c
      ensures var o := Shows(db, fwd, old(Here(c, fwd)));
              o.Lines? && o.recs != [] && Standing(c, fwd, old(Here(c, fwd)), o.recs)
    {
      CacheIsList(c, fwd);
      CoupleToDuplicate(if fwd then 1 else |c.cache|);
    }

    /** What move_next_key and move_previous_key do with the front they have
        reached. */
    ghost predicate Settled(c: State, fwd: bool, g: Front, skip: bool, st: Status) {
      && Valid(c) && !Empty(g)
      && match Shows(db, fwd, g)
         case Lines(ls) =>
           if ls == [] then skip && Here(c, fwd) == g && CmpFits(c) && c.cache == []
           else !skip && st == Ok && Standing(c, fwd, g, ls)
         case Conflict => !skip && st == TxnConflict
         case Alias => !skip
    }

    /** The tests at the end of move_next_key and move_previous_key without
        duplicates: whether the key that was reached is shown, skipped or
        refused. */
    method ShowOrSkipPlain(fwd: bool) returns (skip: bool, st: Status)
      requires Valid(c) && !Nil(c) && !db.dup && ArrivedAt(c, fwd, Here(c, fwd))
      modifies this`c
      ensures Settled(c, fwd, old(Here(c, fwd)), skip, st)
      ensures c == old(c).(side := c.side)
    {
      skip, st := false, Ok;
      if c.side == Txn {
        skip := db.nodes[c.t].ops[c.op].act.Erase?;
        return;
      }
      var chk := CheckBtreeKey();
      if chk == ErasedInTxn {
        skip := true;
      } else if chk == Ok {
        if c.t == -1 {
          st := CursorIsNil;
        } else {
          c := c.(side := Txn);
        }
      } else if chk == TxnConflict {
        st := TxnConflict;
      }
    }

    method ShowOrSkip(fwd: bool) returns (skip: bool, st: Status)
      requires Valid(c) && !Nil(c) && ArrivedAt(c, fwd, Here(c, fwd))
      modifies this`c
      ensures Settled(c, fwd, old(Here(c, fwd)), skip, st)
    {
      if !db.dup {
        skip, st := ShowOrSkipPlain(fwd);
      } else if c.cache == [] {
        CacheIsList(c, fwd);
        skip, st := true, Ok;
      } else {
        ShowDuplicate(fwd);
        skip, st := false, Ok;
      }
    }

    /** The outcome of a whole move from front f. */
    ghost predicate Moved(c: State, fwd: bool, f: Front, st: Status) {
      && Valid(c) && !Empty(f)
      && var g := Seek(db, fwd, f);
         if Empty(g) then st == KeyNotFound
         else match Shows(db, fwd, g)
              case Lines(ls) => ls != [] && st == Ok && Standing(c, fwd, g, ls)
              case Conflict => st == TxnConflict
              case Alias => true
    }

    /** One key further. */
    method NextKey(fwd: bool) returns (skip: bool, st: Status)
      requires Valid(c) && !Nil(c) && c.cache == [] && CmpFits(c)
      modifies this`c
      ensures var g := Land(fwd, old(Here(c, fwd)), ForeignKeys(db.nodes));
              if Empty(g) then Valid(c) && !skip && st == KeyNotFound else Settled(c, fwd, g, skip, st)
    {
      skip := false;
      st := MoveKeySinglestep(fwd);
      if st == Ok {
        skip, st := ShowOrSkip(fwd);
      }
    }

    ghost predicate OnTheWay(c: State, fwd: bool, f: Front) {
      && Valid(c) && !Nil(c) && c.cache == [] && CmpFits(c) && !Empty(f)
      && Seek(db, fwd, Here(c, fwd)) == Seek(db, fwd, f)
    }

    /** One turn of the loop in move_next_key and move_previous_key. */
    method SeekOn(fwd: bool, ghost f: Front) returns (skip: bool, st: Status)
      requires OnTheWay(c, fwd, f)
      modifies this`c
      ensures if skip then OnTheWay(c, fwd, f) && Size(Here(c, fwd)) < old(Size(Here(c, fwd))) else Moved(c, fwd, f, st)
    {
      SeekLand(db, fwd, Here(c, fwd));
      skip, st := NextKey(fwd);
    }

    /** move_next_key and move_previous_key, from the last duplicate of a key on:
        single steps until a key is shown. */
    method MoveKey(fwd: bool) returns (st: Status)
      requires Valid(c) && !Nil(c) && CmpFits(c)
      modifies this`c
      ensures Moved(c, fwd, old(Here(c, fwd)), st)
    {
      var cache0, idx0 := c.cache, c.idx;
      c := c.(cache := [], idx := 0);
      var skip := true;
      st := Ok;
      while skip
        invariant if skip then OnTheWay(c, fwd, old(Here(c, fwd))) else Moved(c, fwd, old(Here(c, fwd)), st)
        decreases skip, if skip then Size(Here(c, fwd)) else 0
      {
        skip, st := SeekOn(fwd, old(Here(c, fwd)));
      }
      if st != Ok {
        c := c.(cache := cache0, idx := idx0);
      }
    }

    // ---- what is still to come ----

    ghost function Stand(c: State, fwd: bool): Spot
      requires Placed(c)
    {
      Spot(Here(c, fwd), ShownKey(c), List(c), Place(c))
    }

    /** The row that is shown and those that moves in this direction will show. */
    ghost function Outlook(c: State, fwd: bool): Trip {
      if Placed(c) && CmpFits(c) then Lead(db, fwd, Stand(c, fwd)) else Trip([], Ok)
    }

    // ---- first and last ----

    /** Both cursors go to the end of their trees. */
    method ToEdges(fwd: bool)
      requires Valid(c) && c.cache == []
      modifies this`c
      ensures Valid(c) && CmpFits(c) && Here(c, fwd) == StartFront(db, fwd) && c.cache == [] && c.idx == old(c.idx)
      ensures c.b == Edge(|db.btree|, fwd) && c.t == Edge(|db.nodes|, fwd) && (c.b == -1 ==> c.lastCmp == 0)
    {
      var t := Edge(|db.nodes|, fwd);
      var op := if t == -1 then 0 else |db.nodes[t].ops| - 1;
      c := State(Edge(|db.btree|, fwd), t, op, 0, Neither, [], c.idx);
      Compare();
    }

    /** move_first_key_singlestep and move_last_key_singlestep. */
    method EdgeSinglestep(fwd: bool) returns (st: Status)
      requires Valid(c) && c.cache == []
      modifies this`c
      ensures Valid(c)
      ensures var f := StartFront(db, fwd);
              if Empty(f) then st == KeyNotFound
              else if TxnFirst(fwd, f) && ForeignEdge(db, fwd) then st == TxnConflict
              else st == Ok && ArrivedAt(c, fwd, f)
      ensures c.idx == old(c.idx)
    {
      ToEdges(fwd);
      if c.b == -1 && c.t == -1 {
        return KeyNotFound;
      }
      if c.t >= 0 && Foreign(db.nodes[c.t]) && (c.b == -1 || !Prior(fwd, db.btree[c.b].key, db.nodes[c.t].key)) {
        return TxnConflict;
      }
      ShowNearer(fwd);
      st := Ok;
    }

    lemma ShownAtEdge(c: State, fwd: bool, f: Front, st: Status)
      requires Settled(c, fwd, f, false, st)
      ensures var e := Arrival(db, fwd, f);
              if e.rows == [] then st == e.st || e.st == CursorIsNil
              else st == Ok && Outlook(c, fwd) == e && Stand(c, fwd) == SpotAfter(db, fwd, f)
    {
      ArrivalLeads(db, fwd, f);
      if Shows(db, fwd, f).Lines? {
        assert Stand(c, fwd) == SpotAfter(db, fwd, f);
      }
    }

    /** The second part of move_first_key and move_last_key: the outermost key is
        shown, or the first one after it. */
    method ShowEdge(fwd: bool, ghost f: Front) returns (st: Status)
      requires Valid(c) && !Nil(c) && ArrivedAt(c, fwd, f)
      modifies this
      ensures Valid(c) && (st == Ok ==> lastOp == None)
      ensures var e := Arrival(db, fwd, f);
              if e.rows == [] then st == e.st || e.st == CursorIsNil
              else st == Ok && Outlook(c, fwd) == e && Stand(c, fwd) == FirstSpot(db, fwd, f)
    {
      var skip;
      skip, st := ShowOrSkip(fwd);
      if skip {
        NothingToShow(db, fwd, f);
        st := MoveOnFrom(fwd, None, f);
      } else {
        if st == Ok {
          lastOp := None;
        }
        ShownAtEdge(c, fwd, f, st);
      }
    }

    /** move_first_key and move_last_key. */
    method MoveEdgeKey(fwd: bool) returns (st: Status)
      requires Valid(c) && c.cache == []
      modifies this
      ensures Valid(c) && (st == Ok ==> lastOp == None)
      ensures var e := StartTrip(db, fwd);
              if e.rows == [] then st == e.st || e.st == CursorIsNil
              else st == Ok && Outlook(c, fwd) == e && Stand(c, fwd) == FirstSpot(db, fwd, StartFront(db, fwd))
    {
      st := EdgeSinglestep(fwd);
      if st == Ok {
        st := ShowEdge(fwd, StartFront(db, fwd));
      }
    }

    /** A move to another key from front f. */
    method MoveOnFrom(fwd: bool, last: LastOp, ghost f: Front) returns (st: Status)
      requires Valid(c) && !Nil(c) && CmpFits(c) && Here(c, fwd) == f
      modifies this
      ensures Valid(c) && (st == Ok ==> lastOp == last)
      ensures var e := Trail(db, fwd, f);
              if e.rows == [] then st == e.st || e.st == CursorIsNil
              else st == Ok && Outlook(c, fwd) == e && Stand(c, fwd) == SpotAfter(db, fwd, Seek(db, fwd, f))
    {
      st := MoveKey(fwd);
      if st == Ok {
        lastOp := last;
      }
      SeekLeads(db, fwd, f);
      ghost var g := Seek(db, fwd, f);
      if !Empty(g) && Shows(db, fwd, g).Lines? {
        assert Stand(c, fwd) == SpotAfter(db, fwd, g);
      }
    }

    // ---- changing direction ----

    /** The next move in this direction looks up the idle cursor again first. */
    predicate NeedsSync(fwd: bool)
      reads this`lastOp
    {
      lastOp == LookupOrInsert || lastOp == Went(!fwd)
    }

    /** The front from which the next move in this direction starts. */
    ghost function Prepared(c: State, fwd: bool): Front
      requires Valid(c) && c.side != Neither
      reads this`lastOp
    {
      if !NeedsSync(fwd) then Here(c, fwd)
      else if c.side == Txn then FrontOf(db, fwd, EntryAt(db.btree, fwd, db.nodes[c.t].key), c.t, c.op)
      else SyncFront(db, fwd, c.b)
    }

    /** The duplicates of the key shown, as the next move will find them. */
    ghost function PreparedList(c: State, fwd: bool): seq<Rec>
      requires Placed(c)
      reads this`lastOp
    {
      if !NeedsSync(fwd) || c.side == Txn || !db.dup then List(c) else SyncList(db, fwd, c.b)
    }

    method BtreeFind(fwd: bool, x: Key) returns (i: int)
      requires Valid(c)
      ensures i == EntryAt(db.btree, fwd, x)
    {
      i := if fwd then 0 else |db.btree| - 1;
      while 0 <= i < |db.btree| && Prior(fwd, db.btree[i].key, x)
        invariant if fwd then 0 <= i <= |db.btree| else -1 <= i < |db.btree|
        invariant EntrySearch(db.btree, fwd, x, i) == EntryAt(db.btree, fwd, x)
        decreases ToGo(|db.btree|, fwd, i)
      {
        i := Beside(fwd, i);
      }
      if i == |db.btree| {
        i := -1;
      }
    }

    /** TxnCursor::find with an approximate match. */
    method TxnFind(fwd: bool, x: Key) returns (last: int)
      requires Valid(c)
      ensures last == NodeAt(db, fwd, x)
    {
      last := -1;
      var n := if fwd then 0 else |db.nodes| - 1;
      while 0 <= n < |db.nodes|
        invariant -1 <= last < |db.nodes|
        invariant if fwd then 0 <= n <= |db.nodes| else -1 <= n < |db.nodes|
        invariant Located(db, fwd, x, n, last) == NodeAt(db, fwd, x)
        decreases ToGo(|db.nodes|, fwd, n)
      {
        if !Prior(fwd, db.nodes[n].key, x) {
          last := n;
          if Strict(db.nodes[n]) != ErasedInTxn {
            return;
          }
        }
        n := Beside(fwd, n);
      }
    }

    /** The cursors are ready to go on from this spot, where the index need not be
        within the duplicates any more. */
    ghost predicate Ready(c: State, fwd: bool, s: Spot) {
      && Valid(c) && !Nil(c) && CmpFits(c) && c.side != Neither && !Empty(s.front)
      && Here(c, fwd) == s.front && ShownKey(c) == s.key
      && (if db.dup then Tied(c) && s.pos == c.idx > 0 &&
        s.list == RecsAt(OpsOf(db.nodes, s.key), RecsOf(db.btree, s.key), c.cache)
          else s.pos == |s.list| == 1)
    }

    /** The part of synchronize that looks up the btree cursor. */
    method SynchronizeBtree(fwd: bool, ghost s: Spot)
      requires Placed(c) && c.side == Txn && NeedsSync(fwd) && s == Start(c, fwd)
      modifies this`c
      ensures Ready(c, fwd, s)
    {
      var found := BtreeFind(fwd, db.nodes[c.t].key);
      c := c.(b := found);
      if c.b >= 0 {
        c := c.(lastCmp := Sign(db.btree[c.b].key - db.nodes[c.t].key));
      }
      BtreeSynced(old(c), c, fwd, s);
    }

    /** The state d after the btree cursor has been looked up from state c. */
    lemma BtreeSynced(c: State, d: State, fwd: bool, s: Spot)
      requires Placed(c) && c.side == Txn
      requires d == c.(b := EntryAt(db.btree, fwd, db.nodes[c.t].key), lastCmp := d.lastCmp) && CmpFits(d)
      requires s == Spot(FrontOf(db, fwd, d.b, c.t, c.op), ShownKey(c), List(c), Place(c))
      ensures Ready(d, fwd, s)
    {
      if c.b >= 0 && db.btree[c.b].key == ShownKey(c) {
        EntryFound(db, fwd, c.b);
      }
    }

    /** The cache that is rebuilt for the btree key shown. */
    lemma RebuiltList(c: State)
      requires Valid(c) && c.side == Btree && db.dup
      requires c.cache == Gathered(c, true, c.t >= 0 && db.nodes[c.t].key == db.btree[c.b].key)
      ensures Tied(c)
      ensures RecsAt(OpsOf(db.nodes, ShownKey(c)), RecsOf(db.btree, ShownKey(c)), c.cache) ==
              if c.t >= 0 && db.nodes[c.t].key == db.btree[c.b].key then
                Actions.ConsolidateAll(Acts(db.nodes[c.t].ops), db.btree[c.b].recs)
              else db.btree[c.b].recs
    {
      RecsOfEntry(db.btree, c.b);
      if c.t >= 0 && db.nodes[c.t].key == db.btree[c.b].key {
        NodeOfNode(db.nodes, c.t);
        NodeLines(db.nodes[c.t].ops, db.btree[c.b].recs, true);
      } else {
        EntryLines(OpsOf(db.nodes, ShownKey(c)), db.btree[c.b].recs);
      }
    }

    /** The state d after the transaction cursor has been looked up from state c. */
    lemma TxnSynced(c: State, d: State, fwd: bool, s: Spot)
      requires Placed(c) && c.side == Btree
      requires s == Spot(SyncFront(db, fwd, c.b), ShownKey(c),
                         if db.dup then SyncList(db, fwd, c.b) else List(c), Place(c))
      requires d == c.(t := d.t, op := d.op, lastCmp := d.lastCmp, cache := d.cache)
      requires Valid(d) && CmpFits(d) && d.t == NodeAt(db, fwd, db.btree[c.b].key) &&
               (d.t >= 0 ==> d.op == |db.nodes[d.t].ops| - 1)
      requires d.cache == if db.dup then Gathered(d, true, d.t >= 0 && db.nodes[d.t].key == db.btree[d.b].key) else []
      ensures Ready(d, fwd, s)
    {
      if db.dup {
        RebuiltList(d);
      }
    }

    /** The part of synchronize that looks up the transaction cursor. It works on a
        clone, and cloning a cursor empties its duplicate cache. */
    method SynchronizeTxn(fwd: bool, ghost s: Spot)
      requires Placed(c) && c.side == Btree && NeedsSync(fwd) && s == Start(c, fwd)
      modifies this`c
      ensures Ready(c, fwd, s)
    {
      FindTxn(fwd);
      UpdateDuplicateCache(true, c.lastCmp == 0);
      TxnSynced(old(c), c, fwd, s);
    }

    method FindTxn(fwd: bool)
      requires Valid(c) && c.side == Btree
      modifies this`c
      ensures c == old(c).(t := c.t, op := c.op, lastCmp := c.lastCmp, cache := [])
      ensures Valid(c) && CmpFits(c) && c.cache == [] && c.t == NodeAt(db, fwd, db.btree[c.b].key)
      ensures c.t >= 0 ==> c.op == |db.nodes[c.t].ops| - 1
    {
      c := c.(cache := []);
      var found := TxnFind(fwd, db.btree[c.b].key);
      c := c.(t := found);
      if c.t >= 0 {
        c := c.(op := |db.nodes[c.t].ops| - 1);
        c := c.(lastCmp := Sign(db.btree[c.b].key - db.nodes[c.t].key));
      }
    }

    // ---- ups_cursor_move ----

    /** FIRST and LAST. */
    method MoveEdge(fwd: bool) returns (st: Status)
      requires Valid(c)
      modifies this
      ensures Valid(c) && (st == Ok ==> lastOp == None)
      ensures var e := StartTrip(db, fwd);
              if e.rows == [] then st == e.st || e.st == CursorIsNil
              else st == Ok && Outlook(c, fwd) == e && Stand(c, fwd) == FirstSpot(db, fwd, StartFront(db, fwd))
    {
      var cache0, idx0 := c.cache, c.idx;
      c := c.(cache := [], idx := 0);
      st := MoveEdgeKey(fwd);
      if st != Ok {
        c := c.(cache := cache0, idx := idx0);
      }
    }

    /** Where the next move in this direction starts. */
    ghost function Start(c: State, fwd: bool): Spot
      requires Placed(c)
      reads this`lastOp
    {
      Spot(Prepared(c, fwd), ShownKey(c), PreparedList(c, fwd), Place(c))
    }

    /** What the next moves in this direction show. A nil cursor starts at the
        edge. */
    ghost function Expect(c: State, fwd: bool, mode: Mode): Trip
      requires Valid(c) && (Nil(c) || Placed(c))
      reads this`lastOp
    {
      if Nil(c) then StartTrip(db, fwd) else ExpectAt(fwd, mode, Start(c, fwd))
    }

    /** The preparation in LocalCursor::move. */
    method Prepare(fwd: bool, ghost s: Spot)
      requires Placed(c) && (NeedsSync(fwd) || CmpFits(c)) && s == Start(c, fwd)
      modifies this`c
      ensures Ready(c, fwd, s)
    {
      if NeedsSync(fwd) {
        if c.side == Txn {
          SynchronizeBtree(fwd, s);
        } else {
          SynchronizeTxn(fwd, s);
        }
      }
    }

    /** A move to another duplicate of the key. */
    method MoveDuplicate(fwd: bool, ghost s: Spot)
      requires Ready(c, fwd, s) && db.dup && if fwd then c.idx < |c.cache| else 1 < c.idx <= |c.cache| + 1
      modifies this`c
      ensures Placed(c) && CmpFits(c) && Stand(c, fwd) == s.(pos := if fwd then s.pos + 1 else s.pos - 1)
    {
      CoupleToDuplicate(if fwd then c.idx + 1 else c.idx - 1);
    }

    /** What is expected if there is another duplicate in the direction. */
    lemma DuplicateExpected(c: State, fwd: bool, mode: Mode, s: Spot)
      requires Ready(c, fwd, s) && db.dup && mode != SkipDuplicates
      requires if fwd then c.idx < |c.cache| else 1 < c.idx <= |c.cache| + 1
      ensures var next := s.(pos := if fwd then s.pos + 1 else s.pos - 1);
              Arrives(db, fwd, mode, s) == next && ExpectAt(fwd, mode, s) == Lead(db, fwd, next)
    {
      RestEmpty(db, fwd, s);
      RestLeads(db, fwd, s);
    }

    /** What is expected if there is none. */
    lemma NoneExpected(c: State, fwd: bool, mode: Mode, s: Spot)
      requires Ready(c, fwd, s)
      requires mode == SkipDuplicates || c.idx == 0 || if fwd then c.idx >= |c.cache| else c.idx <= 1
      ensures ExpectAt(fwd, mode, s) ==
              if mode == OnlyDuplicates && c.idx > 0 then Trip([], KeyNotFound) else Trail(db, fwd, s.front)
      ensures Arrives(db, fwd, mode, s) == SpotAfter(db, fwd, Seek(db, fwd, s.front))
    {
      RestEmpty(db, fwd, s);
    }

    /** The part of a move that follows the preparation. */
    method MoveReady(fwd: bool, mode: Mode, ghost s: Spot) returns (st: Status)
      requires Ready(c, fwd, s) && (db.dup && !fwd && c.idx > 1 ==> c.idx - 1 <= |s.list|)
      modifies this
      ensures Valid(c) && (st == Ok ==> lastOp == Went(fwd))
      ensures var e := ExpectAt(fwd, mode, s);
              if e.rows == [] then st == e.st || e.st == CursorIsNil
              else st == Ok && Outlook(c, fwd) == e && Stand(c, fwd) == Arrives(db, fwd, mode, s)
    {
      if c.idx > 0 && mode != SkipDuplicates {
        if if fwd then c.idx < |c.cache| else c.idx > 1 {
          DuplicateExpected(c, fwd, mode, s);
          MoveDuplicate(fwd, s);
          lastOp := Went(fwd);
          return Ok;
        }
        NoneExpected(c, fwd, mode, s);
        if mode == OnlyDuplicates {
          return KeyNotFound;
        }
      }
      NoneExpected(c, fwd, mode, s);
      st := MoveOnFrom(fwd, Went(fwd), s.front);
    }

    /** The rows expected from a spot. */
    ghost function ExpectAt(fwd: bool, mode: Mode, s: Spot): Trip
      requires !Empty(s.front)
    {
      if mode == SkipDuplicates then Trail(db, fwd, s.front)
      else if mode == OnlyDuplicates && db.dup && Rest(fwd, s.key, s.list, s.pos) == [] then Trip([], KeyNotFound)
      else Coming(db, fwd, s)
    }

    /** LocalCursor::move. */
    method MovePlaced(fwd: bool, mode: Mode, ghost s: Spot) returns (st: Status)
      requires Placed(c) && (NeedsSync(fwd) || CmpFits(c)) && s == Start(c, fwd)
      requires db.dup && !fwd && c.idx > 1 ==> c.idx - 1 <= |s.list|
      modifies this
      ensures Valid(c) && (st == Ok ==> lastOp == Went(fwd))
      ensures var e := ExpectAt(fwd, mode, s);
              if e.rows == [] then st == e.st || e.st == CursorIsNil
              else st == Ok && Outlook(c, fwd) == e && Stand(c, fwd) == Arrives(db, fwd, mode, s)
    {
      Prepare(fwd, s);
      st := MoveReady(fwd, mode, s);
    }

    /** ups_cursor_move with NEXT or PREVIOUS, for any two trees: it shows the next
        of the rows that are expected in this direction. Going backward the source
        asserts that the index is still within the duplicates it finds. */
    method Move(fwd: bool, mode: Mode) returns (st: Status)
      requires Valid(c) && (Nil(c) || (Placed(c) && (NeedsSync(fwd) || CmpFits(c))))
      requires !Nil(c) && db.dup && !fwd && c.idx > 1 ==> c.idx - 1 <= |PreparedList(c, fwd)|
      modifies this
      ensures Valid(c) && (st == Ok ==> lastOp == if old(Nil(c)) then None else Went(fwd))
      ensures var e := old(Expect(c, fwd, mode));
              if e.rows == [] then st == e.st || e.st == CursorIsNil
              else st == Ok && Outlook(c, fwd) == e
      ensures old(!Nil(c)) && old(Expect(c, fwd, mode)).rows != [] ==>
              Stand(c, fwd) == Arrives(db, fwd, mode, old(Start(c, fwd)))
      ensures old(Nil(c)) && StartTrip(db, fwd).rows != [] ==>
              Stand(c, fwd) == FirstSpot(db, fwd, StartFront(db, fwd))
    {
      if Nil(c) {
        st := MoveEdge(fwd);
      } else {
        st := MovePlaced(fwd, mode, Start(c, fwd));
      }
    }

    // ---- ups_cursor_find ----

    /** The duplicate cache after a lookup that has coupled the transaction cursor
        to node n: the btree cursor is looked up for the same key. */
    method GatherDuplicates(n: nat)
      requires db.dup && n < |db.nodes|
      requires c == State(-1, n, |db.nodes[n].ops| - 1, c.lastCmp, Txn, [], 0)
      modifies this`c
      ensures Valid(c) && c.side == Txn && c.t == n && c.op == |db.nodes[n].ops| - 1 && Tied(c)
      ensures RecsAt(OpsOf(db.nodes, db.nodes[n].key), RecsOf(db.btree, db.nodes[n].key), c.cache) ==
              View(db, db.nodes[n].key)
    {
      ghost var x := db.nodes[n].key;
      var b := BtreeFind(true, db.nodes[n].key);
      EntryExact(db, x);
      NodeOfNode(db.nodes, n);
      if b >= 0 && db.btree[b].key == db.nodes[n].key {
        c := c.(b := b);
        RecsOfEntry(db.btree, b);
      }
      UpdateDuplicateCache(true, true);
      NodeLines(db.nodes[n].ops, RecsOf(db.btree, x), c.b >= 0);
    }

    method ShowFirst(x: Key) returns (st: Status)
      requires Valid(c) && c.side != Neither && db.dup && Tied(c) && ShownKey(c) == x
      requires RecsAt(OpsOf(db.nodes, x), RecsOf(db.btree, x), c.cache) == View(db, x)
      modifies this`c
      ensures Valid(c) && (st == Ok <==> View(db, x) != []) && (st != Ok ==> st == KeyNotFound)
      ensures st == Ok ==> Placed(c) && ShownKey(c) == x && List(c) == View(db, x) && Place(c) == 1
    {
      if c.cache == [] {
        return KeyNotFound;
      }
      CoupleToDuplicate(1);
      st := Ok;
    }

    /** find_txn with an exact match, for a key that has a node. */
    method FindNode(n: nat) returns (st: Status)
      requires n < |db.nodes| && InRangeNode(db, n)
      modifies this`c
      ensures var x := db.nodes[n].key;
              && (st == TxnConflict <==> Foreign(db.nodes[n]))
              && (st == Ok <==> !Foreign(db.nodes[n]) && View(db, x) != [])
              && (st == Ok ==> Placed(c) && ShownKey(c) == x && List(c) == View(db, x) && Place(c) == 1)
              && (st == Ok && c.side == Txn && !db.dup ==> c.op == |db.nodes[c.t].ops| - 1)
      ensures Valid(c) && (st == Ok || st == KeyNotFound || st == TxnConflict)
    {
      c := State(-1, -1, 0, c.lastCmp, Neither, [], 0);
      NodeOfNode(db.nodes, n);
      var last := |db.nodes[n].ops| - 1;
      if !db.nodes[n].ops[last].mine {
        return TxnConflict;
      }
      var act := db.nodes[n].ops[last].act;
      if act.Erase? && act.ref == 0 {
        ErasedViewEmpty(db.dup, db.nodes[n], RecsOf(db.btree, db.nodes[n].key));
        return KeyNotFound;
      }
      c := c.(t := n, op := last, side := Txn);
      if db.dup {
        GatherDuplicates(n);
        st := ShowFirst(db.nodes[n].key);
      } else {
        st := Ok;
      }
    }

    /** ups_cursor_find with an exact match: a conflict exactly if another open
        transaction was the last to write the key, and otherwise success exactly if
        the key is in the view; the cursor is then at its first duplicate. */
    method Lookup(x: Key) returns (st: Status)
      requires NodeOf(db.nodes, x) == -1 || InRangeNode(db, NodeOf(db.nodes, x))
      modifies this
      ensures Valid(c)
      ensures st == TxnConflict <==> x in ForeignKeys(db.nodes)
      ensures st == Ok <==> x !in ForeignKeys(db.nodes) && View(db, x) != []
      ensures st == Ok ==> Placed(c) && Shown(c) == Row(x, 1, View(db, x)[0]) && List(c) == View(db, x)
      ensures st == Ok ==> lastOp == LookupOrInsert
      ensures st == Ok && c.side == Txn && !db.dup ==> c.op == |db.nodes[c.t].ops| - 1
    {
      var n := NodeOf(db.nodes, x);
      ForeignExact(db, x);
      if n >= 0 {
        st := FindNode(n);
      } else {
        st := FindEntry(x);
      }
      if st == Ok {
        lastOp := LookupOrInsert;
      }
    }

    /** find_txn for a key without a node. */
    method FindEntry(x: Key) returns (st: Status)
      requires NodeOf(db.nodes, x) == -1
      modifies this`c
      ensures Valid(c) && (st == Ok <==> View(db, x) != []) && (st != Ok ==> st == KeyNotFound)
      ensures st == Ok ==> Placed(c) && c.side == Btree && ShownKey(c) == x && List(c) == View(db, x) && Place(c) == 1
    {
      c := State(-1, -1, 0, c.lastCmp, Neither, [], 0);
      var b := BtreeFind(true, x);
      EntryExact(db, x);
      if b == -1 || db.btree[b].key != x {
        return KeyNotFound;
      }
      RecsOfEntry(db.btree, b);
      c := c.(b := b, side := Btree);
      if db.dup {
        UpdateDuplicateCache(true, false);
        EntryLines(OpsOf(db.nodes, x), RecsOf(db.btree, x));
        st := ShowFirst(x);
      } else {
        st := Ok;
      }
    }

    /** What the line of the cursor leads to. */
    lemma LineShown(c: State)
      requires Placed(c) && db.dup
      ensures var x, l := ShownKey(c), c.cache[c.idx-1];
              && Fit(OpsOf(db.nodes, x), RecsOf(db.btree, x), l)
              && Shown(c) == Row(x, c.idx, RecOf(OpsOf(db.nodes, x), RecsOf(db.btree, x), l))
    {
      LineLeads(OpsOf(db.nodes, ShownKey(c)), RecsOf(db.btree, ShownKey(c)), c.cache, c.idx - 1);
    }

    /** The records and operations of the key that is shown. */
    lemma ShownTrees(c: State)
      requires Valid(c) && c.side != Neither
      ensures c.side == Btree ==> RecsOf(db.btree, ShownKey(c)) == db.btree[c.b].recs
      ensures c.side == Txn ==> OpsOf(db.nodes, ShownKey(c)) == db.nodes[c.t].ops
    {
      if c.side == Btree {
        RecsOfEntry(db.btree, c.b);
      } else {
        NodeOfNode(db.nodes, c.t);
      }
    }

    /** The record that the line of the cursor leads to. */
    lemma DuplicateShown(c: State)
      requires Placed(c) && db.dup
      ensures var l := c.cache[c.idx-1];
              if c.side == Btree then
                0 <= -1-l < |db.btree[c.b].recs| && Shown(c) == Row(db.btree[c.b].key, c.idx, db.btree[c.b].recs[-1-l])
              else
                && 0 <= l < |db.nodes[c.t].ops| && !db.nodes[c.t].ops[l].act.Erase?
                && Shown(c) == Row(db.nodes[c.t].key, c.idx, db.nodes[c.t].ops[l].act.rec)
    {
      LineShown(c);
      ShownTrees(c);
    }

    lemma RowOfSpot(c: State, f: Front)
      requires Placed(c)
      ensures RowAt(Spot(f, ShownKey(c), List(c), Place(c))) == Shown(c)
    {
    }

    lemma PlainShown(c: State)
      requires Placed(c) && !db.dup
      ensures if c.side == Btree then
                db.btree[c.b].recs != [] && Shown(c) == Row(db.btree[c.b].key, 1, db.btree[c.b].recs[0])
              else
                && !db.nodes[c.t].ops[c.op].act.Erase?
                && Shown(c) == Row(db.nodes[c.t].key, 1, db.nodes[c.t].ops[c.op].act.rec)
    {
      if c.side == Btree {
        assert |db.btree[c.b].recs| == 1;
      }
    }

    /** ups_cursor_move without a direction: the key and the record. */
    method Read() returns (r: Row)
      requires Placed(c)
      ensures r == Shown(c)
    {
      if db.dup {
        r := ReadDuplicate();
      } else {
        r := ReadPlain();
      }
    }

    method ReadDuplicate() returns (r: Row)
      requires Placed(c) && db.dup
      ensures r == Shown(c)
    {
      DuplicateShown(c);
      var l := c.cache[c.idx-1];
      if c.side == Btree {
        r := Row(db.btree[c.b].key, c.idx, db.btree[c.b].recs[-1-l]);
      } else {
        r := Row(db.nodes[c.t].key, c.idx, db.nodes[c.t].ops[l].act.rec);
      }
    }

    method ReadPlain() returns (r: Row)
      requires Placed(c) && !db.dup
      ensures r == Shown(c)
    {
      PlainShown(c);
      if c.side == Btree {
        r := Row(db.btree[c.b].key, 1, db.btree[c.b].recs[0]);
      } else {
        r := Row(db.nodes[c.t].key, 1, db.nodes[c.t].ops[c.op].act.rec);
      }
    }

    /** The next move in the same direction starts where the cursor stands. */
    lemma GoesOn(c: State, fwd: bool)
      requires Placed(c) && !NeedsSync(fwd)
      ensures Start(c, fwd) == Stand(c, fwd) && (db.dup ==> c.idx <= |Stand(c, fwd).list|)
      ensures ExpectAt(fwd, All, Stand(c, fwd)) == Coming(db, fwd, Stand(c, fwd))
    {
    }

    /** Another move in the same direction. */
    method MoveAgain(fwd: bool) returns (st: Status)
      requires Placed(c) && CmpFits(c) && (lastOp == Went(fwd) || lastOp == None)
      modifies this
      ensures Valid(c) && (st == Ok ==> lastOp == Went(fwd))
      ensures var e := old(Coming(db, fwd, Stand(c, fwd)));
              if e.rows == [] then st == e.st || e.st == CursorIsNil else st == Ok && Outlook(c, fwd) == e
    {
      GoesOn(c, fwd);
      st := MovePlaced(fwd, All, Stand(c, fwd));
    }

    /** All moves in one direction until one fails. */
    method MoveOn(fwd: bool) returns (rows: seq<Row>, st: Status)
      requires Valid(c) && (Nil(c) || (Placed(c) && (NeedsSync(fwd) || CmpFits(c))))
      requires !Nil(c) && db.dup && !fwd && c.idx > 1 ==> c.idx - 1 <= |PreparedList(c, fwd)|
      requires Expect(c, fwd, All).st != CursorIsNil && Expect(c, fwd, All).st != Ok
      modifies this
      ensures Trip(rows, st) == old(Expect(c, fwd, All))
    {
      ghost var e := Expect(c, fwd, All);
      st := Move(fwd, All);
      rows := [];
      if st == Ok {
        rows, st := ReadOn(fwd, e);
      }
    }

    /** The row that is shown is the first of those that lie ahead. */
    lemma OutlookBegins(c: State, fwd: bool)
      requires Outlook(c, fwd).rows != []
      ensures Placed(c) && CmpFits(c)
      ensures var more := Coming(db, fwd, Stand(c, fwd)); Outlook(c, fwd) == Trip([Shown(c)] + more.rows, more.st)
    {
      RowOfSpot(c, Here(c, fwd));
    }

    /** The row that is shown and all that follow. */
    method ReadOn(fwd: bool, ghost e: Trip) returns (rows: seq<Row>, st: Status)
      requires Outlook(c, fwd) == e && e.rows != [] && e.st != CursorIsNil && e.st != Ok
      requires lastOp == Went(fwd) || lastOp == None
      modifies this
      ensures rows == e.rows && st == e.st
      decreases |e.rows|
    {
      OutlookBegins(c, fwd);
      ghost var more := Coming(db, fwd, Stand(c, fwd));
      var r := Read();
      st := MoveAgain(fwd);
      rows := [r];
      if st == Ok {
        var rest;
        rest, st := ReadOn(fwd, more);
        rows := rows + rest;
      }
    }
  }

  /** Where a cursor stands: what is ahead of it, and a position among the
      duplicates of a key. */
  datatype Spot = Spot(front: Front, key: Key, list: seq<Rec>, pos: nat)

  const NOWHERE := Spot(Front([], []), 0, [], 0)

  function RowAt(s: Spot): Row { Row(s.key, s.pos, if 1 <= s.pos <= |s.list| then s.list[s.pos-1] else 0) }

  /** What moves from a spot show. */
  function Coming(db: Db, fwd: bool, s: Spot): Trip
    requires !Empty(s.front)
  {
    var trail := Trail(db, fwd, s.front); Trip(Rest(fwd, s.key, s.list, s.pos) + trail.rows, trail.st)
  }

  /** The row of a spot and all that follow. */
  function Lead(db: Db, fwd: bool, s: Spot): Trip
    requires !Empty(s.front)
  {
    Trip([RowAt(s)] + Coming(db, fwd, s).rows, Coming(db, fwd, s).st)
  }

  /** The near end of the duplicates that a front shows. */
  function SpotAfter(db: Db, fwd: bool, g: Front): Spot {
    if Empty(g) || !Shows(db, fwd, g).Lines? then NOWHERE
    else var ls := Shows(db, fwd, g).recs; Spot(g, Head(fwd, g), ls, if fwd then 1 else |ls|)
  }

  /** Where a move from a spot arrives, if there is something to show. */
  function Arrives(db: Db, fwd: bool, mode: Mode, s: Spot): Spot
    requires !Empty(s.front)
  {
    if mode == SkipDuplicates || Rest(fwd, s.key, s.list, s.pos) == [] then SpotAfter(db, fwd, Seek(db, fwd, s.front))
    else s.(pos := if fwd || s.pos == 0 then s.pos + 1 else s.pos - 1)
  }

  /** The first spot of a walk that begins at a front. */
  function FirstSpot(db: Db, fwd: bool, f: Front): Spot {
    if !Empty(f) && Shows(db, fwd, f) == Lines([]) then SpotAfter(db, fwd, Seek(db, fwd, f)) else SpotAfter(db, fwd, f)
  }

  lemma RowsLead(fwd: bool, x: Key, ls: seq<Rec>)
    requires ls != []
    ensures var p := if fwd then 1 else |ls|; RowsOf(fwd, x, ls) == [Row(x, p, ls[p-1])] + Rest(fwd, x, ls, p)
  {
  }

  lemma ArrivalLeads(db: Db, fwd: bool, g: Front)
    requires !Empty(g) && Shows(db, fwd, g) != Lines([])
    ensures Shows(db, fwd, g).Lines? ==> Lead(db, fwd, SpotAfter(db, fwd, g)) == Arrival(db, fwd, g)
    ensures !Shows(db, fwd, g).Lines? ==> Arrival(db, fwd, g).rows == []
  {
    if Shows(db, fwd, g).Lines? {
      var x, ls, rest := Head(fwd, g), Shows(db, fwd, g).recs, Trail(db, fwd, g).rows;
      var p := if fwd then 1 else |ls|;
      RowsLead(fwd, x, ls);
      assert [Row(x, p, ls[p-1])] + Rest(fwd, x, ls, p) + rest == [Row(x, p, ls[p-1])] + (Rest(fwd, x, ls, p) + rest);
    }
  }

  lemma SeekLeads(db: Db, fwd: bool, f: Front)
    requires !Empty(f)
    ensures var g, t := Seek(db, fwd, f), Trail(db, fwd, f);
            if Empty(g) then t == Trip([], KeyNotFound)
            else match Shows(db, fwd, g)
                 case Conflict => t == Trip([], TxnConflict)
                 case Alias => t == Trip([], CursorIsNil)
                 case Lines(ls) => ls != [] ==> Lead(db, fwd, SpotAfter(db, fwd, g)) == t
  {
    TrailIs(db, fwd, f);
    var g := Seek(db, fwd, f);
    if !Empty(g) && Shows(db, fwd, g).Lines? && Shows(db, fwd, g).recs != [] {
      ArrivalLeads(db, fwd, g);
    }
  }

  lemma RestLeads(db: Db, fwd: bool, s: Spot)
    requires !Empty(s.front) && if fwd then 1 <= s.pos < |s.list| else 1 < s.pos <= |s.list| + 1
    ensures Lead(db, fwd, s.(pos := if fwd then s.pos + 1 else s.pos - 1)) == Coming(db, fwd, s)
  {
  }

  lemma RestEmpty(db: Db, fwd: bool, s: Spot)
    requires !Empty(s.front)
    ensures Rest(fwd, s.key, s.list, s.pos) == [] <==>
            if fwd then s.pos >= |s.list| else s.pos <= 1 || s.pos > |s.list| + 1
    ensures Rest(fwd, s.key, s.list, s.pos) == [] ==> Coming(db, fwd, s) == Trail(db, fwd, s.front)
  {
    var trail := Trail(db, fwd, s.front);
    assert [] + trail.rows == trail.rows;
  }

  /** The front of FIRST or LAST: the transaction cursor is coupled to the newest
      operation of its node, whoever wrote it. */
  function StartFront(db: Database, fwd: bool): Front {
    var t := Edge(|db.nodes|, fwd);
    FrontOf(db, fwd, Edge(|db.btree|, fwd), t, if t == -1 then 0 else |db.nodes[t].ops| - 1)
  }

  /** Another open transaction was the last to write the outermost node. */
  predicate ForeignEdge(db: Db, fwd: bool) {
    var t := Edge(|db.nodes|, fwd); t >= 0 && Foreign(db.nodes[t])
  }

  /** All that a walk from one end to the other shows. */
  function StartTrip(db: Database, fwd: bool): Trip {
    var f := StartFront(db, fwd);
    if !Empty(f) && TxnFirst(fwd, f) && ForeignEdge(db, fwd) then Trip([], TxnConflict) else Arrival(db, fwd, f)
  }

  /** The front when the transaction cursor is looked up from btree entry b. */
  function SyncFront(db: Database, fwd: bool, b: nat): Front
    requires b < |db.btree|
  {
    var t := NodeAt(db, fwd, db.btree[b].key);
    FrontOf(db, fwd, b, t, if t == -1 then 0 else |db.nodes[t].ops| - 1)
  }

  /** The duplicates of entry b after that lookup. */
  function SyncList(db: Db, fwd: bool, b: nat): seq<Rec>
    requires b < |db.btree|
  {
    var t := NodeAt(db, fwd, db.btree[b].key);
    if t >= 0 && db.nodes[t].key == db.btree[b].key then Actions.ConsolidateAll(Acts(db.nodes[t].ops), db.btree[b].recs)
    else db.btree[b].recs
  }

  lemma EntryFound(db: Db, fwd: bool, b: nat)
    requires SortedEntries(db.btree) && b < |db.btree|
    ensures EntryAt(db.btree, fwd, db.btree[b].key) == b
  {
  }

  /** The references of a node's operations are within the duplicates they find,
      as the source asserts. */
  ghost predicate InRangeNode(db: Db, n: nat)
    requires n < |db.nodes|
  {
    forall j :: 0 <= j < |db.nodes[n].ops| ==>
      Actions.InRange(db.nodes[n].ops[j].act, Actions.ConsolidateAll(Acts(db.nodes[n].ops)[..j],
        RecsOf(db.btree, db.nodes[n].key)))
  }

  lemma ErasedViewEmpty(dup: bool, n: Node, recs: seq<Rec>)
    requires ErasedNode(n)
    ensures NodeView(dup, n, recs) == []
  {
  }

  lemma EntryExact(db: Database, x: Key)
    ensures var b := EntryAt(db.btree, true, x); (b == -1 || db.btree[b].key != x) ==> RecsOf(db.btree, x) == []
  {
  }
}
