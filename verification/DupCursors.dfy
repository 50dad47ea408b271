/** The cursors on one key while duplicates of the key are inserted, overwritten and
    erased (insert_txn, erase_txn and the loops over other cursors in
    4db/db_local.cc). A cursor has two ideas of where it is: it reads the operation
    or the btree record it is coupled to, and it erases and overwrites at the index
    of its duplicate cache. Only the index is adjusted for other cursors. */
module DupCursors {
  import opened Seqs
  import opened Actions
  import Trees
  import DupLines

  /** Duplicates are named by the lines of a duplicate cache: the index of the
      operation that wrote the record, or -1-i for the i-th record of the btree. */
  type Line = int

  /** A cursor: whether it is on the key, its 1-based duplicate cache index, and the
      line it is coupled to. A cursor that is not on the key is nil; cursors on other
      keys are not part of the list. */
  datatype Cur = Cur(here: bool, idx: nat, line: Line)

  const NIL := Cur(false, 0, 0)

  predicate Distinct(d: seq<Line>) { forall i, j :: 0 <= i < j < |d| ==> d[i] != d[j] }

  /** The index of a cursor denotes the line it is coupled to. */
  predicate Agrees(d: seq<Line>, c: Cur) { c.here ==> 1 <= c.idx <= |d| && d[c.idx-1] == c.line }

  // ---- inserting ----

  /** Where a new duplicate goes; `start` is the index of the inserting cursor. */
  function Position(at: Where, start: nat, n: nat): nat {
    match at
    case First => 0
    case Before => if start == 0 then 0 else start - 1
    case After => if start <= n then start else n
    case Last => n
  }

  /** An insert keeps the index of a cursor at idx in step with its line. */
  predicate Undisplaced(at: Where, start: nat, idx: nat) {
    match at
    case First => idx > start
    case Before => idx != start
    case After => true
    case Last => idx <= start
  }

  /** The index of another cursor after an insert or overwrite at start. */
  function Shifted(start: nat, idx: nat): nat { if idx > start then idx + 1 else idx }

  lemma ConsolidateAt(d: seq<Line>, r: Line, at: Where, start: nat)
    requires InRange(InsertDup(r, at, start), d)
    ensures Position(at, start, |d|) <= |d|
    ensures Consolidate(InsertDup(r, at, start), d) == InsertAt(d, Position(at, start, |d|), r)
  {
  }

  /** The shift made for another cursor, and the shift that is needed. */
  lemma ShiftExact(at: Where, start: nat, idx: nat, n: nat)
    requires 1 <= idx <= n && (at == Before ==> 1 <= start)
    ensures (idx > start <==> idx > Position(at, start, n)) <==> Undisplaced(at, start, idx)
  {
  }

  /** In a list of distinct lines an index denotes the same line after an insert
      exactly when it moved with it. */
  lemma SameLine(d: seq<Line>, p: nat, r: Line, i: nat, j: nat)
    requires Distinct(d) && p <= |d| && i < |d| && r !in d && (j == i || j == i + 1)
    ensures InsertAt(d, p, r)[j] == d[i] <==> j == if i >= p then i + 1 else i
  {
  }

  /** After an insert a cursor that agreed agrees again exactly if it is
      undisplaced. */
  lemma AgreesAfterInsert(d: seq<Line>, r: Line, at: Where, start: nat, c: Cur)
    requires Distinct(d) && r !in d && c.here && Agrees(d, c) && InRange(InsertDup(r, at, start), d)
    ensures Agrees(Consolidate(InsertDup(r, at, start), d), c.(idx := Shifted(start, c.idx))) <==>
            Undisplaced(at, start, c.idx)
  {
    ConsolidateAt(d, r, at, start);
    ShiftExact(at, start, c.idx, |d|);
    SameLine(d, Position(at, start, |d|), r, c.idx - 1, Shifted(start, c.idx) - 1);
  }

  lemma InsertAtDistinct(d: seq<Line>, p: nat, r: Line)
    requires Distinct(d) && r !in d && p <= |d|
    ensures Distinct(InsertAt(d, p, r))
  {
    var e := InsertAt(d, p, r);
    forall i, j | 0 <= i < j < |e| ensures e[i] != e[j] {
      var i0, j0 := if i < p then i else i - 1, if j < p then j else j - 1;
      assert i != p ==> e[i] == d[i0] && d[i0] in d;
      assert j != p ==> e[j] == d[j0] && d[j0] in d;
    }
  }

  // ---- overwriting ----

  /** After an overwrite a cursor that agreed agrees again exactly if it is before
      the overwritten duplicate. */
  lemma AgreesAfterOverwrite(d: seq<Line>, r: Line, start: nat, c: Cur)
    requires Distinct(d) && r !in d && c.here && Agrees(d, c) && 1 <= start <= |d|
    ensures Agrees(Consolidate(Action.Overwrite(r, start), d), c.(idx := Shifted(start, c.idx))) <==> c.idx < start
  {
    var e := Consolidate(Action.Overwrite(r, start), d);
    assert c.line in d;
    if c.idx > start && c.idx < |d| {
      assert e[c.idx] == d[c.idx];
    }
  }

  // ---- erasing ----

  /** Another cursor after an erase; start == 0 stands for an erase without a cursor
      on a duplicate. */
  function AfterErase(c: Cur, start: nat): Cur {
    if !c.here then c
    else if start > 0 && start < c.idx then c.(idx := c.idx - 1)
    else if start > c.idx then c
    else NIL
  }

  /** A cursor that agreed becomes nil if it is coupled to the erased line, and
      agrees otherwise. */
  lemma AgreesAfterErase(d: seq<Line>, start: nat, c: Cur)
    requires Distinct(d) && 1 <= start <= |d| && c.here && Agrees(d, c)
    ensures var e := Consolidate(Action.Erase(start), d); var c' := AfterErase(c, start);
            if c.line == d[start-1] then c' == NIL else c'.here && c'.line == c.line && Agrees(e, c')
  {
  }

  /** Whatever is erased next, the cursor becomes nil exactly if it is coupled to
      the erased line. */
  ghost predicate Reliable(d: seq<Line>, c: Cur) {
    forall start :: 1 <= start <= |d| ==> (!AfterErase(c, start).here <==> c.line == d[start-1])
  }

  /** Indices that agree are necessary and sufficient for erases to clear the right
      cursors. A cursor whose line has been overwritten should not be cleared at
      all, and is not exactly if its index has run out of the list. */
  lemma ReliableExact(d: seq<Line>, c: Cur)
    requires Distinct(d) && c.here && c.idx > 0
    ensures Reliable(d, c) <==> if c.line in d then Agrees(d, c) else c.idx > |d|
  {
    if c.line in d {
      var k :| 0 <= k < |d| && d[k] == c.line;
      if Reliable(d, c) {
        assert !AfterErase(c, k + 1).here;
      }
    } else {
      assert c.idx <= |d| ==> !AfterErase(c, c.idx).here;
    }
  }

  lemma EraseDistinct(d: seq<Line>, start: nat)
    requires Distinct(d) && 1 <= start <= |d|
    ensures var e := Consolidate(Action.Erase(start), d);
            Distinct(e) && d[start-1] !in e && forall x :: x in e ==> x in d
  {
  }

  // ---- one key with its cursors ----

  /** The btree's records of the key, the operations of its node, oldest first, and
      all cursors of the database. */
  datatype World = World(recs: seq<Rec>, ops: seq<Trees.Op>, cursors: seq<Cur>)

  /** The duplicates of the key, as a duplicate cache that is built now lists them. */
  function Now(w: World): seq<Line> { ConsolidateAll(DupLines.CodedOps(w.ops), DupLines.BtreeLines(|w.recs|)) }

  /** What a cursor on the key reads. */
  function Read(w: World, c: Cur): Rec
    requires DupLines.Fit(w.ops, w.recs, c.line)
  {
    DupLines.RecOf(w.ops, w.recs, c.line)
  }

  /** One more operation. */
  function Append(w: World, a: Action): World { w.(ops := w.ops + [Trees.Op(a, true)]) }

  lemma NowAppend(w: World, a: Action)
    ensures Now(Append(w, a)) == Consolidate(DupLines.Coded(a, |w.ops|), Now(w))
  {
    var c, d := DupLines.CodedOps(w.ops), DupLines.CodedOps(Append(w, a).ops);
    assert d[..|d|-1] == c;
  }

  predicate Fresh(d: seq<Line>, n: nat) { Distinct(d) && forall i :: 0 <= i < |d| ==> d[i] < n }

  lemma ConsolidateFresh(a: Action, n: nat, d: seq<Line>)
    requires Fresh(d, n)
    ensures Fresh(Consolidate(DupLines.Coded(a, n), d), n + 1)
  {
    if InRange(a, d) {
      match a
      case InsertDup(_, at, ref) =>
        ConsolidateAt(d, n, at, ref);
        InsertAtDistinct(d, Position(at, ref, |d|), n);
      case Erase(ref) =>
        if ref > 0 {
          EraseDistinct(d, ref);
        }
      case _ =>
    }
  }

  /** Every duplicate is listed once. */
  lemma {:induction false} NowFresh(w: World)
    ensures Fresh(Now(w), |w.ops|)
    decreases |w.ops|
  {
    if w.ops != [] {
      var n := |w.ops| - 1;
      var v := w.(ops := w.ops[..n]);
      NowFresh(v);
      assert Append(v, w.ops[n].act).ops[..n] == w.ops[..n];
      assert DupLines.CodedOps(w.ops) == DupLines.CodedOps(Append(v, w.ops[n].act).ops);
      NowAppend(v, w.ops[n].act);
      ConsolidateFresh(w.ops[n].act, n, Now(v));
    }
  }

  datatype Command =
    | Insert(cur: nat, at: Where, rec: Rec)
    | Overwrite(cur: nat, rec: Rec)
    | Erase(cur: nat)
    | EraseKey
    | MoveTo(cur: nat, pos: nat)

  /** The references that the source asserts to be valid. */
  predicate Defined(w: World, cmd: Command) {
    match cmd
    case Insert(cur, at, rec) => cur < |w.cursors| && InRange(InsertDup(rec, at, w.cursors[cur].idx), Now(w))
    case Overwrite(cur, _) => cur < |w.cursors| && w.cursors[cur].here && 1 <= w.cursors[cur].idx <= |Now(w)|
    case Erase(cur) => cur < |w.cursors| && w.cursors[cur].here && 1 <= w.cursors[cur].idx <= |Now(w)|
    case EraseKey => true
    case MoveTo(cur, pos) => cur < |w.cursors| && 1 <= pos <= |Now(w)|
  }

  /** The cursors after an insert or overwrite at index start: cursor cur is at c,
      and others on the key are shifted. */
  function Adjusted(cs: seq<Cur>, cur: nat, start: nat, c: Cur): (r: seq<Cur>)
    ensures |r| == |cs|
    ensures forall i :: 0 <= i < |cs| ==>
              r[i] == if i == cur then c else if cs[i].here then cs[i].(idx := Shifted(start, cs[i].idx)) else cs[i]
  {
    seq(|cs|, i requires 0 <= i < |cs| =>
      if i == cur then c else if cs[i].here then cs[i].(idx := Shifted(start, cs[i].idx)) else cs[i])
  }

  /** The cursors after an erase at index start by cursor cur, -1 if there is none. */
  function Cleared(cs: seq<Cur>, cur: int, start: nat): (r: seq<Cur>)
    ensures |r| == |cs|
    ensures forall i :: 0 <= i < |cs| ==> r[i] == if i == cur then NIL else AfterErase(cs[i], start)
  {
    seq(|cs|, i requires 0 <= i < |cs| => if i == cur then NIL else AfterErase(cs[i], start))
  }

  function Next(w: World, cmd: Command): World
    requires Defined(w, cmd)
  {
    match cmd
    case Insert(cur, at, rec) =>
      var start := w.cursors[cur].idx;
      Append(w, InsertDup(rec, at, start))
        .(cursors := Adjusted(w.cursors, cur, start, Cur(true, Position(at, start, |Now(w)|) + 1, |w.ops|)))
    case Overwrite(cur, rec) =>
      var start := w.cursors[cur].idx;
      Append(w, Action.Overwrite(rec, start)).(cursors := Adjusted(w.cursors, cur, start, Cur(true, start, |w.ops|)))
    case Erase(cur) =>
      var start := w.cursors[cur].idx;
      Append(w, Action.Erase(start)).(cursors := Cleared(w.cursors, cur, start))
    case EraseKey =>
      Append(w, Action.Erase(0)).(cursors := Cleared(w.cursors, -1, 0))
    case MoveTo(cur, pos) =>
      w.(cursors := w.cursors[cur := Cur(true, pos, Now(w)[pos-1])])
  }

  /** The cursor that carries out a command. */
  function Actor(cmd: Command): int { if cmd.EraseKey? then -1 else cmd.cur }

  // ---- what a cursor reads ----

  /** No insert, overwrite or erase by another cursor changes what a cursor reads,
      as long as it is not nil. */
  lemma ReadStable(w: World, cmd: Command, i: nat)
    requires Defined(w, cmd) && i < |w.cursors| && i != Actor(cmd) && w.cursors[i].here &&
             DupLines.Fit(w.ops, w.recs, w.cursors[i].line)
    ensures var v := Next(w, cmd); var c := v.cursors[i];
            |v.cursors| == |w.cursors|
            && (c.here ==>
                  && DupLines.Fit(v.ops, v.recs, c.line) && c.line == w.cursors[i].line
                  && Read(v, c) == Read(w, w.cursors[i]))
  {
  }

  /** A cursor that moves is on the duplicate it moves to, and nothing else changes. */
  lemma MoverReads(w: World, cur: nat, pos: nat)
    requires Defined(w, MoveTo(cur, pos))
    ensures var v := Next(w, MoveTo(cur, pos)); var c := v.cursors[cur];
            && |v.cursors| == |w.cursors| && v.ops == w.ops && v.recs == w.recs
            && c.here && c.idx == pos && c.line == Now(w)[pos-1] && Agrees(Now(v), c)
            && forall i :: 0 <= i < |w.cursors| && i != cur ==> v.cursors[i] == w.cursors[i]
  {
  }

  /** The cursor that inserts or overwrites reads the new record, at its index. */
  lemma WriterReads(w: World, cmd: Command)
    requires Defined(w, cmd) && (cmd.Insert? || cmd.Overwrite?)
    ensures var v := Next(w, cmd); var c := v.cursors[cmd.cur];
            c.here && DupLines.Fit(v.ops, v.recs, c.line) && Read(v, c) == cmd.rec && Agrees(Now(v), c)
  {
    var start := w.cursors[cmd.cur].idx;
    if cmd.Insert? {
      NowAppend(w, InsertDup(cmd.rec, cmd.at, start));
      ConsolidateAt(Now(w), |w.ops|, cmd.at, start);
    } else {
      NowAppend(w, Action.Overwrite(cmd.rec, start));
    }
  }

  /** What becomes of the list of duplicates: an insert puts the new one where its
      flag says, next to the duplicate of the cursor; an overwrite replaces the
      duplicate of the cursor, an erase removes it, and a move changes nothing. */
  lemma ListAfter(w: World, cmd: Command)
    requires Defined(w, cmd)
    ensures var d, now := Now(w), Now(Next(w, cmd));
            match cmd
            case Insert(cur, at, _) =>
              var idx := w.cursors[cur].idx; var p := Place(at, if idx == 0 then 0 else idx - 1, |d|);
              p <= |d| && now == InsertAt(d, p, |w.ops|)
            case Overwrite(cur, _) => now == d[w.cursors[cur].idx - 1 := |w.ops|]
            case Erase(cur) => now == RemoveAt(d, w.cursors[cur].idx - 1)
            case EraseKey => now == []
            case MoveTo(_, _) => now == d
  {
    match cmd
    case Insert(cur, at, rec) =>
      var start := w.cursors[cur].idx;
      NowAppend(w, InsertDup(rec, at, start));
      ConsolidatePlaces(|w.ops|, at, start, Now(w));
    case Overwrite(cur, rec) =>
      NowAppend(w, Action.Overwrite(rec, w.cursors[cur].idx));
    case Erase(cur) =>
      NowAppend(w, Action.Erase(w.cursors[cur].idx));
    case EraseKey =>
      NowAppend(w, Action.Erase(0));
    case MoveTo(cur, pos) =>
  }

  /** Cursors other than cur that are not nil read what they read before. */
  ghost predicate SameReads(w: World, v: World, cur: int) {
    && |v.cursors| == |w.cursors|
    && forall i :: 0 <= i < |w.cursors| && i != cur && w.cursors[i].here && v.cursors[i].here
                   && DupLines.Fit(w.ops, w.recs, w.cursors[i].line) ==>
         DupLines.Fit(v.ops, v.recs, v.cursors[i].line) && Read(v, v.cursors[i]) == Read(w, w.cursors[i])
  }

  lemma ReadsStable(w: World, cmd: Command)
    requires Defined(w, cmd)
    ensures SameReads(w, Next(w, cmd), Actor(cmd))
  {
    forall i | 0 <= i < |w.cursors| && i != Actor(cmd) && w.cursors[i].here
               && DupLines.Fit(w.ops, w.recs, w.cursors[i].line)
      ensures var v := Next(w, cmd);
        v.cursors[i].here ==>
          DupLines.Fit(v.ops, v.recs, v.cursors[i].line) && Read(v, v.cursors[i]) == Read(w, w.cursors[i]) {
      ReadStable(w, cmd, i);
    }
  }

  // ---- whether the indices agree ----

  ghost predicate AllAgree(w: World) { forall i :: 0 <= i < |w.cursors| ==> Agrees(Now(w), w.cursors[i]) }

  /** The command leaves the index of this other cursor in step with its line. */
  predicate HarmlessTo(w: World, cmd: Command, c: Cur)
    requires Defined(w, cmd)
  {
    c.here ==>
      match cmd
      case Insert(cur, at, _) => Undisplaced(at, w.cursors[cur].idx, c.idx)
      case Overwrite(cur, _) => c.idx < w.cursors[cur].idx
      case _ => true
  }

  predicate Harmless(w: World, cmd: Command)
    requires Defined(w, cmd)
  {
    forall i :: 0 <= i < |w.cursors| && i != Actor(cmd) ==> HarmlessTo(w, cmd, w.cursors[i])
  }

  lemma AgreesNext(w: World, cmd: Command, i: nat)
    requires Defined(w, cmd) && i < |w.cursors| && Agrees(Now(w), w.cursors[i])
    ensures Agrees(Now(Next(w, cmd)), Next(w, cmd).cursors[i]) <==> i == Actor(cmd) || HarmlessTo(w, cmd, w.cursors[i])
  {
    var d, c := Now(w), w.cursors[i];
    NowFresh(w);
    match cmd
    case Insert(cur, at, rec) =>
      NowAppend(w, InsertDup(rec, at, w.cursors[cur].idx));
      if i == cur {
        WriterReads(w, cmd);
      } else if c.here {
        AgreesAfterInsert(d, |w.ops|, at, w.cursors[cur].idx, c);
      }
    case Overwrite(cur, rec) =>
      NowAppend(w, Action.Overwrite(rec, w.cursors[cur].idx));
      if i == cur {
        WriterReads(w, cmd);
      } else if c.here {
        AgreesAfterOverwrite(d, |w.ops|, w.cursors[cur].idx, c);
      }
    case Erase(cur) =>
      NowAppend(w, Action.Erase(w.cursors[cur].idx));
      if c.here {
        AgreesAfterErase(d, w.cursors[cur].idx, c);
      }
    case EraseKey =>
    case MoveTo(cur, pos) =>
  }

  /** From indices that agree, one command leads to indices that agree if and only
      if it is harmless to all other cursors. */
  lemma AgreeExact(w: World, cmd: Command)
    requires Defined(w, cmd) && AllAgree(w)
    ensures AllAgree(Next(w, cmd)) <==> Harmless(w, cmd)
  {
    var v := Next(w, cmd);
    assert |v.cursors| == |w.cursors|;
    forall i | 0 <= i < |w.cursors|
      ensures Agrees(Now(v), v.cursors[i]) <==> i == Actor(cmd) || HarmlessTo(w, cmd, w.cursors[i])
    {
      AgreesNext(w, cmd, i);
    }
  }

  /** While the indices agree, an erase clears exactly the cursors that are coupled
      to the erased duplicate. */
  lemma EraseClears(w: World, cur: nat, i: nat)
    requires Defined(w, Command.Erase(cur)) && AllAgree(w) && i < |w.cursors| && w.cursors[i].here
    ensures !Next(w, Command.Erase(cur)).cursors[i].here <==> w.cursors[i].line == w.cursors[cur].line
  {
    NowFresh(w);
    assert Agrees(Now(w), w.cursors[cur]) && Agrees(Now(w), w.cursors[i]);
    AgreesAfterErase(Now(w), w.cursors[cur].idx, w.cursors[i]);
  }

  /** Whatever is erased next clears exactly the right cursors, if and only if every
      index agrees, or is out of the list for a record that has been overwritten. */
  lemma ErasesExact(w: World)
    requires forall i :: 0 <= i < |w.cursors| && w.cursors[i].here ==> w.cursors[i].idx > 0
    ensures (forall i :: 0 <= i < |w.cursors| && w.cursors[i].here ==> Reliable(Now(w), w.cursors[i])) <==>
            forall i :: 0 <= i < |w.cursors| && w.cursors[i].here ==>
              if w.cursors[i].line in Now(w) then Agrees(Now(w), w.cursors[i]) else w.cursors[i].idx > |Now(w)|
  {
    NowFresh(w);
    forall i | 0 <= i < |w.cursors| && w.cursors[i].here
      ensures Reliable(Now(w), w.cursors[i]) <==>
              if w.cursors[i].line in Now(w) then Agrees(Now(w), w.cursors[i]) else w.cursors[i].idx > |Now(w)|
    {
      ReliableExact(Now(w), w.cursors[i]);
    }
  }

  // ---- whole runs ----

  ghost predicate DefinedRun(w: World, cmds: seq<Command>)
    decreases cmds
  {
    cmds == [] || (Defined(w, cmds[0]) && DefinedRun(Next(w, cmds[0]), cmds[1..]))
  }

  function Run(w: World, cmds: seq<Command>): World
    requires DefinedRun(w, cmds)
    decreases cmds
  {
    if cmds == [] then w else Run(Next(w, cmds[0]), cmds[1..])
  }

  /** Whatever other cursors do, a cursor that takes no part reads the same record
      for as long as it is not nil. */
  lemma {:induction false} RunReads(w: World, cmds: seq<Command>, me: nat)
    requires DefinedRun(w, cmds) && me < |w.cursors| && forall k :: 0 <= k < |cmds| ==> Actor(cmds[k]) != me
    requires w.cursors[me].here ==> DupLines.Fit(w.ops, w.recs, w.cursors[me].line)
    ensures var v := Run(w, cmds); me < |v.cursors| && (v.cursors[me].here ==>
              w.cursors[me].here && v.cursors[me].line == w.cursors[me].line &&
              DupLines.Fit(v.ops, v.recs, v.cursors[me].line) && Read(v, v.cursors[me]) == Read(w, w.cursors[me]))
    decreases cmds
  {
    if cmds != [] {
      if w.cursors[me].here {
        ReadStable(w, cmds[0], me);
      }
      RunReads(Next(w, cmds[0]), cmds[1..], me);
    }
  }

  ghost predicate AgreeAlong(w: World, cmds: seq<Command>)
    requires DefinedRun(w, cmds)
    decreases cmds
  {
    AllAgree(w) && (cmds == [] || AgreeAlong(Next(w, cmds[0]), cmds[1..]))
  }

  predicate HarmlessAlong(w: World, cmds: seq<Command>)
    requires DefinedRun(w, cmds)
    decreases cmds
  {
    cmds == [] || (Harmless(w, cmds[0]) && HarmlessAlong(Next(w, cmds[0]), cmds[1..]))
  }

  /** Along any run of inserts, overwrites, erases and moves, the indices agree at
      every point if and only if every command is harmless where it is carried
      out. */
  lemma {:induction false} RunExact(w: World, cmds: seq<Command>)
    requires DefinedRun(w, cmds) && AllAgree(w)
    ensures AgreeAlong(w, cmds) <==> HarmlessAlong(w, cmds)
    decreases cmds
  {
    if cmds != [] {
      AgreeExact(w, cmds[0]);
      if Harmless(w, cmds[0]) {
        RunExact(Next(w, cmds[0]), cmds[1..]);
      } else {
        assert !AllAgree(Next(w, cmds[0]));
      }
    }
  }

  lemma ConsolidateAbsent(a: Action, n: nat, d: seq<Line>, l: Line)
    requires l < n && l !in d
    ensures l !in Consolidate(DupLines.Coded(a, n), d)
  {
    if a.InsertDup? && InRange(a, d) {
      ConsolidateAt(d, n, a.at, a.ref);
    }
  }

  /** A duplicate that is gone does not come back. */
  lemma AbsentStays(w: World, cmd: Command, l: Line)
    requires Defined(w, cmd) && l < |w.ops| && l !in Now(w)
    ensures l !in Now(Next(w, cmd))
  {
    if !cmd.MoveTo? {
      var a := if cmd.EraseKey? then Action.Erase(0)
        else if cmd.Erase? then Action.Erase(w.cursors[cmd.cur].idx)
        else if cmd.Overwrite? then Action.Overwrite(cmd.rec, w.cursors[cmd.cur].idx)
        else InsertDup(cmd.rec, cmd.at, w.cursors[cmd.cur].idx);
      NowAppend(w, a);
      ConsolidateAbsent(a, |w.ops|, Now(w), l);
      assert Now(Next(w, cmd)) == Now(Append(w, a));
    }
  }

  /** Along a harmless run, a cursor that takes no part is on its record for as long
      as the record exists, and is nil afterwards. */
  lemma {:induction false} RunFollows(w: World, cmds: seq<Command>, me: nat, l: Line)
    requires DefinedRun(w, cmds) && AllAgree(w) && HarmlessAlong(w, cmds)
    requires me < |w.cursors| && l < |w.ops| && forall k :: 0 <= k < |cmds| ==> Actor(cmds[k]) != me
    requires if w.cursors[me].here then w.cursors[me].line == l else l !in Now(w)
    ensures var v := Run(w, cmds);
            me < |v.cursors| && if v.cursors[me].here then v.cursors[me].line == l && l in Now(v) else l !in Now(v)
    decreases cmds
  {
    if cmds != [] {
      var v := Next(w, cmds[0]);
      AgreeExact(w, cmds[0]);
      NowFresh(w);
      if w.cursors[me].here {
        FollowStep(w, cmds[0], me);
      } else {
        AbsentStays(w, cmds[0], l);
      }
      RunFollows(v, cmds[1..], me, l);
    } else if w.cursors[me].here {
      assert Agrees(Now(w), w.cursors[me]);
    }
  }

  lemma FollowStep(w: World, cmd: Command, me: nat)
    requires Defined(w, cmd) && AllAgree(w) && me < |w.cursors| && me != Actor(cmd) && w.cursors[me].here
    ensures var c := Next(w, cmd).cursors[me];
            if c.here then c.line == w.cursors[me].line else w.cursors[me].line !in Now(Next(w, cmd))
  {
    NowFresh(w);
    assert Agrees(Now(w), w.cursors[me]);
    match cmd
    case Erase(cur) =>
      NowAppend(w, Action.Erase(w.cursors[cur].idx));
      AgreesAfterErase(Now(w), w.cursors[cur].idx, w.cursors[me]);
      EraseDistinct(Now(w), w.cursors[cur].idx);
    case EraseKey =>
      NowAppend(w, Action.Erase(0));
    case _ =>
  }

  /** Where a new duplicate is listed. */
  lemma InsertPlace(w: World, a: Action)
    requires a.InsertDup? && InRange(a, Now(w))
    ensures var d, p := Now(Append(w, a)), Position(a.at, a.ref, |Now(w)|); Distinct(d) && p < |d| && d[p] == |w.ops|
  {
    NowFresh(Append(w, a));
    NowAppend(w, a);
    ConsolidateAt(Now(w), |w.ops|, a.at, a.ref);
  }

  // ---- the code ----

  class CursorList {
    const recs: seq<Rec>
    var ops: seq<Trees.Op>
    var cursors: seq<Cur>

    ghost function Value(): World
      reads this
    {
      World(recs, ops, cursors)
    }

    constructor (w: World)
      ensures Value() == w
    {
      recs, ops, cursors := w.recs, w.ops, w.cursors;
    }

    /** The duplicate cache, built anew. */
    method BuildCache() returns (d: seq<Line>)
      ensures d == Now(Value())
    {
      d := BuildDuplicateCache(DupLines.BtreeLines(|recs|), DupLines.CodedOps(ops));
    }

    /** update_other_cursors_after_insert. */
    method UpdateOtherCursorsAfterInsert(cur: nat)
      requires cur < |cursors|
      modifies this`cursors
      ensures cursors == Adjusted(old(cursors), cur, old(cursors[cur].idx), old(cursors[cur]))
    {
      var start := cursors[cur].idx;
      for n := 0 to |cursors|
        invariant |cursors| == old(|cursors|)
        invariant forall i :: n <= i < |cursors| || i == cur ==> cursors[i] == old(cursors[i])
        invariant forall i :: 0 <= i < n && i != cur ==>
                    cursors[i] == var c := old(cursors[i]); if c.here then c.(idx := Shifted(start, c.idx)) else c
      {
        if n != cur && cursors[n].here && cursors[n].idx > start {
          cursors := cursors[n := cursors[n].(idx := cursors[n].idx + 1)];
        }
      }
    }

    /** update_other_cursors_after_erase, and the erasing cursor becomes nil. */
    method UpdateOtherCursorsAfterErase(cur: int, start: nat)
      requires -1 <= cur < |cursors|
      modifies this`cursors
      ensures cursors == Cleared(old(cursors), cur, start)
    {
      for n := 0 to |cursors|
        invariant |cursors| == old(|cursors|)
        invariant forall i :: n <= i < |cursors| ==> cursors[i] == old(cursors[i])
        invariant forall i :: 0 <= i < n ==> cursors[i] == if i == cur then NIL else AfterErase(old(cursors[i]), start)
      {
        if n == cur {
          cursors := cursors[n := NIL];
        } else if cursors[n].here {
          if start > 0 && start < cursors[n].idx {
            cursors := cursors[n := cursors[n].(idx := cursors[n].idx - 1)];
          } else if start > cursors[n].idx {
          } else {
            cursors := cursors[n := NIL];
          }
        }
      }
    }

    /** The cursor is coupled to this record, and its index denotes it. */
    ghost predicate Shows(cur: nat, rec: Rec)
      reads this
    {
      && cur < |cursors| && cursors[cur].here && Agrees(Now(Value()), cursors[cur])
      && DupLines.Fit(ops, recs, cursors[cur].line) && Read(Value(), cursors[cur]) == rec
    }

    /** ups_cursor_insert of a duplicate: the operation is appended and the cursor
        coupled to it, the other cursors are updated, and the new operation is
        looked up in a new duplicate cache. The cursor then shows the new record,
        and all others read what they read before. */
    method InsertDuplicate(cur: nat, at: Where, rec: Rec)
      requires Defined(Value(), Command.Insert(cur, at, rec))
      modifies this
      ensures Value() == Next(old(Value()), Command.Insert(cur, at, rec))
      ensures Shows(cur, rec) && SameReads(old(Value()), Value(), cur)
      ensures forall i :: 0 <= i < |cursors| && i != cur ==> cursors[i].here == old(cursors[i].here)
    {
      ghost var w := Value();
      WriterReads(w, Command.Insert(cur, at, rec));
      ReadsStable(w, Command.Insert(cur, at, rec));
      var n, start := |ops|, cursors[cur].idx;
      InsertPlace(w, InsertDup(rec, at, start));
      ops := ops + [Trees.Op(InsertDup(rec, at, start), true)];
      UpdateOtherCursorsAfterInsert(cur);
      var d := BuildCache();
      assert d == Now(Append(w, InsertDup(rec, at, start)));
      var i := FindLine(d, n, Position(at, start, |Now(w)|));
      cursors := cursors[cur := Cur(true, i + 1, n)];
    }

    /** ups_cursor_overwrite, which runs the update for an insert and then restores
        the index of its own cursor. */
    method Overwrite(cur: nat, rec: Rec)
      requires Defined(Value(), Command.Overwrite(cur, rec))
      modifies this
      ensures Value() == Next(old(Value()), Command.Overwrite(cur, rec))
      ensures Shows(cur, rec) && SameReads(old(Value()), Value(), cur)
      ensures forall i :: 0 <= i < |cursors| && i != cur ==> cursors[i].here == old(cursors[i].here)
    {
      WriterReads(Value(), Command.Overwrite(cur, rec));
      ReadsStable(Value(), Command.Overwrite(cur, rec));
      var n, start := |ops|, cursors[cur].idx;
      ops := ops + [Trees.Op(Action.Overwrite(rec, start), true)];
      UpdateOtherCursorsAfterInsert(cur);
      cursors := cursors[cur := Cur(true, start, n)];
    }

    /** ups_cursor_erase of one duplicate: cursors that are not cleared read what
        they read before, and those that are cleared are the ones on the erased
        duplicate as long as the indices agree. */
    method Erase(cur: nat)
      requires Defined(Value(), Command.Erase(cur))
      modifies this
      ensures Value() == Next(old(Value()), Command.Erase(cur))
      ensures !cursors[cur].here && SameReads(old(Value()), Value(), cur)
      ensures old(AllAgree(Value())) ==>
                forall i :: 0 <= i < |cursors| && old(cursors[i].here) ==>
                  (!cursors[i].here <==> old(cursors[i].line) == old(cursors[cur].line))
    {
      ghost var w := Value();
      ReadsStable(w, Command.Erase(cur));
      if AllAgree(w) {
        forall i | 0 <= i < |w.cursors| && w.cursors[i].here
          ensures !Next(w, Command.Erase(cur)).cursors[i].here <==> w.cursors[i].line == w.cursors[cur].line {
          EraseClears(w, cur, i);
        }
      }
      var start := cursors[cur].idx;
      ops := ops + [Trees.Op(Action.Erase(start), true)];
      UpdateOtherCursorsAfterErase(cur, start);
    }

    /** ups_db_erase: the key goes with all its duplicates. */
    method EraseKey()
      modifies this
      ensures Value() == Next(old(Value()), Command.EraseKey)
      ensures Now(Value()) == [] && forall i :: 0 <= i < |cursors| ==> !cursors[i].here
    {
      NowAppend(Value(), Action.Erase(0));
      ops := ops + [Trees.Op(Action.Erase(0), true)];
      UpdateOtherCursorsAfterErase(-1, 0);
    }
  }

  /** The loop that looks up a new operation in the duplicate cache. */
  method FindLine(d: seq<Line>, l: Line, ghost p: nat) returns (i: nat)
    requires Distinct(d) && p < |d| && d[p] == l
    ensures i == p
  {
    i := 0;
    while d[i] != l
      invariant i <= p
      decreases p - i
    {
      i := i + 1;
    }
  }

  // ---- the smallest cases ----

  /** Two cursors on the second of two records. One inserts BEFORE it and then erases
      its new record: the other one becomes nil, although the record it reads still
      exists. */
  lemma ClearedByMistake(w: World)
    requires w == World([10, 20], [], [Cur(true, 2, -2), Cur(true, 2, -2)])
    ensures var run := [Command.Insert(0, Before, 15), Command.Erase(0)];
            && AllAgree(w) && DefinedRun(w, run)
            && !Run(w, run).cursors[1].here && w.cursors[1].line in Now(Run(w, run))
  {
    var insert, erase := Command.Insert(0, Before, 15), Command.Erase(0);
    assert Now(w) == [-1, -2];
    NowAppend(w, InsertDup(15, Before, 2));
    var v := Next(w, insert);
    assert Now(v) == [-1, 0, -2];
    assert v.cursors == [Cur(true, 2, 0), Cur(true, 2, -2)];
    NowAppend(v, Action.Erase(2));
    assert Now(Next(v, erase)) == [-1, -2];
    assert [insert, erase][1..] == [erase] && [erase][1..] == [];
  }

  /** Two cursors on the second of two records. One inserts BEFORE it; the other one
      still reads its own record, but erases the new one. */
  lemma ErasesAnother(w: World)
    requires w == World([10, 20], [], [Cur(true, 2, -2), Cur(true, 2, -2)])
    ensures var run := [Command.Insert(0, Before, 15), Command.Erase(1)];
            && DefinedRun(w, run) && Read(Next(w, run[0]), Next(w, run[0]).cursors[1]) == 20
            && Now(Run(w, run)) == [-1, -2]
  {
    var insert, erase := Command.Insert(0, Before, 15), Command.Erase(1);
    assert Now(w) == [-1, -2];
    NowAppend(w, InsertDup(15, Before, 2));
    var v := Next(w, insert);
    assert Now(v) == [-1, 0, -2];
    assert v.cursors == [Cur(true, 2, 0), Cur(true, 2, -2)];
    NowAppend(v, Action.Erase(2));
    assert [insert, erase][1..] == [erase] && [erase][1..] == [];
  }

  /** Cursors on the first and the last duplicate: overwriting the first moves the
      index of the other one past the end of the list, and the next erase with it
      is undefined. */
  lemma OutOfListByOverwrite(w: World)
    requires w == World([10, 20], [], [Cur(true, 1, -1), Cur(true, 2, -2)])
    ensures Defined(w, Command.Overwrite(0, 15)) && !Defined(Next(w, Command.Overwrite(0, 15)), Command.Erase(1))
  {
    assert Now(w) == [-1, -2];
    NowAppend(w, Action.Overwrite(15, 1));
    var v := Next(w, Command.Overwrite(0, 15));
    assert v.cursors[1] == Cur(true, 3, -2) && Now(v) == [0, -2];
  }
}
