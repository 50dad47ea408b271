/** The walks of a cursor while other transactions are open: exactly which rows
    they show, when they read what is not committed, and when they show exactly
    the keys that no other open transaction has written. */
module Isolation {
  import opened Trees
  import opened MergeWalk
  import opened Fronts
  import opened Cursor
  import opened Walks
  import Actions

  // ---- any walk from one end ----

  lemma NeverAlias(db: Database, fwd: bool, f: Front, x: Key)
    requires OrderedFront(fwd, f) && Sound(db, fwd, f) && x in Keys(f) && x != Head(fwd, f)
    ensures ShowsAt(db, fwd, f, x) != Alias
  {
    ReachIs(fwd, f, x);
    var g := Reach(fwd, f, x);
    if BtreeFirst(fwd, g) {
      var i :| 0 <= i < |f.bs| && f.bs[i] == g.bs[0];
    }
  }

  /** The outermost key of the btree has no node if the nodes begin behind it. */
  lemma StartShows(db: Database, fwd: bool)
    requires !Empty(StartFront(db, fwd))
    ensures Shows(db, fwd, StartFront(db, fwd)).Lines?
  {
    var f := StartFront(db, fwd);
    if !TxnFirst(fwd, f) {
      forall n | 0 <= n < |db.nodes| ensures db.nodes[n].key != f.bs[0].key {
        assert f.ts != [] && f.ts[0].key == db.nodes[Edge(|db.nodes|, fwd)].key;
      }
    }
  }

  /** FIRST or LAST is refused. */
  predicate Refused(db: Database, fwd: bool) {
    var f := StartFront(db, fwd); !Empty(f) && TxnFirst(fwd, f) && ForeignEdge(db, fwd)
  }

  /** A row is shown on the walk from one end: at the outermost key, or behind. */
  ghost predicate OnWalk(db: Database, fwd: bool, r: Row) {
    var f := StartFront(db, fwd);
    && !Empty(f) && OrderedFront(fwd, f)
    && (r in ArrivalRows(fwd, Head(fwd, f), Shows(db, fwd, f)) || OnTrail(db, fwd, f, r))
  }

  /** FIRST and then NEXT, or LAST and then PREVIOUS, until a move fails, for any
      two trees: if the first move is refused, nothing is shown; otherwise exactly
      the rows on the walk are shown, in order, and the walk ends with a conflict
      exactly if a key stops it. */
  lemma WalkMeaning(db: Database, fwd: bool)
    ensures var e, f := StartTrip(db, fwd), StartFront(db, fwd);
            if Refused(db, fwd) then e == Trip([], TxnConflict)
            else && OrderedFront(fwd, f) && Ordered(fwd, e.rows) && (forall r :: r in e.rows <==> OnWalk(db, fwd, r))
                 && (e.st == if !Empty(f) && exists x :: Stops(db, fwd, f, x) then TxnConflict else KeyNotFound)
  {
    var f := StartFront(db, fwd);
    StartSound(db, fwd);
    if !Empty(f) && !Refused(db, fwd) {
      StartShows(db, fwd);
      TrailMeaning(db, fwd, f);
      var x, rest := Head(fwd, f), Trail(db, fwd, f).rows;
      forall r | r in rest ensures Prior(fwd, x, r.key) {
        DropKeys(fwd, f);
        assert OnTrail(db, fwd, f, r);
      }
      Prepend(fwd, x, Shows(db, fwd, f).recs, rest);
    }
  }

  /** The walk itself. */
  method Walk(cur: LocalCursor, fwd: bool) returns (rows: seq<Row>, st: Status)
    requires cur.Valid(cur.c)
    modifies cur
    ensures Trip(rows, st) == StartTrip(cur.db, fwd)
  {
    WalkMeaning(cur.db, fwd);
    rows := [];
    st := cur.MoveEdge(fwd);
    if st == Ok {
      rows, st := cur.ReadOn(fwd, StartTrip(cur.db, fwd));
    }
  }

  // ---- uncommitted rows ----

  /** The btree key nearest to x in the direction of the walk, x included, was last
      written by another open transaction. */
  predicate Blocked(db: Db, fwd: bool, bs: seq<Entry>, x: Key) {
    var r := EntriesFrom(fwd, bs, x); r != [] && r[0].key in ForeignKeys(db.nodes)
  }

  lemma NoConflictHere(db: Database, fwd: bool, g: Front)
    requires !Empty(g) && Head(fwd, g) !in ForeignKeys(db.nodes)
    ensures Shows(db, fwd, g) != Conflict
  {
    ForeignExact(db, Head(fwd, g));
  }

  /** A walk that starts before the node the transaction cursor is coupled to comes
      to this node exactly if the btree key nearest to it is not blocked. */
  lemma {:induction false} CoupledShown(db: Database, fwd: bool, f: Front, r: Row)
    requires OrderedFront(fwd, f) && f.bs != [] && f.ts != [] && Prior(fwd, f.bs[0].key, f.ts[0].key) &&
             r.key == f.ts[0].key
    requires forall i :: 0 < i < |f.bs| && Prior(fwd, f.bs[i].key, f.ts[0].key) ==>
             f.bs[i].key !in ForeignKeys(db.nodes)
    ensures r.key in Keys(f)
    ensures OnTrail(db, fwd, f, r) <==> !Blocked(db, fwd, f.bs, r.key) && InLines(r, ShowsAt(db, fwd, f, r.key))
    decreases |f.bs|
  {
    var g := Drop(fwd, f);
    BtreeMoves(fwd, f, ForeignKeys(db.nodes));
    DropOrdered(fwd, f);
    OnTrailDrop(db, fwd, f, r);
    DropKeys(fwd, g);
    assert r.key in Keys(g) by {
      assert g.ts[0] in g.ts;
    }
    SameFate(db, fwd, f, r.key);
    if g.bs != [] && Prior(fwd, g.bs[0].key, r.key) {
      assert g.bs[0] == f.bs[1];
      NoConflictHere(db, fwd, g);
      SameFate(db, fwd, f, Head(fwd, g));
      if Shows(db, fwd, g).Lines? {
        InRows(fwd, Head(fwd, g), Shows(db, fwd, g).recs, r);
      }
      CoupledShown(db, fwd, g, r);
    } else {
      assert EntriesFrom(fwd, f.bs, r.key) == f.bs[1..];
      ReachHead(fwd, g);
      InRows(fwd, r.key, Shows(db, fwd, g).recs, r);
    }
  }

  /** At the node the transaction cursor is coupled to, all its operations count. */
  lemma CoupledView(db: Database, fwd: bool, f: Front, t: nat)
    requires OrderedFront(fwd, f) && f.ts != [] && Covers(db, fwd, f, f.ts[0].key)
    requires t < |db.nodes| && IsItem(db.dup, f.ts[0], db.nodes[t])
    ensures f.ts[0].key in Keys(f) && ShowsAt(db, fwd, f, f.ts[0].key) == Lines(View(db, f.ts[0].key))
  {
    var x := f.ts[0].key;
    assert f.ts[0] in f.ts;
    ReachIs(fwd, f, x);
    var g := Reach(fwd, f, x);
    if BtreeFirst(fwd, g) {
      var i :| 0 <= i < |db.btree| && db.btree[i] == g.bs[0];
      RecsOfEntry(db.btree, i);
    } else {
      NoEntry(db, fwd, f, x, x);
    }
    TxnShowsView(db, fwd, g, t);
  }

  /** It then shows the records of this node with all its operations, those of
      other open transactions included. */
  lemma CoupledRow(db: Database, fwd: bool, f: Front, t: nat, r: Row)
    requires OrderedFront(fwd, f) && f.bs != [] && f.ts != [] && Prior(fwd, f.bs[0].key, f.ts[0].key) &&
             r.key == f.ts[0].key
    requires forall i :: 0 < i < |f.bs| && Prior(fwd, f.bs[i].key, f.ts[0].key) ==>
             f.bs[i].key !in ForeignKeys(db.nodes)
    requires Covers(db, fwd, f, r.key) && t < |db.nodes| && IsItem(db.dup, f.ts[0], db.nodes[t])
    ensures OnTrail(db, fwd, f, r) <==> InView(db, r) && !Blocked(db, fwd, f.bs, r.key)
  {
    CoupledShown(db, fwd, f, r);
    CoupledView(db, fwd, f, t);
  }

  lemma EdgeRow(db: Database, fwd: bool, r: Row)
    requires ForeignEdge(db, fwd) && r.key == db.nodes[Edge(|db.nodes|, fwd)].key && !Refused(db, fwd)
    ensures var f := StartFront(db, fwd);
            && OrderedFront(fwd, f) && !Empty(f) && Head(fwd, f) != r.key
            && (OnTrail(db, fwd, f, r) <==> InView(db, r) && !Blocked(db, fwd, f.bs, r.key))
  {
    var f := StartFront(db, fwd);
    StartSound(db, fwd);
    StartCovers(db, fwd, r.key);
    StartItem(db, fwd);
    forall i | 0 <= i < |f.bs| && Prior(fwd, f.bs[i].key, f.ts[0].key) ensures f.bs[i].key !in ForeignKeys(db.nodes) {
      ForeignExact(db, f.bs[i].key);
    }
    CoupledRow(db, fwd, f, Edge(|db.nodes|, fwd), r);
  }

  /** A walk from one end shows the key of the outermost node, which another open
      transaction was the last to write, exactly if the btree has a key outside of
      it and the nearest btree key is not blocked; it then shows the records as the
      open operations leave them. */
  lemma EdgeLeak(db: Database, fwd: bool, r: Row)
    requires ForeignEdge(db, fwd) && r.key == db.nodes[Edge(|db.nodes|, fwd)].key
    ensures r in StartTrip(db, fwd).rows <==>
            !Refused(db, fwd) && InView(db, r) && !Blocked(db, fwd, StartFront(db, fwd).bs, r.key)
  {
    WalkMeaning(db, fwd);
    if !Refused(db, fwd) {
      EdgeRow(db, fwd, r);
      HeadRow(db, fwd, r);
    }
  }

  /** Between a btree key and the node that is located from it, no other open
      transaction was the last to write. */
  lemma PassedAreErased(db: Database, fwd: bool, x: Key, y: Key)
    requires NodeAt(db, fwd, x) >= 0 && Prior(fwd, x, y) && Prior(fwd, y, db.nodes[NodeAt(db, fwd, x)].key)
    ensures y !in ForeignKeys(db.nodes)
  {
    ForeignExact(db, y);
    NodeAtIs(db, fwd, x);
    var n, t := NodeOf(db.nodes, y), NodeAt(db, fwd, x);
    assert n >= 0 ==> Prior(fwd, n, t);
  }

  /** After a lookup of a btree key, the next moves show a key whose node another
      open transaction was the last to write, under the same condition: the node
      is the first one in the direction that is not erased. */
  lemma LookupLeak(db: Database, fwd: bool, b: nat, r: Row)
    requires b < |db.btree| && NodeOf(db.nodes, db.btree[b].key) == -1
    requires var t := NodeAt(db, fwd, db.btree[b].key); t >= 0 && Foreign(db.nodes[t]) && r.key == db.nodes[t].key
    ensures r in Trail(db, fwd, SyncFront(db, fwd, b)).rows <==>
            InView(db, r) && !Blocked(db, fwd, SyncFront(db, fwd, b).bs, r.key)
  {
    var f, x := SyncFront(db, fwd, b), db.btree[b].key;
    EntrySynced(db, fwd, b);
    TrailMeaning(db, fwd, f);
    assert Prior(fwd, x, r.key) by {
      NodeAtIs(db, fwd, x);
    }
    CoversLess(db, fwd, f, x, r.key);
    forall i | 0 < i < |f.bs| && Prior(fwd, f.bs[i].key, f.ts[0].key) ensures f.bs[i].key !in ForeignKeys(db.nodes) {
      assert Prior(fwd, f.bs[0].key, f.bs[i].key);
      PassedAreErased(db, fwd, x, f.bs[i].key);
    }
    CoupledRow(db, fwd, f, NodeAt(db, fwd, x), r);
  }

  // ---- isolation ----

  /** A walk should show the records of the keys that no other open transaction
      was the last to write, and no others. */
  ghost predicate Untouched(db: Database, r: Row) { r.key !in ForeignKeys(db.nodes) && InView(db, r) }

  /** The rows are the untouched ones behind key x. */
  ghost predicate UntouchedBehind(db: Database, fwd: bool, x: Key, rows: seq<Row>) {
    forall r :: r in rows <==> Untouched(db, r) && Prior(fwd, x, r.key)
  }

  /** The condition for one key. If another open transaction was the last to write
      it, it is jumped over or has nothing to show; otherwise it is jumped over only
      if it has no records, and it is not hidden. */
  ghost predicate IsolatesKey(db: Database, fwd: bool, f: Front, x: Key)
    requires OrderedFront(fwd, f) && x in Keys(f)
  {
    var foreign := ForeignKeys(db.nodes);
    if x in foreign then Jumped(fwd, f, foreign, x) || ShowsAt(db, fwd, f, x) == Lines([])
    else if Jumped(fwd, f, foreign, x) then View(db, x) == []
    else !Hidden(db, f, x)
  }

  /** The condition for all keys behind the first one. */
  ghost predicate Isolates(db: Database, fwd: bool, f: Front) {
    !Empty(f) ==> OrderedFront(fwd, f) && forall x :: x in Keys(f) && x != Head(fwd, f) ==> IsolatesKey(db, fwd, f, x)
  }

  /** If the condition holds, no key stops the walk. */
  lemma IsolatesNoStop(db: Database, fwd: bool, f: Front, x: Key)
    requires !Empty(f) && OrderedFront(fwd, f) && Isolates(db, fwd, f)
    ensures !Stops(db, fwd, f, x)
  {
    if Stops(db, fwd, f, x) {
      assert IsolatesKey(db, fwd, f, x);
      ReachIs(fwd, f, x);
      NoConflictHere(db, fwd, Reach(fwd, f, x));
    }
  }

  /** If no key stops the walk, a row is on it if its key is come to. */
  lemma OnTrailCalm(db: Database, fwd: bool, f: Front, r: Row)
    requires !Empty(f) && OrderedFront(fwd, f) && forall y :: !Stops(db, fwd, f, y)
    ensures OnTrail(db, fwd, f, r) <==>
            && r.key in Keys(f) && r.key != Head(fwd, f) && !Jumped(fwd, f, ForeignKeys(db.nodes), r.key)
            && InLines(r, ShowsAt(db, fwd, f, r.key))
  {
    assert !StopsBefore(db, fwd, f, r.key);
  }

  lemma IsolatedRow(db: Database, fwd: bool, f: Front, x: Key, r: Row)
    requires Aimed(db, fwd, f, x) && Isolates(db, fwd, f)
    ensures OnTrail(db, fwd, f, r) <==> Untouched(db, r) && Prior(fwd, x, r.key)
  {
    forall y ensures !Stops(db, fwd, f, y) {
      IsolatesNoStop(db, fwd, f, y);
    }
    OnTrailCalm(db, fwd, f, r);
    DropKeys(fwd, f);
    if Prior(fwd, x, r.key) {
      if r.key in Keys(f) {
        assert IsolatesKey(db, fwd, f, r.key);
        if r.key !in ForeignKeys(db.nodes) && !Jumped(fwd, f, ForeignKeys(db.nodes), r.key) {
          ShowsView(db, fwd, f, x, r.key);
        }
      } else if r.key !in ForeignKeys(db.nodes) {
        NothingElse(db, fwd, f, x, r.key);
      }
    }
  }

  /** A key that is come to, and has something to show, is shown. */
  lemma ComeToIsShown(db: Database, fwd: bool, f: Front, x: Key)
    requires !Empty(f) && OrderedFront(fwd, f) && Sound(db, fwd, f) && x in Keys(f) && x != Head(fwd, f)
    requires forall y :: !Stops(db, fwd, f, y)
    requires !Jumped(fwd, f, ForeignKeys(db.nodes), x) && ShowsAt(db, fwd, f, x) != Lines([])
    ensures ShowsAt(db, fwd, f, x).Lines? && OnTrail(db, fwd, f, Row(x, 1, ShowsAt(db, fwd, f, x).recs[0]))
  {
    NeverAlias(db, fwd, f, x);
    assert !Stops(db, fwd, f, x);
    OnTrailCalm(db, fwd, f, Row(x, 1, ShowsAt(db, fwd, f, x).recs[0]));
  }

  /** If the condition fails at a key, a row is shown that should not be, or one is
      missing. */
  lemma Deviation(db: Database, fwd: bool, f: Front, x: Key, y: Key) returns (r: Row)
    requires Aimed(db, fwd, f, x) && y in Keys(f) && y != x && forall z :: !Stops(db, fwd, f, z)
    requires !IsolatesKey(db, fwd, f, y)
    ensures OnTrail(db, fwd, f, r) <==> !(Untouched(db, r) && Prior(fwd, x, r.key))
  {
    DropKeys(fwd, f);
    if Jumped(fwd, f, ForeignKeys(db.nodes), y) {
      r := Row(y, 1, View(db, y)[0]);
    } else {
      if y !in ForeignKeys(db.nodes) {
        HiddenShows(db, fwd, f, x, y);
      }
      ComeToIsShown(db, fwd, f, y);
      r := Row(y, 1, ShowsAt(db, fwd, f, y).recs[0]);
    }
  }

  /** From any front that is aimed: the walk shows exactly the untouched rows behind
      its first key, and ends without a conflict, if and only if the condition
      holds. */
  lemma TrailIsolated(db: Database, fwd: bool, f: Front, x: Key)
    requires Aimed(db, fwd, f, x)
    ensures var e := Trail(db, fwd, f);
            (e.st == KeyNotFound && UntouchedBehind(db, fwd, x, e.rows)) <==> Isolates(db, fwd, f)
  {
    var e := Trail(db, fwd, f);
    TrailMeaning(db, fwd, f);
    if Isolates(db, fwd, f) {
      forall y ensures !Stops(db, fwd, f, y) {
        IsolatesNoStop(db, fwd, f, y);
      }
      forall r ensures r in e.rows <==> Untouched(db, r) && Prior(fwd, x, r.key) {
        IsolatedRow(db, fwd, f, x, r);
      }
    } else if e.st == KeyNotFound {
      var y :| y in Keys(f) && y != Head(fwd, f) && !IsolatesKey(db, fwd, f, y);
      var r := Deviation(db, fwd, f, x, y);
      assert r in e.rows <==> OnTrail(db, fwd, f, r);
    }
  }

  lemma ForeignHeadRefused(db: Database, fwd: bool)
    requires !Empty(StartFront(db, fwd))
    ensures Head(fwd, StartFront(db, fwd)) in ForeignKeys(db.nodes) <==> Refused(db, fwd)
  {
    var f, t := StartFront(db, fwd), Edge(|db.nodes|, fwd);
    var x := Head(fwd, f);
    ForeignExact(db, x);
    if TxnFirst(fwd, f) {
      NodeOfNode(db.nodes, t);
    } else {
      forall n | 0 <= n < |db.nodes| ensures db.nodes[n].key != x {
        assert f.ts != [] && f.ts[0].key == db.nodes[t].key;
      }
    }
  }

  lemma HeadRow(db: Database, fwd: bool, r: Row)
    requires !Empty(StartFront(db, fwd)) && OrderedFront(fwd, StartFront(db, fwd))
    ensures var f := StartFront(db, fwd);
            && Head(fwd, f) in Keys(f)
            && (r in ArrivalRows(fwd, Head(fwd, f), Shows(db, fwd, f)) <==>
                r.key == Head(fwd, f) && InLines(r, ShowsAt(db, fwd, f, Head(fwd, f))))
  {
    var f := StartFront(db, fwd);
    DropKeys(fwd, f);
    ReachHead(fwd, f);
    StartShows(db, fwd);
    InRows(fwd, Head(fwd, f), Shows(db, fwd, f).recs, r);
  }

  /** A walk from one end, split into the rows of the first key and the others. */
  lemma StartRows(db: Database, fwd: bool, x: Key, r: Row)
    requires !Empty(StartFront(db, fwd)) && x == Head(fwd, StartFront(db, fwd)) && x !in ForeignKeys(db.nodes)
    ensures var e, t := StartTrip(db, fwd), Trail(db, fwd, StartFront(db, fwd));
            && e.st == t.st && (r in e.rows <==> (r.key == x && InView(db, r)) || r in t.rows)
  {
    var f := StartFront(db, fwd);
    StartSound(db, fwd);
    StartCovers(db, fwd, x);
    StartNotHidden(db, fwd, x);
    HeadRow(db, fwd, r);
    ShowsView(db, fwd, f, x, x);
    ForeignHeadRefused(db, fwd);
    ReachHead(fwd, f);
  }

  /** Both halves of the walk agree on what is shown that should be. */
  lemma StartUntouched(db: Database, fwd: bool, x: Key, r: Row)
    requires !Empty(StartFront(db, fwd)) && x == Head(fwd, StartFront(db, fwd)) && x !in ForeignKeys(db.nodes)
    requires AllBehind(fwd, x, Trail(db, fwd, StartFront(db, fwd)).rows)
    ensures (r in StartTrip(db, fwd).rows <==> Untouched(db, r)) <==>
            (r in Trail(db, fwd, StartFront(db, fwd)).rows <==> Untouched(db, r) && Prior(fwd, x, r.key))
  {
    StartRows(db, fwd, x, r);
    if Prior(fwd, r.key, x) {
      NothingOutside(db, fwd, r.key);
    }
  }

  /** A walk from one end shows exactly the records of the keys that no other open
      transaction was the last to write, and ends without a conflict, if and only
      if it begins at such a key and the condition holds for all others. */
  lemma IsolationExact(db: Database, fwd: bool)
    ensures var e, f := StartTrip(db, fwd), StartFront(db, fwd);
            (e.st == KeyNotFound && forall r :: r in e.rows <==> Untouched(db, r)) <==>
            (!Empty(f) ==> Head(fwd, f) !in ForeignKeys(db.nodes)) && Isolates(db, fwd, f)
  {
    var e, f := StartTrip(db, fwd), StartFront(db, fwd);
    if Empty(f) {
      forall r ensures !Untouched(db, r) {
        NothingOutside(db, fwd, r.key);
      }
    } else if Head(fwd, f) in ForeignKeys(db.nodes) {
      ForeignHeadRefused(db, fwd);
    } else {
      var x := Head(fwd, f);
      StartSound(db, fwd);
      StartCovers(db, fwd, x);
      TrailIsolated(db, fwd, f, x);
      TrailIsBehind(db, fwd, f);
      StartRows(db, fwd, x, Row(x, 0, 0));
      forall r ensures (r in e.rows <==> Untouched(db, r)) <==>
                       (r in Trail(db, fwd, f).rows <==> Untouched(db, r) && Prior(fwd, x, r.key))
      {
        StartUntouched(db, fwd, x, r);
      }
    }
  }

  // ---- after a lookup ----

  /** Where the next move starts after a lookup of key x: the btree cursor at the
      nearest key, the transaction cursor at the nearest node that is not erased. */
  function LookupFront(db: Database, fwd: bool, x: Key): Front {
    var t := NodeAt(db, fwd, x);
    FrontOf(db, fwd, EntryAt(db.btree, fwd, x), t, if t == -1 then 0 else |db.nodes[t].ops| - 1)
  }

  /** The node of a key with records is the one that is located. */
  lemma NodeLocated(db: Database, fwd: bool, n: nat)
    requires n < |db.nodes| && View(db, db.nodes[n].key) != []
    ensures NodeAt(db, fwd, db.nodes[n].key) == n
  {
    var x := db.nodes[n].key;
    var t := NodeAt(db, fwd, x);
    NodeOfNode(db.nodes, n);
    NodeAtIs(db, fwd, x);
    if ErasedNode(db.nodes[n]) {
      ErasedViewEmpty(db.dup, db.nodes[n], RecsOf(db.btree, x));
    }
    assert !Prior(fwd, n, t) && !Prior(fwd, t, n);
  }

  /** The states after a lookup. */
  ghost function FoundStates(cur: LocalCursor): iset<State> {
    iset c: State |
      && cur.Placed(c) && cur.ShownKey(c) !in ForeignKeys(cur.db.nodes)
      && cur.List(c) == View(cur.db, cur.ShownKey(c)) && cur.Place(c) == 1
      && (c.side == Txn && !cur.db.dup ==> c.op == |cur.db.nodes[c.t].ops| - 1)
  }

  ghost predicate Found(cur: LocalCursor)
    reads cur
  {
    cur.lastOp == LookupOrInsert && cur.c in FoundStates(cur)
  }

  lemma CoupledLookup(db: Database, fwd: bool, t: nat, op: nat)
    requires t < |db.nodes| && op < |db.nodes[t].ops| && View(db, db.nodes[t].key) != []
    requires !db.dup ==> op == |db.nodes[t].ops| - 1
    ensures var x := db.nodes[t].key;
            FrontOf(db, fwd, EntryAt(db.btree, fwd, x), t, op) == LookupFront(db, fwd, x)
  {
    NodeLocated(db, fwd, t);
  }

  lemma PreparedByLookup(cur: LocalCursor, fwd: bool)
    requires Found(cur)
    ensures cur.Prepared(cur.c, fwd) == LookupFront(cur.db, fwd, cur.ShownKey(cur.c))
  {
    if cur.c.side == Txn {
      CoupledLookup(cur.db, fwd, cur.c.t, cur.c.op);
    } else {
      EntryFound(cur.db, fwd, cur.c.b);
    }
  }

  lemma EntryLookup(db: Database, fwd: bool, x: Key)
    requires RecsOf(db.btree, x) != []
    ensures var b := EntryAt(db.btree, fwd, x);
            b >= 0 && db.btree[b].key == x && LookupFront(db, fwd, x) == SyncFront(db, fwd, b)
  {
    var i :| 0 <= i < |db.btree| && db.btree[i].key == x;
    EntryFound(db, fwd, i);
  }

  lemma NodeLookup(db: Database, fwd: bool, n: nat)
    requires n < |db.nodes| && View(db, db.nodes[n].key) != []
    ensures var x, op := db.nodes[n].key, |db.nodes[n].ops| - 1;
            && op >= 0 && LookupFront(db, fwd, x) == FrontOf(db, fwd, EntryAt(db.btree, fwd, x), n, op)
            && IsItem(db.dup, ItemAt(db, n, op), db.nodes[n])
  {
    NodeLocated(db, fwd, n);
  }

  lemma LookupAimed(db: Database, fwd: bool, x: Key)
    requires View(db, x) != []
    ensures Aimed(db, fwd, LookupFront(db, fwd, x), x)
  {
    var n := NodeOf(db.nodes, x);
    if n >= 0 {
      NodeLookup(db, fwd, n);
      NodeSynced(db, fwd, n, |db.nodes[n].ops| - 1);
    } else {
      EntryLookup(db, fwd, x);
      EntrySynced(db, fwd, EntryAt(db.btree, fwd, x));
    }
  }

  lemma ListByLookup(cur: LocalCursor, fwd: bool)
    requires Found(cur)
    ensures cur.PreparedList(cur.c, fwd) == cur.List(cur.c)
  {
    if cur.db.dup && cur.c.side == Btree {
      SyncListIsView(cur.db, fwd, cur.c.b);
    }
  }

  /** What moves in one direction show after a lookup of key x: its further
      duplicates, and what lies behind it. */
  function LookupTrip(db: Database, fwd: bool, x: Key): Trip
    requires !Empty(LookupFront(db, fwd, x))
  {
    var t := Trail(db, fwd, LookupFront(db, fwd, x)); Trip(Rest(fwd, x, View(db, x), 1) + t.rows, t.st)
  }

  /** After a lookup of key x, the moves in one direction show exactly the untouched
      rows behind its first duplicate, and end without a conflict, if and only if
      the condition holds. */
  lemma LookupIsolated(db: Database, fwd: bool, x: Key)
    requires View(db, x) != [] && x !in ForeignKeys(db.nodes)
    ensures !Empty(LookupFront(db, fwd, x))
    ensures var e, r0 := LookupTrip(db, fwd, x), Row(x, 1, View(db, x)[0]);
            (e.st == KeyNotFound && forall r :: r in e.rows <==> Untouched(db, r) && RowBefore(fwd, r0, r)) <==>
            Isolates(db, fwd, LookupFront(db, fwd, x))
  {
    LookupAimed(db, fwd, x);
    var f, e, r0 := LookupFront(db, fwd, x), LookupTrip(db, fwd, x), Row(x, 1, View(db, x)[0]);
    TrailIsolated(db, fwd, f, x);
    TrailIsBehind(db, fwd, f);
    forall r ensures (r in e.rows <==> Untouched(db, r) && RowBefore(fwd, r0, r)) <==>
                     (r in Trail(db, fwd, f).rows <==> Untouched(db, r) && Prior(fwd, x, r.key))
    {
      InRest(fwd, x, View(db, x), 1, r);
    }
  }

  /** The lookup and the moves. */
  method WalkFrom(cur: LocalCursor, x: Key, fwd: bool) returns (st: Status, rows: seq<Row>, end: Status)
    requires NodeOf(cur.db.nodes, x) == -1 || InRangeNode(cur.db, NodeOf(cur.db.nodes, x))
    modifies cur
    ensures st == Ok <==> x !in ForeignKeys(cur.db.nodes) && View(cur.db, x) != []
    ensures st == Ok ==> !Empty(LookupFront(cur.db, fwd, x)) && Trip(rows, end) == LookupTrip(cur.db, fwd, x)
  {
    st := cur.Lookup(x);
    rows, end := [], st;
    if st == Ok {
      assert Found(cur);
      LookupAimed(cur.db, fwd, x);
      PreparedByLookup(cur, fwd);
      ListByLookup(cur, fwd);
      StartIs(cur, fwd);
      ExpectIsComing(cur, fwd);
      TrailMeaning(cur.db, fwd, LookupFront(cur.db, fwd, x));
      rows, end := cur.MoveOn(fwd);
    }
  }

  // ---- the smallest cases ----

  /** Key 1 in the btree, key 2 inserted by another open transaction: FIRST and
      NEXT read the insert, and so does NEXT after a lookup of key 1. */
  lemma DirtyRead(db: Database)
    requires db == Db(false, [Entry(1, [10])], [Node(2, [Op(Actions.Insert(20), false)])])
    ensures Row(2, 1, 20) in StartTrip(db, true).rows
    ensures Row(2, 1, 20) in Trail(db, true, SyncFront(db, true, 0)).rows
  {
    EdgeLeak(db, true, Row(2, 1, 20));
    assert EntriesFrom(true, StartFront(db, true).bs, 2) == [] by {
      assert StartFront(db, true).bs == [Entry(1, [10])];
    }
    assert NodeAt(db, true, 1) == 0;
    LookupLeak(db, true, 0, Row(2, 1, 20));
    assert EntriesFrom(true, SyncFront(db, true, 0).bs, 2) == [] by {
      assert SyncFront(db, true, 0).bs == [Entry(1, [10])];
    }
  }

  /** Key 5 in the btree, key 2 inserted by another open transaction: LAST and
      PREVIOUS read the insert. */
  lemma DirtyReadBackward(db: Database)
    requires db == Db(false, [Entry(5, [50])], [Node(2, [Op(Actions.Insert(20), false)])])
    ensures Row(2, 1, 20) in StartTrip(db, false).rows
  {
    EdgeLeak(db, false, Row(2, 1, 20));
    assert EntriesFrom(false, StartFront(db, false).bs, 2) == [] by {
      assert StartFront(db, false).bs == [Entry(5, [50])];
    }
  }

  /** A walk passes over the key of the first node if the outermost btree key lies
      outside of it and the next one behind it is written by another open
      transaction. */
  lemma FirstNodePassedOver(db: Database, fwd: bool, r: Row)
    requires var f := StartFront(db, fwd);
             && |f.bs| > 1 && f.ts != [] && Prior(fwd, f.bs[0].key, f.ts[0].key) && Prior(fwd, f.ts[0].key, f.bs[1].key)
             && f.bs[1].key in ForeignKeys(db.nodes) && r.key == f.ts[0].key
    ensures !OnWalk(db, fwd, r)
  {
    var f, foreign := StartFront(db, fwd), ForeignKeys(db.nodes);
    StartSound(db, fwd);
    BtreeMoves(fwd, f, foreign);
    DropOrdered(fwd, f);
    DropKeys(fwd, Drop(fwd, f));
    JumpedDrop(fwd, f, foreign, r.key);
    StartShows(db, fwd);
    InRows(fwd, Head(fwd, f), Shows(db, fwd, f).recs, r);
  }

  /** Keys 1 and 5 in the btree, key 3 committed, key 5 erased by another open
      transaction. */
  predicate ErasedBehindDb(db: Database) {
    db == Db(false, [Entry(1, [10]), Entry(5, [50])],
             [Node(3, [Op(Actions.Insert(30), true)]), Node(5, [Op(Actions.Erase(0), false)])])
  }

  lemma ErasedBehind(db: Database)
    requires ErasedBehindDb(db)
    ensures Untouched(db, Row(3, 1, 30)) && 5 in ForeignKeys(db.nodes)
  {
    NodeOfNode(db.nodes, 0);
    NodeOfNode(db.nodes, 1);
    ForeignExact(db, 3);
    ForeignExact(db, 5);
  }

  /** FIRST and NEXT pass over key 3. */
  lemma UntouchedPassedOver(db: Database)
    requires ErasedBehindDb(db)
    ensures Untouched(db, Row(3, 1, 30)) && Row(3, 1, 30) !in StartTrip(db, true).rows
  {
    ErasedBehind(db);
    assert StartFront(db, true).bs == db.btree && StartFront(db, true).ts[0].key == 3;
    FirstNodePassedOver(db, true, Row(3, 1, 30));
    WalkMeaning(db, true);
  }

  /** Three keys in the btree, the middle one written by another open transaction,
      and the first one of the walk by this reader. */
  predicate BetweenDb(db: Database, fwd: bool) {
    var mine := Node(if fwd then 1 else 9, [Op(Actions.Overwrite(77, 0), true)]);
    var other := Node(5, [Op(Actions.Overwrite(51, 0), false)]);
    db == Db(false, [Entry(1, [10]), Entry(5, [50]), Entry(9, [90])], if fwd then [mine, other] else [other, mine])
  }

  lemma BetweenFront(db: Database, fwd: bool)
    requires BetweenDb(db, fwd)
    ensures ForeignKeys(db.nodes) == {5} && !Refused(db, fwd)
    ensures var f, x, y := StartFront(db, fwd), if fwd then 0 else 2, if fwd then 2 else 0;
            && f.bs == [db.btree[x], db.btree[1], db.btree[y]] && |f.ts| == 1 && f.ts[0].key == db.btree[x].key
            && f.ts[0].act == Actions.Overwrite(77, 0)
  {
    var t := if fwd then 0 else 1;
    assert NewestMine(db.nodes[1 - t].ops) == -1;
    assert ItemsOn(db, fwd, Beside(fwd, t)) == [] by {
      assert ItemsOn(db, fwd, Beside(fwd, Beside(fwd, t))) == [];
    }
    EntriesAre(db.btree, fwd, Edge(3, fwd));
    assert Foreign(db.nodes[1 - t]) && db.nodes[1 - t] in db.nodes && !Foreign(db.nodes[t]);
  }

  /** Going forward the other transaction's key is passed over; going backward, in
      the mirrored case, the walk ends there with a conflict. */
  lemma DirectionsDiffer(db: Database, back: Database)
    requires BetweenDb(db, true) && BetweenDb(back, false)
    ensures StartTrip(db, true) == Trip([Row(1, 1, 77), Row(9, 1, 90)], KeyNotFound)
    ensures StartTrip(back, false) == Trip([Row(9, 1, 77)], TxnConflict)
  {
    BetweenFront(db, true);
    BetweenForward(db, StartFront(db, true));
    BetweenFront(back, false);
    BetweenBackward(back, StartFront(back, false));
  }

  lemma BetweenForward(db: Database, f: Front)
    requires BetweenDb(db, true) && ForeignKeys(db.nodes) == {5}
    requires f.bs == db.btree && |f.ts| == 1 && f.ts[0].key == 1 && f.ts[0].act == Actions.Overwrite(77, 0)
    ensures Arrival(db, true, f) == Trip([Row(1, 1, 77), Row(9, 1, 90)], KeyNotFound)
  {
    var g := Front(f.bs[1..], []);
    var h := Front(f.bs[2..], []);
    assert Drop(true, f) == g && Jump(true, f, {5}) && Drop(true, g) == h;
    assert !Jump(true, g, {5});
    TrailDrop(db, true, f);
    TrailDrop(db, true, g);
    TrailDrop(db, true, h);
    assert Drop(true, h) == Front([], []);
    assert NodeOf(db.nodes, 9) == -1 && Shows(db, true, h) == Lines([90]);
    OneRow(true, 9, 90);
    OneRow(true, 1, 77);
    assert Shows(db, true, f) == Lines([77]);
  }

  lemma BetweenBackward(db: Database, f: Front)
    requires BetweenDb(db, false) && ForeignKeys(db.nodes) == {5}
    requires f.bs == [db.btree[2], db.btree[1], db.btree[0]] && |f.ts| == 1 && f.ts[0].key == 9
    requires f.ts[0].act == Actions.Overwrite(77, 0)
    ensures Arrival(db, false, f) == Trip([Row(9, 1, 77)], TxnConflict)
  {
    var g := Front(f.bs[1..], []);
    assert Drop(false, f) == g && !Jump(false, f, {5});
    TrailDrop(db, false, f);
    assert NodeOf(db.nodes, 5) == 0 && Shows(db, false, g) == Conflict;
    OneRow(false, 9, 77);
    assert Shows(db, false, f) == Lines([77]);
  }

  /** A key of the reader outside of the btree, whose outermost key is written by
      another open transaction. */
  predicate OutsideDb(db: Database, fwd: bool) {
    var mine := Node(if fwd then 1 else 9, [Op(Actions.Insert(77), true)]);
    var other := Node(5, [Op(Actions.Overwrite(51, 0), false)]);
    if fwd then db == Db(false, [Entry(5, [50]), Entry(9, [90])], [mine, other])
    else db == Db(false, [Entry(1, [10]), Entry(5, [50])], [other, mine])
  }

  lemma OutsideFront(db: Database, fwd: bool)
    requires OutsideDb(db, fwd)
    ensures ForeignKeys(db.nodes) == {5} && !Refused(db, fwd)
    ensures var f := StartFront(db, fwd);
            && |f.bs| == 2 && f.bs[0].key == 5 && f.bs[1] == (if fwd then Entry(9, [90]) else Entry(1, [10]))
            && |f.ts| == 1 && f.ts[0].key == (if fwd then 1 else 9) && f.ts[0].act == Actions.Insert(77)
  {
    var t := if fwd then 0 else 1;
    assert NewestMine(db.nodes[1 - t].ops) == -1;
    assert ItemsOn(db, fwd, Beside(fwd, t)) == [] by {
      assert ItemsOn(db, fwd, Beside(fwd, Beside(fwd, t))) == [];
    }
    EntriesAre(db.btree, fwd, Edge(2, fwd));
    assert Foreign(db.nodes[1 - t]) && db.nodes[1 - t] in db.nodes && !Foreign(db.nodes[t]);
  }

  /** Here it is the other way round: going forward the walk ends with a conflict, and
      going backward the other transaction's key is passed over. */
  lemma DirectionsDifferAgain(db: Database, back: Database)
    requires OutsideDb(db, true) && OutsideDb(back, false)
    ensures StartTrip(db, true) == Trip([Row(1, 1, 77)], TxnConflict)
    ensures StartTrip(back, false) == Trip([Row(9, 1, 77), Row(1, 1, 10)], KeyNotFound)
  {
    OutsideFront(db, true);
    OutsideForward(db, StartFront(db, true));
    OutsideFront(back, false);
    OutsideBackward(back, StartFront(back, false));
  }

  lemma OutsideForward(db: Database, f: Front)
    requires OutsideDb(db, true) && ForeignKeys(db.nodes) == {5}
    requires |f.bs| == 2 && f.bs[0].key == 5 && |f.ts| == 1 && f.ts[0].key == 1 && f.ts[0].act == Actions.Insert(77)
    ensures Arrival(db, true, f) == Trip([Row(1, 1, 77)], TxnConflict)
  {
    var g := Front(f.bs, []);
    assert Drop(true, f) == g && !Jump(true, f, {5});
    TrailDrop(db, true, f);
    assert NodeOf(db.nodes, 5) == 1 && Shows(db, true, g) == Conflict;
    OneRow(true, 1, 77);
    assert Shows(db, true, f) == Lines([77]);
  }

  lemma OutsideBackward(db: Database, f: Front)
    requires OutsideDb(db, false) && ForeignKeys(db.nodes) == {5}
    requires |f.bs| == 2 && f.bs[0].key == 5 && f.bs[1] == Entry(1, [10])
    requires |f.ts| == 1 && f.ts[0].key == 9 && f.ts[0].act == Actions.Insert(77)
    ensures Arrival(db, false, f) == Trip([Row(9, 1, 77), Row(1, 1, 10)], KeyNotFound)
  {
    var g := Front(f.bs, []);
    var h := Front(f.bs[1..], []);
    assert Drop(false, f) == g && Jump(false, f, {5}) && Drop(false, g) == h;
    assert !Jump(false, g, {5});
    TrailDrop(db, false, f);
    TrailDrop(db, false, g);
    TrailDrop(db, false, h);
    assert Drop(false, h) == Front([], []);
    assert NodeOf(db.nodes, 1) == -1 && Shows(db, false, h) == Lines([10]);
    OneRow(false, 1, 10);
    OneRow(false, 9, 77);
    assert Shows(db, false, f) == Lines([77]);
  }

  lemma OneRow(fwd: bool, x: Key, r: Rec)
    ensures RowsOf(fwd, x, [r]) == [Row(x, 1, r)]
  {
    RestIs(fwd, x, [r], if fwd then 0 else 2);
  }

  /** Keys 1 and 2 in the btree; key 2 erased and key 5 inserted in a committed
      transaction, with duplicate keys. */
  predicate ErasedDb(db: Database) {
    db == Db(true, [Entry(1, [10]), Entry(2, [20])],
             [Node(2, [Op(Actions.Erase(0), true)]), Node(5, [Op(Actions.Insert(50), true)])])
  }

  lemma ErasedFront(db: Database)
    requires ErasedDb(db)
    ensures Undisturbed(db)
    ensures var f := SyncFront(db, true, 0); f.bs == db.btree && f.ts == [ItemAt(db, 1, 0)]
    ensures Aimed(db, true, SyncFront(db, true, 0), 1)
  {
    assert NodeAt(db, true, 1) == 1;
    EntrySynced(db, true, 0);
  }

  lemma ErasedHidden(db: Database, f: Front)
    requires ErasedDb(db) && f.bs == db.btree && f.ts == [ItemAt(db, 1, 0)]
    ensures Hidden(db, f, 2) && Head(true, f) == 1
  {
    assert f.bs[1] in f.bs && f.bs[1].key == 2;
    assert NodeOf(db.nodes, 2) == 0;
  }

  /** A hidden key is among the rows of the trail. */
  lemma HiddenOnTrail(db: Database, fwd: bool, f: Front, y: Key)
    requires Undisturbed(db) && !Empty(f) && Aimed(db, fwd, f, Head(fwd, f))
    requires Prior(fwd, Head(fwd, f), y) && Hidden(db, f, y)
    ensures View(db, y) == [] && RecsOf(db.btree, y) != []
    ensures Row(y, 1, RecsOf(db.btree, y)[0]) in Trail(db, fwd, f).rows
  {
    TrailShowsHidden(db, fwd, f, y);
    TrailMeaning(db, fwd, f);
  }

  /** NEXT after a lookup of key 1 shows the erased key 2. */
  lemma ErasedShown(db: Database)
    requires ErasedDb(db)
    ensures Undisturbed(db) && View(db, 2) == [] && Row(2, 1, 20) in Trail(db, true, SyncFront(db, true, 0)).rows
  {
    var f := SyncFront(db, true, 0);
    ErasedFront(db);
    ErasedHidden(db, f);
    HiddenOnTrail(db, true, f, 2);
    assert RecsOf(db.btree, 2) == [20] by {
      RecsOfEntry(db.btree, 1);
    }
  }
}
