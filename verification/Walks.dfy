/** What the walks of a cursor show, in terms of the two trees: the view of a
    reader without other open transactions, and the exact deviations from it. */
module Walks {
  import opened Trees
  import opened MergeWalk
  import opened Fronts
  import opened Cursor

  // ---- what there is to show at a key ----

  /** The front at key x begins with the entry and the item of x, if there are
      any. */
  lemma {:induction false} ReachIs(fwd: bool, f: Front, x: Key)
    requires OrderedFront(fwd, f) && x in Keys(f)
    ensures var g := Reach(fwd, f, x);
            && !Empty(g) && Head(fwd, g) == x
            && (BtreeFirst(fwd, g) <==> x in EntryKeys(f.bs)) &&
              (BtreeFirst(fwd, g) ==> g.bs[0] in f.bs && g.bs[0].key == x)
            && (TxnFirst(fwd, g) <==> x in ItemKeys(f.ts)) && (TxnFirst(fwd, g) ==> g.ts[0] in f.ts && g.ts[0].key == x)
    decreases Size(f)
  {
    assert !Empty(f);
    DropKeys(fwd, f);
    DropOrdered(fwd, f);
    ReachHead(fwd, f);
    if f.bs != [] {
      EntryTail(fwd, f.bs);
    }
    if f.ts != [] {
      ItemTail(fwd, f.ts);
    }
    if x != Head(fwd, f) {
      ReachDrop(fwd, f, x);
      ReachIs(fwd, Drop(fwd, f), x);
    }
  }

  /** Nodes before index i lie before x or are erased. */
  predicate Passed(db: Db, fwd: bool, x: Key, i: int) {
    forall n :: 0 <= n < |db.nodes| && Prior(fwd, n, i) ==> Prior(fwd, db.nodes[n].key, x) || ErasedNode(db.nodes[n])
  }

  predicate AllPrior(db: Db, fwd: bool, x: Key, i: int) {
    forall n :: 0 <= n < |db.nodes| && Prior(fwd, n, i) ==> Prior(fwd, db.nodes[n].key, x)
  }

  /** Where the lookup of the transaction cursor ends: it passes over erased nodes
      only, and stays at an erased one only if it is the last. */
  lemma {:induction false} LocatedIs(db: Db, fwd: bool, x: Key, i: int, last: int)
    requires SortedNodes(db.nodes)
    requires -1 <= last < |db.nodes| && if fwd then 0 <= i <= |db.nodes| else -1 <= i < |db.nodes|
    requires Passed(db, fwd, x, i) && (last == -1 ==> AllPrior(db, fwd, x, i))
    requires last >= 0 ==> Beside(fwd, last) == i && !Prior(fwd, db.nodes[last].key, x) && ErasedNode(db.nodes[last])
    ensures var t := Located(db, fwd, x, i, last);
            && (t == -1 ==> AllPrior(db, fwd, x, if fwd then |db.nodes| else -1))
            && (t >= 0 ==> !Prior(fwd, db.nodes[t].key, x) && Passed(db, fwd, x, t))
            && (t >= 0 && ErasedNode(db.nodes[t]) ==> Beside(fwd, t) == if fwd then |db.nodes| else -1)
    decreases ToGo(|db.nodes|, fwd, i)
  {
    if 0 <= i < |db.nodes| {
      if Prior(fwd, db.nodes[i].key, x) {
        assert last == -1;
        LocatedIs(db, fwd, x, Beside(fwd, i), last);
      } else if ErasedNode(db.nodes[i]) {
        LocatedIs(db, fwd, x, Beside(fwd, i), i);
      }
    }
  }

  lemma NodeAtIs(db: Db, fwd: bool, x: Key)
    requires SortedNodes(db.nodes)
    ensures var t := NodeAt(db, fwd, x);
            && (t == -1 ==> forall n :: 0 <= n < |db.nodes| ==> Prior(fwd, db.nodes[n].key, x))
            && (t >= 0 ==> !Prior(fwd, db.nodes[t].key, x) && Passed(db, fwd, x, t))
            && (t >= 0 && ErasedNode(db.nodes[t]) ==> forall n :: 0 <= n < |db.nodes| ==> !Prior(fwd, t, n))
  {
    LocatedIs(db, fwd, x, if fwd then 0 else |db.nodes| - 1, -1);
  }

  // ---- where a front leads ----

  /** The fronts that hold everything from key x on: all btree entries, and all
      nodes that are not erased. */
  ghost function FrontsFrom(db: Db, fwd: bool, x: Key): iset<Front> {
    iset f: Front |
      && (forall e :: e in f.bs ==> e in db.btree)
      && (forall e :: e in db.btree && !Prior(fwd, e.key, x) ==> e in f.bs)
      && (forall it :: it in f.ts ==>
            it.key in ForeignKeys(db.nodes) || exists n :: n in db.nodes && IsItem(db.dup, it, n))
      && (forall n :: n in db.nodes && !Prior(fwd, n.key, x) ==> n.key in ItemKeys(f.ts) || Foreign(n) || ErasedNode(n))
  }

  ghost predicate Covers(db: Db, fwd: bool, f: Front, x: Key) { f in FrontsFrom(db, fwd, x) }

  /** The item of a node, coupled to its newest operation without duplicates. */
  predicate IsItem(dup: bool, it: Item, n: Node) {
    it.key == n.key && it.ops == n.ops && n.ops != [] && (!dup ==> it.act == n.ops[|n.ops|-1].act)
  }

  /** With duplicates, key y is erased by a node that the transaction cursor has
      passed over, and the btree still holds it. */
  ghost predicate Hidden(db: Db, f: Front, y: Key) {
    db.dup && NodeOf(db.nodes, y) >= 0 && y in EntryKeys(f.bs) && y !in ItemKeys(f.ts)
  }

  lemma TxnShowsView(db: Database, fwd: bool, g: Front, i: nat)
    requires TxnFirst(fwd, g) && i < |db.nodes| && IsItem(db.dup, g.ts[0], db.nodes[i])
    requires RecsOf(db.btree, g.ts[0].key) == if BtreeFirst(fwd, g) then g.bs[0].recs else []
    ensures Shows(db, fwd, g) == Lines(View(db, g.ts[0].key))
  {
    NodeOfNode(db.nodes, i);
  }

  lemma BtreeShowsView(db: Database, fwd: bool, g: Front)
    requires !Empty(g) && !TxnFirst(fwd, g) && RecsOf(db.btree, g.bs[0].key) == g.bs[0].recs
    requires var n := NodeOf(db.nodes, g.bs[0].key); n == -1 || (!db.dup && ErasedNode(db.nodes[n]))
    ensures Shows(db, fwd, g) == Lines(View(db, g.bs[0].key))
  {
  }

  /** A front shows the view at every key that is not hidden and that no other open
      transaction wrote last. */
  lemma ShowsView(db: Database, fwd: bool, f: Front, x: Key, y: Key)
    requires OrderedFront(fwd, f) && Covers(db, fwd, f, x) && y in Keys(f) && !Prior(fwd, y, x)
    requires y !in ForeignKeys(db.nodes) && !Hidden(db, f, y)
    ensures ShowsAt(db, fwd, f, y) == Lines(View(db, y))
  {
    ReachIs(fwd, f, y);
    var g := Reach(fwd, f, y);
    if BtreeFirst(fwd, g) {
      var i :| 0 <= i < |db.btree| && db.btree[i] == g.bs[0];
      RecsOfEntry(db.btree, i);
    } else {
      NoEntry(db, fwd, f, x, y);
    }
    if TxnFirst(fwd, g) {
      var n :| n in db.nodes && IsItem(db.dup, g.ts[0], n);
      var i :| 0 <= i < |db.nodes| && db.nodes[i] == n;
      TxnShowsView(db, fwd, g, i);
    } else {
      var i := NodeOf(db.nodes, y);
      if i >= 0 {
        assert db.nodes[i] in db.nodes;
        ForeignExact(db, y);
      }
      BtreeShowsView(db, fwd, g);
    }
  }

  lemma NoEntry(db: Database, fwd: bool, f: Front, x: Key, y: Key)
    requires Covers(db, fwd, f, x) && !Prior(fwd, y, x) && y !in EntryKeys(f.bs)
    ensures RecsOf(db.btree, y) == []
  {
    forall i | 0 <= i < |db.btree| ensures db.btree[i].key != y {
      assert db.btree[i] in db.btree;
    }
  }

  /** Keys that the front does not hold have nothing to show. */
  lemma NothingElse(db: Database, fwd: bool, f: Front, x: Key, y: Key)
    requires Covers(db, fwd, f, x) && y !in Keys(f) && !Prior(fwd, y, x) && y !in ForeignKeys(db.nodes)
    ensures View(db, y) == []
  {
    NoEntry(db, fwd, f, x, y);
    if NodeOf(db.nodes, y) >= 0 {
      var n := db.nodes[NodeOf(db.nodes, y)];
      assert n in db.nodes;
      ForeignExact(db, y);
      ErasedViewEmpty(db.dup, n, RecsOf(db.btree, y));
    }
  }

  lemma NeverStops(db: Database, fwd: bool, f: Front, x: Key)
    requires Undisturbed(db) && OrderedFront(fwd, f) && !Empty(f)
    ensures ForeignKeys(db.nodes) == {} && !Jumped(fwd, f, {}, x) && !Stops(db, fwd, f, x)
  {
    NoForeignKeys(db);
    if x in Keys(f) {
      ReachIs(fwd, f, x);
    }
  }

  lemma HiddenShows(db: Database, fwd: bool, f: Front, x: Key, y: Key)
    requires OrderedFront(fwd, f) && Covers(db, fwd, f, x) && !Prior(fwd, y, x)
    requires y !in ForeignKeys(db.nodes) && Hidden(db, f, y)
    ensures y in Keys(f) && View(db, y) == [] && RecsOf(db.btree, y) != []
    ensures ShowsAt(db, fwd, f, y) == Lines(RecsOf(db.btree, y))
  {
    ReachIs(fwd, f, y);
    var g := Reach(fwd, f, y);
    var i :| 0 <= i < |db.btree| && db.btree[i] == g.bs[0];
    RecsOfEntry(db.btree, i);
    var n := db.nodes[NodeOf(db.nodes, y)];
    assert n in db.nodes;
    ForeignExact(db, y);
    ErasedViewEmpty(db.dup, n, RecsOf(db.btree, y));
  }

  /** The rows of the view behind a key, in one direction. */
  ghost predicate ViewBehind(db: Database, fwd: bool, x: Key, rows: seq<Row>) {
    Ordered(fwd, rows) && forall r :: r in rows <==> InView(db, r) && Prior(fwd, x, r.key)
  }

  lemma OnTrailIsView(db: Database, fwd: bool, f: Front, r: Row)
    requires Undisturbed(db) && OrderedFront(fwd, f) && !Empty(f) && Covers(db, fwd, f, Head(fwd, f)) &&
             !Hidden(db, f, r.key)
    requires Prior(fwd, Head(fwd, f), r.key)
    ensures OnTrail(db, fwd, f, r) <==> InView(db, r)
  {
    NoForeignKeys(db);
    if r.key in Keys(f) {
      CalmTrail(db, fwd, f, r);
      ShowsView(db, fwd, f, Head(fwd, f), r.key);
    } else {
      NothingElse(db, fwd, f, Head(fwd, f), r.key);
    }
  }

  ghost predicate NoneHidden(db: Database, fwd: bool, f: Front, x: Key) {
    forall y :: Prior(fwd, x, y) ==> !Hidden(db, f, y)
  }

  lemma TrailShowsView(db: Database, fwd: bool, f: Front, rows: seq<Row>)
    requires Undisturbed(db) && OrderedFront(fwd, f) && !Empty(f) && Covers(db, fwd, f, Head(fwd, f))
    requires NoneHidden(db, fwd, f, Head(fwd, f)) && Ordered(fwd, rows)
    requires forall r :: r in rows <==> OnTrail(db, fwd, f, r)
    ensures ViewBehind(db, fwd, Head(fwd, f), rows)
  {
    var x := Head(fwd, f);
    DropKeys(fwd, f);
    forall r ensures r in rows <==> InView(db, r) && Prior(fwd, x, r.key) {
      assert r in rows <==> OnTrail(db, fwd, f, r);
      if Prior(fwd, x, r.key) {
        OnTrailIsView(db, fwd, f, r);
      }
    }
  }

  lemma CalmTrail(db: Database, fwd: bool, f: Front, r: Row)
    requires Undisturbed(db) && OrderedFront(fwd, f) && !Empty(f)
    ensures OnTrail(db, fwd, f, r) <==>
            r.key in Keys(f) && r.key != Head(fwd, f) && InLines(r, ShowsAt(db, fwd, f, r.key))
  {
    NeverStops(db, fwd, f, r.key);
    forall y ensures !Stops(db, fwd, f, y) {
      NeverStops(db, fwd, f, y);
    }
  }

  lemma TrailShowsHidden(db: Database, fwd: bool, f: Front, y: Key)
    requires Undisturbed(db) && OrderedFront(fwd, f) && !Empty(f) && Covers(db, fwd, f, Head(fwd, f))
    requires Prior(fwd, Head(fwd, f), y) && Hidden(db, f, y)
    ensures RecsOf(db.btree, y) != [] && View(db, y) == [] && OnTrail(db, fwd, f, Row(y, 1, RecsOf(db.btree, y)[0]))
  {
    NoForeignKeys(db);
    HiddenShows(db, fwd, f, Head(fwd, f), y);
    CalmTrail(db, fwd, f, Row(y, 1, RecsOf(db.btree, y)[0]));
  }

  /** Without other open transactions, what comes behind the first key of a front
      is the view, if and only if no key behind it is hidden. */
  lemma TrailIsView(db: Database, fwd: bool, f: Front)
    requires Undisturbed(db) && OrderedFront(fwd, f) && !Empty(f) && Sound(db, fwd, f) &&
             Covers(db, fwd, f, Head(fwd, f))
    ensures Trail(db, fwd, f).st == KeyNotFound
    ensures ViewBehind(db, fwd, Head(fwd, f), Trail(db, fwd, f).rows) <==> NoneHidden(db, fwd, f, Head(fwd, f))
  {
    var x, t := Head(fwd, f), Trail(db, fwd, f);
    TrailMeaning(db, fwd, f);
    forall y ensures !Stops(db, fwd, f, y) {
      NeverStops(db, fwd, f, y);
    }
    if NoneHidden(db, fwd, f, x) {
      TrailShowsView(db, fwd, f, t.rows);
    } else {
      var y :| Prior(fwd, x, y) && Hidden(db, f, y);
      TrailShowsHidden(db, fwd, f, y);
      assert Row(y, 1, RecsOf(db.btree, y)[0]) in t.rows;
    }
  }

  // ---- the fronts of a cursor ----

  lemma EntryAhead(db: Db, fwd: bool, b: nat, j: nat)
    requires b < |db.btree| && j < |db.btree| && !Prior(fwd, j, b)
    ensures db.btree[j] in EntriesOn(db.btree, fwd, b)
  {
    EntriesAre(db.btree, fwd, b);
    assert EntriesOn(db.btree, fwd, b)[if fwd then j - b else b - j] == db.btree[j];
  }

  lemma EntryOrigin(db: Db, fwd: bool, b: int, e: Entry)
    requires e in EntriesOn(db.btree, fwd, b)
    ensures exists j :: 0 <= j < |db.btree| && 0 <= b < |db.btree| && !Prior(fwd, j, b) && db.btree[j] == e
  {
    EntriesAre(db.btree, fwd, b);
    var k :| 0 <= k < |EntriesOn(db.btree, fwd, b)| && EntriesOn(db.btree, fwd, b)[k] == e;
    assert db.btree[if fwd then b + k else b - k] == e;
  }

  /** A node from the transaction cursor on is among the items of its front, unless
      it holds nothing the reader may see. */
  lemma NodeAhead(db: Db, fwd: bool, b: int, t: nat, op: nat, n: nat)
    requires At(db, b, t, op) && n < |db.nodes| && !Prior(fwd, n, t) && (n == t || NewestMine(db.nodes[n].ops) >= 0)
    ensures db.nodes[n].key in ItemKeys(FrontOf(db, fwd, b, t, op).ts)
  {
    var f := FrontOf(db, fwd, b, t, op);
    if n == t {
      assert f.ts[0] in f.ts;
    } else {
      ItemsComplete(db, fwd, Beside(fwd, t), n);
      assert ItemOf(db.dup, db.nodes[n]) in f.ts;
    }
  }

  lemma NothingMine(n: Node)
    requires n.ops != [] && NewestMine(n.ops) == -1
    ensures Foreign(n)
  {
  }

  /** A front is sound if its transaction cursor has passed over nodes that are
      erased or written by other open transactions only. */
  lemma FrontSound(db: Database, fwd: bool, b: int, t: int, op: nat)
    requires At(db, b, t, op)
    requires forall j, n :: (0 <= j < |db.btree| && 0 <= n < |db.nodes| && b >= 0 && !Prior(fwd, j, b) &&
                             db.nodes[n].key == db.btree[j].key &&
                               db.btree[j].key != Head(fwd, FrontOf(db, fwd, b, t, op)))
               ==> (t >= 0 && !Prior(fwd, n, t)) || Strict(db.nodes[n]) != Ok
    ensures Sound(db, fwd, FrontOf(db, fwd, b, t, op))
  {
    var f := FrontOf(db, fwd, b, t, op);
    forall i | 0 <= i < |f.bs| && f.bs[i].key != Head(fwd, f)
      ensures var n := NodeOf(db.nodes, f.bs[i].key);
              n == -1 || f.bs[i].key in ItemKeys(f.ts) || Strict(db.nodes[n]) != Ok
    {
      var n := NodeOf(db.nodes, f.bs[i].key);
      EntryOrigin(db, fwd, b, f.bs[i]);
      if n >= 0 && t >= 0 && !Prior(fwd, n, t) {
        if n == t || NewestMine(db.nodes[n].ops) >= 0 {
          NodeAhead(db, fwd, b, t, op, n);
        } else {
          NothingMine(db.nodes[n]);
        }
      }
    }
  }

  lemma MovedItem(db: Database, n: nat)
    requires n < |db.nodes| && !Foreign(db.nodes[n])
    ensures IsItem(db.dup, ItemOf(db.dup, db.nodes[n]), db.nodes[n])
  {
    assert db.nodes[n].ops != [];
  }

  lemma ItemOrigin(db: Database, fwd: bool, b: int, t: nat, op: nat, it: Item)
    requires At(db, b, t, op) && (Foreign(db.nodes[t]) || IsItem(db.dup, ItemAt(db, t, op), db.nodes[t]))
    requires it in FrontOf(db, fwd, b, t, op).ts && it.key !in ForeignKeys(db.nodes)
    ensures exists n :: n in db.nodes && IsItem(db.dup, it, n)
  {
    if it == ItemAt(db, t, op) {
      assert db.nodes[t] in db.nodes;
    } else {
      ItemsOnly(db, fwd, Beside(fwd, t), it);
      var n :| 0 <= n < |db.nodes| && it == ItemOf(db.dup, db.nodes[n]);
      assert it.key == ItemOf(db.dup, db.nodes[n]).key == db.nodes[n].key;
      NodeOfNode(db.nodes, n);
      ForeignExact(db, it.key);
      MovedItem(db, n);
      assert db.nodes[n] in db.nodes;
    }
  }

  /** What lies from x on is ahead of both cursors, or is an erased node. */
  predicate AllAhead(db: Db, fwd: bool, b: int, t: int, x: Key) {
    && (forall j :: 0 <= j < |db.btree| && !Prior(fwd, db.btree[j].key, x) ==> b >= 0 && !Prior(fwd, j, b))
    && (forall n :: 0 <= n < |db.nodes| && !Prior(fwd, db.nodes[n].key, x) ==>
          ErasedNode(db.nodes[n]) || (t >= 0 && !Prior(fwd, n, t)))
  }

  lemma FrontCovers(db: Database, fwd: bool, b: int, t: int, op: nat, x: Key)
    requires At(db, b, t, op) && AllAhead(db, fwd, b, t, x)
    requires t >= 0 ==> Foreign(db.nodes[t]) || IsItem(db.dup, ItemAt(db, t, op), db.nodes[t])
    ensures Covers(db, fwd, FrontOf(db, fwd, b, t, op), x)
  {
    var f := FrontOf(db, fwd, b, t, op);
    forall e | e in f.bs ensures e in db.btree {
      EntryOrigin(db, fwd, b, e);
    }
    forall e | e in db.btree && !Prior(fwd, e.key, x) ensures e in f.bs {
      var j :| 0 <= j < |db.btree| && db.btree[j] == e;
      EntryAhead(db, fwd, b, j);
    }
    forall it | it in f.ts && it.key !in ForeignKeys(db.nodes)
      ensures exists n :: n in db.nodes && IsItem(db.dup, it, n)
    {
      ItemOrigin(db, fwd, b, t, op, it);
    }
    forall n | n in db.nodes && !Prior(fwd, n.key, x) ensures n.key in ItemKeys(f.ts) || Foreign(n) || ErasedNode(n) {
      var i :| 0 <= i < |db.nodes| && db.nodes[i] == n;
      if !ErasedNode(n) && !Foreign(n) {
        NodeAhead(db, fwd, b, t, op, i);
      }
    }
  }

  // ---- from one end to the other ----

  lemma StartItem(db: Database, fwd: bool)
    requires |db.nodes| > 0
    ensures var t := Edge(|db.nodes|, fwd); IsItem(db.dup, ItemAt(db, t, |db.nodes[t].ops| - 1), db.nodes[t])
  {
  }

  lemma StartSound(db: Database, fwd: bool)
    ensures OrderedFront(fwd, StartFront(db, fwd)) && Sound(db, fwd, StartFront(db, fwd))
  {
    var b, t := Edge(|db.btree|, fwd), Edge(|db.nodes|, fwd);
    var op := if t == -1 then 0 else |db.nodes[t].ops| - 1;
    FrontOrdered(db, fwd, b, t, op);
    FrontSound(db, fwd, b, t, op);
  }

  lemma StartAhead(db: Database, fwd: bool, x: Key)
    ensures AllAhead(db, fwd, Edge(|db.btree|, fwd), Edge(|db.nodes|, fwd), x)
  {
  }

  lemma StartCovers(db: Database, fwd: bool, x: Key)
    ensures Covers(db, fwd, StartFront(db, fwd), x)
  {
    var b, t := Edge(|db.btree|, fwd), Edge(|db.nodes|, fwd);
    if t >= 0 {
      StartItem(db, fwd);
    }
    StartAhead(db, fwd, x);
    FrontCovers(db, fwd, b, t, if t == -1 then 0 else |db.nodes[t].ops| - 1, x);
  }

  lemma StartNotHidden(db: Database, fwd: bool, y: Key)
    requires y !in ForeignKeys(db.nodes)
    ensures !Hidden(db, StartFront(db, fwd), y)
  {
    var b, t, n := Edge(|db.btree|, fwd), Edge(|db.nodes|, fwd), NodeOf(db.nodes, y);
    if n >= 0 {
      ForeignExact(db, y);
      assert db.nodes[n].ops != [];
      NodeAhead(db, fwd, b, t, |db.nodes[t].ops| - 1, n);
    }
  }

  lemma NothingOutside(db: Database, fwd: bool, y: Key)
    requires !Empty(StartFront(db, fwd)) ==> Prior(fwd, y, Head(fwd, StartFront(db, fwd)))
    ensures View(db, y) == []
  {
    var f := StartFront(db, fwd);
    forall i | 0 <= i < |db.btree| ensures db.btree[i].key != y {
      assert f.bs[0] == db.btree[Edge(|db.btree|, fwd)];
    }
    forall i | 0 <= i < |db.nodes| ensures db.nodes[i].key != y {
      assert f.ts[0].key == db.nodes[Edge(|db.nodes|, fwd)].key;
    }
  }

  lemma WalkRows(db: Database, fwd: bool, x: Key, rest: seq<Row>, r: Row)
    requires !Empty(StartFront(db, fwd)) && x == Head(fwd, StartFront(db, fwd)) && ViewBehind(db, fwd, x, rest)
    ensures r in RowsOf(fwd, x, View(db, x)) + rest <==> InView(db, r)
  {
    InRows(fwd, x, View(db, x), r);
    if Prior(fwd, r.key, x) {
      NothingOutside(db, fwd, r.key);
    }
  }

  lemma StartNoneHidden(db: Database, fwd: bool)
    requires Undisturbed(db) && !Empty(StartFront(db, fwd))
    ensures NoneHidden(db, fwd, StartFront(db, fwd), Head(fwd, StartFront(db, fwd)))
  {
    NoForeignKeys(db);
    forall y ensures !Hidden(db, StartFront(db, fwd), y) {
      StartNotHidden(db, fwd, y);
    }
  }

  /** Without other open transactions, FIRST and then NEXT until it fails, or LAST
      and then PREVIOUS, shows every duplicate of every key once, in order. */
  lemma WalkIsView(db: Database, fwd: bool)
    requires Undisturbed(db)
    ensures var e := StartTrip(db, fwd);
            e.st == KeyNotFound && Ordered(fwd, e.rows) && forall r :: r in e.rows <==> InView(db, r)
  {
    var f, e := StartFront(db, fwd), StartTrip(db, fwd);
    if Empty(f) {
      forall r ensures !InView(db, r) {
        NothingOutside(db, fwd, r.key);
      }
    } else {
      var x, rest := Head(fwd, f), Trail(db, fwd, f).rows;
      StartSound(db, fwd);
      StartCovers(db, fwd, x);
      StartNoneHidden(db, fwd);
      NoForeignKeys(db);
      StartNotHidden(db, fwd, x);
      StartHead(db, fwd, f);
      TrailIsView(db, fwd, f);
      Prepend(fwd, x, View(db, x), rest);
      forall r ensures r in e.rows <==> InView(db, r) {
        WalkRows(db, fwd, x, rest, r);
      }
    }
  }

  lemma StartHead(db: Database, fwd: bool, f: Front)
    requires Undisturbed(db) && f == StartFront(db, fwd) && !Empty(f)
    requires OrderedFront(fwd, f) && Covers(db, fwd, f, Head(fwd, f)) && !Hidden(db, f, Head(fwd, f))
    ensures var x, rest := Head(fwd, f), Trail(db, fwd, f);
            StartTrip(db, fwd) == Trip(RowsOf(fwd, x, View(db, x)) + rest.rows, rest.st)
  {
    var x := Head(fwd, f);
    DropKeys(fwd, f);
    ReachHead(fwd, f);
    NoForeignKeys(db);
    ShowsView(db, fwd, f, x, x);
  }

  /** PREVIOUS shows exactly the rows of NEXT, in reverse. */
  lemma BothWays(db: Database)
    requires Undisturbed(db)
    ensures StartTrip(db, false).rows == Reverse(StartTrip(db, true).rows)
  {
    WalkIsView(db, true);
    WalkIsView(db, false);
    var there, back := StartTrip(db, true).rows, StartTrip(db, false).rows;
    Turned(back);
    OrderedUnique(there, Reverse(back));
    assert Reverse(Reverse(back)) == back;
  }

  lemma Turned(rows: seq<Row>)
    requires Ordered(false, rows)
    ensures Ordered(true, Reverse(rows)) && forall r :: r in Reverse(rows) <==> r in rows
  {
    var turned := Reverse(rows);
    forall r ensures r in turned <==> r in rows {
      if r in rows {
        var i :| 0 <= i < |rows| && rows[i] == r;
        assert turned[|rows|-1-i] == r;
      }
    }
  }

  // ---- changes of direction ----

  /** The fronts of a cursor that stands at key x, with all that lies behind. */
  ghost function FrontsAt(db: Database, fwd: bool, x: Key): iset<Front> {
    iset f: Front | !Empty(f) && OrderedFront(fwd, f) && Sound(db, fwd, f) && Head(fwd, f) == x && Covers(db, fwd, f, x)
  }

  ghost predicate Aimed(db: Database, fwd: bool, f: Front, x: Key) { f in FrontsAt(db, fwd, x) }

  lemma EntrySyncAhead(db: Database, fwd: bool, b: nat)
    requires b < |db.btree|
    ensures AllAhead(db, fwd, b, NodeAt(db, fwd, db.btree[b].key), db.btree[b].key)
  {
    NodeAtIs(db, fwd, db.btree[b].key);
  }

  lemma EntrySyncSound(db: Database, fwd: bool, b: nat)
    requires b < |db.btree|
    ensures var f := SyncFront(db, fwd, b);
            Sound(db, fwd, f) && OrderedFront(fwd, f) && !Empty(f) && Head(fwd, f) == db.btree[b].key
  {
    var x := db.btree[b].key;
    var t := NodeAt(db, fwd, x);
    var op := if t == -1 then 0 else |db.nodes[t].ops| - 1;
    NodeAtIs(db, fwd, x);
    FrontOrdered(db, fwd, b, t, op);
    forall j, n | 0 <= j < |db.btree| && 0 <= n < |db.nodes| && !Prior(fwd, j, b) && db.nodes[n].key == db.btree[j].key
      ensures (t >= 0 && !Prior(fwd, n, t)) || Strict(db.nodes[n]) != Ok
    {
      assert !Prior(fwd, db.btree[j].key, x);
    }
    FrontSound(db, fwd, b, t, op);
  }

  /** The front after the transaction cursor has been looked up. */
  lemma EntrySynced(db: Database, fwd: bool, b: nat)
    requires b < |db.btree|
    ensures Aimed(db, fwd, SyncFront(db, fwd, b), db.btree[b].key)
  {
    var t := NodeAt(db, fwd, db.btree[b].key);
    EntrySyncSound(db, fwd, b);
    EntrySyncAhead(db, fwd, b);
    FrontCovers(db, fwd, b, t, if t == -1 then 0 else |db.nodes[t].ops| - 1, db.btree[b].key);
  }

  /** The front after the btree cursor has been looked up. */
  lemma NodeSyncSound(db: Database, fwd: bool, t: nat, op: nat)
    requires t < |db.nodes| && op < |db.nodes[t].ops|
    ensures var f := FrontOf(db, fwd, EntryAt(db.btree, fwd, db.nodes[t].key), t, op);
            Sound(db, fwd, f) && OrderedFront(fwd, f) && !Empty(f) && Head(fwd, f) == db.nodes[t].key
  {
    var x := db.nodes[t].key;
    var b := EntryAt(db.btree, fwd, x);
    FrontOrdered(db, fwd, b, t, op);
    forall j, n | 0 <= j < |db.btree| && 0 <= n < |db.nodes| && b >= 0 && !Prior(fwd, j, b) &&
      db.nodes[n].key == db.btree[j].key
      ensures !Prior(fwd, n, t)
    {
      assert !Prior(fwd, db.btree[j].key, x);
    }
    FrontSound(db, fwd, b, t, op);
  }

  lemma NodeSynced(db: Database, fwd: bool, t: nat, op: nat)
    requires t < |db.nodes| && op < |db.nodes[t].ops| && IsItem(db.dup, ItemAt(db, t, op), db.nodes[t])
    ensures Aimed(db, fwd, FrontOf(db, fwd, EntryAt(db.btree, fwd, db.nodes[t].key), t, op), db.nodes[t].key)
  {
    NodeSyncSound(db, fwd, t, op);
    FrontCovers(db, fwd, EntryAt(db.btree, fwd, db.nodes[t].key), t, op, db.nodes[t].key);
  }

  /** The duplicates that are found after the lookup are the view. */
  lemma SyncListIsView(db: Database, fwd: bool, b: nat)
    requires db.dup && b < |db.btree| && View(db, db.btree[b].key) != []
    ensures SyncList(db, fwd, b) == View(db, db.btree[b].key)
  {
    var x := db.btree[b].key;
    var t, n := NodeAt(db, fwd, x), NodeOf(db.nodes, x);
    NodeAtIs(db, fwd, x);
    RecsOfEntry(db.btree, b);
    if n >= 0 {
      if ErasedNode(db.nodes[n]) {
        ErasedViewEmpty(db.dup, db.nodes[n], db.btree[b].recs);
      }
      assert t >= 0 && !Prior(fwd, n, t) && !Prior(fwd, t, n);
    } else if t >= 0 {
      assert db.nodes[t].key != x;
    }
  }

  /** The front that a move reaches is the front as it was at that key from the
      beginning. */
  lemma {:induction false} SeekReach(db: Database, fwd: bool, f: Front)
    requires OrderedFront(fwd, f) && !Empty(f) && !Empty(Seek(db, fwd, f))
    ensures var g := Seek(db, fwd, f); var h := Head(fwd, g);
            Prior(fwd, Head(fwd, f), h) && h in Keys(f) && Reach(fwd, f, h) == g && OrderedFront(fwd, g)
    decreases Size(f)
  {
    var g := Drop(fwd, f);
    SeekDrop(db, fwd, f);
    DropOrdered(fwd, f);
    DropKeys(fwd, f);
    DropKeys(fwd, g);
    ReachHead(fwd, g);
    if Seek(db, fwd, f) != g {
      SeekReach(db, fwd, g);
    }
    ReachDrop(fwd, f, Head(fwd, Seek(db, fwd, f)));
  }

  lemma {:induction false} SeekSound(db: Database, fwd: bool, f: Front)
    requires OrderedFront(fwd, f) && !Empty(f) && Sound(db, fwd, f)
    ensures Sound(db, fwd, Seek(db, fwd, f))
    decreases Size(f)
  {
    var g := Drop(fwd, f);
    SeekDrop(db, fwd, f);
    DropOrdered(fwd, f);
    SoundDrop(db, fwd, f);
    if Seek(db, fwd, f) != g {
      SeekSound(db, fwd, g);
    }
  }

  lemma {:induction false} EntriesKept(fwd: bool, bs: seq<Entry>, x: Key, e: Entry)
    requires e in bs && !Prior(fwd, e.key, x)
    ensures e in EntriesFrom(fwd, bs, x)
  {
    if bs != [] && Prior(fwd, bs[0].key, x) {
      EntriesKept(fwd, bs[1..], x, e);
    }
  }

  lemma {:induction false} ItemsKept(fwd: bool, ts: seq<Item>, x: Key, it: Item)
    requires it in ts && !Prior(fwd, it.key, x)
    ensures it in ItemsFrom(fwd, ts, x)
  {
    if ts != [] && Prior(fwd, ts[0].key, x) {
      ItemsKept(fwd, ts[1..], x, it);
    }
  }

  lemma {:induction false} EntriesAmong(fwd: bool, bs: seq<Entry>, x: Key)
    ensures forall e :: e in EntriesFrom(fwd, bs, x) ==> e in bs
  {
    if bs != [] && Prior(fwd, bs[0].key, x) {
      EntriesAmong(fwd, bs[1..], x);
    }
  }

  lemma {:induction false} ItemsAmong(fwd: bool, ts: seq<Item>, x: Key)
    ensures forall it :: it in ItemsFrom(fwd, ts, x) ==> it in ts
  {
    if ts != [] && Prior(fwd, ts[0].key, x) {
      ItemsAmong(fwd, ts[1..], x);
    }
  }

  lemma ItemKeysKept(fwd: bool, f: Front, x: Key, y: Key)
    requires !Prior(fwd, y, x)
    ensures y in ItemKeys(Reach(fwd, f, x).ts) <==> y in ItemKeys(f.ts)
    ensures y in EntryKeys(Reach(fwd, f, x).bs) <==> y in EntryKeys(f.bs)
  {
    ItemsAmong(fwd, f.ts, x);
    EntriesAmong(fwd, f.bs, x);
    if it :| it in f.ts && it.key == y {
      ItemsKept(fwd, f.ts, x, it);
    }
    if e :| e in f.bs && e.key == y {
      EntriesKept(fwd, f.bs, x, e);
    }
  }

  lemma CoversReach(db: Database, fwd: bool, f: Front, x: Key)
    requires Covers(db, fwd, f, x)
    ensures Covers(db, fwd, Reach(fwd, f, x), x)
  {
    var g := Reach(fwd, f, x);
    EntriesAmong(fwd, f.bs, x);
    ItemsAmong(fwd, f.ts, x);
    forall e | e in db.btree && !Prior(fwd, e.key, x) ensures e in g.bs {
      EntriesKept(fwd, f.bs, x, e);
    }
    forall n | n in db.nodes && !Prior(fwd, n.key, x) ensures n.key in ItemKeys(g.ts) || Foreign(n) || ErasedNode(n) {
      ItemKeysKept(fwd, f, x, n.key);
    }
  }

  lemma CoversLess(db: Database, fwd: bool, f: Front, x: Key, y: Key)
    requires Covers(db, fwd, f, x) && !Prior(fwd, y, x)
    ensures Covers(db, fwd, f, y)
  {
  }

  /** It is aimed at its first key, and no key behind it is hidden that was not
      hidden before. */
  lemma SeekAimed(db: Database, fwd: bool, f: Front, x: Key)
    requires Aimed(db, fwd, f, x) && !Empty(Seek(db, fwd, f))
    ensures var g := Seek(db, fwd, f); var h := Head(fwd, g);
            Aimed(db, fwd, g, h) && Prior(fwd, x, h) && h in Keys(f) && Reach(fwd, f, h) == g
    ensures forall y :: Prior(fwd, Head(fwd, Seek(db, fwd, f)), y) && Hidden(db, Seek(db, fwd, f), y) ==>
            Hidden(db, f, y)
  {
    var g := Seek(db, fwd, f);
    var h := Head(fwd, g);
    SeekReach(db, fwd, f);
    SeekSound(db, fwd, f);
    CoversLess(db, fwd, f, x, h);
    CoversReach(db, fwd, f, h);
    forall y | Prior(fwd, h, y) && Hidden(db, g, y) ensures Hidden(db, f, y) {
      ItemKeysKept(fwd, f, h, y);
    }
  }

  // ---- any mix of moves ----

  /** The rows of the view after a row, in one direction. */
  ghost predicate ViewAfter(db: Database, fwd: bool, r0: Row, rows: seq<Row>) {
    Ordered(fwd, rows) && forall r :: r in rows <==> InView(db, r) && RowBefore(fwd, r0, r)
  }

  /** The spots in the view that are ready to go in one direction. */
  ghost function Spots(db: Database, fwd: bool): iset<Spot> {
    iset s: Spot | Aimed(db, fwd, s.front, s.key) && s.list == View(db, s.key) && 1 <= s.pos <= |s.list|
  }

  ghost predicate InPlace(db: Database, fwd: bool, s: Spot) { s in Spots(db, fwd) }

  lemma InRest(fwd: bool, x: Key, ls: seq<Rec>, p: nat, r: Row)
    requires 1 <= p <= |ls|
    ensures r in Rest(fwd, x, ls, p) <==>
            r.key == x && 1 <= r.pos <= |ls| && ls[r.pos-1] == r.rec && if fwd then p < r.pos else r.pos < p
    ensures Ordered(fwd, Rest(fwd, x, ls, p))
  {
    RestIs(fwd, x, ls, p);
    if r.key == x && 1 <= r.pos <= |ls| && ls[r.pos-1] == r.rec && if fwd then p < r.pos else r.pos < p {
      assert Rest(fwd, x, ls, p)[if fwd then r.pos - p - 1 else p - 1 - r.pos] == r;
    }
  }

  /** The rows of the view after a row, under the same key or behind it. */
  ghost predicate SameKeyAfter(db: Database, fwd: bool, r0: Row, rows: seq<Row>) {
    Ordered(fwd, rows) && forall r :: r in rows <==> r.key == r0.key && InView(db, r) && RowBefore(fwd, r0, r)
  }

  ghost predicate AllBehind(fwd: bool, x: Key, rows: seq<Row>) {
    Ordered(fwd, rows) && forall r :: r in rows ==> Prior(fwd, x, r.key)
  }

  lemma RestIsView(db: Database, fwd: bool, s: Spot)
    requires InPlace(db, fwd, s)
    ensures SameKeyAfter(db, fwd, RowAt(s), Rest(fwd, s.key, s.list, s.pos))
  {
    forall r ensures r in Rest(fwd, s.key, s.list, s.pos) <==>
      r.key == s.key && InView(db, r) && RowBefore(fwd, RowAt(s), r) {
      InRest(fwd, s.key, s.list, s.pos, r);
    }
    InRest(fwd, s.key, s.list, s.pos, RowAt(s));
  }

  lemma TrailIsBehind(db: Database, fwd: bool, f: Front)
    requires OrderedFront(fwd, f) && !Empty(f) && Sound(db, fwd, f)
    ensures AllBehind(fwd, Head(fwd, f), Trail(db, fwd, f).rows)
  {
    TrailMeaning(db, fwd, f);
    DropKeys(fwd, f);
    forall r | r in Trail(db, fwd, f).rows ensures Prior(fwd, Head(fwd, f), r.key) {
      assert OnTrail(db, fwd, f, r);
    }
  }

  lemma JoinOrdered(fwd: bool, x: Key, rest: seq<Row>, trail: seq<Row>)
    requires Ordered(fwd, rest) && (forall r :: r in rest ==> r.key == x) && AllBehind(fwd, x, trail)
    ensures Ordered(fwd, rest + trail)
  {
    var all := rest + trail;
    forall i, j | 0 <= i < j < |all| ensures RowBefore(fwd, all[i], all[j]) {
      if i < |rest| <= j {
        assert all[i] in rest && all[j] in trail;
      }
    }
  }

  lemma JoinView(db: Database, fwd: bool, r0: Row, rest: seq<Row>, trail: seq<Row>)
    requires SameKeyAfter(db, fwd, r0, rest) && AllBehind(fwd, r0.key, trail)
    ensures ViewAfter(db, fwd, r0, rest + trail) <==> ViewBehind(db, fwd, r0.key, trail)
  {
    var all := rest + trail;
    JoinOrdered(fwd, r0.key, rest, trail);
    forall r ensures (r in all <==> InView(db, r) && RowBefore(fwd, r0, r)) <==>
                     (r in trail <==> InView(db, r) && Prior(fwd, r0.key, r.key))
    {
      assert r in all <==> r in rest || r in trail;
    }
  }

  /** From a spot in the view, what is to come is the rest of the view, if and only
      if no key ahead is hidden. */
  lemma ComingIsView(db: Database, fwd: bool, s: Spot)
    requires Undisturbed(db) && InPlace(db, fwd, s)
    ensures Coming(db, fwd, s).st == KeyNotFound
    ensures ViewAfter(db, fwd, RowAt(s), Coming(db, fwd, s).rows) <==> NoneHidden(db, fwd, s.front, s.key)
  {
    TrailIsView(db, fwd, s.front);
    RestIsView(db, fwd, s);
    TrailIsBehind(db, fwd, s.front);
    JoinView(db, fwd, RowAt(s), Rest(fwd, s.key, s.list, s.pos), Trail(db, fwd, s.front).rows);
  }

  /** The states in which a cursor shows a row of the view, and knows all
      duplicates of its key. */
  ghost function GenuineStates(cur: LocalCursor): iset<State> {
    iset c: State |
      && Undisturbed(cur.db) && cur.Placed(c) && cur.List(c) == View(cur.db, cur.ShownKey(c))
      && (c.side == Txn ==> IsItem(cur.db.dup, ItemAt(cur.db, c.t, c.op), cur.db.nodes[c.t]))
  }

  ghost predicate Genuine(cur: LocalCursor)
    reads cur
  {
    cur.c in GenuineStates(cur)
  }

  /** The directions in which a cursor that shows a row of the view can go: the next
      move looks up the idle cursor first, or the cursors are aimed already. */
  ghost function Ways(cur: LocalCursor): iset<bool>
    reads cur
  {
    iset fwd: bool | Genuine(cur) &&
      (cur.NeedsSync(fwd) || (cur.CmpFits(cur.c) && Aimed(cur.db, fwd, cur.Here(cur.c, fwd), cur.ShownKey(cur.c))))
  }

  ghost predicate CanGo(cur: LocalCursor, fwd: bool)
    reads cur
  {
    fwd in Ways(cur)
  }

  /** In both directions. */
  ghost predicate GoesAnywhere(cur: LocalCursor)
    reads cur
  {
    Ways(cur) == iset{true, false}
  }

  lemma TwoWays(ways: iset<bool>)
    requires true in ways && false in ways
    ensures ways == iset{true, false}
  {
    forall fwd: bool ensures fwd in ways <==> fwd in iset{true, false} {
      if fwd {
        assert true in ways;
      } else {
        assert false in ways;
      }
    }
  }

  /** A cursor whose idle side is looked up first. */
  lemma SyncedWay(cur: LocalCursor, fwd: bool)
    requires Genuine(cur) && cur.NeedsSync(fwd)
    ensures fwd in Ways(cur)
  {
  }

  lemma AimedWay(cur: LocalCursor, fwd: bool)
    requires Genuine(cur) && cur.Placed(cur.c) && cur.CmpFits(cur.c)
    requires Aimed(cur.db, fwd, cur.Here(cur.c, fwd), cur.ShownKey(cur.c))
    ensures fwd in Ways(cur)
  {
  }

  lemma PreparedAimed(cur: LocalCursor, fwd: bool)
    requires CanGo(cur, fwd)
    ensures Aimed(cur.db, fwd, cur.Prepared(cur.c, fwd), cur.ShownKey(cur.c))
  {
    if cur.NeedsSync(fwd) {
      if cur.c.side == Txn {
        NodeSynced(cur.db, fwd, cur.c.t, cur.c.op);
      } else {
        EntrySynced(cur.db, fwd, cur.c.b);
      }
    }
  }

  lemma PreparedView(cur: LocalCursor, fwd: bool)
    requires Genuine(cur)
    ensures cur.PreparedList(cur.c, fwd) == cur.List(cur.c) == View(cur.db, cur.ShownKey(cur.c))
  {
    if cur.NeedsSync(fwd) && cur.c.side == Btree && cur.db.dup {
      SyncListIsView(cur.db, fwd, cur.c.b);
    }
  }

  lemma SpotInView(db: Database, fwd: bool, f: Front, x: Key, p: nat)
    requires Aimed(db, fwd, f, x) && 1 <= p <= |View(db, x)|
    ensures InPlace(db, fwd, Spot(f, x, View(db, x), p))
  {
  }

  lemma StartIs(cur: LocalCursor, fwd: bool)
    requires cur.Placed(cur.c) && cur.PreparedList(cur.c, fwd) == cur.List(cur.c)
    ensures var p := cur.Place(cur.c);
            && cur.Start(cur.c, fwd) == Spot(cur.Prepared(cur.c, fwd), cur.ShownKey(cur.c), cur.List(cur.c), p)
            && RowAt(cur.Start(cur.c, fwd)) == cur.Shown(cur.c) && 1 <= p <= |cur.List(cur.c)|
  {
    cur.RowOfSpot(cur.c, cur.Prepared(cur.c, fwd));
  }

  lemma StartsInPlace(cur: LocalCursor, fwd: bool)
    requires CanGo(cur, fwd)
    ensures InPlace(cur.db, fwd, cur.Start(cur.c, fwd)) && RowAt(cur.Start(cur.c, fwd)) == cur.Shown(cur.c)
  {
    PreparedAimed(cur, fwd);
    PreparedView(cur, fwd);
    StartIs(cur, fwd);
    SpotInView(cur.db, fwd, cur.Prepared(cur.c, fwd), cur.ShownKey(cur.c), cur.Place(cur.c));
  }

  /** What the cursor will show in a direction is the rest of the view, if and only
      if no key on the way is hidden. */
  lemma ExpectExact(cur: LocalCursor, fwd: bool)
    requires CanGo(cur, fwd)
    ensures var e := cur.Expect(cur.c, fwd, All);
            && e.st == KeyNotFound && e == Coming(cur.db, fwd, cur.Start(cur.c, fwd))
            && (ViewAfter(cur.db, fwd, cur.Shown(cur.c), e.rows) <==>
                NoneHidden(cur.db, fwd, cur.Prepared(cur.c, fwd), cur.ShownKey(cur.c)))
  {
    StartsInPlace(cur, fwd);
    ComingIsView(cur.db, fwd, cur.Start(cur.c, fwd));
    ExpectIsComing(cur, fwd);
  }

  lemma ExpectIsComing(cur: LocalCursor, fwd: bool)
    requires cur.Placed(cur.c)
    ensures cur.Expect(cur.c, fwd, All) == Coming(cur.db, fwd, cur.Start(cur.c, fwd))
  {
  }

  /** r is the row of the view next to r0. */
  ghost predicate Adjacent(db: Database, fwd: bool, r0: Row, r: Row) {
    && InView(db, r) && RowBefore(fwd, r0, r)
    && forall q :: InView(db, q) ==> !(RowBefore(fwd, r0, q) && RowBefore(fwd, q, r))
  }

  lemma FirstIsAdjacent(db: Database, fwd: bool, r0: Row, rows: seq<Row>)
    requires ViewAfter(db, fwd, r0, rows) && rows != []
    ensures Adjacent(db, fwd, r0, rows[0])
  {
    assert rows[0] in rows;
    forall q | InView(db, q) && RowBefore(fwd, r0, q) ensures !RowBefore(fwd, q, rows[0]) {
      assert q in rows;
      var i :| 0 <= i < |rows| && rows[i] == q;
    }
  }

  lemma SeekInPlace(db: Database, fwd: bool, f: Front, x: Key)
    requires Undisturbed(db) && Aimed(db, fwd, f, x) && NoneHidden(db, fwd, f, x)
    requires var g := Seek(db, fwd, f); !Empty(g) && Shows(db, fwd, g).Lines? && Shows(db, fwd, g).recs != []
    ensures var a := SpotAfter(db, fwd, Seek(db, fwd, f)); InPlace(db, fwd, a) && NoneHidden(db, fwd, a.front, a.key)
  {
    var g := Seek(db, fwd, f);
    SeekAimed(db, fwd, f, x);
    ShowsView(db, fwd, f, x, Head(fwd, g));
  }

  /** The place where a move arrives is in the view again. */
  lemma ArrivesInPlace(db: Database, fwd: bool, s: Spot)
    requires Undisturbed(db) && InPlace(db, fwd, s) && NoneHidden(db, fwd, s.front, s.key) &&
             Coming(db, fwd, s).rows != []
    ensures var a := Arrives(db, fwd, All, s); InPlace(db, fwd, a) && NoneHidden(db, fwd, a.front, a.key)
  {
    RestEmpty(db, fwd, s);
    if Rest(fwd, s.key, s.list, s.pos) == [] {
      SeekLeads(db, fwd, s.front);
      SeekShows(db, fwd, s.front);
      SeekInPlace(db, fwd, s.front, s.key);
    }
  }

  lemma {:induction false} SeekShows(db: Database, fwd: bool, f: Front)
    requires !Empty(f)
    ensures var g := Seek(db, fwd, f); Empty(g) || Shows(db, fwd, g) != Lines([])
    decreases Size(f)
  {
    SeekLand(db, fwd, f);
    var g := Land(fwd, f, ForeignKeys(db.nodes));
    if !Empty(g) && Shows(db, fwd, g) == Lines([]) {
      SeekShows(db, fwd, g);
    }
  }

  lemma SideItem(cur: LocalCursor, fwd: bool)
    requires Undisturbed(cur.db) && cur.Placed(cur.c) && cur.c.side == Txn
    requires Aimed(cur.db, fwd, cur.Here(cur.c, fwd), cur.ShownKey(cur.c))
    ensures IsItem(cur.db.dup, ItemAt(cur.db, cur.c.t, cur.c.op), cur.db.nodes[cur.c.t])
  {
    var it := ItemAt(cur.db, cur.c.t, cur.c.op);
    assert it in cur.Here(cur.c, fwd).ts;
    var n :| n in cur.db.nodes && IsItem(cur.db.dup, it, n);
    var i :| 0 <= i < |cur.db.nodes| && cur.db.nodes[i] == n;
    NodeOfNode(cur.db.nodes, i);
    NodeOfNode(cur.db.nodes, cur.c.t);
  }

  /** From a spot in the view: what a move will show, and where it arrives. */
  lemma SpotStep(db: Database, fwd: bool, s: Spot)
    requires Undisturbed(db) && InPlace(db, fwd, s) && NoneHidden(db, fwd, s.front, s.key)
    ensures var rows := Coming(db, fwd, s).rows;
            && ViewAfter(db, fwd, RowAt(s), rows)
            && (rows != [] ==> Adjacent(db, fwd, RowAt(s), rows[0]) && InPlace(db, fwd, Arrives(db, fwd, All, s)))
  {
    ComingIsView(db, fwd, s);
    if Coming(db, fwd, s).rows != [] {
      ArrivesInPlace(db, fwd, s);
      FirstIsAdjacent(db, fwd, RowAt(s), Coming(db, fwd, s).rows);
    }
  }

  lemma OutlookShows(cur: LocalCursor, fwd: bool)
    requires cur.Outlook(cur.c, fwd).rows != []
    ensures cur.Placed(cur.c) && cur.CmpFits(cur.c) && cur.Shown(cur.c) == cur.Outlook(cur.c, fwd).rows[0]
  {
  }

  /** A move that shows the first of the expected rows. */
  method Follow(cur: LocalCursor, fwd: bool, mode: Mode, ghost e: Trip, ghost a: Spot) returns (st: Status)
    requires CanGo(cur, fwd) && e == cur.Expect(cur.c, fwd, mode) && e.st == KeyNotFound
    requires a == Arrives(cur.db, fwd, mode, cur.Start(cur.c, fwd)) && (e.rows != [] ==> InPlace(cur.db, fwd, a))
    modifies cur
    ensures if e.rows == [] then st == KeyNotFound else st == Ok && GoesAnywhere(cur) && cur.Shown(cur.c) == e.rows[0]
  {
    PreparedView(cur, fwd);
    st := cur.Move(fwd, mode);
    if st == Ok {
      OutlookShows(cur, fwd);
      Arrived(cur, fwd);
    }
  }

  /** NEXT or PREVIOUS after any mix of moves and lookups, without other open
      transactions and without hidden keys on the way: the adjacent row of the
      view, or the end. */
  method Step(cur: LocalCursor, fwd: bool) returns (st: Status)
    requires CanGo(cur, fwd) && NoneHidden(cur.db, fwd, cur.Prepared(cur.c, fwd), cur.ShownKey(cur.c))
    modifies cur
    ensures st == Ok ==> GoesAnywhere(cur) && Adjacent(cur.db, fwd, old(cur.Shown(cur.c)), cur.Shown(cur.c))
    ensures st != Ok ==>
            st == KeyNotFound && forall r :: InView(cur.db, r) ==> !RowBefore(fwd, old(cur.Shown(cur.c)), r)
  {
    ghost var r0, e, s := cur.Shown(cur.c), cur.Expect(cur.c, fwd, All), cur.Start(cur.c, fwd);
    StartsInPlace(cur, fwd);
    ExpectExact(cur, fwd);
    SpotStep(cur.db, fwd, s);
    st := Follow(cur, fwd, All, e, Arrives(cur.db, fwd, All, s));
    if st != Ok {
      assert forall r :: r in e.rows <==> InView(cur.db, r) && RowBefore(fwd, r0, r);
    }
  }

  // ---- moves that skip duplicates, or stay among them ----

  /** r is the first row of the view behind key x. */
  ghost predicate FirstBehind(db: Database, fwd: bool, x: Key, r: Row) {
    && InView(db, r) && Prior(fwd, x, r.key)
    && forall q :: InView(db, q) && Prior(fwd, x, q.key) ==> !RowBefore(fwd, q, r)
  }

  lemma FirstOfTrail(db: Database, fwd: bool, x: Key, rows: seq<Row>)
    requires ViewBehind(db, fwd, x, rows) && rows != []
    ensures FirstBehind(db, fwd, x, rows[0])
  {
    assert rows[0] in rows;
    forall q | InView(db, q) && Prior(fwd, x, q.key) ensures !RowBefore(fwd, q, rows[0]) {
      assert q in rows;
      var i :| 0 <= i < |rows| && rows[i] == q;
    }
  }

  /** What lies behind the key of a spot, and where a move that skips duplicates
      arrives. */
  lemma SpotSkip(db: Database, fwd: bool, s: Spot)
    requires Undisturbed(db) && InPlace(db, fwd, s) && NoneHidden(db, fwd, s.front, s.key)
    ensures var e := Trail(db, fwd, s.front);
            && e.st == KeyNotFound && ViewBehind(db, fwd, s.key, e.rows)
            && (e.rows != [] ==> FirstBehind(db, fwd, s.key, e.rows[0]) &&
                                 InPlace(db, fwd, SpotAfter(db, fwd, Seek(db, fwd, s.front))))
  {
    var e := Trail(db, fwd, s.front);
    TrailIsView(db, fwd, s.front);
    if e.rows != [] {
      SeekLeads(db, fwd, s.front);
      SeekShows(db, fwd, s.front);
      SeekInPlace(db, fwd, s.front, s.key);
      FirstOfTrail(db, fwd, s.key, e.rows);
    }
  }

  /** NEXT or PREVIOUS with SKIP_DUPLICATES: the first row of the next key, or the
      end. */
  method StepKey(cur: LocalCursor, fwd: bool) returns (st: Status)
    requires CanGo(cur, fwd) && NoneHidden(cur.db, fwd, cur.Prepared(cur.c, fwd), cur.ShownKey(cur.c))
    modifies cur
    ensures st == Ok ==> GoesAnywhere(cur) && FirstBehind(cur.db, fwd, old(cur.Shown(cur.c)).key, cur.Shown(cur.c))
    ensures st != Ok ==>
            st == KeyNotFound && forall r :: InView(cur.db, r) ==> !Prior(fwd, old(cur.Shown(cur.c)).key, r.key)
  {
    ghost var s := cur.Start(cur.c, fwd);
    StartsInPlace(cur, fwd);
    SpotSkip(cur.db, fwd, s);
    ghost var e := Trail(cur.db, fwd, s.front);
    st := Follow(cur, fwd, SkipDuplicates, e, Arrives(cur.db, fwd, SkipDuplicates, s));
    if st != Ok {
      assert forall r :: r in e.rows <==> InView(cur.db, r) && Prior(fwd, s.key, r.key);
    }
  }

  /** The position of the adjacent duplicate of a row's key, if there is one. */
  function Nearby(fwd: bool, r: Row): int { if fwd then r.pos + 1 else r.pos - 1 }

  predicate HasNearby(db: Db, fwd: bool, r: Row) { 1 <= Nearby(fwd, r) <= |View(db, r.key)| }

  /** The adjacent duplicate. */
  function Duplicate(db: Db, fwd: bool, r: Row): Row
    requires HasNearby(db, fwd, r)
  {
    Row(r.key, Nearby(fwd, r), View(db, r.key)[Nearby(fwd, r) - 1])
  }

  lemma SpotDuplicate(db: Database, fwd: bool, s: Spot)
    requires InPlace(db, fwd, s)
    ensures HasNearby(db, fwd, RowAt(s)) <==> Rest(fwd, s.key, s.list, s.pos) != []
    ensures HasNearby(db, fwd, RowAt(s)) ==>
            && Coming(db, fwd, s).rows != [] && Coming(db, fwd, s).rows[0] == Duplicate(db, fwd, RowAt(s))
            && InPlace(db, fwd, Arrives(db, fwd, OnlyDuplicates, s))
  {
    RestEmpty(db, fwd, s);
    RestIs(fwd, s.key, s.list, s.pos);
  }

  lemma OnlyExpected(cur: LocalCursor, fwd: bool)
    requires cur.Placed(cur.c) && cur.db.dup
    ensures var s := cur.Start(cur.c, fwd);
            cur.Expect(cur.c, fwd, OnlyDuplicates) ==
              if Rest(fwd, s.key, s.list, s.pos) == [] then Trip([], KeyNotFound) else Coming(cur.db, fwd, s)
  {
  }

  /** With duplicate keys, what a move among the duplicates of a key shows. */
  lemma DuplicateExpected(cur: LocalCursor, fwd: bool, s: Spot, e: Trip)
    requires CanGo(cur, fwd) && cur.db.dup && s == cur.Start(cur.c, fwd)
    requires e == cur.Expect(cur.c, fwd, OnlyDuplicates)
    ensures e.st == KeyNotFound && (e.rows != [] <==> HasNearby(cur.db, fwd, cur.Shown(cur.c)))
    ensures e.rows != [] ==>
            e.rows[0] == Duplicate(cur.db, fwd, cur.Shown(cur.c)) &&
            InPlace(cur.db, fwd, Arrives(cur.db, fwd, OnlyDuplicates, s))
  {
    StartsInPlace(cur, fwd);
    OnlyExpected(cur, fwd);
    assert Coming(cur.db, fwd, s).st == KeyNotFound by {
      ComingIsView(cur.db, fwd, s);
    }
    SpotDuplicate(cur.db, fwd, s);
  }

  /** NEXT or PREVIOUS with ONLY_DUPLICATES and duplicate keys: the adjacent duplicate
      of the key, or the end of its duplicates. */
  method StepDuplicate(cur: LocalCursor, fwd: bool) returns (st: Status)
    requires CanGo(cur, fwd) && cur.db.dup
    modifies cur
    ensures st == Ok <==> HasNearby(cur.db, fwd, old(cur.Shown(cur.c)))
    ensures st == Ok ==> GoesAnywhere(cur) && cur.Shown(cur.c) == Duplicate(cur.db, fwd, old(cur.Shown(cur.c)))
    ensures st != Ok ==> st == KeyNotFound
  {
    ghost var s, e := cur.Start(cur.c, fwd), cur.Expect(cur.c, fwd, OnlyDuplicates);
    DuplicateExpected(cur, fwd, s, e);
    st := Follow(cur, fwd, OnlyDuplicates, e, Arrives(cur.db, fwd, OnlyDuplicates, s));
  }

  lemma Arrived(cur: LocalCursor, fwd: bool)
    requires Undisturbed(cur.db) && cur.Placed(cur.c) && cur.CmpFits(cur.c) && cur.lastOp == Went(fwd)
    requires InPlace(cur.db, fwd, cur.Stand(cur.c, fwd))
    ensures GoesAnywhere(cur)
  {
    assert Genuine(cur) by {
      if cur.c.side == Txn {
        SideItem(cur, fwd);
      }
    }
    AimedWay(cur, fwd);
    SyncedWay(cur, !fwd);
    TwoWays(Ways(cur));
  }

  // ---- from the ends ----

  lemma StartAimed(db: Database, fwd: bool)
    requires Undisturbed(db) && !Empty(StartFront(db, fwd))
    ensures Aimed(db, fwd, StartFront(db, fwd), Head(fwd, StartFront(db, fwd)))
  {
    StartSound(db, fwd);
    StartCovers(db, fwd, Head(fwd, StartFront(db, fwd)));
  }

  lemma StartShowsView(db: Database, fwd: bool)
    requires Undisturbed(db) && !Empty(StartFront(db, fwd))
    ensures var f := StartFront(db, fwd); Shows(db, fwd, f) == Lines(View(db, Head(fwd, f)))
    ensures StartTrip(db, fwd) == Arrival(db, fwd, StartFront(db, fwd))
  {
    var f := StartFront(db, fwd);
    var x := Head(fwd, f);
    StartAimed(db, fwd);
    StartNotHidden(db, fwd, x);
    DropKeys(fwd, f);
    ReachHead(fwd, f);
    NoForeignKeys(db);
    ShowsView(db, fwd, f, x, x);
  }

  /** FIRST and LAST lead to a spot of the view from which nothing is hidden. */
  lemma FirstInPlace(db: Database, fwd: bool)
    requires Undisturbed(db) && StartTrip(db, fwd).rows != []
    ensures var s := FirstSpot(db, fwd, StartFront(db, fwd));
            && InPlace(db, fwd, s) && NoneHidden(db, fwd, s.front, s.key)
            && RowAt(s) == StartTrip(db, fwd).rows[0] && s.pos == if fwd then 1 else |s.list|
  {
    var f := StartFront(db, fwd);
    assert !Empty(f);
    StartAimed(db, fwd);
    StartNoneHidden(db, fwd);
    StartShowsView(db, fwd);
    if Shows(db, fwd, f) == Lines([]) {
      NothingToShow(db, fwd, f);
      SeekLeads(db, fwd, f);
      SeekShows(db, fwd, f);
      SeekInPlace(db, fwd, f, Head(fwd, f));
    } else {
      ArrivalLeads(db, fwd, f);
      SpotInView(db, fwd, f, Head(fwd, f), if fwd then 1 else |View(db, Head(fwd, f))|);
    }
  }

  /** r is the first row of the view in a direction. */
  ghost predicate FirstRow(db: Database, fwd: bool, r: Row) {
    InView(db, r) && forall q :: InView(db, q) ==> !RowBefore(fwd, q, r)
  }

  lemma FirstIsFirst(db: Database, fwd: bool, r: Row)
    requires Undisturbed(db) && StartTrip(db, fwd).rows != [] && r == StartTrip(db, fwd).rows[0]
    ensures FirstRow(db, fwd, r)
  {
    WalkIsView(db, fwd);
    var rows := StartTrip(db, fwd).rows;
    assert r in rows;
    forall q | InView(db, q) ensures !RowBefore(fwd, q, r) {
      var i :| 0 <= i < |rows| && rows[i] == q;
    }
  }

  lemma Begun(cur: LocalCursor, fwd: bool)
    requires Undisturbed(cur.db) && cur.Placed(cur.c) && cur.CmpFits(cur.c) && cur.lastOp == None
    requires InPlace(cur.db, fwd, cur.Stand(cur.c, fwd))
    ensures CanGo(cur, fwd)
  {
    assert Genuine(cur) by {
      if cur.c.side == Txn {
        SideItem(cur, fwd);
      }
    }
    AimedWay(cur, fwd);
  }

  /** The directions in which the cursor has just been moved to the first row of the
      view. */
  ghost function Beginnings(cur: LocalCursor): iset<bool>
    reads cur
  {
    iset fwd: bool |
      && Undisturbed(cur.db) && cur.Placed(cur.c) && cur.CmpFits(cur.c) && cur.lastOp == None
      && StartTrip(cur.db, fwd).rows != [] && FirstRow(cur.db, fwd, cur.Shown(cur.c))
      && cur.Stand(cur.c, fwd) == FirstSpot(cur.db, fwd, StartFront(cur.db, fwd))
  }

  ghost predicate JustBegun(cur: LocalCursor, fwd: bool)
    reads cur
  {
    fwd in Beginnings(cur)
  }

  lemma BegunIs(cur: LocalCursor, fwd: bool)
    requires JustBegun(cur, fwd)
    ensures cur.Placed(cur.c) && Undisturbed(cur.db) && FirstRow(cur.db, fwd, cur.Shown(cur.c)) && CanGo(cur, fwd)
  {
    FirstInPlace(cur.db, fwd);
    Begun(cur, fwd);
  }

  /** FIRST and LAST, or NEXT and PREVIOUS on a nil cursor: the first row of the
      view in the direction, from where the cursor can go on. */
  method Begin(cur: LocalCursor, fwd: bool, edge: bool) returns (st: Status)
    requires cur.Valid(cur.c) && Undisturbed(cur.db) && (edge || cur.Nil(cur.c))
    modifies cur
    ensures st != Ok ==> st == KeyNotFound && forall q :: !InView(cur.db, q)
    ensures st == Ok ==> JustBegun(cur, fwd) && CanGo(cur, fwd) && FirstRow(cur.db, fwd, cur.Shown(cur.c))
  {
    WalkIsView(cur.db, fwd);
    if edge {
      st := cur.MoveEdge(fwd);
    } else {
      st := cur.Move(fwd, All);
    }
    ghost var rows := StartTrip(cur.db, fwd).rows;
    if st == Ok {
      OutlookShows(cur, fwd);
      FirstIsFirst(cur.db, fwd, rows[0]);
      BegunIs(cur, fwd);
    }
  }

  // ---- whole runs ----

  /** With duplicate keys, no key of the btree is erased in a transaction. */
  predicate NothingErased(db: Database) {
    db.dup ==> forall n :: n in db.nodes && ErasedNode(n) ==> RecsOf(db.btree, n.key) == []
  }

  lemma NeverHidden(db: Database, fwd: bool, f: Front, x: Key)
    requires Undisturbed(db) && NothingErased(db) && Aimed(db, fwd, f, x)
    ensures NoneHidden(db, fwd, f, x)
  {
    forall y | Prior(fwd, x, y) ensures !Hidden(db, f, y) {
      if Hidden(db, f, y) {
        HiddenIsErased(db, fwd, f, x, y);
      }
    }
  }

  lemma HiddenIsErased(db: Database, fwd: bool, f: Front, x: Key, y: Key)
    requires Undisturbed(db) && OrderedFront(fwd, f) && Covers(db, fwd, f, x) && Prior(fwd, x, y) && Hidden(db, f, y)
    ensures exists n :: n in db.nodes && ErasedNode(n) && RecsOf(db.btree, n.key) != []
  {
    HiddenShows(db, fwd, f, x, y);
    var n := db.nodes[NodeOf(db.nodes, y)];
    NoForeignKeys(db);
    assert n in db.nodes && ErasedNode(n);
  }

  /** Moves forward minus moves backward. */
  function Net(dirs: seq<bool>): int {
    if dirs == [] then 0 else Net(dirs[..|dirs|-1]) + if dirs[|dirs|-1] then 1 else -1
  }

  /** The sequence of all rows of the view. */
  ghost function Listings(db: Database): iset<seq<Row>> {
    iset rows: seq<Row> | Ordered(true, rows) && forall q :: q in rows <==> InView(db, q)
  }

  /** The row that the cursor shows. */
  ghost function Showing(cur: LocalCursor): Row
    reads cur
  {
    if cur.Placed(cur.c) then cur.Shown(cur.c) else Row(0, 0, 0)
  }

  /** The row next to another one has the next index in the view. */
  lemma AdjacentIndex(db: Database, fwd: bool, rows: seq<Row>, i: nat, r: Row)
    requires rows in Listings(db) && i < |rows| && Adjacent(db, fwd, rows[i], r)
    ensures 0 <= Beside(fwd, i) < |rows| && rows[Beside(fwd, i)] == r
  {
    var k :| 0 <= k < |rows| && rows[k] == r;
    var j := Beside(fwd, i);
    assert 0 <= j < |rows| ==> rows[j] in rows;
  }

  /** There is no next index at the end of the view. */
  lemma LastIndex(db: Database, fwd: bool, rows: seq<Row>, i: nat)
    requires rows in Listings(db) && i < |rows| && forall r :: InView(db, r) ==> !RowBefore(fwd, rows[i], r)
    ensures !(0 <= Beside(fwd, i) < |rows|)
  {
    var j := Beside(fwd, i);
    assert 0 <= j < |rows| ==> rows[j] in rows && RowBefore(fwd, rows[i], rows[j]);
  }

  method RoamStep(cur: LocalCursor, fwd: bool, ghost rows: seq<Row>, ghost i: nat) returns (st: Status)
    requires CanGo(cur, fwd) && NothingErased(cur.db) && rows in Listings(cur.db) && i < |rows| &&
             rows[i] == Showing(cur)
    modifies cur
    ensures st == if 0 <= Beside(fwd, i) < |rows| then Ok else KeyNotFound
    ensures st == Ok ==> GoesAnywhere(cur) && Showing(cur) == rows[Beside(fwd, i)]
  {
    StepReady(cur, fwd);
    st := Step(cur, fwd);
    if st == Ok {
      AdjacentIndex(cur.db, fwd, rows, i, cur.Shown(cur.c));
    } else {
      LastIndex(cur.db, fwd, rows, i);
    }
  }

  lemma StepReady(cur: LocalCursor, fwd: bool)
    requires CanGo(cur, fwd) && NothingErased(cur.db)
    ensures cur.Placed(cur.c) && NoneHidden(cur.db, fwd, cur.Prepared(cur.c, fwd), cur.ShownKey(cur.c))
  {
    PreparedAimed(cur, fwd);
    NeverHidden(cur.db, fwd, cur.Prepared(cur.c, fwd), cur.ShownKey(cur.c));
  }

  /** Any run of NEXT and PREVIOUS from a row of the view, until a move fails: the
      cursor stays on the sequence of all rows, one step per move, and a move fails
      exactly if it would leave the sequence. */
  method Roam(cur: LocalCursor, dirs: seq<bool>, ghost rows: seq<Row>, ghost i: nat) returns (k: nat)
    requires GoesAnywhere(cur) && NothingErased(cur.db)
    requires rows in Listings(cur.db) && i < |rows| && rows[i] == Showing(cur)
    modifies cur
    ensures k <= |dirs| && 0 <= i + Net(dirs[..k]) < |rows|
    ensures k == |dirs| ==> GoesAnywhere(cur) && Showing(cur) == rows[i + Net(dirs[..k])]
    ensures k < |dirs| ==> i + Net(dirs[..k]) == if dirs[k] then |rows| - 1 else 0
  {
    k := RoamLoop(cur, dirs, rows, i);
    StepsExact(|rows|, dirs, i);
    EndedNet(dirs, i);
    assert dirs[..|dirs|] == dirs;
  }

  function Nth(rows: seq<Row>, i: int): Row { if 0 <= i < |rows| then rows[i] else Row(0, 0, 0) }

  /** The moves of a run from index i that stay within n rows. */
  function Steps(n: nat, dirs: seq<bool>, i: int): (k: nat)
    ensures k <= |dirs|
  {
    if dirs == [] || !(0 <= Beside(dirs[0], i) < n) then 0 else 1 + Steps(n, dirs[1..], Beside(dirs[0], i))
  }

  lemma {:induction false} StepsExact(n: nat, dirs: seq<bool>, i: int)
    requires 0 <= i < n
    ensures var k := Steps(n, dirs, i);
            && 0 <= i + Net(dirs[..k]) < n
            && (k < |dirs| ==> i + Net(dirs[..k]) == if dirs[k] then n - 1 else 0)
  {
    if dirs != [] && 0 <= Beside(dirs[0], i) < n {
      StepsExact(n, dirs[1..], Beside(dirs[0], i));
      NetCons(dirs, Steps(n, dirs[1..], Beside(dirs[0], i)));
    }
  }

  method RoamLoop(cur: LocalCursor, dirs: seq<bool>, ghost rows: seq<Row>, ghost i: nat) returns (k: nat)
    requires GoesAnywhere(cur) && NothingErased(cur.db)
    requires rows in Listings(cur.db) && i < |rows| && rows[i] == Showing(cur)
    modifies cur
    ensures k == Steps(|rows|, dirs, i)
    ensures k == |dirs| ==> GoesAnywhere(cur)
    ensures k == |dirs| ==> Showing(cur) == Nth(rows, Ended(dirs, i))
  {
    k := 0;
    if dirs != [] {
      var st := RoamOne(cur, dirs[0], rows, i);
      if st == Ok {
        k := RoamLoop(cur, dirs[1..], rows, Beside(dirs[0], i));
        k := k + 1;
      }
    }
  }

  /** The index after a run from index i. */
  function Ended(dirs: seq<bool>, i: int): int { if dirs == [] then i else Ended(dirs[1..], Beside(dirs[0], i)) }

  lemma {:induction false} EndedNet(dirs: seq<bool>, i: int)
    ensures Ended(dirs, i) == i + Net(dirs)
  {
    if dirs != [] {
      EndedNet(dirs[1..], Beside(dirs[0], i));
      NetCons(dirs, |dirs| - 1);
      assert dirs[..|dirs|] == dirs && dirs[1..][..|dirs| - 1] == dirs[1..];
    }
  }

  lemma {:induction false} NetCons(dirs: seq<bool>, m: nat)
    requires m < |dirs|
    ensures Net(dirs[..m + 1]) == Beside(dirs[0], Net(dirs[1..][..m]))
  {
    if m > 0 {
      NetCons(dirs, m - 1);
      assert dirs[..m + 1][..m] == dirs[..m];
      assert dirs[1..][..m][..m - 1] == dirs[1..][..m - 1];
    }
  }

  method RoamOne(cur: LocalCursor, fwd: bool, ghost rows: seq<Row>, ghost i: nat) returns (st: Status)
    requires GoesAnywhere(cur) && NothingErased(cur.db) && rows in Listings(cur.db) && i < |rows|
    requires rows[i] == Showing(cur)
    modifies cur
    ensures st == if 0 <= Beside(fwd, i) < |rows| then Ok else KeyNotFound
    ensures st == Ok ==> GoesAnywhere(cur) && Showing(cur) == rows[Beside(fwd, i)]
  {
    assert CanGo(cur, fwd);
    st := RoamStep(cur, fwd, rows, i);
  }

  /** A lookup leads to a place from which the cursor can go both ways. */
  method Find(cur: LocalCursor, x: Key) returns (st: Status)
    requires Undisturbed(cur.db) && (NodeOf(cur.db.nodes, x) == -1 || InRangeNode(cur.db, NodeOf(cur.db.nodes, x)))
    modifies cur
    ensures st == Ok <==> View(cur.db, x) != []
    ensures st == Ok ==> GoesAnywhere(cur) && cur.Shown(cur.c) == Row(x, 1, View(cur.db, x)[0])
  {
    NoForeignKeys(cur.db);
    st := cur.Lookup(x);
    if st == Ok {
      FoundItem(cur);
    }
  }

  lemma FoundItem(cur: LocalCursor)
    requires cur.Placed(cur.c) && cur.lastOp == LookupOrInsert && cur.List(cur.c) == View(cur.db, cur.ShownKey(cur.c))
    requires Undisturbed(cur.db) && (cur.c.side == Txn && !cur.db.dup ==> cur.c.op == |cur.db.nodes[cur.c.t].ops| - 1)
    ensures GoesAnywhere(cur)
  {
    assert cur.c in GenuineStates(cur);
    SyncedWay(cur, true);
    SyncedWay(cur, false);
    TwoWays(Ways(cur));
  }
}
