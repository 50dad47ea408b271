/** Turning around directly after FIRST or LAST, without other open transactions.
    The engine does not look up the idle cursor then. The move back, which should
    fail, shows the rows of the same key again if the two cursors stand apart, and
    with duplicate keys the btree's records of keys that have no records any more
    if the transaction cursor has run to its end. Runs that begin at an end of the
    view stay on the sequence of all rows but for this turn. */
module Turns {
  import opened Trees
  import opened MergeWalk
  import opened Fronts
  import opened Cursor
  import opened Walks
  import Actions

  /** Only one of the trees holds key x, and the other one goes on behind it. */
  predicate Apart(db: Db, fwd: bool, x: Key) {
    if NodeOf(db.nodes, x) == -1 then exists n :: n in db.nodes && Prior(fwd, x, n.key)
    else RecsOf(db.btree, x) == [] && exists e :: e in db.btree && Prior(fwd, x, e.key)
  }

  /** All nodes lie before x. */
  predicate Spent(db: Db, fwd: bool, x: Key) { forall n :: n in db.nodes ==> Prior(fwd, n.key, x) }

  /** The row is shown on the way back from x, the first key of the view. */
  predicate ShownAgain(db: Db, fwd: bool, x: Key, r: Row) {
    || (Apart(db, fwd, x) && r.key == x && InView(db, r))
    || (db.dup && Spent(db, fwd, x) && Prior(fwd, r.key, x) && InLines(r, Lines(RecsOf(db.btree, r.key))))
  }

  /** The btree holds keys before x that come to light on the way back. */
  predicate Reveals(db: Db, fwd: bool, x: Key) {
    db.dup && Spent(db, fwd, x) && exists e :: e in db.btree && Prior(fwd, e.key, x)
  }

  // ---- where the cursors stand ----

  /** Databases without other open transactions in which x is the first key of the
      view in this direction. */
  ghost function EdgeAt(fwd: bool, x: Key): iset<Database> {
    iset db: Database | Undisturbed(db) && View(db, x) != [] && forall y :: Prior(fwd, y, x) ==> View(db, y) == []
  }

  /** The fronts that hold all nodes from x on. */
  ghost function Complete(db: Database, fwd: bool, x: Key): iset<Front> {
    iset f: Front | forall n :: n in db.nodes && !Prior(fwd, n.key, x) ==> n.key in ItemKeys(f.ts)
  }

  /** The places of the cursors at which they show the first key of the view in this
      direction. */
  ghost function EdgePlaces(db: Database, fwd: bool, x: Key): iset<(int, int, nat)> {
    iset b: int, t: int, op: nat |
      && At(db, b, t, op) && db in EdgeAt(fwd, x)
      && Aimed(db, fwd, FrontOf(db, fwd, b, t, op), x) && FrontOf(db, fwd, b, t, op) in Complete(db, fwd, x)
      :: (b, t, op)
  }

  ghost predicate AtEdge(db: Database, fwd: bool, b: int, t: int, op: nat, x: Key) {
    (b, t, op) in EdgePlaces(db, fwd, x)
  }

  lemma ViewAtEdge(db: Database, fwd: bool, x: Key, y: Key)
    requires db in EdgeAt(fwd, x)
    ensures Undisturbed(db) && View(db, x) != [] && (Prior(fwd, y, x) ==> View(db, y) == [])
  {
  }

  /** What the btree cursor has left behind lies before x. */
  lemma EntriesBehind(db: Database, fwd: bool, b: int, t: int, op: nat, x: Key, j: nat)
    requires AtEdge(db, fwd, b, t, op, x) && j < |db.btree| && (b == -1 || Prior(fwd, j, b))
    ensures Prior(fwd, db.btree[j].key, x)
  {
    if !Prior(fwd, db.btree[j].key, x) {
      assert db.btree[j] in db.btree;
      EntryOrigin(db, fwd, b, db.btree[j]);
    }
  }

  /** What the transaction cursor has left behind lies before x. */
  lemma NodesBehind(db: Database, fwd: bool, b: int, t: int, op: nat, x: Key, n: nat)
    requires AtEdge(db, fwd, b, t, op, x) && n < |db.nodes| && (t == -1 || Prior(fwd, n, t))
    ensures Prior(fwd, db.nodes[n].key, x)
  {
    if !Prior(fwd, db.nodes[n].key, x) {
      assert db.nodes[n] in db.nodes;
      var it :| it in FrontOf(db, fwd, b, t, op).ts && it.key == db.nodes[n].key;
      ItemNotBefore(db, fwd, t, op, it, n);
    }
  }

  lemma ItemNotBefore(db: Database, fwd: bool, t: int, op: nat, it: Item, n: nat)
    requires t >= 0 && At(db, -1, t, op) && n < |db.nodes| && it.key == db.nodes[n].key
    requires it in [ItemAt(db, t, op)] + ItemsOn(db, fwd, Beside(fwd, t))
    ensures !Prior(fwd, n, t)
  {
    if it in ItemsOn(db, fwd, Beside(fwd, t)) {
      ItemsOnly(db, fwd, Beside(fwd, t), it);
    }
  }

  /** Both cursors are coupled, to different keys. */
  predicate Parted(db: Db, b: int, t: int)
    requires -1 <= b < |db.btree| && -1 <= t < |db.nodes|
  {
    b >= 0 && t >= 0 && db.btree[b].key != db.nodes[t].key
  }

  /** The front of the other direction. */
  function Back(db: Database, fwd: bool, b: int, t: int, op: nat): Front
    requires At(db, b, t, op)
  {
    FrontOf(db, !fwd, b, t, op)
  }

  lemma EdgeHeads(db: Database, fwd: bool, b: int, t: int, op: nat, x: Key)
    requires AtEdge(db, fwd, b, t, op, x)
    ensures !Empty(Back(db, fwd, b, t, op)) && ((b >= 0 && db.btree[b].key == x) || (t >= 0 && db.nodes[t].key == x))
    ensures b >= 0 ==> !Prior(fwd, db.btree[b].key, x)
    ensures t >= 0 ==> !Prior(fwd, db.nodes[t].key, x)
    ensures var h := Head(!fwd, Back(db, fwd, b, t, op));
            && !Prior(fwd, h, x) && (Parted(db, b, t) <==> h != x)
            && (b >= 0 && db.btree[b].key != x ==> h == db.btree[b].key)
            && (t >= 0 && db.nodes[t].key != x ==> h == db.nodes[t].key)
  {
  }

  lemma NodeHere(db: Database, fwd: bool, b: int, t: int, op: nat, x: Key)
    requires AtEdge(db, fwd, b, t, op, x)
    ensures NodeOf(db.nodes, x) == if t >= 0 && db.nodes[t].key == x then t else -1
  {
    EdgeHeads(db, fwd, b, t, op, x);
    var n := NodeOf(db.nodes, x);
    if n >= 0 && (t == -1 || db.nodes[t].key != x) {
      NodesBehind(db, fwd, b, t, op, x, n);
    }
    if t >= 0 && db.nodes[t].key == x {
      NodeOfNode(db.nodes, t);
    }
  }

  lemma NoOtherEntry(db: Database, fwd: bool, b: int, t: int, op: nat, x: Key, j: nat)
    requires AtEdge(db, fwd, b, t, op, x) && j < |db.btree| && j != b
    ensures db.btree[j].key != x
  {
    EdgeHeads(db, fwd, b, t, op, x);
    if b == -1 || Prior(fwd, j, b) {
      EntriesBehind(db, fwd, b, t, op, x, j);
    }
  }

  lemma EntryHere(db: Database, fwd: bool, b: int, t: int, op: nat, x: Key)
    requires AtEdge(db, fwd, b, t, op, x)
    ensures RecsOf(db.btree, x) == if b >= 0 && db.btree[b].key == x then db.btree[b].recs else []
  {
    EdgeHeads(db, fwd, b, t, op, x);
    if b >= 0 && db.btree[b].key == x {
      RecsOfEntry(db.btree, b);
    } else {
      forall j | 0 <= j < |db.btree| ensures db.btree[j].key != x {
        if j != b {
          NoOtherEntry(db, fwd, b, t, op, x, j);
        }
      }
    }
  }

  lemma SomeNodeBehind(db: Database, fwd: bool, b: int, t: int, op: nat, x: Key)
    requires AtEdge(db, fwd, b, t, op, x)
    ensures (exists n :: n in db.nodes && !Prior(fwd, n.key, x)) <==> t >= 0
  {
    EdgeHeads(db, fwd, b, t, op, x);
    if t >= 0 {
      assert db.nodes[t] in db.nodes;
    }
  }

  lemma SomeEntryBehind(db: Database, fwd: bool, b: int, t: int, op: nat, x: Key)
    requires AtEdge(db, fwd, b, t, op, x)
    ensures (exists e :: e in db.btree && !Prior(fwd, e.key, x)) <==> b >= 0
  {
    EdgeHeads(db, fwd, b, t, op, x);
    if b >= 0 {
      assert db.btree[b] in db.btree;
    }
  }

  /** What the trees say about where the cursors stand. */
  lemma WhereTheyStand(db: Database, fwd: bool, b: int, t: int, op: nat, x: Key)
    requires AtEdge(db, fwd, b, t, op, x)
    ensures Parted(db, b, t) <==> Apart(db, fwd, x)
    ensures t == -1 <==> Spent(db, fwd, x)
  {
    EdgeHeads(db, fwd, b, t, op, x);
    NodeHere(db, fwd, b, t, op, x);
    EntryHere(db, fwd, b, t, op, x);
    SomeNodeBehind(db, fwd, b, t, op, x);
    SomeEntryBehind(db, fwd, b, t, op, x);
    if t >= 0 {
      assert db.nodes[t] in db.nodes;
    }
    if b >= 0 {
      assert db.btree[b] in db.btree;
    }
    ApartIs(db, fwd, x);
  }

  lemma ApartIs(db: Database, fwd: bool, x: Key)
    ensures Apart(db, fwd, x) <==>
            if NodeOf(db.nodes, x) == -1 then exists n :: n in db.nodes && !Prior(fwd, n.key, x)
            else RecsOf(db.btree, x) == [] && exists e :: e in db.btree && !Prior(fwd, e.key, x)
  {
    forall e | e in db.btree && RecsOf(db.btree, x) == [] ensures e.key != x {
      var i :| 0 <= i < |db.btree| && db.btree[i] == e;
      RecsOfEntry(db.btree, i);
    }
    forall n | n in db.nodes && NodeOf(db.nodes, x) == -1 ensures n.key != x {
    }
  }

  // ---- what is shown on the way back ----

  /** Fewer records to begin with never leave more. */
  lemma {:induction false} ShorterBase(acts: seq<Action>, d: seq<Rec>, e: seq<Rec>)
    requires |d| <= |e|
    ensures |Actions.ConsolidateAll(acts, d)| <= |Actions.ConsolidateAll(acts, e)|
  {
    if acts != [] {
      ShorterBase(acts[..|acts|-1], d, e);
    }
  }

  /** A node that the walk comes to has nothing to show. */
  lemma BackNode(db: Database, fwd: bool, g: Front, n: nat, y: Key)
    requires n < |db.nodes| && db.nodes[n].key == y && View(db, y) == []
    requires TxnFirst(fwd, g) && IsItem(db.dup, g.ts[0], db.nodes[n])
    requires BtreeFirst(fwd, g) ==> g.bs[0].recs == RecsOf(db.btree, y)
    ensures Shows(db, fwd, g) == Lines([])
  {
    NodeOfNode(db.nodes, n);
    if db.dup {
      ShorterBase(Acts(db.nodes[n].ops), if BtreeFirst(fwd, g) then g.bs[0].recs else [], RecsOf(db.btree, y));
    }
  }

  lemma ErasedNodeShown(db: Database, n: nat)
    requires Undisturbed(db) && !db.dup && n < |db.nodes| && View(db, db.nodes[n].key) == []
    ensures ErasedNode(db.nodes[n])
  {
    NodeOfNode(db.nodes, n);
    NoForeignKeys(db);
    var last := |db.nodes[n].ops| - 1;
    assert Plain(db.nodes[n].ops[last].act);
  }

  /** A btree key that the walk comes to without its node. */
  lemma BackEntry(db: Database, fwd: bool, g: Front, y: Key)
    requires Undisturbed(db) && !Empty(g) && !TxnFirst(fwd, g) && g.bs[0].key == y
    requires g.bs[0].recs == RecsOf(db.btree, y) && View(db, y) == [] && RecsOf(db.btree, y) != []
    ensures NodeOf(db.nodes, y) >= 0
    ensures Shows(db, fwd, g) == Lines(if db.dup then RecsOf(db.btree, y) else [])
  {
    if !db.dup {
      ErasedNodeShown(db, NodeOf(db.nodes, y));
    }
  }

  lemma ItemAtEdge(db: Database, fwd: bool, b: int, t: int, op: nat, x: Key)
    requires AtEdge(db, fwd, b, t, op, x) && t >= 0
    ensures IsItem(db.dup, ItemAt(db, t, op), db.nodes[t])
  {
    var f := FrontOf(db, fwd, b, t, op);
    assert f.ts[0] in f.ts;
    var n :| n in db.nodes && IsItem(db.dup, f.ts[0], n);
    var i :| 0 <= i < |db.nodes| && db.nodes[i] == n;
    NodeOfNode(db.nodes, i);
    NodeOfNode(db.nodes, t);
  }

  /** The items on the way back belong to nodes at or before the transaction
      cursor. */
  lemma BackItem(db: Database, fwd: bool, b: int, t: int, op: nat, x: Key, it: Item) returns (n: nat)
    requires AtEdge(db, fwd, b, t, op, x) && it in Back(db, fwd, b, t, op).ts
    ensures t >= 0 && n < |db.nodes| && IsItem(db.dup, it, db.nodes[n]) && (n == t || Prior(fwd, n, t))
  {
    if it == ItemAt(db, t, op) {
      ItemAtEdge(db, fwd, b, t, op, x);
      n := t;
    } else {
      ItemsOnly(db, !fwd, Beside(!fwd, t), it);
      n :| 0 <= n < |db.nodes| && !Prior(!fwd, n, Beside(!fwd, t)) && it == ItemOf(db.dup, db.nodes[n]);
      ViewAtEdge(db, fwd, x, x);
      MovedItem(db, n);
    }
  }

  lemma BackEntryOf(db: Database, fwd: bool, b: int, t: int, op: nat, x: Key, e: Entry) returns (j: nat)
    requires AtEdge(db, fwd, b, t, op, x) && e in Back(db, fwd, b, t, op).bs
    ensures b >= 0 && j < |db.btree| && db.btree[j] == e && RecsOf(db.btree, e.key) == e.recs != []
    ensures j == b || Prior(fwd, j, b)
  {
    EntryOrigin(db, !fwd, b, e);
    j :| 0 <= j < |db.btree| && 0 <= b && !Prior(!fwd, j, b) && db.btree[j] == e;
    RecsOfEntry(db.btree, j);
  }

  /** Every further key on the way back lies before x. */
  lemma BackKeyBefore(db: Database, fwd: bool, b: int, t: int, op: nat, x: Key, y: Key)
    requires AtEdge(db, fwd, b, t, op, x) && !Empty(Back(db, fwd, b, t, op))
    requires var h := Back(db, fwd, b, t, op); y in Keys(h) && y != x && y != Head(!fwd, h)
    ensures Prior(fwd, y, x)
  {
    var h := Back(db, fwd, b, t, op);
    EdgeHeads(db, fwd, b, t, op, x);
    if e :| e in h.bs && e.key == y {
      var j := BackEntryOf(db, fwd, b, t, op, x, e);
      EntriesBehind(db, fwd, b, t, op, x, j);
    } else {
      var it :| it in h.ts && it.key == y;
      var n := BackItem(db, fwd, b, t, op, x, it);
      NodesBehind(db, fwd, b, t, op, x, n);
    }
  }

  lemma NodeBeforeHere(db: Database, fwd: bool, b: int, t: int, op: nat, x: Key, n: nat)
    requires AtEdge(db, fwd, b, t, op, x) && t >= 0 && n < |db.nodes| && Prior(fwd, db.nodes[n].key, x)
    ensures db.nodes[n].key in ItemKeys(Back(db, fwd, b, t, op).ts)
  {
    EdgeHeads(db, fwd, b, t, op, x);
    ViewAtEdge(db, fwd, x, x);
    NoForeignKeys(db);
    NodeAhead(db, !fwd, b, t, op, n);
  }

  /** What a key before x shows on the way back. */
  lemma BackKey(db: Database, fwd: bool, b: int, t: int, op: nat, x: Key, y: Key)
    requires AtEdge(db, fwd, b, t, op, x) && OrderedFront(!fwd, Back(db, fwd, b, t, op))
    requires y in Keys(Back(db, fwd, b, t, op)) && Prior(fwd, y, x)
    ensures ShowsAt(db, !fwd, Back(db, fwd, b, t, op), y) ==
            Lines(if db.dup && t == -1 then RecsOf(db.btree, y) else [])
  {
    var h, d := Back(db, fwd, b, t, op), !fwd;
    ReachIs(d, h, y);
    var g := Reach(d, h, y);
    ViewAtEdge(db, fwd, x, y);
    if BtreeFirst(d, g) {
      var j := BackEntryOf(db, fwd, b, t, op, x, g.bs[0]);
    }
    if TxnFirst(d, g) {
      var n := BackItem(db, fwd, b, t, op, x, g.ts[0]);
      BackNode(db, d, g, n, y);
    } else {
      BackEntry(db, d, g, y);
      if t >= 0 {
        NodeBeforeHere(db, fwd, b, t, op, x, NodeOf(db.nodes, y));
      }
    }
  }

  lemma EntryBeforeHere(db: Database, fwd: bool, b: int, t: int, op: nat, x: Key, y: Key)
    requires AtEdge(db, fwd, b, t, op, x) && t == -1 && Prior(fwd, y, x) && RecsOf(db.btree, y) != []
    ensures y in Keys(Back(db, fwd, b, t, op))
  {
    EdgeHeads(db, fwd, b, t, op, x);
    var j :| 0 <= j < |db.btree| && db.btree[j].key == y;
    EntryAhead(db, !fwd, b, j);
    assert db.btree[j] in Back(db, fwd, b, t, op).bs;
  }

  /** If the cursors stand apart, everything up to x is ahead on the way back. */
  lemma BackCovers(db: Database, fwd: bool, b: int, t: int, op: nat, x: Key)
    requires AtEdge(db, fwd, b, t, op, x) && Parted(db, b, t)
    ensures Covers(db, !fwd, Back(db, fwd, b, t, op), x)
  {
    EdgeHeads(db, fwd, b, t, op, x);
    ItemAtEdge(db, fwd, b, t, op, x);
    ViewAtEdge(db, fwd, x, x);
    BackAhead(db, fwd, b, t, x);
    FrontCovers(db, !fwd, b, t, op, x);
  }

  lemma BackAhead(db: Database, fwd: bool, b: nat, t: nat, x: Key)
    requires b < |db.btree| && !Prior(fwd, db.btree[b].key, x) && t < |db.nodes| && !Prior(fwd, db.nodes[t].key, x)
    ensures AllAhead(db, !fwd, b, t, x)
  {
  }

  /** Then x is shown. */
  lemma BackToX(db: Database, fwd: bool, b: int, t: int, op: nat, x: Key)
    requires AtEdge(db, fwd, b, t, op, x) && OrderedFront(!fwd, Back(db, fwd, b, t, op)) && Parted(db, b, t)
    ensures var h := Back(db, fwd, b, t, op);
            x in Keys(h) && x != Head(!fwd, h) && ShowsAt(db, !fwd, h, x) == Lines(View(db, x))
  {
    var h := Back(db, fwd, b, t, op);
    EdgeHeads(db, fwd, b, t, op, x);
    assert h.bs[0] in h.bs && h.ts[0] in h.ts;
    NodeHere(db, fwd, b, t, op, x);
    BackCovers(db, fwd, b, t, op, x);
    ViewAtEdge(db, fwd, x, x);
    ShowsView(db, !fwd, h, x, x);
  }

  lemma BackSound(db: Database, fwd: bool, b: int, t: int, op: nat, x: Key)
    requires AtEdge(db, fwd, b, t, op, x)
    ensures OrderedFront(!fwd, Back(db, fwd, b, t, op)) && Sound(db, !fwd, Back(db, fwd, b, t, op))
  {
    FrontOrdered(db, !fwd, b, t, op);
    if !db.dup {
      forall j, n | 0 <= j < |db.btree| && 0 <= n < |db.nodes| && b >= 0 && !Prior(!fwd, j, b) &&
        db.nodes[n].key == db.btree[j].key && db.btree[j].key != Head(!fwd, Back(db, fwd, b, t, op))
        ensures (t >= 0 && !Prior(!fwd, n, t)) || Strict(db.nodes[n]) != Ok
      {
        BackNodeSound(db, fwd, b, t, op, x, j, n);
      }
      FrontSound(db, !fwd, b, t, op);
    }
  }

  lemma BackNodeSound(db: Database, fwd: bool, b: int, t: int, op: nat, x: Key, j: nat, n: nat)
    requires AtEdge(db, fwd, b, t, op, x) && !db.dup && j < |db.btree| && n < |db.nodes| && b >= 0
    requires !Prior(!fwd, j, b) && db.nodes[n].key == db.btree[j].key
    requires db.btree[j].key != Head(!fwd, Back(db, fwd, b, t, op))
    ensures (t >= 0 && !Prior(!fwd, n, t)) || Strict(db.nodes[n]) != Ok
  {
    EdgeHeads(db, fwd, b, t, op, x);
    if j != b {
      EntriesBehind(db, fwd, b, t, op, x, j);
    }
    if t == -1 {
      NodesBehind(db, fwd, b, t, op, x, n);
      ViewAtEdge(db, fwd, x, db.nodes[n].key);
      ErasedNodeShown(db, n);
    }
  }

  lemma TurnRow(db: Database, fwd: bool, b: int, t: int, op: nat, x: Key, r: Row)
    requires AtEdge(db, fwd, b, t, op, x) && OrderedFront(!fwd, Back(db, fwd, b, t, op))
    requires !Empty(Back(db, fwd, b, t, op))
    ensures OnTrail(db, !fwd, Back(db, fwd, b, t, op), r) <==> ShownAgain(db, fwd, x, r)
  {
    var h := Back(db, fwd, b, t, op);
    WhereTheyStand(db, fwd, b, t, op, x);
    EdgeHeads(db, fwd, b, t, op, x);
    ViewAtEdge(db, fwd, x, x);
    CalmTrail(db, !fwd, h, r);
    if r.key == x {
      if Parted(db, b, t) {
        BackToX(db, fwd, b, t, op, x);
      }
    } else if r.key in Keys(h) && r.key != Head(!fwd, h) {
      BackKeyBefore(db, fwd, b, t, op, x, r.key);
      BackKey(db, fwd, b, t, op, x, r.key);
    } else if db.dup && t == -1 && Prior(fwd, r.key, x) && RecsOf(db.btree, r.key) != [] {
      EntryBeforeHere(db, fwd, b, t, op, x, r.key);
    }
  }

  /** All that a walk back from the edge shows: the rows of x again if only one of
      the trees holds it and the other one goes on; with duplicate keys and all
      nodes before x, the btree's records of the keys before x, none of which are
      in the view; and otherwise nothing. */
  lemma TurnExact(db: Database, fwd: bool, b: int, t: int, op: nat, x: Key)
    requires AtEdge(db, fwd, b, t, op, x)
    ensures !Empty(Back(db, fwd, b, t, op))
    ensures var e := Trail(db, !fwd, Back(db, fwd, b, t, op));
            e.st == KeyNotFound && Ordered(!fwd, e.rows) && forall r :: r in e.rows <==> ShownAgain(db, fwd, x, r)
  {
    var h, d := Back(db, fwd, b, t, op), !fwd;
    EdgeHeads(db, fwd, b, t, op, x);
    BackSound(db, fwd, b, t, op, x);
    ViewAtEdge(db, fwd, x, x);
    TrailMeaning(db, d, h);
    forall y ensures !Stops(db, d, h, y) {
      NeverStops(db, d, h, y);
    }
    forall r ensures OnTrail(db, d, h, r) <==> ShownAgain(db, fwd, x, r) {
      TurnRow(db, fwd, b, t, op, x, r);
    }
  }

  // ---- the cursor at the edge ----

  lemma FirstComplete(db: Database, fwd: bool)
    requires Undisturbed(db) && StartTrip(db, fwd).rows != []
    ensures var s := FirstSpot(db, fwd, StartFront(db, fwd)); s.front in Complete(db, fwd, s.key)
  {
    var f, s := StartFront(db, fwd), FirstSpot(db, fwd, StartFront(db, fwd));
    FirstInPlace(db, fwd);
    if s.front != f {
      StartAimed(db, fwd);
      SeekReach(db, fwd, f);
    }
    forall n | n in db.nodes && !Prior(fwd, n.key, s.key) ensures n.key in ItemKeys(s.front.ts) {
      StartHoldsAll(db, fwd, n);
      if s.front != f {
        ItemKeysKept(fwd, f, s.key, n.key);
      }
    }
  }

  lemma StartHoldsAll(db: Database, fwd: bool, n: Node)
    requires Undisturbed(db) && n in db.nodes
    ensures n.key in ItemKeys(StartFront(db, fwd).ts)
  {
    var i :| 0 <= i < |db.nodes| && db.nodes[i] == n;
    var t := Edge(|db.nodes|, fwd);
    NoForeignKeys(db);
    NodeAhead(db, fwd, Edge(|db.btree|, fwd), t, |db.nodes[t].ops| - 1, i);
  }

  lemma EdgeOfView(db: Database, fwd: bool, r: Row)
    requires Undisturbed(db) && FirstRow(db, fwd, r)
    ensures db in EdgeAt(fwd, r.key)
  {
    forall y | Prior(fwd, y, r.key) ensures View(db, y) == [] {
      var v := View(db, y);
      assert v != [] ==> InView(db, Row(y, 1, v[0])) && RowBefore(fwd, Row(y, 1, v[0]), r);
    }
  }

  lemma EdgeReached(cur: LocalCursor, fwd: bool)
    requires Undisturbed(cur.db) && StartTrip(cur.db, fwd).rows != [] && cur.Placed(cur.c)
    requires cur.Stand(cur.c, fwd) == FirstSpot(cur.db, fwd, StartFront(cur.db, fwd))
    ensures AtEdge(cur.db, fwd, cur.c.b, cur.c.t, cur.c.op, cur.ShownKey(cur.c))
    ensures cur.List(cur.c) == View(cur.db, cur.ShownKey(cur.c))
    ensures cur.Place(cur.c) == if fwd then 1 else |cur.List(cur.c)|
  {
    FirstInPlace(cur.db, fwd);
    FirstComplete(cur.db, fwd);
    FirstIsFirst(cur.db, fwd, StartTrip(cur.db, fwd).rows[0]);
    EdgeOfView(cur.db, fwd, StartTrip(cur.db, fwd).rows[0]);
  }

  /** Directly after FIRST or LAST the next move starts where the cursors stand, and
      the way back leads to another key at once. */
  lemma TurnExpects(cur: LocalCursor, fwd: bool)
    requires cur.Placed(cur.c) && cur.lastOp == None && cur.Place(cur.c) == if fwd then 1 else |cur.List(cur.c)|
    ensures cur.Start(cur.c, !fwd) == cur.Stand(cur.c, !fwd)
    ensures cur.Expect(cur.c, !fwd, All) == Trail(cur.db, !fwd, Back(cur.db, fwd, cur.c.b, cur.c.t, cur.c.op))
    ensures Arrives(cur.db, !fwd, All, cur.Start(cur.c, !fwd)) ==
            SpotAfter(cur.db, !fwd, Seek(cur.db, !fwd, Back(cur.db, fwd, cur.c.b, cur.c.t, cur.c.op)))
  {
    RestEmpty(cur.db, !fwd, cur.Start(cur.c, !fwd));
  }

  /** If the cursors stand apart, the move back arrives at a spot of the view. */
  lemma TurnInPlace(db: Database, fwd: bool, b: int, t: int, op: nat, x: Key)
    requires AtEdge(db, fwd, b, t, op, x) && Apart(db, fwd, x) && !Empty(Back(db, fwd, b, t, op))
    ensures var s := SpotAfter(db, !fwd, Seek(db, !fwd, Back(db, fwd, b, t, op)));
            InPlace(db, !fwd, s) && s.key == x && s.pos == if fwd then |View(db, x)| else 1
  {
    var h, d := Back(db, fwd, b, t, op), !fwd;
    assert !Empty(Seek(db, d, h)) && Head(d, Seek(db, d, h)) == x by {
      TurnSeeks(db, fwd, b, t, op, x);
    }
    WhereTheyStand(db, fwd, b, t, op, x);
    BackSound(db, fwd, b, t, op, x);
    BackToX(db, fwd, b, t, op, x);
    BackCovers(db, fwd, b, t, op, x);
    ViewAtEdge(db, fwd, x, x);
    SeekInView(db, d, h, x);
  }

  lemma SeekInView(db: Database, d: bool, h: Front, x: Key)
    requires OrderedFront(d, h) && !Empty(h) && Sound(db, d, h) && Covers(db, d, h, x) && View(db, x) != []
    requires !Empty(Seek(db, d, h)) && Head(d, Seek(db, d, h)) == x
    requires x in Keys(h) && ShowsAt(db, d, h, x) == Lines(View(db, x))
    ensures var s := SpotAfter(db, d, Seek(db, d, h));
            InPlace(db, d, s) && s.key == x && s.pos == if d then 1 else |View(db, x)|
  {
    SeekReach(db, d, h);
    SeekSound(db, d, h);
    CoversReach(db, d, h, x);
    SpotInView(db, d, Seek(db, d, h), x, if d then 1 else |View(db, x)|);
  }

  lemma TurnSeeks(db: Database, fwd: bool, b: int, t: int, op: nat, x: Key)
    requires AtEdge(db, fwd, b, t, op, x) && Apart(db, fwd, x) && !Empty(Back(db, fwd, b, t, op))
    ensures var g := Seek(db, !fwd, Back(db, fwd, b, t, op)); !Empty(g) && Head(!fwd, g) == x
  {
    var rows := Trail(db, !fwd, Back(db, fwd, b, t, op)).rows;
    assert rows != [] && forall r :: r in rows ==> r.key == x by {
      TurnExact(db, fwd, b, t, op, x);
      ViewAtEdge(db, fwd, x, x);
      OnlyX(db, fwd, x, rows);
    }
    SeekOnlyKey(db, !fwd, Back(db, fwd, b, t, op), x);
  }

  lemma OnlyX(db: Database, fwd: bool, x: Key, rows: seq<Row>)
    requires Apart(db, fwd, x) && View(db, x) != [] && forall r :: r in rows <==> ShownAgain(db, fwd, x, r)
    ensures rows != [] && forall r :: r in rows ==> r.key == x
  {
    ApartNotSpent(db, fwd, x);
    assert ShownAgain(db, fwd, x, Row(x, 1, View(db, x)[0]));
  }

  lemma ApartNotSpent(db: Database, fwd: bool, x: Key)
    requires Apart(db, fwd, x)
    ensures !Spent(db, fwd, x)
  {
    var n := NodeOf(db.nodes, x);
    if n >= 0 {
      assert db.nodes[n] in db.nodes;
    }
  }

  /** If a walk shows rows of one key only, the first move leads there. */
  lemma SeekOnlyKey(db: Database, d: bool, h: Front, x: Key)
    requires !Empty(h) && Trail(db, d, h).rows != [] && forall r :: r in Trail(db, d, h).rows ==> r.key == x
    ensures var g := Seek(db, d, h); !Empty(g) && Head(d, g) == x && Shows(db, d, g).Lines?
  {
    SeekLeads(db, d, h);
    SeekShows(db, d, h);
    assert Trail(db, d, h).rows[0] in Trail(db, d, h).rows;
  }

  /** The row that comes first on the way back. */
  ghost predicate FirstAgain(db: Database, fwd: bool, x: Key, r: Row) {
    ShownAgain(db, fwd, x, r) && forall q :: ShownAgain(db, fwd, x, q) ==> !RowBefore(!fwd, q, r)
  }

  lemma FirstOfRows(db: Database, fwd: bool, x: Key, rows: seq<Row>)
    requires Ordered(!fwd, rows) && forall r :: r in rows <==> ShownAgain(db, fwd, x, r)
    ensures rows != [] ==> FirstAgain(db, fwd, x, rows[0])
  {
    if rows != [] {
      assert rows[0] in rows;
      forall q | ShownAgain(db, fwd, x, q) ensures !RowBefore(!fwd, q, rows[0]) {
        var i :| 0 <= i < |rows| && rows[i] == q;
      }
    }
  }

  lemma SomethingAgain(db: Database, fwd: bool, x: Key)
    requires View(db, x) != []
    ensures (exists r :: ShownAgain(db, fwd, x, r)) <==> Apart(db, fwd, x) || Reveals(db, fwd, x)
  {
    if Apart(db, fwd, x) {
      assert ShownAgain(db, fwd, x, Row(x, 1, View(db, x)[0]));
    }
    if Reveals(db, fwd, x) {
      var e :| e in db.btree && Prior(fwd, e.key, x);
      var i :| 0 <= i < |db.btree| && db.btree[i] == e;
      RecsOfEntry(db.btree, i);
      assert ShownAgain(db, fwd, x, Row(e.key, 1, e.recs[0]));
    }
    if r :| ShownAgain(db, fwd, x, r) {
      if !Apart(db, fwd, x) {
        var i :| 0 <= i < |db.btree| && db.btree[i].key == r.key;
        assert db.btree[i] in db.btree;
      }
    }
  }

  /** The move back from the edge. */
  method MoveBack(cur: LocalCursor, fwd: bool) returns (st: Status)
    requires JustBegun(cur, fwd)
    modifies cur
    ensures var x := old(cur.Shown(cur.c)).key;
            && (st == Ok <==> Apart(cur.db, fwd, x) || Reveals(cur.db, fwd, x)) && (st != Ok ==> st == KeyNotFound)
            && (st == Ok ==> cur.Placed(cur.c) && FirstAgain(cur.db, fwd, x, cur.Shown(cur.c)))
            && (st == Ok && Apart(cur.db, fwd, x) ==> GoesAnywhere(cur))
  {
    BegunIs(cur, fwd);
    ghost var x, h := cur.ShownKey(cur.c), Back(cur.db, fwd, cur.c.b, cur.c.t, cur.c.op);
    ghost var rows := Trail(cur.db, !fwd, h).rows;
    EdgeReached(cur, fwd);
    TurnExpects(cur, fwd);
    TurnResult(cur, fwd, x, rows);
    st := cur.Move(!fwd, All);
    if st == Ok {
      OutlookShows(cur, !fwd);
      if Apart(cur.db, fwd, x) {
        Arrived(cur, !fwd);
      }
    }
  }

  lemma TurnResult(cur: LocalCursor, fwd: bool, x: Key, rows: seq<Row>)
    requires cur.Placed(cur.c) && AtEdge(cur.db, fwd, cur.c.b, cur.c.t, cur.c.op, x)
    requires !Empty(Back(cur.db, fwd, cur.c.b, cur.c.t, cur.c.op))
    requires rows == Trail(cur.db, !fwd, Back(cur.db, fwd, cur.c.b, cur.c.t, cur.c.op)).rows
    ensures Trail(cur.db, !fwd, Back(cur.db, fwd, cur.c.b, cur.c.t, cur.c.op)).st == KeyNotFound
    ensures rows != [] <==> Apart(cur.db, fwd, x) || Reveals(cur.db, fwd, x)
    ensures rows != [] ==> FirstAgain(cur.db, fwd, x, rows[0])
    ensures Apart(cur.db, fwd, x) ==>
            InPlace(cur.db, !fwd, SpotAfter(cur.db, !fwd,
              Seek(cur.db, !fwd, Back(cur.db, fwd, cur.c.b, cur.c.t, cur.c.op))))
  {
    TurnExact(cur.db, fwd, cur.c.b, cur.c.t, cur.c.op, x);
    ViewAtEdge(cur.db, fwd, x, x);
    SomethingAgain(cur.db, fwd, x);
    FirstOfRows(cur.db, fwd, x, rows);
    if Apart(cur.db, fwd, x) {
      TurnInPlace(cur.db, fwd, cur.c.b, cur.c.t, cur.c.op, x);
    }
    assert rows != [] ==> rows[0] in rows;
  }

  /** FIRST and then PREVIOUS, or LAST and then NEXT: the second move should fail. It
      fails exactly if the two trees are not apart at the first key and no key of
      the btree comes to light again, and otherwise shows the first of these rows. */
  method TurnAround(cur: LocalCursor, fwd: bool) returns (first: Status, second: Status, r: Row, again: Row)
    requires cur.Valid(cur.c) && Undisturbed(cur.db)
    modifies cur
    ensures first != Ok ==> first == KeyNotFound && forall q :: !InView(cur.db, q)
    ensures first == Ok ==> FirstRow(cur.db, fwd, r)
    ensures first == Ok ==> (second == Ok <==> Apart(cur.db, fwd, r.key) || Reveals(cur.db, fwd, r.key))
    ensures first == Ok && second == Ok ==> FirstAgain(cur.db, fwd, r.key, again)
    ensures first == Ok && second != Ok ==> second == KeyNotFound
  {
    second, r, again := KeyNotFound, Row(0, 0, 0), Row(0, 0, 0);
    first := Begin(cur, fwd, true);
    if first == Ok {
      r := cur.Read();
      second := MoveBack(cur, fwd);
      if second == Ok {
        again := cur.Read();
      }
    }
  }

  // ---- runs from an end ----

  /** The index of the first row in a direction. */
  function EndOf(rows: seq<Row>, fwd: bool): int { if fwd then 0 else |rows| - 1 }

  /** The index of the last duplicate of the first key in a direction. */
  function FarEnd(db: Db, rows: seq<Row>, fwd: bool): int
    requires rows != []
  {
    var n := |View(db, rows[EndOf(rows, fwd)].key)|;
    if fwd then n - 1 else |rows| - n
  }

  /** The run turns around at its end of the view, where the trees are apart. */
  predicate TurnsApart(db: Db, rows: seq<Row>, dirs: seq<bool>)
    requires |dirs| > 1
  {
    dirs[1] != dirs[0] && rows != [] && Apart(db, dirs[0], rows[EndOf(rows, dirs[0])].key)
  }

  /** Where a run of NEXT and PREVIOUS from an end leads on the sequence of all
      rows. */
  function Index(db: Db, rows: seq<Row>, dirs: seq<bool>): int
    requires dirs != []
  {
    var n := |dirs| - 1;
    if n == 0 then EndOf(rows, dirs[0])
    else if n == 1 && TurnsApart(db, rows, dirs) then FarEnd(db, rows, dirs[0])
    else Beside(dirs[n], Index(db, rows, dirs[..n]))
  }

  lemma FirstRowIndex(db: Database, rows: seq<Row>, fwd: bool, r: Row)
    requires rows in Listings(db) && FirstRow(db, fwd, r)
    ensures 0 <= EndOf(rows, fwd) < |rows| && rows[EndOf(rows, fwd)] == r
  {
    var i :| 0 <= i < |rows| && rows[i] == r;
    assert rows[EndOf(rows, fwd)] in rows;
  }

  /** The duplicates of a key stand side by side. */
  lemma {:induction false} DuplicatesBeside(db: Database, rows: seq<Row>, fwd: bool, i: nat, n: nat)
    requires rows in Listings(db) && i < |rows|
    requires var v := View(db, rows[i].key);
             rows[i].pos == (if fwd then 1 else |v|) && n < |v|
    ensures var j := if fwd then i + n else i - n; var p := if fwd then n + 1 else rows[i].pos - n;
            0 <= j < |rows| && rows[j] == Row(rows[i].key, p, View(db, rows[i].key)[p-1])
  {
    var x, v := rows[i].key, View(db, rows[i].key);
    assert rows[i] in rows;
    if n > 0 {
      DuplicatesBeside(db, rows, fwd, i, n - 1);
      var j := if fwd then i + (n - 1) else i - (n - 1);
      var p := if fwd then n + 1 else rows[i].pos - n;
      assert Adjacent(db, fwd, rows[j], Row(x, p, v[p-1]));
      AdjacentIndex(db, fwd, rows, j, Row(x, p, v[p-1]));
    }
  }

  /** The first duplicate of a key in a direction, and the last one. */
  function Outer(db: Db, x: Key, near: bool): Row
    requires View(db, x) != []
  {
    var v := View(db, x); if near then Row(x, 1, v[0]) else Row(x, |v|, v[|v|-1])
  }

  lemma NearShown(db: Database, fwd: bool, r: Row)
    requires FirstRow(db, fwd, r)
    ensures View(db, r.key) != [] && r == Outer(db, r.key, fwd)
  {
    assert InView(db, Outer(db, r.key, fwd));
  }

  lemma FarAgain(db: Database, fwd: bool, x: Key, r: Row)
    requires Apart(db, fwd, x) && View(db, x) != [] && FirstAgain(db, fwd, x, r)
    ensures r == Outer(db, x, !fwd)
  {
    ApartNotSpent(db, fwd, x);
    assert InView(db, Outer(db, x, !fwd)) && ShownAgain(db, fwd, x, Outer(db, x, !fwd));
  }

  lemma FarEndShown(db: Database, rows: seq<Row>, fwd: bool, r: Row)
    requires rows in Listings(db) && rows != [] && FirstRow(db, fwd, rows[EndOf(rows, fwd)])
    requires var x := rows[EndOf(rows, fwd)].key; Apart(db, fwd, x) && FirstAgain(db, fwd, x, r)
    ensures 0 <= FarEnd(db, rows, fwd) < |rows| && rows[FarEnd(db, rows, fwd)] == r
  {
    var e := EndOf(rows, fwd);
    NearShown(db, fwd, rows[e]);
    FarAgain(db, fwd, rows[e].key, r);
    DuplicatesBeside(db, rows, fwd, e, |View(db, rows[e].key)| - 1);
  }

  lemma {:induction false} IndexNet(db: Db, rows: seq<Row>, dirs: seq<bool>, k: nat)
    requires |dirs| >= 2 && k <= |dirs| - 2
    ensures Index(db, rows, dirs[..2 + k]) == Index(db, rows, dirs[..2]) + Net(dirs[2..][..k])
  {
    if k > 0 {
      IndexNet(db, rows, dirs, k - 1);
      assert dirs[..2 + k][..1 + k] == dirs[..1 + k];
      assert dirs[2..][..k][..k - 1] == dirs[2..][..k - 1];
    }
  }

  lemma IndexTwo(db: Db, rows: seq<Row>, dirs: seq<bool>)
    requires |dirs| >= 2
    ensures Index(db, rows, dirs[..2]) ==
            if TurnsApart(db, rows, dirs) then FarEnd(db, rows, dirs[0])
            else Beside(dirs[1], EndOf(rows, dirs[0]))
  {
    assert dirs[..2][..1] == dirs[..1];
  }

  /** The status of a turn where the trees are not apart. */
  function TurnStatus(db: Db, fwd: bool, x: Key): Status { if Reveals(db, fwd, x) then Ok else KeyNotFound }

  /** The second move in the same direction. */
  method GoOn(cur: LocalCursor, fwd: bool, ghost rows: seq<Row>) returns (st: Status)
    requires JustBegun(cur, fwd) && NothingErased(cur.db) && rows in Listings(cur.db)
    requires 0 <= EndOf(rows, fwd) < |rows| && rows[EndOf(rows, fwd)] == Showing(cur)
    modifies cur
    ensures st == if 0 <= Beside(fwd, EndOf(rows, fwd)) < |rows| then Ok else KeyNotFound
    ensures st == Ok ==> GoesAnywhere(cur) && Showing(cur) == rows[Beside(fwd, EndOf(rows, fwd))]
  {
    BegunIs(cur, fwd);
    st := RoamStep(cur, fwd, rows, EndOf(rows, fwd));
  }

  /** A turn directly at the end. */
  method TurnBack(cur: LocalCursor, fwd: bool, ghost rows: seq<Row>) returns (st: Status, on: bool)
    requires JustBegun(cur, fwd) && rows in Listings(cur.db)
    requires 0 <= EndOf(rows, fwd) < |rows| && rows[EndOf(rows, fwd)] == Showing(cur)
    modifies cur
    ensures on == Apart(cur.db, fwd, rows[EndOf(rows, fwd)].key)
    ensures on ==> 0 <= FarEnd(cur.db, rows, fwd) < |rows|
    ensures on ==> GoesAnywhere(cur) && Showing(cur) == rows[FarEnd(cur.db, rows, fwd)]
    ensures !on ==> st == TurnStatus(cur.db, fwd, rows[EndOf(rows, fwd)].key)
  {
    BegunIs(cur, fwd);
    var r := cur.Read();
    st := MoveBack(cur, fwd);
    on := Apart(cur.db, fwd, r.key);
    if on {
      FarEndShown(cur.db, rows, fwd, cur.Shown(cur.c));
    }
  }

  /** The status of a second move that leaves the sequence. */
  function SecondStatus(db: Db, rows: seq<Row>, dirs: seq<bool>): Status {
    if RevealsAt(db, rows, dirs, 1) then Ok else KeyNotFound
  }

  /** The second move of a run. */
  method SecondMove(cur: LocalCursor, dirs: seq<bool>, ghost rows: seq<Row>) returns (st: Status, on: bool)
    requires |dirs| >= 2 && NothingErased(cur.db) && rows in Listings(cur.db) && JustBegun(cur, dirs[0])
    requires 0 <= EndOf(rows, dirs[0]) < |rows| && rows[EndOf(rows, dirs[0])] == Showing(cur)
    modifies cur
    ensures on == (0 <= Index(cur.db, rows, dirs[..2]) < |rows|)
    ensures on ==> GoesAnywhere(cur) && Showing(cur) == rows[Index(cur.db, rows, dirs[..2])]
    ensures !on ==> st == SecondStatus(cur.db, rows, dirs)
  {
    if dirs[1] == dirs[0] {
      st := GoOn(cur, dirs[0], rows);
      on := st == Ok;
    } else {
      st, on := TurnBack(cur, dirs[0], rows);
    }
    IndexTwo(cur.db, rows, dirs);
  }

  /** The move after k moves turns around at the end and brings a lost key to
      light. */
  predicate RevealsAt(db: Db, rows: seq<Row>, dirs: seq<bool>, k: nat) {
    k == 1 < |dirs| && dirs[1] != dirs[0] && rows != [] && Reveals(db, dirs[0], rows[EndOf(rows, dirs[0])].key)
  }

  /** The ways in which a run can end: k moves stay on the sequence of all rows, where
      Index says, and the next one, if there is one, leaves it. */
  ghost function Ends(db: Db, rows: seq<Row>, dirs: seq<bool>): iset<(nat, Status)> {
    iset k: nat, st: Status |
      && k <= |dirs| && (k > 0 ==> 0 <= Index(db, rows, dirs[..k]) < |rows|)
      && (k < |dirs| ==> !(0 <= Index(db, rows, dirs[..k + 1]) < |rows|))
      && (k < |dirs| ==> st == if RevealsAt(db, rows, dirs, k) then Ok else KeyNotFound) :: (k, st)
  }

  lemma NothingToRoam(db: Database, rows: seq<Row>, dirs: seq<bool>)
    requires rows in Listings(db) && dirs != [] && forall q :: !InView(db, q)
    ensures (0, KeyNotFound) in Ends(db, rows, dirs)
  {
    ListedInView(db, rows);
    assert Index(db, rows, dirs[..1]) == EndOf(rows, dirs[0]);
  }

  lemma ListedInView(db: Database, rows: seq<Row>)
    requires rows in Listings(db)
    ensures rows != [] ==> InView(db, rows[0])
  {
    assert rows != [] ==> rows[0] in rows;
  }

  lemma OneMove(db: Database, rows: seq<Row>, dirs: seq<bool>)
    requires |dirs| == 1 && 0 <= EndOf(rows, dirs[0]) < |rows|
    ensures (1, Ok) in Ends(db, rows, dirs) && Index(db, rows, dirs) == EndOf(rows, dirs[0])
  {
    assert dirs[..1] == dirs;
  }

  lemma TwoMoves(db: Database, rows: seq<Row>, dirs: seq<bool>, st: Status)
    requires |dirs| >= 2 && 0 <= EndOf(rows, dirs[0]) < |rows| && !(0 <= Index(db, rows, dirs[..2]) < |rows|)
    requires st == SecondStatus(db, rows, dirs)
    ensures (1, st) in Ends(db, rows, dirs)
  {
    assert Index(db, rows, dirs[..1]) == EndOf(rows, dirs[0]);
  }

  lemma MoreMoves(db: Database, rows: seq<Row>, dirs: seq<bool>, m: nat, j: int)
    requires |dirs| >= 2 && m <= |dirs| - 2 && j == Index(db, rows, dirs[..2]) + Net(dirs[2..][..m])
    requires 0 <= j < |rows| && (m < |dirs| - 2 ==> j == if dirs[2..][m] then |rows| - 1 else 0)
    ensures (2 + m, KeyNotFound) in Ends(db, rows, dirs)
    ensures m == |dirs| - 2 ==> Index(db, rows, dirs) == j
  {
    RoamIndex(db, rows, dirs, m);
  }

  /** Any run of NEXT and PREVIOUS from a nil cursor, or from any cursor after FIRST
      or LAST instead of the first of them: as long as moves succeed, the cursor
      stays on the sequence of all rows, where Index says. It stops exactly where
      that leaves the sequence: the move fails, or it is a turn directly at the end
      that brings a lost key to light. */
  method RoamFromEnd(cur: LocalCursor, edge: bool, dirs: seq<bool>, ghost rows: seq<Row>)
    returns (k: nat, st: Status)
    requires cur.Valid(cur.c) && (edge || cur.Nil(cur.c)) && Undisturbed(cur.db) && NothingErased(cur.db)
    requires rows in Listings(cur.db)
    modifies cur
    ensures (k, st) in Ends(cur.db, rows, dirs)
    ensures k == |dirs| > 0 ==> 0 <= Index(cur.db, rows, dirs) < |rows|
    ensures k == |dirs| > 0 ==> Showing(cur) == rows[Index(cur.db, rows, dirs)]
  {
    k, st := 0, KeyNotFound;
    if dirs != [] {
      st := Begin(cur, dirs[0], edge);
      if st == Ok {
        FirstRowIndex(cur.db, rows, dirs[0], cur.Shown(cur.c));
        k, st := RoamOn(cur, dirs, rows);
      } else {
        NothingToRoam(cur.db, rows, dirs);
      }
    }
  }

  /** All moves but the first. */
  method RoamOn(cur: LocalCursor, dirs: seq<bool>, ghost rows: seq<Row>) returns (k: nat, st: Status)
    requires dirs != [] && JustBegun(cur, dirs[0]) && NothingErased(cur.db) && rows in Listings(cur.db)
    requires 0 <= EndOf(rows, dirs[0]) < |rows| && rows[EndOf(rows, dirs[0])] == Showing(cur)
    modifies cur
    ensures (k, st) in Ends(cur.db, rows, dirs)
    ensures k == |dirs| ==> 0 <= Index(cur.db, rows, dirs) < |rows| && Showing(cur) == rows[Index(cur.db, rows, dirs)]
  {
    k, st := 1, Ok;
    if |dirs| == 1 {
      BegunIs(cur, dirs[0]);
      OneMove(cur.db, rows, dirs);
      return;
    }
    var on;
    st, on := SecondMove(cur, dirs, rows);
    if on {
      k := RoamRest(cur, dirs, rows, Index(cur.db, rows, dirs[..2]));
      st := KeyNotFound;
    } else {
      TwoMoves(cur.db, rows, dirs, st);
    }
  }

  /** All moves but the first two. */
  method RoamRest(cur: LocalCursor, dirs: seq<bool>, ghost rows: seq<Row>, ghost i: nat) returns (k: nat)
    requires GoesAnywhere(cur) && NothingErased(cur.db) && rows in Listings(cur.db)
    requires |dirs| >= 2 && i < |rows| && i == Index(cur.db, rows, dirs[..2]) && Showing(cur) == rows[i]
    modifies cur
    ensures (k, KeyNotFound) in Ends(cur.db, rows, dirs)
    ensures k == |dirs| ==> 0 <= Index(cur.db, rows, dirs) < |rows| && Showing(cur) == rows[Index(cur.db, rows, dirs)]
  {
    var tail := dirs[2..];
    var m := Roam(cur, tail, rows, i);
    ghost var j := i + Net(tail[..m]);
    MoreMoves(cur.db, rows, dirs, m, j);
    k := 2 + m;
  }

  lemma RoamIndex(db: Database, rows: seq<Row>, dirs: seq<bool>, m: nat)
    requires |dirs| >= 2 && m <= |dirs| - 2
    ensures var i := Index(db, rows, dirs[..2]) + Net(dirs[2..][..m]);
            && Index(db, rows, dirs[..2 + m]) == i && (m == |dirs| - 2 ==> dirs[..2 + m] == dirs)
            && (m < |dirs| - 2 ==> Index(db, rows, dirs[..3 + m]) == Beside(dirs[2..][m], i))
  {
    IndexNet(db, rows, dirs, m);
    if m < |dirs| - 2 {
      assert dirs[..3 + m][..2 + m] == dirs[..2 + m];
    }
  }

  // ---- three inputs ----

  /** Key 2 in the btree, key 1 inserted: PREVIOUS after FIRST shows key 1 again. */
  method SameRowAgain(db: Database) returns (r: Row, again: Row)
    requires db == Db(false, [Entry(2, [20])], [Node(1, [Op(Actions.Insert(77), true)])])
    ensures r == again == Row(1, 1, 77)
  {
    assert View(db, 1) == [77] && InView(db, Row(1, 1, 77));
    var cur := new LocalCursor(db);
    var first, second;
    first, second, r, again := TurnAround(cur, true);
    assert Apart(db, true, 1) by {
      assert db.btree[0] in db.btree;
    }
  }

  /** Keys 1 and 2 in the btree, key 1 erased: FIRST shows key 2, and PREVIOUS after
      it the erased key 1. */
  method ErasedRowAgain(db: Database) returns (r: Row, again: Row)
    requires db == Db(true, [Entry(1, [10]), Entry(2, [20])], [Node(1, [Op(Actions.Erase(0), true)])])
    ensures r == Row(2, 1, 20) && again == Row(1, 1, 10) && !InView(db, again)
  {
    assert View(db, 1) == [] && View(db, 2) == [20] && InView(db, Row(2, 1, 20));
    var cur := new LocalCursor(db);
    var first, second;
    first, second, r, again := TurnAround(cur, true);
    assert Reveals(db, true, 2) by {
      assert db.btree[0] in db.btree;
    }
  }

  /** Key 1 with two inserts, key 2 in the btree: FIRST shows the first duplicate of
      key 1, and PREVIOUS after it the second. */
  method NextDuplicateInstead(db: Database) returns (r: Row, again: Row)
    requires db == Db(true, [Entry(2, [20, 21])],
                      [Node(1, [Op(Actions.Insert(77), true), Op(Actions.InsertDup(78, Actions.Last, 0), true)])])
    ensures r == Row(1, 1, 77) && again == Row(1, 2, 78)
  {
    assert View(db, 1) == [77, 78] && InView(db, Row(1, 1, 77)) && InView(db, Row(1, 2, 78));
    var cur := new LocalCursor(db);
    var first, second;
    first, second, r, again := TurnAround(cur, true);
    assert Apart(db, true, 1) by {
      assert db.btree[0] in db.btree;
    }
    assert ShownAgain(db, true, 1, Row(1, 2, 78));
  }
}
