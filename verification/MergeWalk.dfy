/** What a cursor over two trees shows on its way: the keys of both trees merged
    in the direction of the walk, with the conflict checks that the engine makes
    between two steps. `fwd` is the direction. */
module MergeWalk {
  import opened Trees
  import Actions

  /** A node with the action of the operation the transaction cursor is coupled
      to; with duplicates all operations count and the action is that of the
      oldest. */
  datatype Item = Item(key: Key, ops: seq<Op>, act: Action)

  /** The btree keys and the nodes from the two cursors on, nearest first. */
  datatype Front = Front(bs: seq<Entry>, ts: seq<Item>)

  predicate Prior(fwd: bool, x: Key, y: Key) { if fwd then x < y else x > y }

  predicate Empty(f: Front) { f.bs == [] && f.ts == [] }

  /** The btree cursor is at the nearer key, or at the same one. */
  predicate BtreeFirst(fwd: bool, f: Front) {
    f.bs != [] && (f.ts == [] || !Prior(fwd, f.ts[0].key, f.bs[0].key))
  }

  predicate TxnFirst(fwd: bool, f: Front) {
    f.ts != [] && (f.bs == [] || !Prior(fwd, f.bs[0].key, f.ts[0].key))
  }

  function Head(fwd: bool, f: Front): Key
    requires !Empty(f)
  {
    if TxnFirst(fwd, f) then f.ts[0].key else f.bs[0].key
  }

  /** The front behind its first key. */
  function Drop(fwd: bool, f: Front): Front {
    Front(if BtreeFirst(fwd, f) then f.bs[1..] else f.bs, if TxnFirst(fwd, f) then f.ts[1..] else f.ts)
  }

  /** The step over the first key looks at the btree key it arrives at and finds
      that another open transaction wrote it; the walk then goes on at once, past
      the next key of the front, whichever that is. The step looks if only the
      btree cursor moves and the transaction cursor is not at its end; or if the
      transaction cursor runs to its end, going forward together with the btree
      cursor, going backward alone. */
  predicate Jump(fwd: bool, f: Front, foreign: set<Key>) {
    var g := Drop(fwd, f);
    && g.bs != [] && g.bs[0].key in foreign
    && if BtreeFirst(fwd, f) && !TxnFirst(fwd, f) then g.ts != []
       else g.ts == [] && (fwd <==> BtreeFirst(fwd, f))
  }

  lemma BothMove(fwd: bool, f: Front, foreign: set<Key>)
    requires !Empty(f) && (f.bs != [] && f.ts != [] ==> f.bs[0].key == f.ts[0].key)
    ensures Drop(fwd, f) == Front(if f.bs == [] then [] else f.bs[1..], if f.ts == [] then [] else f.ts[1..])
    ensures Jump(fwd, f, foreign) <==> fwd && |f.bs| > 1 && |f.ts| == 1 && f.bs[1].key in foreign
  {
  }

  lemma BtreeMoves(fwd: bool, f: Front, foreign: set<Key>)
    requires f.bs != [] && f.ts != [] && Prior(fwd, f.bs[0].key, f.ts[0].key)
    ensures Drop(fwd, f) == Front(f.bs[1..], f.ts)
    ensures Jump(fwd, f, foreign) <==> |f.bs| > 1 && f.bs[1].key in foreign
  {
  }

  lemma TxnMoves(fwd: bool, f: Front, foreign: set<Key>)
    requires f.bs != [] && f.ts != [] && Prior(fwd, f.ts[0].key, f.bs[0].key)
    ensures Drop(fwd, f) == Front(f.bs, f.ts[1..])
    ensures Jump(fwd, f, foreign) <==> !fwd && |f.ts| == 1 && f.bs[0].key in foreign
  {
  }

  datatype Outcome = Lines(recs: seq<Rec>) | Conflict | Alias

  /** What there is to show at the first key of a front. A btree key that has a
      node is looked up there; `Alias` is the case that the lookup finds a record
      although the transaction cursor is elsewhere. */
  function Shows(db: Db, fwd: bool, f: Front): Outcome
    requires !Empty(f)
  {
    if TxnFirst(fwd, f) then
      Lines(if db.dup then Actions.ConsolidateAll(Acts(f.ts[0].ops), if BtreeFirst(fwd, f) then f.bs[0].recs else [])
            else Left(f.ts[0].act))
    else if db.dup then Lines(f.bs[0].recs)
    else
      var i := NodeOf(db.nodes, f.bs[0].key);
      if i == -1 then Lines(f.bs[0].recs)
      else match Strict(db.nodes[i])
           case TxnConflict => Conflict
           case ErasedInTxn => Lines([])
           case _ => Alias
  }

  function Size(f: Front): nat { |f.bs| + |f.ts| }

  /** One single step: the next key that is not jumped over. */
  function Land(fwd: bool, f: Front, foreign: set<Key>): (g: Front)
    requires !Empty(f)
    ensures Size(g) < Size(f)
    decreases Size(f)
  {
    var g := Drop(fwd, f);
    if !Empty(g) && Jump(fwd, f, foreign) then Land(fwd, g, foreign) else g
  }

  /** One move: steps until there is something to show. */
  function Seek(db: Db, fwd: bool, f: Front): (g: Front)
    requires !Empty(f)
    ensures Size(g) < Size(f)
    decreases Size(f)
  {
    var g := Land(fwd, f, ForeignKeys(db.nodes));
    if !Empty(g) && Shows(db, fwd, g) == Lines([]) then Seek(db, fwd, g) else g
  }

  lemma SeekLand(db: Db, fwd: bool, f: Front)
    requires !Empty(f)
    ensures var g := Land(fwd, f, ForeignKeys(db.nodes));
            Seek(db, fwd, f) == if !Empty(g) && Shows(db, fwd, g) == Lines([]) then Seek(db, fwd, g) else g
  {
  }

  /** The duplicates of a key that come after position p in the direction of the
      walk. */
  function Rest(fwd: bool, x: Key, ls: seq<Rec>, p: nat): seq<Row>
    decreases if fwd then |ls| - p else p
  {
    if fwd then (if p < |ls| then [Row(x, p + 1, ls[p])] + Rest(fwd, x, ls, p + 1) else [])
    else if 1 < p <= |ls| + 1 then [Row(x, p - 1, ls[p-2])] + Rest(fwd, x, ls, p - 1) else []
  }

  /** All duplicates of a key. */
  function RowsOf(fwd: bool, x: Key, ls: seq<Rec>): seq<Row> { Rest(fwd, x, ls, if fwd then 0 else |ls| + 1) }

  lemma {:induction false} RestIs(fwd: bool, x: Key, ls: seq<Rec>, p: nat)
    requires if fwd then p <= |ls| else 1 <= p <= |ls| + 1
    ensures var r := Rest(fwd, x, ls, p);
            && |r| == (if fwd then |ls| - p else p - 1)
            && forall i :: 0 <= i < |r| ==> r[i] == var q := if fwd then p + 1 + i else p - 1 - i; Row(x, q, ls[q-1])
    decreases if fwd then |ls| - p else p
  {
    if fwd && p < |ls| {
      RestIs(fwd, x, ls, p + 1);
    } else if !fwd && p > 1 {
      RestIs(fwd, x, ls, p - 1);
    }
  }

  datatype Trip = Trip(rows: seq<Row>, st: Status)

  /** All moves in one direction until one fails: the rows shown and the status
      that ends the walk. */
  function Trail(db: Db, fwd: bool, f: Front): Trip
    requires !Empty(f)
    decreases Size(f), 0
  {
    Arrival(db, fwd, Seek(db, fwd, f))
  }

  /** The rest of the walk from the arrival at a front. */
  function Arrival(db: Db, fwd: bool, g: Front): Trip
    decreases Size(g), 1
  {
    if Empty(g) then Trip([], KeyNotFound)
    else match Shows(db, fwd, g)
         case Conflict => Trip([], TxnConflict)
         case Alias => Trip([], CursorIsNil)
         case Lines(ls) => var rest := Trail(db, fwd, g); Trip(RowsOf(fwd, Head(fwd, g), ls) + rest.rows, rest.st)
  }

  lemma TrailIs(db: Db, fwd: bool, f: Front)
    requires !Empty(f)
    ensures var g, t := Seek(db, fwd, f), Trail(db, fwd, f);
            if Empty(g) then t == Trip([], KeyNotFound)
            else match Shows(db, fwd, g)
                 case Conflict => t == Trip([], TxnConflict)
                 case Alias => t == Trip([], CursorIsNil)
                 case Lines(ls) => t == Trip(RowsOf(fwd, Head(fwd, g), ls) + Trail(db, fwd, g).rows,
                   Trail(db, fwd, g).st)
  {
  }

  lemma {:induction false} TrailEnds(db: Db, fwd: bool, f: Front)
    requires !Empty(f)
    ensures Trail(db, fwd, f).st != Ok
    decreases Size(f)
  {
    TrailIs(db, fwd, f);
    var g := Seek(db, fwd, f);
    if !Empty(g) && Shows(db, fwd, g).Lines? {
      TrailEnds(db, fwd, g);
    }
  }

  // ---- the same, key by key ----

  predicate OrderedFront(fwd: bool, f: Front) {
    && (forall i, j :: 0 <= i < j < |f.bs| ==> Prior(fwd, f.bs[i].key, f.bs[j].key))
    && (forall i, j :: 0 <= i < j < |f.ts| ==> Prior(fwd, f.ts[i].key, f.ts[j].key))
  }

  function EntryKeys(bs: seq<Entry>): set<Key> { set e | e in bs :: e.key }

  function ItemKeys(ts: seq<Item>): set<Key> { set e | e in ts :: e.key }

  function Keys(f: Front): set<Key> { EntryKeys(f.bs) + ItemKeys(f.ts) }

  lemma EntryTail(fwd: bool, bs: seq<Entry>)
    requires bs != [] && forall i, j :: 0 <= i < j < |bs| ==> Prior(fwd, bs[i].key, bs[j].key)
    ensures EntryKeys(bs) == {bs[0].key} + EntryKeys(bs[1..])
    ensures forall y :: y in EntryKeys(bs[1..]) ==> Prior(fwd, bs[0].key, y)
  {
    assert bs == [bs[0]] + bs[1..];
    forall y | y in EntryKeys(bs[1..]) ensures Prior(fwd, bs[0].key, y) {
      var i :| 0 <= i < |bs[1..]| && bs[1..][i].key == y;
      assert bs[1..][i] == bs[i+1];
    }
  }

  lemma ItemTail(fwd: bool, ts: seq<Item>)
    requires ts != [] && forall i, j :: 0 <= i < j < |ts| ==> Prior(fwd, ts[i].key, ts[j].key)
    ensures ItemKeys(ts) == {ts[0].key} + ItemKeys(ts[1..])
    ensures forall y :: y in ItemKeys(ts[1..]) ==> Prior(fwd, ts[0].key, y)
  {
    assert ts == [ts[0]] + ts[1..];
    forall y | y in ItemKeys(ts[1..]) ensures Prior(fwd, ts[0].key, y) {
      var i :| 0 <= i < |ts[1..]| && ts[1..][i].key == y;
      assert ts[1..][i] == ts[i+1];
    }
  }

  lemma DropOrdered(fwd: bool, f: Front)
    requires OrderedFront(fwd, f) && !Empty(f)
    ensures OrderedFront(fwd, Drop(fwd, f)) && Size(Drop(fwd, f)) < Size(f)
  {
  }

  lemma DropKeys(fwd: bool, f: Front)
    requires OrderedFront(fwd, f) && !Empty(f)
    ensures Keys(f) == {Head(fwd, f)} + Keys(Drop(fwd, f))
    ensures forall y :: y in Keys(Drop(fwd, f)) ==> Prior(fwd, Head(fwd, f), y)
  {
    if f.bs != [] {
      EntryTail(fwd, f.bs);
    }
    if f.ts != [] {
      ItemTail(fwd, f.ts);
    }
    var g, h := Drop(fwd, f), Head(fwd, f);
    assert f.bs == [] ==> EntryKeys(f.bs) == {};
    assert f.ts == [] ==> ItemKeys(f.ts) == {};
  }

  /** The entries from a key on. */
  function EntriesFrom(fwd: bool, bs: seq<Entry>, x: Key): seq<Entry> {
    if bs == [] || !Prior(fwd, bs[0].key, x) then bs else EntriesFrom(fwd, bs[1..], x)
  }

  function ItemsFrom(fwd: bool, ts: seq<Item>, x: Key): seq<Item> {
    if ts == [] || !Prior(fwd, ts[0].key, x) then ts else ItemsFrom(fwd, ts[1..], x)
  }

  /** The front as it is when the walk has come to key x. */
  function Reach(fwd: bool, f: Front, x: Key): Front { Front(EntriesFrom(fwd, f.bs, x), ItemsFrom(fwd, f.ts, x)) }

  /** x is the next key after p. */
  predicate Follows(fwd: bool, f: Front, p: Key, x: Key) { NextIn(fwd, Keys(f), p, x) }

  /** The walk passes over key x because of what it finds in the step before. */
  ghost predicate Jumped(fwd: bool, f: Front, foreign: set<Key>, x: Key) {
    exists p :: Follows(fwd, f, p, x) && Jump(fwd, Reach(fwd, f, p), foreign)
  }

  lemma ReachHead(fwd: bool, f: Front)
    requires !Empty(f)
    ensures Reach(fwd, f, Head(fwd, f)) == f
  {
  }

  lemma ReachDrop(fwd: bool, f: Front, x: Key)
    requires !Empty(f) && Prior(fwd, Head(fwd, f), x)
    ensures Reach(fwd, f, x) == Reach(fwd, Drop(fwd, f), x)
  {
  }

  /** The keys of a front as seen from the front before it. */
  lemma FollowsDrop(fwd: bool, f: Front, p: Key, x: Key)
    requires OrderedFront(fwd, f) && !Empty(f) && !Empty(Drop(fwd, f)) && x in Keys(Drop(fwd, f))
    ensures var g := Drop(fwd, f);
            if x == Head(fwd, g) then Follows(fwd, f, p, x) <==> p == Head(fwd, f)
            else Follows(fwd, f, p, x) <==> Follows(fwd, g, p, x)
  {
    DropKeys(fwd, f);
    DropOrdered(fwd, f);
    DropKeys(fwd, Drop(fwd, f));
    NextKey(fwd, Keys(f), Keys(Drop(fwd, f)), Head(fwd, f), Head(fwd, Drop(fwd, f)), p, x);
  }

  /** x comes next after p among the keys of a set. */
  predicate NextIn(fwd: bool, keys: set<Key>, p: Key, x: Key) {
    p in keys && x in keys && Prior(fwd, p, x) && forall y :: y in keys ==> !(Prior(fwd, p, y) && Prior(fwd, y, x))
  }

  lemma NextKey(fwd: bool, keys: set<Key>, rest: set<Key>, first: Key, second: Key, p: Key, x: Key)
    requires keys == {first} + rest && (forall y :: y in rest ==> Prior(fwd, first, y))
    requires second in rest && (forall y :: y in rest && y != second ==> Prior(fwd, second, y)) && x in rest
    ensures NextIn(fwd, keys, p, x) <==> if x == second then p == first else NextIn(fwd, rest, p, x)
  {
  }

  lemma JumpedDrop(fwd: bool, f: Front, foreign: set<Key>, x: Key)
    requires OrderedFront(fwd, f) && !Empty(f) && !Empty(Drop(fwd, f)) && x in Keys(Drop(fwd, f))
    ensures var g := Drop(fwd, f);
            Jumped(fwd, f, foreign, x) <==> if x == Head(fwd, g) then Jump(fwd, f, foreign)
              else Jumped(fwd, g, foreign, x)
  {
    var g := Drop(fwd, f);
    forall p ensures (Follows(fwd, f, p, x) && Jump(fwd, Reach(fwd, f, p), foreign)) <==>
                     if x == Head(fwd, g) then p == Head(fwd, f) && Jump(fwd, f, foreign)
                     else Follows(fwd, g, p, x) && Jump(fwd, Reach(fwd, g, p), foreign)
    {
      FollowsDrop(fwd, f, p, x);
      ReachHead(fwd, f);
      DropKeys(fwd, f);
      if p in Keys(g) {
        ReachDrop(fwd, f, p);
      }
    }
    if x == Head(fwd, g) && Jump(fwd, f, foreign) {
      assert Follows(fwd, f, Head(fwd, f), x) && Jump(fwd, Reach(fwd, f, Head(fwd, f)), foreign);
    }
  }

  lemma {:induction false} ReachKey(fwd: bool, f: Front, x: Key)
    requires OrderedFront(fwd, f) && x in Keys(f)
    ensures !Empty(Reach(fwd, f, x)) && Head(fwd, Reach(fwd, f, x)) == x
    decreases Size(f)
  {
    assert !Empty(f);
    DropKeys(fwd, f);
    DropOrdered(fwd, f);
    ReachHead(fwd, f);
    if x != Head(fwd, f) {
      ReachDrop(fwd, f, x);
      ReachKey(fwd, Drop(fwd, f), x);
    }
  }

  /** What there is to show at key x. */
  function ShowsAt(db: Db, fwd: bool, f: Front, x: Key): Outcome
    requires OrderedFront(fwd, f) && x in Keys(f)
  {
    ReachKey(fwd, f, x);
    Shows(db, fwd, Reach(fwd, f, x))
  }

  /** Behind the first key, the walk comes to x and reports a conflict. */
  ghost predicate Stops(db: Db, fwd: bool, f: Front, x: Key)
    requires OrderedFront(fwd, f) && !Empty(f)
  {
    && x in Keys(f) && x != Head(fwd, f) && !Jumped(fwd, f, ForeignKeys(db.nodes), x)
    && ShowsAt(db, fwd, f, x) == Conflict
  }

  ghost predicate StopsBefore(db: Db, fwd: bool, f: Front, x: Key)
    requires OrderedFront(fwd, f) && !Empty(f)
  {
    exists y :: Prior(fwd, y, x) && Stops(db, fwd, f, y)
  }

  /** The row is one of the records to show. */
  predicate InLines(r: Row, o: Outcome) { o.Lines? && 1 <= r.pos <= |o.recs| && o.recs[r.pos-1] == r.rec }

  /** Behind the first key, the walk shows this row: its key is not jumped over,
      no conflict comes before it, and it is one of the records to show. */
  ghost predicate OnTrail(db: Db, fwd: bool, f: Front, r: Row)
    requires OrderedFront(fwd, f) && !Empty(f)
  {
    && r.key in Keys(f) && r.key != Head(fwd, f) && !Jumped(fwd, f, ForeignKeys(db.nodes), r.key)
    && !StopsBefore(db, fwd, f, r.key) && InLines(r, ShowsAt(db, fwd, f, r.key))
  }

  /** Behind the first key of a front, a btree key whose node the transaction cursor
      has passed, or cannot show, is erased there or written by another open
      transaction. With duplicates nodes are not looked up on the way. */
  predicate Sound(db: Db, fwd: bool, f: Front) {
    !db.dup ==> forall i :: 0 <= i < |f.bs| && f.bs[i].key != Head(fwd, f) ==>
      var n := NodeOf(db.nodes, f.bs[i].key); n == -1 || f.bs[i].key in ItemKeys(f.ts) || Strict(db.nodes[n]) != Ok
  }

  // ---- the whole walk ----

  lemma SeekDrop(db: Db, fwd: bool, f: Front)
    requires !Empty(f)
    ensures var g := Drop(fwd, f);
            Seek(db, fwd, f) ==
                 if !Empty(g) && (Jump(fwd, f, ForeignKeys(db.nodes)) || Shows(db, fwd, g) == Lines([]))
                 then Seek(db, fwd, g) else g
  {
  }

  lemma NothingToShow(db: Db, fwd: bool, g: Front)
    requires !Empty(g) && Shows(db, fwd, g) == Lines([])
    ensures Arrival(db, fwd, g) == Trail(db, fwd, g)
  {
    var rest := Trail(db, fwd, g);
    assert RowsOf(fwd, Head(fwd, g), []) + rest.rows == rest.rows;
  }

  lemma SameTrail(db: Db, fwd: bool, f: Front, g: Front)
    requires !Empty(f) && !Empty(g)
    requires Seek(db, fwd, f) == Seek(db, fwd, g)
    ensures Trail(db, fwd, f) == Trail(db, fwd, g)
  {
  }

  /** Trail, one key at a time. */
  lemma TrailDrop(db: Db, fwd: bool, f: Front)
    requires !Empty(f)
    ensures var g := Drop(fwd, f);
            Trail(db, fwd, f) ==
              if !Empty(g) && Jump(fwd, f, ForeignKeys(db.nodes)) then Trail(db, fwd, g) else Arrival(db, fwd, g)
  {
    var g := Drop(fwd, f);
    SeekDrop(db, fwd, f);
    if !Empty(g) && (Jump(fwd, f, ForeignKeys(db.nodes)) || Shows(db, fwd, g) == Lines([])) {
      SameTrail(db, fwd, f, g);
      if Shows(db, fwd, g) == Lines([]) {
        NothingToShow(db, fwd, g);
      }
    }
  }

  lemma SoundDrop(db: Db, fwd: bool, f: Front)
    requires OrderedFront(fwd, f) && !Empty(f) && Sound(db, fwd, f)
    ensures Sound(db, fwd, Drop(fwd, f))
    ensures !Empty(Drop(fwd, f)) ==> Shows(db, fwd, Drop(fwd, f)) != Alias
  {
    var g := Drop(fwd, f);
    DropKeys(fwd, f);
    DropOrdered(fwd, f);
    forall i | !db.dup && 0 <= i < |g.bs|
      ensures var n := NodeOf(db.nodes, g.bs[i].key);
              n == -1 || g.bs[i].key in ItemKeys(g.ts) || Strict(db.nodes[n]) != Ok
    {
      assert g.bs[i] in g.bs && g.bs[i].key in Keys(g) && g.bs[i].key != Head(fwd, f);
      assert g.bs[i] == if BtreeFirst(fwd, f) then f.bs[i+1] else f.bs[i];
      if g.bs[i].key in ItemKeys(f.ts) && TxnFirst(fwd, f) {
        ItemTail(fwd, f.ts);
      }
    }
    if !db.dup && !Empty(g) && !TxnFirst(fwd, g) && g.bs[0].key in ItemKeys(g.ts) {
      ItemTail(fwd, g.ts);
    }
  }

  /** The fate of a key does not depend on how far the walk has come. */
  lemma SameFate(db: Db, fwd: bool, f: Front, x: Key)
    requires OrderedFront(fwd, f) && !Empty(f)
    requires var g := Drop(fwd, f); OrderedFront(fwd, g) && !Empty(g) && x in Keys(g)
    ensures var g := Drop(fwd, f);
            && x in Keys(f) && Prior(fwd, Head(fwd, f), x)
            && ShowsAt(db, fwd, f, x) == ShowsAt(db, fwd, g, x)
            && (x != Head(fwd, g) ==> Stops(db, fwd, f, x) == Stops(db, fwd, g, x))
            && (x == Head(fwd, g) ==> (Stops(db, fwd, f, x) <==>
                  !Jump(fwd, f, ForeignKeys(db.nodes)) && Shows(db, fwd, g) == Conflict))
  {
    DropKeys(fwd, f);
    ReachDrop(fwd, f, x);
    ReachHead(fwd, Drop(fwd, f));
    JumpedDrop(fwd, f, ForeignKeys(db.nodes), x);
  }

  lemma StopsDrop(db: Db, fwd: bool, f: Front, x: Key)
    requires OrderedFront(fwd, f) && !Empty(f)
    requires var g := Drop(fwd, f); OrderedFront(fwd, g) && !Empty(g) && x in Keys(g)
    ensures var g := Drop(fwd, f);
            StopsBefore(db, fwd, f, x) <==>
              (x != Head(fwd, g) && (Stops(db, fwd, f, Head(fwd, g)) || StopsBefore(db, fwd, g, x)))
  {
    var g := Drop(fwd, f);
    DropKeys(fwd, g);
    if y :| Prior(fwd, y, x) && Stops(db, fwd, f, y) {
      StopsBehind(db, fwd, f, y);
    }
    if y :| Prior(fwd, y, x) && Stops(db, fwd, g, y) {
      StopsLater(db, fwd, f, y);
    }
  }

  lemma StopsBehind(db: Db, fwd: bool, f: Front, y: Key)
    requires OrderedFront(fwd, f) && !Empty(f) && Stops(db, fwd, f, y)
    requires var g := Drop(fwd, f); OrderedFront(fwd, g) && !Empty(g)
    ensures var g := Drop(fwd, f); y in Keys(g) && (y != Head(fwd, g) ==> Stops(db, fwd, g, y))
  {
    DropKeys(fwd, f);
    SameFate(db, fwd, f, y);
  }

  lemma StopsLater(db: Db, fwd: bool, f: Front, y: Key)
    requires OrderedFront(fwd, f) && !Empty(f)
    requires var g := Drop(fwd, f); OrderedFront(fwd, g) && !Empty(g) && Stops(db, fwd, g, y)
    ensures Stops(db, fwd, f, y)
  {
    SameFate(db, fwd, f, y);
  }

  function ArrivalRows(fwd: bool, x: Key, o: Outcome): seq<Row> { if o.Lines? then RowsOf(fwd, x, o.recs) else [] }

  lemma OnTrailDrop(db: Db, fwd: bool, f: Front, r: Row)
    requires OrderedFront(fwd, f) && !Empty(f)
    requires var g := Drop(fwd, f); OrderedFront(fwd, g) && !Empty(g)
    ensures var g := Drop(fwd, f); var h := Head(fwd, g);
            OnTrail(db, fwd, f, r) <==>
              || (!Jump(fwd, f, ForeignKeys(db.nodes)) && r in ArrivalRows(fwd, h, Shows(db, fwd, g)))
              || (!Stops(db, fwd, f, h) && OnTrail(db, fwd, g, r))
  {
    var g := Drop(fwd, f);
    var h := Head(fwd, g);
    DropKeys(fwd, f);
    DropKeys(fwd, g);
    if Shows(db, fwd, g).Lines? {
      InRows(fwd, h, Shows(db, fwd, g).recs, r);
    }
    if r.key in Keys(g) {
      SameFate(db, fwd, f, r.key);
      StopsDrop(db, fwd, f, r.key);
      JumpedDrop(fwd, f, ForeignKeys(db.nodes), r.key);
      ReachHead(fwd, g);
    }
  }

  lemma InRows(fwd: bool, x: Key, ls: seq<Rec>, r: Row)
    ensures r in RowsOf(fwd, x, ls) <==> r.key == x && InLines(r, Lines(ls))
  {
    RestIs(fwd, x, ls, if fwd then 0 else |ls| + 1);
    if r.key == x && 1 <= r.pos <= |ls| && ls[r.pos-1] == r.rec {
      var i := if fwd then r.pos - 1 else |ls| - r.pos;
      assert RowsOf(fwd, x, ls)[i] == r;
    }
  }

  lemma Prepend(fwd: bool, x: Key, ls: seq<Rec>, rest: seq<Row>)
    requires Ordered(fwd, rest) && forall r :: r in rest ==> Prior(fwd, x, r.key)
    ensures Ordered(fwd, RowsOf(fwd, x, ls) + rest)
  {
    var rows := RowsOf(fwd, x, ls);
    RestIs(fwd, x, ls, if fwd then 0 else |ls| + 1);
    forall i, j | 0 <= i < j < |rows + rest| ensures RowBefore(fwd, (rows + rest)[i], (rows + rest)[j]) {
      if j >= |rows| {
        assert (rows + rest)[j] == rest[j - |rows|] && rest[j - |rows|] in rest;
      }
    }
  }

  ghost predicate Meaning(db: Db, fwd: bool, f: Front, t: Trip)
    requires OrderedFront(fwd, f) && !Empty(f)
  {
    && Ordered(fwd, t.rows) && (forall r :: r in t.rows <==> OnTrail(db, fwd, f, r))
    && t.st == (if exists x :: Stops(db, fwd, f, x) then TxnConflict else KeyNotFound)
  }

  lemma NothingBehind(db: Db, fwd: bool, f: Front)
    requires OrderedFront(fwd, f) && !Empty(f) && Empty(Drop(fwd, f))
    ensures Meaning(db, fwd, f, Trip([], KeyNotFound))
  {
    DropKeys(fwd, f);
    assert Keys(Drop(fwd, f)) == {};
  }

  lemma StopsSomewhere(db: Db, fwd: bool, f: Front)
    requires OrderedFront(fwd, f) && !Empty(f)
    requires var g := Drop(fwd, f); OrderedFront(fwd, g) && !Empty(g)
    ensures var g := Drop(fwd, f);
            (exists x :: Stops(db, fwd, f, x)) <==>
              (!Jump(fwd, f, ForeignKeys(db.nodes)) && Shows(db, fwd, g) == Conflict) ||
                exists x :: Stops(db, fwd, g, x)
  {
    var g := Drop(fwd, f);
    DropKeys(fwd, f);
    DropKeys(fwd, g);
    SameFate(db, fwd, f, Head(fwd, g));
    if x :| Stops(db, fwd, f, x) {
      StopsBehind(db, fwd, f, x);
    }
    if x :| Stops(db, fwd, g, x) {
      StopsLater(db, fwd, f, x);
    }
  }

  lemma TrailRows(db: Db, fwd: bool, f: Front)
    requires OrderedFront(fwd, f) && !Empty(f)
    requires var g := Drop(fwd, f); OrderedFront(fwd, g) && !Empty(g) && Shows(db, fwd, g) != Alias
    ensures var g := Drop(fwd, f); var h, t, rest := Head(fwd, g), Trail(db, fwd, f), Trail(db, fwd, g);
            && t.rows == (if Jump(fwd, f, ForeignKeys(db.nodes)) then [] else ArrivalRows(fwd, h, Shows(db, fwd, g)))
                         + (if Stops(db, fwd, f, h) then [] else rest.rows)
            && t.st == if Stops(db, fwd, f, h) then TxnConflict else rest.st
  {
    var g := Drop(fwd, f);
    var rest := Trail(db, fwd, g).rows;
    TrailDrop(db, fwd, f);
    assert Stops(db, fwd, f, Head(fwd, g)) <==>
           !Jump(fwd, f, ForeignKeys(db.nodes)) && Shows(db, fwd, g) == Conflict by {
      DropKeys(fwd, g);
      SameFate(db, fwd, f, Head(fwd, g));
    }
    assert [] + rest == rest && rest + [] == rest;
  }

  lemma TrailOrdered(db: Db, fwd: bool, f: Front)
    requires OrderedFront(fwd, f) && !Empty(f)
    requires var g := Drop(fwd, f); OrderedFront(fwd, g) && !Empty(g)
    requires Meaning(db, fwd, Drop(fwd, f), Trail(db, fwd, Drop(fwd, f))) && Shows(db, fwd, Drop(fwd, f)) != Alias
    ensures Ordered(fwd, Trail(db, fwd, f).rows)
  {
    var g := Drop(fwd, f);
    var h, rest, o := Head(fwd, g), Trail(db, fwd, g).rows, Shows(db, fwd, g);
    TrailRows(db, fwd, f);
    DropKeys(fwd, g);
    forall r | r in rest ensures Prior(fwd, h, r.key) {
      assert OnTrail(db, fwd, g, r);
    }
    Prepend(fwd, h, if o.Lines? then o.recs else [], rest);
    Prepend(fwd, h, if o.Lines? then o.recs else [], []);
  }

  lemma MeaningStep(db: Db, fwd: bool, f: Front)
    requires OrderedFront(fwd, f) && !Empty(f)
    requires var g := Drop(fwd, f); OrderedFront(fwd, g) && !Empty(g)
    requires Meaning(db, fwd, Drop(fwd, f), Trail(db, fwd, Drop(fwd, f))) && Shows(db, fwd, Drop(fwd, f)) != Alias
    ensures Meaning(db, fwd, f, Trail(db, fwd, f))
  {
    var g, t := Drop(fwd, f), Trail(db, fwd, f);
    TrailOrdered(db, fwd, f);
    TrailRows(db, fwd, f);
    StopsSomewhere(db, fwd, f);
    DropKeys(fwd, g);
    SameFate(db, fwd, f, Head(fwd, g));
    forall r ensures r in t.rows <==> OnTrail(db, fwd, f, r) {
      OnTrailDrop(db, fwd, f, r);
    }
  }

  /** All that a walk in one direction shows, for any two trees: exactly the rows
      on the trail, in order, and a conflict at the end exactly if a key stops
      the walk. */
  lemma {:induction false} TrailMeaning(db: Db, fwd: bool, f: Front)
    requires OrderedFront(fwd, f) && !Empty(f) && Sound(db, fwd, f)
    ensures var t := Trail(db, fwd, f);
            && Ordered(fwd, t.rows) && (forall r :: r in t.rows <==> OnTrail(db, fwd, f, r))
            && t.st == (if exists x :: Stops(db, fwd, f, x) then TxnConflict else KeyNotFound)
    decreases Size(f)
  {
    var g := Drop(fwd, f);
    DropOrdered(fwd, f);
    SoundDrop(db, fwd, f);
    SeekDrop(db, fwd, f);
    if Empty(g) {
      TrailDrop(db, fwd, f);
      NothingBehind(db, fwd, f);
    } else {
      TrailMeaning(db, fwd, g);
      MeaningStep(db, fwd, f);
    }
  }
}
