/** Lookups with LT, LEQ, GT and GEQ over the transaction index and the btree
    (find_txn in 4db/db_local.cc). They see of a key only what the newest operation
    is, so that an erase of one duplicate counts as an erase of the key. The two
    directions share one text: `fwd` is GT or GEQ, `eq` is LEQ or GEQ. */
module ApproxFind {
  import opened Trees
  import Actions

  /** What the newest operation that is committed or the reader's own does. */
  datatype Top = Nothing | Present | Erased

  /** A TxnNode as one reader finds it; `foreign` is set when the newest operation
      belongs to another open transaction. */
  datatype Seen = Seen(key: Key, top: Top, foreign: bool)

  predicate SortedKeys(b: seq<Key>) { forall i, j :: 0 <= i < j < |b| ==> b[i] < b[j] }

  predicate SortedSeen(t: seq<Seen>) { forall i, j :: 0 <= i < j < |t| ==> t[i].key < t[j].key }

  /** A node whose newest operation is not foreign has something to say. */
  predicate Spoken(t: seq<Seen>) { forall i :: 0 <= i < |t| && !t[i].foreign ==> t[i].top != Nothing }

  /** What these lookups take for visible: keys that the transactions show, and
      btree keys without a node of their own. */
  ghost predicate Visible(b: seq<Key>, t: seq<Seen>, x: Key) {
    || (exists i :: 0 <= i < |t| && t[i].key == x && t[i].top == Present)
    || (x in b && forall i :: 0 <= i < |t| ==> t[i].key != x)
  }

  predicate Before(fwd: bool, x: Key, y: Key) { if fwd then x < y else x > y }

  /** x is an admissible answer to a lookup of key. */
  predicate InDir(fwd: bool, eq: bool, key: Key, x: Key) { (eq && x == key) || Before(fwd, key, x) }

  predicate Sorted(b: seq<Key>, t: seq<Seen>) { SortedKeys(b) && SortedSeen(t) }

  ghost predicate ErasedKey(t: seq<Seen>, x: Key) {
    exists i :: 0 <= i < |t| && t[i].key == x && t[i].top == Erased
  }

  ghost predicate HasNode(t: seq<Seen>, x: Key) { exists i :: 0 <= i < |t| && t[i].key == x }

  // ---- the two sources ----

  /** TxnIndex::get: the first node in the direction. */
  method TxnGet(t: seq<Seen>, key: Key, fwd: bool, eq: bool) returns (n: int)
    requires SortedSeen(t)
    ensures -1 <= n < |t|
    ensures n == -1 ==> forall i :: 0 <= i < |t| ==> !InDir(fwd, eq, key, t[i].key)
    ensures n >= 0 ==> InDir(fwd, eq, key, t[n].key)
    ensures n >= 0 ==> forall i :: 0 <= i < |t| && Before(fwd, t[i].key, t[n].key) ==> !InDir(fwd, eq, key, t[i].key)
  {
    n := if fwd then 0 else |t| - 1;
    while 0 <= n < |t| && !InDir(fwd, eq, key, t[n].key)
      invariant -1 <= n <= |t|
      invariant fwd ==> 0 <= n && forall i :: 0 <= i < n ==> !InDir(fwd, eq, key, t[i].key)
      invariant !fwd ==> n < |t| && forall i :: n < i < |t| ==> !InDir(fwd, eq, key, t[i].key)
      decreases if fwd then |t| - n else n
    {
      n := if fwd then n + 1 else n - 1;
    }
    if n == |t| {
      n := -1;
    }
  }

  /** BtreeIndex::find: the first key in the direction. */
  method BtreeFind(b: seq<Key>, key: Key, fwd: bool, eq: bool) returns (n: int)
    requires SortedKeys(b)
    ensures -1 <= n < |b|
    ensures n == -1 ==> forall i :: 0 <= i < |b| ==> !InDir(fwd, eq, key, b[i])
    ensures n >= 0 ==> InDir(fwd, eq, key, b[n])
    ensures n >= 0 ==> forall i :: 0 <= i < |b| && Before(fwd, b[i], b[n]) ==> !InDir(fwd, eq, key, b[i])
  {
    n := if fwd then 0 else |b| - 1;
    while 0 <= n < |b| && !InDir(fwd, eq, key, b[n])
      invariant -1 <= n <= |b|
      invariant fwd ==> 0 <= n && forall i :: 0 <= i < n ==> !InDir(fwd, eq, key, b[i])
      invariant !fwd ==> n < |b| && forall i :: n < i < |b| ==> !InDir(fwd, eq, key, b[i])
      decreases if fwd then |b| - n else n
    {
      n := if fwd then n + 1 else n - 1;
    }
    if n == |b| {
      n := -1;
    }
  }

  /** is_key_erased. Operations of other open transactions are passed over. */
  method IsKeyErased(t: seq<Seen>, key: Key) returns (erased: bool)
    requires SortedSeen(t)
    ensures erased == ErasedKey(t, key)
  {
    erased := false;
    for n := 0 to |t|
      invariant !erased
      invariant forall i :: 0 <= i < n ==> t[i].key != key
    {
      if t[n].key == key {
        return t[n].top == Erased;
      }
    }
  }

  // ---- the walk over the transaction nodes ----

  /** Where the walk ends: an open transaction in the way, a node with nothing to
      say, or a node that is shown or is the last in the direction. */
  datatype Walk = Conflict | Silent | At(n: int)

  function Sibling(t: seq<Seen>, n: int, fwd: bool): int {
    if fwd then (if n + 1 < |t| then n + 1 else -1) else n - 1
  }

  ghost predicate ErasedBefore(t: seq<Seen>, key: Key, fwd: bool, eq: bool, n: int)
    requires 0 <= n < |t|
  {
    forall i :: 0 <= i < |t| && InDir(fwd, eq, key, t[i].key) && Before(fwd, t[i].key, t[n].key) ==>
      !t[i].foreign && t[i].top == Erased
  }

  /** The first node in the direction that is not erased was last written by
      another open transaction. */
  ghost predicate Blocked(t: seq<Seen>, key: Key, fwd: bool, eq: bool) {
    exists i :: 0 <= i < |t| && InDir(fwd, eq, key, t[i].key) && t[i].foreign && ErasedBefore(t, key, fwd, eq, i)
  }

  /** A walk that ends at a node, or at one that has nothing to say, is not blocked. */
  lemma NotBlocked(t: seq<Seen>, key: Key, fwd: bool, eq: bool, n: int)
    requires SortedSeen(t) && 0 <= n < |t| && InDir(fwd, eq, key, t[n].key)
    requires ErasedBefore(t, key, fwd, eq, n) && !t[n].foreign && (t[n].top != Erased || Sibling(t, n, fwd) == -1)
    ensures !Blocked(t, key, fwd, eq)
  {
    forall i | 0 <= i < |t| && InDir(fwd, eq, key, t[i].key) && t[i].foreign
      ensures !ErasedBefore(t, key, fwd, eq, i)
    {
      assert Before(fwd, t[n].key, t[i].key);
    }
  }

  /** One more erased node. */
  lemma ErasedFurther(t: seq<Seen>, key: Key, fwd: bool, eq: bool, n: int)
    requires SortedSeen(t) && 0 <= n < |t| && InDir(fwd, eq, key, t[n].key) && Sibling(t, n, fwd) != -1
    requires ErasedBefore(t, key, fwd, eq, n) && !t[n].foreign && t[n].top == Erased
    ensures var m := Sibling(t, n, fwd);
            && 0 <= m < |t| && InDir(fwd, eq, key, t[m].key) && t[m].key != key
            && ErasedBefore(t, key, fwd, eq, m) && (if fwd then m > n else m < n)
  {
  }

  /** The retry loop of find_txn. */
  method WalkNodes(t: seq<Seen>, key: Key, fwd: bool, eq: bool)
    returns (w: Walk, approx: bool, exactErased: bool)
    requires SortedSeen(t)
    ensures w.Conflict? <==> Blocked(t, key, fwd, eq)
    ensures Spoken(t) && w.Silent? ==> forall i :: 0 <= i < |t| ==> !InDir(fwd, eq, key, t[i].key)
    ensures w.At? ==> 0 <= w.n < |t| && InDir(fwd, eq, key, t[w.n].key)
    ensures w.At? ==> !t[w.n].foreign && ErasedBefore(t, key, fwd, eq, w.n)
    ensures w.At? ==> approx == (t[w.n].key != key)
    ensures w.At? ==> t[w.n].top == Present || (t[w.n].top == Erased && Sibling(t, w.n, fwd) == -1)
    ensures exactErased ==> ErasedKey(t, key)
    ensures w.At? && eq && ErasedKey(t, key) ==> exactErased
  {
    var n := TxnGet(t, key, fwd, eq);
    exactErased := false;
    approx := n >= 0 && t[n].key != key;
    if n == -1 {
      return Silent, false, false;
    }
    while true
      invariant 0 <= n < |t| && InDir(fwd, eq, key, t[n].key)
      invariant ErasedBefore(t, key, fwd, eq, n)
      invariant approx == (t[n].key != key)
      invariant exactErased ==> ErasedKey(t, key)
      invariant eq && ErasedKey(t, key) && approx ==> exactErased
      decreases if fwd then |t| - n else n
    {
      if t[n].foreign {
        return Conflict, approx, exactErased;
      }
      if t[n].top == Nothing {
        NotBlocked(t, key, fwd, eq, n);
        return Silent, approx, exactErased;
      }
      if t[n].top == Present {
        NotBlocked(t, key, fwd, eq, n);
        return At(n), approx, exactErased;
      }
      if !approx {
        exactErased := true;
      }
      if Sibling(t, n, fwd) == -1 {
        NotBlocked(t, key, fwd, eq, n);
        return At(n), approx, exactErased;
      }
      ErasedFurther(t, key, fwd, eq, n);
      n := Sibling(t, n, fwd);
      approx := true;
    }
  }

  /** The loop that asks the btree again until its answer is not erased. */
  method NearestUnerased(b: seq<Key>, t: seq<Seen>, key: Key, fwd: bool, eq: bool, exactErased: bool) returns (n: int)
    requires Sorted(b, t)
    requires exactErased ==> ErasedKey(t, key)
    ensures -1 <= n < |b|
    ensures n >= 0 ==> InDir(fwd, eq, key, b[n])
    ensures forall i ::
            0 <= i < |b| && InDir(fwd, eq, key, b[i]) && (n == -1 || Before(fwd, b[i], b[n])) ==> ErasedKey(t, b[i])
    ensures n >= 0 ==> !ErasedKey(t, b[n])
  {
    n := BtreeFind(b, key, fwd, eq && !exactErased);
    while n >= 0
      invariant -1 <= n < |b|
      invariant n >= 0 ==> InDir(fwd, eq, key, b[n])
      invariant forall i ::
                0 <= i < |b| && InDir(fwd, eq, key, b[i]) && (n == -1 || Before(fwd, b[i], b[n])) ==>
                ErasedKey(t, b[i])
      decreases if n == -1 then 0 else if fwd then |b| - n else n + 1
    {
      var erased := IsKeyErased(t, b[n]);
      if !erased {
        return;
      }
      n := BtreeFind(b, b[n], fwd, false);
    }
  }

  // ---- find_txn ----

  /** The right answer: the nearest visible key, if there is one. */
  ghost predicate Right(b: seq<Key>, t: seq<Seen>, key: Key, fwd: bool, eq: bool, st: Status, found: Key) {
    if st == Ok
    then
      && Visible(b, t, found) && InDir(fwd, eq, key, found)
      && forall x :: InDir(fwd, eq, key, x) && Before(fwd, x, found) ==> !Visible(b, t, x)
    else st == KeyNotFound && forall x :: InDir(fwd, eq, key, x) ==> !Visible(b, t, x)
  }

  /** The last node in the direction. */
  function Far(t: seq<Seen>, fwd: bool): Key
    requires t != []
  {
    if fwd then t[|t|-1].key else t[0].key
  }

  /** All nodes in the direction are erased and the btree offers nothing before
      the last of them; or that last one is the key itself and is still in the
      btree. */
  ghost predicate Misled(b: seq<Key>, t: seq<Seen>, key: Key, fwd: bool, eq: bool) {
    && t != [] && InDir(fwd, eq, key, Far(t, fwd))
    && (forall i :: 0 <= i < |t| && InDir(fwd, eq, key, t[i].key) ==> t[i].top == Erased)
    && if Far(t, fwd) == key then key in b
       else forall x :: InDir(fwd, eq, key, x) && Before(fwd, x, Far(t, fwd)) ==> !Visible(b, t, x)
  }

  /** The walk ended at node m, and n is the btree's nearest key that is not
      erased. */
  ghost predicate Candidates(b: seq<Key>, t: seq<Seen>, key: Key, fwd: bool, eq: bool, m: int, n: int) {
    && Sorted(b, t)
    && 0 <= m < |t| && InDir(fwd, eq, key, t[m].key) && !t[m].foreign && ErasedBefore(t, key, fwd, eq, m)
    && -1 <= n < |b| && (n >= 0 ==> InDir(fwd, eq, key, b[n]) && !ErasedKey(t, b[n]))
    && (forall i :: 0 <= i < |b| && InDir(fwd, eq, key, b[i]) && (n == -1 || Before(fwd, b[i], b[n])) ==>
      ErasedKey(t, b[i]))
  }

  /** The btree's candidate wins. */
  lemma BtreeWins(b: seq<Key>, t: seq<Seen>, key: Key, fwd: bool, eq: bool, m: int, n: int)
    requires Candidates(b, t, key, fwd, eq, m, n) && n >= 0 && Before(fwd, b[n], t[m].key)
    ensures Right(b, t, key, fwd, eq, Ok, b[n]) && !HasNode(t, b[n])
    ensures !Misled(b, t, key, fwd, eq)
  {
  }

  /** The transaction's node wins. */
  lemma TxnWins(b: seq<Key>, t: seq<Seen>, key: Key, fwd: bool, eq: bool, m: int, n: int)
    requires Candidates(b, t, key, fwd, eq, m, n) && !(n >= 0 && Before(fwd, b[n], t[m].key))
    requires t[m].top == Present || (t[m].top == Erased && Sibling(t, m, fwd) == -1 && t[m].key != key)
    ensures t[m].top == Present ==> Right(b, t, key, fwd, eq, Ok, t[m].key) && !Misled(b, t, key, fwd, eq)
    ensures t[m].top == Erased ==> ErasedKey(t, t[m].key) && !Visible(b, t, t[m].key) && Misled(b, t, key, fwd, eq)
  {
  }

  /** The only node in the direction is the key itself, which is erased. */
  lemma ExactErased(b: seq<Key>, t: seq<Seen>, key: Key, fwd: bool, m: int, n: int)
    requires Sorted(b, t)
    requires 0 <= m < |t| && t[m].key == key && t[m].top == Erased && Sibling(t, m, fwd) == -1
    requires -1 <= n < |b| && (n >= 0 ==> InDir(fwd, true, key, b[n]))
    requires n == -1 ==> forall i :: 0 <= i < |b| ==> !InDir(fwd, true, key, b[i])
    requires n >= 0 ==> forall i :: 0 <= i < |b| && Before(fwd, b[i], b[n]) ==> !InDir(fwd, true, key, b[i])
    ensures Misled(b, t, key, fwd, true) <==> n >= 0 && b[n] == key
    ensures n >= 0 && b[n] == key ==> ErasedKey(t, key) && !Right(b, t, key, fwd, true, Ok, key)
    ensures !(n >= 0 && b[n] == key) ==>
            Right(b, t, key, fwd, true, if n == -1 then KeyNotFound else Ok, if n == -1 then key else b[n])
    ensures n >= 0 && b[n] != key ==> !HasNode(t, b[n])
  {
  }

  /** No node in the direction: the btree alone decides. */
  lemma NoNodes(b: seq<Key>, t: seq<Seen>, key: Key, fwd: bool, eq: bool, n: int)
    requires Sorted(b, t)
    requires forall i :: 0 <= i < |t| ==> !InDir(fwd, eq, key, t[i].key)
    requires -1 <= n < |b| && (n >= 0 ==> InDir(fwd, eq, key, b[n]))
    requires n == -1 ==> forall i :: 0 <= i < |b| ==> !InDir(fwd, eq, key, b[i])
    requires n >= 0 ==> forall i :: 0 <= i < |b| && Before(fwd, b[i], b[n]) ==> !InDir(fwd, eq, key, b[i])
    ensures !Misled(b, t, key, fwd, eq)
    ensures Right(b, t, key, fwd, eq, if n == -1 then KeyNotFound else Ok, if n == -1 then key else b[n])
    ensures n >= 0 ==> !HasNode(t, b[n])
  {
  }

  /** None of the nodes up to the answer is foreign. */
  ghost predicate Clear(t: seq<Seen>, key: Key, fwd: bool, eq: bool, st: Status, found: Key) {
    forall i :: 0 <= i < |t| && InDir(fwd, eq, key, t[i].key) && (st == Ok ==> !Before(fwd, found, t[i].key)) ==>
      !t[i].foreign
  }

  /** What the answer must be, if there is no conflict. */
  ghost predicate Answer(b: seq<Key>, t: seq<Seen>, key: Key, fwd: bool, eq: bool, st: Status, found: Key,
                         fromTxn: bool) {
    && (Right(b, t, key, fwd, eq, st, found) <==> !Misled(b, t, key, fwd, eq))
    && (Misled(b, t, key, fwd, eq) ==> st == Ok && ErasedKey(t, found) && found == Far(t, fwd))
    && Clear(t, key, fwd, eq, st, found)
    && (!Misled(b, t, key, fwd, eq) && st == Ok ==> fromTxn == HasNode(t, found))
  }

  /** find_txn with an approximate match. It reports a conflict exactly if another
      transaction is in the way. Otherwise it is right exactly when the database is
      not misleading, and where it is wrong it reports an erased key as found. */
  method FindTxn(b: seq<Key>, t: seq<Seen>, key: Key, fwd: bool, eq: bool)
    returns (st: Status, found: Key, fromTxn: bool)
    requires Sorted(b, t)
    ensures st == TxnConflict <==> Blocked(t, key, fwd, eq)
    ensures Spoken(t) && st != TxnConflict ==> Answer(b, t, key, fwd, eq, st, found, fromTxn)
  {
    var w, approx, exactErased := WalkNodes(t, key, fwd, eq);
    if w.Conflict? {
      return TxnConflict, key, false;
    }
    if w.At? && !approx && t[w.n].top == Present {
      return Ok, key, true;
    }
    if w.At? && approx {
      var n := NearestUnerased(b, t, key, fwd, eq, exactErased);
      if n >= 0 && ((eq && b[n] == key) || Before(fwd, b[n], t[w.n].key)) {
        BtreeWins(b, t, key, fwd, eq, w.n, n);
        return Ok, b[n], false;
      }
      TxnWins(b, t, key, fwd, eq, w.n, n);
      return Ok, t[w.n].key, true;
    }
    var n := BtreeFind(b, key, fwd, eq);
    if w.At? {
      ExactErased(b, t, key, fwd, w.n, n);
    } else if Spoken(t) {
      NoNodes(b, t, key, fwd, eq, n);
    }
    if n == -1 {
      return KeyNotFound, key, false;
    }
    return Ok, b[n], false;
  }

  // ---- the answer and the view ----

  /** How one reader finds a node. */
  function Sight(n: Node): Seen {
    var i := NewestMine(n.ops);
    Seen(n.key, if i == -1 then Nothing else if n.ops[i].act.Erase? then Erased else Present, Foreign(n))
  }

  function Sights(t: seq<Node>): (s: seq<Seen>)
    ensures |s| == |t| && forall i :: 0 <= i < |t| ==> s[i] == Sight(t[i])
  {
    seq(|t|, i requires 0 <= i < |t| => Sight(t[i]))
  }

  function KeysOf(b: seq<Entry>): (s: seq<Key>)
    ensures |s| == |b| && forall i :: 0 <= i < |b| ==> s[i] == b[i].key
  {
    seq(|b|, i requires 0 <= i < |b| => b[i].key)
  }

  /** The newest operation of every key is an erase or refers to a duplicate there
      is. */
  predicate Referring(db: Database) {
    forall i :: 0 <= i < |db.nodes| ==>
      var n, k := db.nodes[i], |db.nodes[i].ops| - 1;
      n.ops[k].act.Erase? ||
      Actions.InRange(n.ops[k].act, Actions.ConsolidateAll(Acts(n.ops[..k]), RecsOf(db.btree, n.key)))
  }

  /** The newest operation on a key erases one duplicate and leaves others. */
  predicate PartlyErased(db: Database, x: Key) {
    var n := NodeOf(db.nodes, x);
    n >= 0 && db.nodes[n].ops[|db.nodes[n].ops|-1].act.Erase? && View(db, x) != []
  }

  /** What the newest operation leaves. */
  lemma NewestLeaves(db: Database, i: nat)
    requires Referring(db) && i < |db.nodes| && !Foreign(db.nodes[i])
    ensures Sight(db.nodes[i]).top != Nothing
    ensures Sight(db.nodes[i]).top == Present ==> View(db, db.nodes[i].key) != []
    ensures Sight(db.nodes[i]).top == Erased <==> db.nodes[i].ops[|db.nodes[i].ops|-1].act.Erase?
  {
    var n, k := db.nodes[i], |db.nodes[i].ops| - 1;
    NodeOfNode(db.nodes, i);
    if db.dup && !n.ops[k].act.Erase? {
      assert Acts(n.ops)[..k] == Acts(n.ops[..k]);
    }
  }

  lemma VisibleNode(db: Database, n: nat)
    requires Referring(db) && n < |db.nodes| && !Foreign(db.nodes[n])
    ensures var x := db.nodes[n].key;
            Visible(KeysOf(db.btree), Sights(db.nodes), x) <==> View(db, x) != [] && !PartlyErased(db, x)
  {
    var t, x := Sights(db.nodes), db.nodes[n].key;
    NodeOfNode(db.nodes, n);
    NewestLeaves(db, n);
    assert t[n].key == x && t[n].top == Sight(db.nodes[n]).top;
    assert forall i :: 0 <= i < |t| && t[i].key == x ==> i == n;
  }

  lemma VisibleEntry(db: Database, x: Key)
    requires NodeOf(db.nodes, x) == -1
    ensures Visible(KeysOf(db.btree), Sights(db.nodes), x) <==> View(db, x) != []
  {
    var b, t := KeysOf(db.btree), Sights(db.nodes);
    assert forall i :: 0 <= i < |t| ==> t[i].key == db.nodes[i].key;
    if x in b {
      var i :| 0 <= i < |b| && b[i] == x;
      RecsOfEntry(db.btree, i);
    } else {
      assert forall i :: 0 <= i < |db.btree| ==> db.btree[i].key == b[i];
    }
  }

  /** At a key that no other open transaction wrote last, a lookup takes for visible
      what has records in the view, except a key that was erased in part. */
  lemma VisibleIsView(db: Database, x: Key)
    requires Referring(db) && x !in ForeignKeys(db.nodes)
    ensures Visible(KeysOf(db.btree), Sights(db.nodes), x) <==> View(db, x) != [] && !PartlyErased(db, x)
  {
    ForeignExact(db, x);
    if NodeOf(db.nodes, x) >= 0 {
      VisibleNode(db, NodeOf(db.nodes, x));
    } else {
      VisibleEntry(db, x);
    }
  }

  /** The answer a caller expects: the nearest key with records in the view. */
  ghost predicate Nearest(db: Database, key: Key, fwd: bool, eq: bool, st: Status, found: Key) {
    if st == Ok
    then
      && View(db, found) != [] && InDir(fwd, eq, key, found)
      && forall x :: InDir(fwd, eq, key, x) && Before(fwd, x, found) ==> View(db, x) == []
    else st == KeyNotFound && forall x :: InDir(fwd, eq, key, x) ==> View(db, x) == []
  }

  /** No key that was erased in part is passed over: if the database is misleading,
      the last node is the first key of this kind, and otherwise all of them lie
      behind a key that the lookup takes for visible. */
  ghost predicate NonePassed(db: Database, key: Key, fwd: bool, eq: bool) {
    var b, t := KeysOf(db.btree), Sights(db.nodes);
    if Misled(b, t, key, fwd, eq)
    then
      && PartlyErased(db, Far(t, fwd))
      && forall x :: InDir(fwd, eq, key, x) && Before(fwd, x, Far(t, fwd)) ==> !PartlyErased(db, x)
    else
      forall x :: InDir(fwd, eq, key, x) && PartlyErased(db, x) ==>
        exists y :: InDir(fwd, eq, key, y) && Before(fwd, y, x) && Visible(b, t, y)
  }
  lemma ClearKeys(db: Database, key: Key, fwd: bool, eq: bool, st: Status, found: Key, x: Key)
    requires Clear(Sights(db.nodes), key, fwd, eq, st, found)
    requires InDir(fwd, eq, key, x) && (st == Ok ==> !Before(fwd, found, x))
    ensures x !in ForeignKeys(db.nodes)
  {
    ForeignExact(db, x);
    var n := NodeOf(db.nodes, x);
    assert n >= 0 ==> Sights(db.nodes)[n] == Sight(db.nodes[n]);
  }

  /** Up to the answer, what is not taken for visible has records in the view only
      if it was erased in part. */
  lemma ViewUpTo(db: Database, key: Key, fwd: bool, eq: bool, st: Status, found: Key)
    requires Referring(db) && Clear(Sights(db.nodes), key, fwd, eq, st, found)
    ensures forall x :: InDir(fwd, eq, key, x) && (st == Ok ==> !Before(fwd, found, x)) ==>
            (Visible(KeysOf(db.btree), Sights(db.nodes), x) <==> View(db, x) != [] && !PartlyErased(db, x))
  {
    forall x | InDir(fwd, eq, key, x) && (st == Ok ==> !Before(fwd, found, x))
      ensures Visible(KeysOf(db.btree), Sights(db.nodes), x) <==> View(db, x) != [] && !PartlyErased(db, x)
    {
      ClearKeys(db, key, fwd, eq, st, found, x);
      VisibleIsView(db, x);
    }
  }

  lemma RightExact(db: Database, key: Key, fwd: bool, eq: bool, st: Status, found: Key)
    requires Referring(db) && Clear(Sights(db.nodes), key, fwd, eq, st, found)
    requires !Misled(KeysOf(db.btree), Sights(db.nodes), key, fwd, eq)
    requires Right(KeysOf(db.btree), Sights(db.nodes), key, fwd, eq, st, found)
    ensures Nearest(db, key, fwd, eq, st, found) <==> NonePassed(db, key, fwd, eq)
  {
    var b, t := KeysOf(db.btree), Sights(db.nodes);
    ViewUpTo(db, key, fwd, eq, st, found);
    if Nearest(db, key, fwd, eq, st, found) {
      forall x | InDir(fwd, eq, key, x) && PartlyErased(db, x)
        ensures exists y :: InDir(fwd, eq, key, y) && Before(fwd, y, x) && Visible(b, t, y)
      {
        assert st == Ok && Before(fwd, found, x) && Visible(b, t, found);
      }
    } else {
      var x :| InDir(fwd, eq, key, x) && (st == Ok ==> Before(fwd, x, found)) && View(db, x) != [];
      assert PartlyErased(db, x);
      assert forall y :: InDir(fwd, eq, key, y) && Before(fwd, y, x) ==> !Visible(b, t, y);
    }
  }

  /** The last node of a misleading database has records in the view exactly if its
      key was erased in part. */
  lemma FarErased(db: Database, key: Key, fwd: bool, eq: bool)
    requires Misled(KeysOf(db.btree), Sights(db.nodes), key, fwd, eq)
    requires Clear(Sights(db.nodes), key, fwd, eq, Ok, Far(Sights(db.nodes), fwd))
    ensures var x := Far(Sights(db.nodes), fwd); View(db, x) != [] <==> PartlyErased(db, x)
  {
    var t := Sights(db.nodes);
    var n := if fwd then |t| - 1 else 0;
    NodeOfNode(db.nodes, n);
    assert t[n] == Sight(db.nodes[n]) && t[n].top == Erased && !t[n].foreign;
  }

  lemma MisledExact(db: Database, key: Key, fwd: bool, eq: bool, found: Key)
    requires Referring(db) && Clear(Sights(db.nodes), key, fwd, eq, Ok, found)
    requires Misled(KeysOf(db.btree), Sights(db.nodes), key, fwd, eq) && found == Far(Sights(db.nodes), fwd)
    ensures Nearest(db, key, fwd, eq, Ok, found) <==> NonePassed(db, key, fwd, eq)
  {
    ViewUpTo(db, key, fwd, eq, Ok, found);
    FarErased(db, key, fwd, eq);
  }

  /** An answer without a conflict is the nearest key of the view exactly if no key
      that was erased in part is passed over. */
  lemma AnswerExact(db: Database, key: Key, fwd: bool, eq: bool, st: Status, found: Key, fromTxn: bool)
    requires Referring(db) && Answer(KeysOf(db.btree), Sights(db.nodes), key, fwd, eq, st, found, fromTxn)
    ensures Nearest(db, key, fwd, eq, st, found) <==> NonePassed(db, key, fwd, eq)
  {
    if Misled(KeysOf(db.btree), Sights(db.nodes), key, fwd, eq) {
      MisledExact(db, key, fwd, eq, found);
    } else {
      RightExact(db, key, fwd, eq, st, found);
    }
  }

  /** The lookup in a database, with duplicate keys or without: a conflict exactly if
      the first node in the direction that is not erased is foreign; otherwise the
      nearest key of the view exactly if none that was erased in part is passed
      over. */
  method Find(db: Database, key: Key, fwd: bool, eq: bool) returns (st: Status, found: Key, fromTxn: bool)
    requires Referring(db)
    ensures st == TxnConflict <==> Blocked(Sights(db.nodes), key, fwd, eq)
    ensures st != TxnConflict ==> (Nearest(db, key, fwd, eq, st, found) <==> NonePassed(db, key, fwd, eq))
  {
    st, found, fromTxn := FindTxn(KeysOf(db.btree), Sights(db.nodes), key, fwd, eq);
    if st != TxnConflict {
      forall i | 0 <= i < |db.nodes| && !Foreign(db.nodes[i]) ensures Sights(db.nodes)[i].top != Nothing {
        NewestLeaves(db, i);
      }
      AnswerExact(db, key, fwd, eq, st, found, fromTxn);
    }
  }

  /** Key 1 is in the btree and erased by the reader: GEQ 1 finds key 1. */
  method GeqFindsErasedKey() returns (st: Status, found: Key)
    ensures st == Ok && found == 1
  {
    var t := [Seen(1, Erased, false)];
    var fromTxn;
    st, found, fromTxn := FindTxn([1], t, 1, true, true);
    assert Misled([1], t, 1, true, true);
  }

  /** Key 1 has two duplicates of which one is erased, key 2 is in the btree and key 3
      is new. */
  predicate PartlyErasedDb(db: Database) {
    db == Db(true, [Entry(1, [10, 11]), Entry(2, [20])],
             [Node(1, [Op(Actions.Erase(1), true)]), Node(3, [Op(Actions.Insert(30), true)])])
  }

  lemma PartlyErasedSights(db: Database)
    requires PartlyErasedDb(db)
    ensures KeysOf(db.btree) == [1, 2] && Sights(db.nodes) == [Seen(1, Erased, false), Seen(3, Present, false)]
  {
  }

  lemma PartlyErasedView(db: Database)
    requires PartlyErasedDb(db)
    ensures View(db, 1) == [11]
  {
    var n := db.nodes[0];
    NodeOfNode(db.nodes, 0);
    RecsOfEntry(db.btree, 0);
    assert Acts(n.ops)[..0] == [];
  }

  lemma TwoIsNearest(b: seq<Key>, t: seq<Seen>, st: Status, found: Key)
    requires b == [1, 2] && t == [Seen(1, Erased, false), Seen(3, Present, false)]
    requires Right(b, t, 1, true, true, st, found) || Misled(b, t, 1, true, true)
    ensures st == Ok && found == 2
  {
    assert t[1].top == Present && InDir(true, true, 1, t[1].key);
    assert b[1] == 2 && Visible(b, t, 2);
    assert t[0].key == 1 && !Visible(b, t, 1);
  }

  /** GEQ 1 finds key 2, although key 1 still has a record. */
  method PartlyErasedPassedOver(db: Database) returns (st: Status, found: Key, fromTxn: bool)
    requires PartlyErasedDb(db)
    ensures st == Ok && found == 2 && View(db, 1) == [11]
  {
    PartlyErasedSights(db);
    PartlyErasedView(db);
    var b, t := KeysOf(db.btree), Sights(db.nodes);
    st, found, fromTxn := FindTxn(b, t, 1, true, true);
    TwoIsNearest(b, t, st, found);
  }

  /** Key 1 is in the btree, and another open transaction has written key 5: GEQ 1
      reports a conflict, although nobody has touched key 1. */
  method UntouchedConflict() returns (st: Status, found: Key)
    ensures st == TxnConflict && Visible([1], [Seen(5, Nothing, true)], 1)
  {
    var t := [Seen(5, Nothing, true)];
    var fromTxn;
    st, found, fromTxn := FindTxn([1], t, 1, true, true);
    assert t[0].foreign && InDir(true, true, 1, t[0].key);
  }
}
