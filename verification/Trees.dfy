/** The two trees a database consists of: the btree with its records, and the
    transaction nodes with the operations that wait to be flushed. */
module Trees {
  import Actions

  type Key = Actions.Key
  type Rec = Actions.Rec
  type Action = Actions.Action

  /** An operation as one reader finds it: `mine` if it is committed or the
      reader's own, otherwise it belongs to another open transaction. Aborted
      operations are removed from their node when the transaction aborts. */
  datatype Op = Op(act: Action, mine: bool)

  /** A TxnNode with its operations, oldest first. */
  datatype Node = Node(key: Key, ops: seq<Op>)

  /** A btree key with its records. */
  datatype Entry = Entry(key: Key, recs: seq<Rec>)

  /** `dup` is UPS_ENABLE_DUPLICATE_KEYS. */
  datatype Db = Db(dup: bool, btree: seq<Entry>, nodes: seq<Node>)

  datatype Status = Ok | KeyNotFound | ErasedInTxn | TxnConflict | CursorIsNil

  predicate SortedEntries(b: seq<Entry>) { forall i, j :: 0 <= i < j < |b| ==> b[i].key < b[j].key }

  predicate SortedNodes(t: seq<Node>) { forall i, j :: 0 <= i < j < |t| ==> t[i].key < t[j].key }

  /** The operations there are without duplicate keys. */
  predicate Plain(a: Action) {
    match a
    case Insert(_) => true
    case Overwrite(_, ref) => ref == 0
    case InsertDup(_, _, _) => false
    case Erase(ref) => ref == 0
  }

  /** Both trees are ordered, and neither holds an empty key or node. */
  predicate WellFormed(db: Db) {
    && SortedEntries(db.btree) && SortedNodes(db.nodes)
    && (forall i :: 0 <= i < |db.btree| ==> db.btree[i].recs != [])
    && (forall i :: 0 <= i < |db.nodes| ==> db.nodes[i].ops != [])
    && (!db.dup ==> forall i :: 0 <= i < |db.btree| ==> |db.btree[i].recs| == 1)
    && (!db.dup ==> forall i, j :: 0 <= i < |db.nodes| && 0 <= j < |db.nodes[i].ops| ==> Plain(db.nodes[i].ops[j].act))
  }

  /** A database that is well-formed. */
  type Database = d: Db | WellFormed(d) witness Db(false, [], [])

  /** The last operation that is committed or the reader's own, or -1. */
  function NewestMine(ops: seq<Op>): (i: int)
    ensures -1 <= i < |ops|
    ensures i >= 0 ==> ops[i].mine
    ensures forall j :: i < j < |ops| ==> !ops[j].mine
  {
    if ops == [] then -1
    else if ops[|ops|-1].mine then |ops| - 1
    else NewestMine(ops[..|ops|-1])
  }

  /** Another open transaction was the last to write this key. */
  predicate Foreign(n: Node) { n.ops != [] && !n.ops[|n.ops|-1].mine }

  predicate IsErase(a: Action) { a.Erase? && a.ref == 0 }

  /** The newest operation erases the key for this reader. */
  predicate ErasedNode(n: Node) { n.ops != [] && n.ops[|n.ops|-1].mine && IsErase(n.ops[|n.ops|-1].act) }

  /** move_top_in_node with conflicts reported. */
  function Strict(n: Node): Status {
    if Foreign(n) then TxnConflict else if ErasedNode(n) then ErasedInTxn else Ok
  }

  /** The keys that another open transaction was the last to write. */
  function ForeignKeys(t: seq<Node>): set<Key> { set n | n in t && Foreign(n) :: n.key }

  /** The node of a key, or -1. */
  function NodeOf(t: seq<Node>, x: Key): (i: int)
    ensures -1 <= i < |t|
    ensures i >= 0 ==> t[i].key == x
    ensures i == -1 ==> forall j :: 0 <= j < |t| ==> t[j].key != x
  {
    if t == [] then -1 else if t[|t|-1].key == x then |t| - 1 else NodeOf(t[..|t|-1], x)
  }

  /** The operations of a key. */
  function OpsOf(t: seq<Node>, x: Key): seq<Op> { var i := NodeOf(t, x); if i == -1 then [] else t[i].ops }

  /** The btree's records of a key. */
  function RecsOf(b: seq<Entry>, x: Key): (r: seq<Rec>)
    ensures (forall i :: 0 <= i < |b| ==> b[i].key != x) ==> r == []
    ensures r != [] ==> exists i :: 0 <= i < |b| && b[i].key == x && b[i].recs == r
  {
    if b == [] then [] else if b[|b|-1].key == x then b[|b|-1].recs else RecsOf(b[..|b|-1], x)
  }

  lemma {:induction false} RecsOfEntry(b: seq<Entry>, i: nat)
    requires SortedEntries(b) && i < |b|
    ensures RecsOf(b, b[i].key) == b[i].recs
  {
    if i < |b| - 1 {
      assert b[..|b|-1][i] == b[i];
      RecsOfEntry(b[..|b|-1], i);
    }
  }

  lemma NodeOfNode(t: seq<Node>, i: nat)
    requires SortedNodes(t) && i < |t|
    ensures NodeOf(t, t[i].key) == i
  {
  }

  function Acts(ops: seq<Op>): (a: seq<Action>)
    ensures |a| == |ops| && forall i :: 0 <= i < |ops| ==> a[i] == ops[i].act
  {
    seq(|ops|, i requires 0 <= i < |ops| => ops[i].act)
  }

  /** The record an operation leaves without duplicates. */
  function Left(a: Action): seq<Rec> { if a.Erase? then [] else [a.rec] }

  /** What a node makes of the btree's records. */
  function NodeView(dup: bool, n: Node, recs: seq<Rec>): seq<Rec> {
    if dup then Actions.ConsolidateAll(Acts(n.ops), recs) else if n.ops == [] then recs else Left(n.ops[|n.ops|-1].act)
  }

  /** The records under a key when both trees are read together. */
  function View(db: Db, x: Key): seq<Rec> {
    var i := NodeOf(db.nodes, x);
    if i == -1 then RecsOf(db.btree, x) else NodeView(db.dup, db.nodes[i], RecsOf(db.btree, x))
  }

  /** No other open transaction has written. */
  predicate Undisturbed(db: Db) {
    forall i, j :: 0 <= i < |db.nodes| && 0 <= j < |db.nodes[i].ops| ==> db.nodes[i].ops[j].mine
  }

  lemma ForeignExact(db: Database, x: Key)
    ensures x in ForeignKeys(db.nodes) <==> NodeOf(db.nodes, x) >= 0 && Foreign(db.nodes[NodeOf(db.nodes, x)])
  {
    var i := NodeOf(db.nodes, x);
    if x in ForeignKeys(db.nodes) {
      var n :| n in db.nodes && Foreign(n) && n.key == x;
      var j :| 0 <= j < |db.nodes| && db.nodes[j] == n;
      NodeOfNode(db.nodes, j);
    } else if i >= 0 {
      assert db.nodes[i] in db.nodes;
    }
  }

  lemma NoForeignKeys(db: Db)
    requires WellFormed(db) && Undisturbed(db)
    ensures ForeignKeys(db.nodes) == {}
    ensures forall i :: 0 <= i < |db.nodes| ==>
            !Foreign(db.nodes[i]) && NewestMine(db.nodes[i].ops) == |db.nodes[i].ops| - 1
  {
  }

  /** A record with its key and its 1-based position among the duplicates. */
  datatype Row = Row(key: Key, pos: nat, rec: Rec)

  predicate InView(db: Db, r: Row) {
    var v := View(db, r.key);
    1 <= r.pos <= |v| && v[r.pos-1] == r.rec
  }

  /** Ascending or descending by key and position. */
  predicate RowBefore(fwd: bool, r: Row, s: Row) {
    if fwd then r.key < s.key || (r.key == s.key && r.pos < s.pos)
    else s.key < r.key || (r.key == s.key && s.pos < r.pos)
  }

  predicate Ordered(fwd: bool, rows: seq<Row>) {
    forall i, j :: 0 <= i < j < |rows| ==> RowBefore(fwd, rows[i], rows[j])
  }

  /** An ordered list is determined by its rows, so the two directions are the
      reverse of each other. */
  lemma {:induction false} OrderedUnique(a: seq<Row>, c: seq<Row>)
    requires Ordered(true, a) && Ordered(true, c) && forall r :: r in a <==> r in c
    ensures a == c
  {
    assert a != [] ==> a[0] in a;
    assert c != [] ==> c[0] in c;
    if a != [] && c != [] {
      var i :| 0 <= i < |c| && c[i] == a[0];
      var j :| 0 <= j < |a| && a[j] == c[0];
      assert a[0] == c[0];
      assert a == [a[0]] + a[1..] && c == [c[0]] + c[1..];
      assert a[0] !in a[1..] && c[0] !in c[1..];
      forall x ensures x in a[1..] <==> x in c[1..] {
        assert x in a[1..] <==> x in a && x != a[0];
        assert x in c[1..] <==> x in c && x != c[0];
      }
      OrderedUnique(a[1..], c[1..]);
    }
  }

  function Reverse<T>(s: seq<T>): (r: seq<T>)
    ensures |r| == |s| && forall i :: 0 <= i < |s| ==> r[i] == s[|s|-1-i]
  {
    seq(|s|, i requires 0 <= i < |s| => s[|s|-1-i])
  }
}
