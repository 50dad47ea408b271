/** The fronts that belong to positions of the two cursors: at the edges of the
    trees, after a lookup, and in between. */
module Fronts {
  import opened Trees
  import opened MergeWalk
  import Actions

  function Beside(fwd: bool, i: int): int { if fwd then i + 1 else i - 1 }

  function ToGo(n: nat, fwd: bool, i: int): nat { if 0 <= i < n then (if fwd then n - i else i + 1) else 0 }

  /** The btree's entries from index i on; none for an index outside. */
  function EntriesOn(b: seq<Entry>, fwd: bool, i: int): (r: seq<Entry>)
    decreases ToGo(|b|, fwd, i)
  {
    if !(0 <= i < |b|) then [] else [b[i]] + EntriesOn(b, fwd, Beside(fwd, i))
  }

  lemma {:induction false} EntriesAre(b: seq<Entry>, fwd: bool, i: int)
    ensures var r := EntriesOn(b, fwd, i);
            |r| == ToGo(|b|, fwd, i) && forall k :: 0 <= k < |r| ==> r[k] == b[if fwd then i + k else i - k]
    decreases ToGo(|b|, fwd, i)
  {
    if 0 <= i < |b| {
      EntriesAre(b, fwd, Beside(fwd, i));
    }
  }

  /** What the transaction cursor is coupled to when it moves to a node. */
  function CoupledAct(dup: bool, ops: seq<Op>): Action {
    if ops == [] then Actions.Erase(0)
    else if dup || NewestMine(ops) == -1 then ops[0].act
    else ops[NewestMine(ops)].act
  }

  function ItemOf(dup: bool, n: Node): Item { Item(n.key, n.ops, CoupledAct(dup, n.ops)) }

  /** The nodes from index i on that hold an operation the reader may see. */
  function ItemsOn(db: Db, fwd: bool, i: int): (r: seq<Item>)
    decreases ToGo(|db.nodes|, fwd, i)
  {
    if !(0 <= i < |db.nodes|) then []
    else
      (if NewestMine(db.nodes[i].ops) >= 0 then [ItemOf(db.dup, db.nodes[i])] else [])
      + ItemsOn(db, fwd, Beside(fwd, i))
  }

  predicate OrderedItems(fwd: bool, r: seq<Item>) { forall j, k :: 0 <= j < k < |r| ==> Prior(fwd, r[j].key, r[k].key) }

  predicate AllAfter(fwd: bool, x: Key, r: seq<Item>) { forall k :: 0 <= k < |r| ==> Prior(fwd, x, r[k].key) }

  lemma PrependItem(fwd: bool, it: Item, rest: seq<Item>, x: Key)
    requires OrderedItems(fwd, rest) && AllAfter(fwd, it.key, rest)
    ensures OrderedItems(fwd, [it] + rest)
    ensures Prior(fwd, x, it.key) ==> AllAfter(fwd, x, [it] + rest)
  {
    var r := [it] + rest;
    forall k | 0 < k < |r| ensures r[k] == rest[k-1] {
    }
  }

  lemma {:induction false} ItemsBeyond(db: Db, fwd: bool, i: nat)
    requires SortedNodes(db.nodes) && i < |db.nodes|
    ensures OrderedItems(fwd, ItemsOn(db, fwd, Beside(fwd, i)))
    ensures AllAfter(fwd, db.nodes[i].key, ItemsOn(db, fwd, Beside(fwd, i)))
    decreases ToGo(|db.nodes|, fwd, i)
  {
    var n := Beside(fwd, i);
    if 0 <= n < |db.nodes| {
      ItemsBeyond(db, fwd, n);
      var rest := ItemsOn(db, fwd, Beside(fwd, n));
      if NewestMine(db.nodes[n].ops) >= 0 {
        PrependItem(fwd, ItemOf(db.dup, db.nodes[n]), rest, db.nodes[i].key);
      } else {
        assert ItemsOn(db, fwd, n) == rest;
        assert Prior(fwd, db.nodes[i].key, db.nodes[n].key);
      }
    }
  }

  lemma {:induction false} ItemsComplete(db: Db, fwd: bool, i: int, n: nat)
    requires n < |db.nodes| && NewestMine(db.nodes[n].ops) >= 0 && 0 <= i < |db.nodes| && !Prior(fwd, n, i)
    ensures ItemOf(db.dup, db.nodes[n]) in ItemsOn(db, fwd, i)
    decreases ToGo(|db.nodes|, fwd, i)
  {
    if i == n {
      assert ItemsOn(db, fwd, i)[0] == ItemOf(db.dup, db.nodes[i]);
    } else {
      ItemsComplete(db, fwd, Beside(fwd, i), n);
    }
  }

  /** Every item belongs to a node with something to show. */
  lemma {:induction false} ItemsOnly(db: Db, fwd: bool, i: int, it: Item)
    requires it in ItemsOn(db, fwd, i)
    ensures exists n ::
            0 <= n < |db.nodes| && !Prior(fwd, n, i) && it == ItemOf(db.dup, db.nodes[n]) &&
            NewestMine(db.nodes[n].ops) >= 0
    decreases ToGo(|db.nodes|, fwd, i)
  {
    if 0 <= i < |db.nodes| && it in ItemsOn(db, fwd, Beside(fwd, i)) {
      ItemsOnly(db, fwd, Beside(fwd, i), it);
    }
  }

  predicate At(db: Db, b: int, t: int, op: nat) {
    -1 <= b < |db.btree| && -1 <= t < |db.nodes| && (t >= 0 ==> op < |db.nodes[t].ops|)
  }

  /** The node the transaction cursor is coupled to. */
  function ItemAt(db: Db, t: nat, op: nat): Item
    requires t < |db.nodes| && op < |db.nodes[t].ops|
  {
    Item(db.nodes[t].key, db.nodes[t].ops, db.nodes[t].ops[if db.dup then 0 else op].act)
  }

  /** The front of a btree cursor at b and a transaction cursor at t, coupled to
      operation op; -1 is a nil cursor. */
  function FrontOf(db: Db, fwd: bool, b: int, t: int, op: nat): (f: Front)
    requires At(db, b, t, op)
    ensures (f.bs == [] <==> b == -1) && (f.ts == [] <==> t == -1)
    ensures b >= 0 ==> f.bs[0] == db.btree[b]
    ensures t >= 0 ==> f.ts[0] == ItemAt(db, t, op)
  {
    Front(EntriesOn(db.btree, fwd, b),
          if t == -1 then [] else [ItemAt(db, t, op)] + ItemsOn(db, fwd, Beside(fwd, t)))
  }

  lemma FrontOrdered(db: Db, fwd: bool, b: int, t: int, op: nat)
    requires SortedEntries(db.btree) && SortedNodes(db.nodes) && At(db, b, t, op)
    ensures OrderedFront(fwd, FrontOf(db, fwd, b, t, op))
  {
    EntriesAre(db.btree, fwd, b);
    if t >= 0 {
      ItemsBeyond(db, fwd, t);
      PrependItem(fwd, ItemAt(db, t, op), ItemsOn(db, fwd, Beside(fwd, t)), 0);
    }
  }

  /** The first entry at or behind a key. */
  function EntryAt(b: seq<Entry>, fwd: bool, x: Key): (i: int)
    ensures -1 <= i < |b|
    ensures i >= 0 ==> !Prior(fwd, b[i].key, x)
    ensures forall j :: 0 <= j < |b| && (i == -1 || (if fwd then j < i else j > i)) ==> Prior(fwd, b[j].key, x)
  {
    EntrySearch(b, fwd, x, if fwd then 0 else |b| - 1)
  }

  function EntrySearch(b: seq<Entry>, fwd: bool, x: Key, i: int): (r: int)
    requires if fwd then 0 <= i <= |b| else -1 <= i < |b|
    ensures -1 <= r < |b|
    ensures r >= 0 ==> !Prior(fwd, b[r].key, x)
    ensures r >= 0 ==> forall j :: 0 <= j < |b| && (if fwd then i <= j < r else r < j <= i) ==> Prior(fwd, b[j].key, x)
    ensures r == -1 ==> forall j :: 0 <= j < |b| && (if fwd then i <= j else j <= i) ==> Prior(fwd, b[j].key, x)
    decreases ToGo(|b|, fwd, i)
  {
    if !(0 <= i < |b|) then -1 else if !Prior(fwd, b[i].key, x) then i else EntrySearch(b, fwd, x, Beside(fwd, i))
  }

  /** TxnCursor::find with an approximate match, from node i on: erased nodes are
      passed over, but the cursor stays coupled to the last of them. */
  function Located(db: Db, fwd: bool, x: Key, i: int, last: int): (t: int)
    requires -1 <= last < |db.nodes| && if fwd then 0 <= i <= |db.nodes| else -1 <= i < |db.nodes|
    ensures -1 <= t < |db.nodes|
    decreases ToGo(|db.nodes|, fwd, i)
  {
    if !(0 <= i < |db.nodes|) then last
    else if Prior(fwd, db.nodes[i].key, x) then Located(db, fwd, x, Beside(fwd, i), last)
    else if ErasedNode(db.nodes[i]) then Located(db, fwd, x, Beside(fwd, i), i)
    else i
  }

  function Edge(n: nat, fwd: bool): (i: int)
    ensures -1 <= i < n
  {
    if n == 0 then -1 else if fwd then 0 else n - 1
  }

  function NodeAt(db: Db, fwd: bool, x: Key): (t: int)
    ensures -1 <= t < |db.nodes|
  {
    Located(db, fwd, x, if fwd then 0 else |db.nodes| - 1, -1)
  }
}
