/** Transactions over a btree: the in-memory operation lists of 4txn/txn_local.cc,
    the conflict checks of 4db/db_local.cc and the flush of committed
    transactions.

    The source keeps every operation in two linked lists, one per key (TxnNode)
    and one per transaction (LocalTxn). Both are ordered by age, so the model
    keeps a single chronological log and projects it with On and By. */
module Transactions {
  import opened Actions
  import opened Seqs

  type TxnId = nat

  datatype Status = Active | Committed | Aborted

  datatype Op = Op(txn: TxnId, key: Key, act: Action, lsn: nat)

  /** `order` lists the open transactions oldest begin first, as TxnManager::list. */
  datatype Env = Env(
    btree: map<Key, Dups>,
    order: seq<TxnId>,
    status: map<TxnId, Status>,
    log: seq<Op>,
    lsn: nat,
    lastId: TxnId)

  datatype Outcome = Done | TxnConflict | DuplicateKey | KeyNotFound

  // ---- projections ----

  function Get(bt: map<Key, Dups>, k: Key): Dups {
    if k in bt then bt[k] else []
  }

  function OnKey(k: Key): Op -> bool { (o: Op) => o.key == k }

  function OfTxn(t: TxnId): Op -> bool { (o: Op) => o.txn == t }

  function NotOf(ids: seq<TxnId>): Op -> bool { (o: Op) => o.txn !in ids }

  function Having(status: map<TxnId, Status>, s: Status): Op -> bool {
    (o: Op) => o.txn in status && status[o.txn] == s
  }

  /** The operations of one TxnNode. */
  function On(log: seq<Op>, k: Key): seq<Op> { Filter(OnKey(k), log) }

  /** The operations of one LocalTxn. */
  function By(log: seq<Op>, t: TxnId): seq<Op> { Filter(OfTxn(t), log) }

  function CommittedOps(e: Env, k: Key): seq<Op> {
    Filter(Having(e.status, Committed), On(e.log, k))
  }

  function ActiveOps(e: Env, k: Key): seq<Op> {
    Filter(Having(e.status, Active), On(e.log, k))
  }

  // ---- readers ----

  /** The duplicate list after a node's operations, oldest first. */
  function Fold(ops: seq<Op>, d: Dups): Dups {
    if ops == [] then d
    else Consolidate(ops[|ops|-1].act, Fold(ops[..|ops|-1], d))
  }

  /** What every reader outside the writing transaction is entitled to see. */
  function View(e: Env, k: Key): Dups {
    Fold(CommittedOps(e, k), Get(e.btree, k))
  }

  lemma {:induction false} FoldAppend(a: seq<Op>, b: seq<Op>, d: Dups)
    ensures Fold(a + b, d) == Fold(b, Fold(a, d))
  {
    if b == [] {
      assert a + b == a;
    } else {
      FoldAppend(a, b[..|b|-1], d);
      assert (a + b)[..|a+b|-1] == a + b[..|b|-1];
    }
  }

  // ---- conflict checks ----

  /** check_insert_conflicts: walks a node from its newest operation to the
      oldest. `replace` is UPS_OVERWRITE or UPS_DUPLICATE, `present` the btree
      lookup that follows when no operation decides. */
  function WalkInsert(ops: seq<Op>, status: map<TxnId, Status>, t: TxnId, replace: bool, present: bool): Outcome {
    if ops == [] then
      if !replace && present then DuplicateKey else Done
    else
      var op := ops[|ops|-1];
      if Having(status, Committed)(op) || op.txn == t then
        if op.act.Erase? || replace then Done else DuplicateKey
      else if Having(status, Active)(op) then TxnConflict
      else WalkInsert(ops[..|ops|-1], status, t, replace, present)
  }

  /** check_erase_conflicts. */
  function WalkErase(ops: seq<Op>, status: map<TxnId, Status>, t: TxnId, present: bool): Outcome {
    if ops == [] then
      if present then Done else KeyNotFound
    else
      var op := ops[|ops|-1];
      if Having(status, Committed)(op) || op.txn == t then
        if op.act.Erase? then KeyNotFound else Done
      else if Having(status, Active)(op) then TxnConflict
      else WalkErase(ops[..|ops|-1], status, t, present)
  }

  /** insert_txn and erase_txn; the erase of a single duplicate through a cursor
      (ref > 0) is not checked for conflicts. */
  function Check(e: Env, t: TxnId, k: Key, a: Action): Outcome {
    var ops, present := On(e.log, k), Get(e.btree, k) != [];
    match a
    case Insert(_) => WalkInsert(ops, e.status, t, false, present)
    case Overwrite(_, _) => WalkInsert(ops, e.status, t, true, present)
    case InsertDup(_, _, _) => WalkInsert(ops, e.status, t, true, present)
    case Erase(ref) => if ref > 0 then Done else WalkErase(ops, e.status, t, present)
  }

  // ---- steps ----

  datatype Step =
    | Begin
    | Write(t: TxnId, k: Key, a: Action)
    | Commit(t: TxnId)
    | Abort(t: TxnId)
    | Flush

  predicate IsActive(e: Env, t: TxnId) { t in e.status && e.status[t] == Active }

  function DoBegin(e: Env): Env {
    e.(order := e.order + [e.lastId + 1], status := e.status[e.lastId + 1 := Active],
       lastId := e.lastId + 1, lsn := e.lsn + 1)
  }

  function DoWrite(e: Env, t: TxnId, k: Key, a: Action): Env {
    if IsActive(e, t) && Check(e, t, k, a) == Done
    then e.(log := e.log + [Op(t, k, a, e.lsn)], lsn := e.lsn + 1)
    else e
  }

  function DoCommit(e: Env, t: TxnId): Env {
    if IsActive(e, t) then e.(status := e.status[t := Committed], lsn := e.lsn + 1) else e
  }

  /** LocalTxn::abort frees the operations at once. */
  function DoAbort(e: Env, t: TxnId): Env {
    if IsActive(e, t) then e.(status := e.status[t := Aborted], log := Filter(NotOf([t]), e.log)) else e
  }

  /** The transactions a flush removes: the longest prefix of the list without
      an active one. */
  function Flushable(order: seq<TxnId>, status: map<TxnId, Status>): (ids: seq<TxnId>)
    ensures ids <= order
    ensures forall t :: t in ids ==> !(t in status && status[t] == Active)
    ensures |ids| < |order| ==> order[|ids|] in status && status[order[|ids|]] == Active
  {
    if order == [] || (order[0] in status && status[order[0]] == Active) then []
    else [order[0]] + Flushable(order[1..], status)
  }

  /** Their operations in the order in which they reach the btree. */
  function FlushedOps(ids: seq<TxnId>, log: seq<Op>): seq<Op> {
    if ids == [] then []
    else FlushedOps(ids[..|ids|-1], log) + By(log, ids[|ids|-1])
  }

  function ApplyAll(ops: seq<Op>, bt: map<Key, Dups>): map<Key, Dups> {
    if ops == [] then bt
    else
      var bt', op := ApplyAll(ops[..|ops|-1], bt), ops[|ops|-1];
      bt'[op.key := Apply(op.act, Get(bt', op.key))]
  }

  /** flush_committed_txns_impl. */
  function DoFlush(e: Env): Env {
    var ids := Flushable(e.order, e.status);
    e.(btree := ApplyAll(FlushedOps(ids, e.log), e.btree),
       order := e.order[|ids|..],
       status := map t | t in e.status && t !in ids :: e.status[t],
       log := Filter(NotOf(ids), e.log))
  }

  function Next(e: Env, s: Step): Env {
    match s
    case Begin => DoBegin(e)
    case Write(t, k, a) => DoWrite(e, t, k, a)
    case Commit(t) => DoCommit(e, t)
    case Abort(t) => DoAbort(e, t)
    case Flush => DoFlush(e)
  }

  // ---- invariants ----

  /** The open transactions are the listed ones, no operation of an aborted
      one is left, and ages are strictly increasing. */
  ghost predicate Valid(e: Env) {
    && (forall t :: t in e.order <==> t in e.status)
    && (forall t :: t in e.order ==> t <= e.lastId)
    && Ascending(e.order)
    && (forall o :: o in e.log ==> o.txn in e.status && e.status[o.txn] != Aborted && o.lsn < e.lsn)
    && Aging(e.log)
  }

  ghost predicate Ascending(ids: seq<TxnId>) {
    forall i, j :: 0 <= i < j < |ids| ==> ids[i] < ids[j]
  }

  ghost predicate Aging(log: seq<Op>) {
    forall i, j :: 0 <= i < j < |log| ==> log[i].lsn < log[j].lsn
  }

  ghost predicate OneWriter(ops: seq<Op>) {
    forall o, p :: o in ops && p in ops ==> o.txn == p.txn
  }

  /** On each key, committed operations are older than active ones, and the
      active ones belong to a single transaction. */
  ghost predicate Isolated(e: Env, k: Key) {
    && On(e.log, k) == CommittedOps(e, k) + ActiveOps(e, k)
    && OneWriter(ActiveOps(e, k))
  }

  /** Another transaction has an uncommitted operation on the key. */
  ghost predicate ForeignWriter(e: Env, t: TxnId, k: Key) {
    exists o :: o in e.log && o.key == k && o.txn != t && Having(e.status, Active)(o)
  }

  lemma ForeignWriterInActiveOps(e: Env, t: TxnId, k: Key)
    ensures ForeignWriter(e, t, k) <==> exists o :: o in ActiveOps(e, k) && o.txn != t
  {
    FilterMembers(OnKey(k), e.log);
    FilterMembers(Having(e.status, Active), On(e.log, k));
    if ForeignWriter(e, t, k) {
      var o :| o in e.log && o.key == k && o.txn != t && Having(e.status, Active)(o);
      assert o in ActiveOps(e, k);
    }
  }

  /** The walk looks at operations newest first and stops at the first one that
      is committed or its own; because of Isolated it still reports a conflict
      exactly when some other open transaction has written the key. */
  lemma ConflictExact(e: Env, t: TxnId, k: Key, a: Action)
    requires Valid(e) && Isolated(e, k) && IsActive(e, t)
    requires a.Erase? ==> a.ref == 0
    ensures Check(e, t, k, a) == TxnConflict <==> ForeignWriter(e, t, k)
  {
    var ops, c, w := On(e.log, k), CommittedOps(e, k), ActiveOps(e, k);
    ForeignWriterInActiveOps(e, t, k);
    FilterMembers(Having(e.status, Active), ops);
    FilterMembers(Having(e.status, Committed), ops);
    if w != [] {
      assert ops[|ops|-1] == w[|w|-1];
      assert w[|w|-1] in w;
    } else if c != [] {
      assert ops[|ops|-1] == c[|c|-1];
      assert c[|c|-1] in c;
    }
  }

  /** An overwrite or an insert of a duplicate is refused for a conflict only. */
  lemma ReplaceExact(e: Env, t: TxnId, k: Key, a: Action)
    requires Valid(e) && Isolated(e, k) && IsActive(e, t) && (a.Overwrite? || a.InsertDup?)
    ensures Check(e, t, k, a) == if ForeignWriter(e, t, k) then TxnConflict else Done
  {
    ConflictExact(e, t, k, a);
    FilterMembers(OnKey(k), e.log);
    var ops := On(e.log, k);
    if ops != [] {
      assert ops[|ops|-1] in e.log;
    }
  }

  /** Own and committed operations: what transaction t itself sees. */
  function OwnView(e: Env, t: TxnId, k: Key): Dups {
    Fold(Filter(OwnOrCommitted(e.status, t), On(e.log, k)), Get(e.btree, k))
  }

  function OwnOrCommitted(status: map<TxnId, Status>, t: TxnId): Op -> bool {
    (o: Op) => Having(status, Committed)(o) || o.txn == t
  }

  /** The operation that decides a check: the newest on the key. */
  function Newest(e: Env, k: Key): (o: Op)
    requires On(e.log, k) != []
  {
    On(e.log, k)[|On(e.log, k)|-1]
  }

  /** Every reference found its duplicate when the operation was logged. */
  predicate AllInRange(ops: seq<Op>, d: Dups) {
    ops == [] || (AllInRange(ops[..|ops|-1], d) && InRange(ops[|ops|-1].act, Fold(ops[..|ops|-1], d)))
  }

  /** A plain insert is refused exactly when the key is visible, unless the
      newest operation erased one duplicate and left others: that erase is
      taken for the erase of the whole key. The same confusion makes a
      following erase fail. */
  lemma PresenceExact(e: Env, t: TxnId, k: Key, r: Rec)
    requires Valid(e) && Isolated(e, k) && IsActive(e, t) && !ForeignWriter(e, t, k)
    requires AllInRange(On(e.log, k), Get(e.btree, k))
    ensures var partial := On(e.log, k) != [] && Newest(e, k).act.Erase? && OwnView(e, t, k) != [];
            && (Check(e, t, k, Insert(r)) == DuplicateKey <==> OwnView(e, t, k) != [] && !partial)
            && (Check(e, t, k, Erase(0)) == KeyNotFound <==> OwnView(e, t, k) == [] || partial)
  {
    var ops, c, w := On(e.log, k), CommittedOps(e, k), ActiveOps(e, k);
    var own := OwnOrCommitted(e.status, t);
    ForeignWriterInActiveOps(e, t, k);
    FilterMembers(Having(e.status, Active), ops);
    FilterMembers(Having(e.status, Committed), ops);
    FilterAll(own, ops);
    if ops != [] {
      var o := ops[|ops|-1];
      assert o in ops && own(o);
      if !o.act.Erase? {
        NonErasePresent(o.act, Fold(ops[..|ops|-1], Get(e.btree, k)));
      }
    }
  }

  lemma NonErasePresent(a: Action, d: Dups)
    requires InRange(a, d) && !a.Erase?
    ensures Consolidate(a, d) != []
  {
  }
}
