/** The transaction manager as an object that updates its lists in place
    (4txn/txn_local.cc, 4db/db_local.cc). Every method is proved to perform the
    corresponding step of module Transactions. */
module TxnManager {
  import opened Actions
  import opened Seqs
  import opened Transactions
  import Serializability

  class LocalEnv {
    var btree: map<Key, Dups>
    var order: seq<TxnId>
    var status: map<TxnId, Status>
    var log: seq<Op>
    var lsn: nat
    var lastId: TxnId

    function State(): Env
      reads this
    {
      Env(btree, order, status, log, lsn, lastId)
    }

    constructor ()
      ensures Serializability.Fresh(State()) && State().btree == map[] && Valid(State())
    {
      btree, order, status, log, lsn, lastId := map[], [], map[], [], 1, 0;
    }

    method TxnBegin() returns (t: TxnId)
      requires Valid(State())
      modifies this
      ensures State() == DoBegin(old(State())) && Valid(State())
      ensures t !in old(order) && IsActive(State(), t)
    {
      Serializability.ValidNext(State(), Begin);
      lastId := lastId + 1;
      t := lastId;
      lsn := lsn + 1;
      order := order + [t];
      status := status[t := Active];
    }

    /** The node's operations are visited from the newest to the oldest. */
    method CheckInsertConflicts(t: TxnId, k: Key, replace: bool) returns (o: Outcome)
      ensures o == WalkInsert(On(log, k), status, t, replace, Get(btree, k) != [])
    {
      var node := On(log, k);
      var i := |node|;
      assert node[..i] == node;
      while i > 0
        invariant 0 <= i <= |node|
        invariant WalkInsert(node, status, t, replace, Get(btree, k) != [])
               == WalkInsert(node[..i], status, t, replace, Get(btree, k) != [])
      {
        assert node[..i][..i-1] == node[..i-1];
        var op := node[i-1];
        if Having(status, Committed)(op) || op.txn == t {
          return if op.act.Erase? || replace then Done else DuplicateKey;
        }
        if Having(status, Active)(op) {
          return TxnConflict;
        }
        i := i - 1;
      }
      o := if !replace && Get(btree, k) != [] then DuplicateKey else Done;
    }

    method CheckEraseConflicts(t: TxnId, k: Key) returns (o: Outcome)
      ensures o == WalkErase(On(log, k), status, t, Get(btree, k) != [])
    {
      var node := On(log, k);
      var i := |node|;
      assert node[..i] == node;
      while i > 0
        invariant 0 <= i <= |node|
        invariant WalkErase(node, status, t, Get(btree, k) != [])
               == WalkErase(node[..i], status, t, Get(btree, k) != [])
      {
        assert node[..i][..i-1] == node[..i-1];
        var op := node[i-1];
        if Having(status, Committed)(op) || op.txn == t {
          return if op.act.Erase? then KeyNotFound else Done;
        }
        if Having(status, Active)(op) {
          return TxnConflict;
        }
        i := i - 1;
      }
      o := if Get(btree, k) != [] then Done else KeyNotFound;
    }

    /** insert_txn and erase_txn: check, then append to the node and the
        transaction. The result is the one a full scan of the log would give. */
    method Modify(t: TxnId, k: Key, a: Action) returns (o: Outcome)
      requires Valid(State()) && IsActive(State(), t) && Isolated(State(), k)
      modifies this`log, this`lsn
      ensures State() == DoWrite(old(State()), t, k, a) && Valid(State())
      ensures o == Check(old(State()), t, k, a)
      ensures !(a.Erase? && a.ref > 0) ==> (o == TxnConflict <==> old(ForeignWriter(State(), t, k)))
      ensures o != Done ==> State() == old(State())
      ensures o == Done ==> log == old(log) + [Op(t, k, a, old(lsn))]
    {
      Serializability.ValidNext(State(), Write(t, k, a));
      if !(a.Erase? && a.ref > 0) {
        ConflictExact(State(), t, k, a);
      }
      match a {
        case Insert(_) => o := CheckInsertConflicts(t, k, false);
        case Overwrite(_, _) => o := CheckInsertConflicts(t, k, true);
        case InsertDup(_, _, _) => o := CheckInsertConflicts(t, k, true);
        case Erase(ref) =>
          if ref > 0 {
            o := Done;
          } else {
            o := CheckEraseConflicts(t, k);
          }
      }
      if o == Done {
        log := log + [Op(t, k, a, lsn)];
        lsn := lsn + 1;
      }
    }

    method TxnCommit(t: TxnId)
      requires Valid(State()) && IsActive(State(), t)
      modifies this`status, this`lsn
      ensures State() == DoCommit(old(State()), t) && Valid(State())
    {
      Serializability.ValidNext(State(), Commit(t));
      status := status[t := Committed];
      lsn := lsn + 1;
    }

    method TxnAbort(t: TxnId)
      requires Valid(State()) && IsActive(State(), t)
      modifies this`status, this`log
      ensures State() == DoAbort(old(State()), t) && Valid(State())
      ensures By(log, t) == [] && forall u :: u != t ==> By(log, u) == old(By(log, u))
    {
      Serializability.ValidNext(State(), Abort(t));
      OthersStay(log, t);
      status := status[t := Aborted];
      log := Filter(NotOf([t]), log);
    }

    /** Without the operations of one transaction, those of the others are left. */
    static lemma OthersStay(log: seq<Op>, t: TxnId)
      ensures var rest := Filter(NotOf([t]), log);
              By(rest, t) == [] && forall u :: u != t ==> By(rest, u) == By(log, u)
    {
      var rest := Filter(NotOf([t]), log);
      FilterMembers(NotOf([t]), log);
      FilterNone(OfTxn(t), rest);
      forall u | u != t ensures By(rest, u) == By(log, u) {
        FilterSwap(OfTxn(u), NotOf([t]), log);
        FilterMembers(OfTxn(u), log);
        FilterAll(NotOf([t]), By(log, u));
      }
    }

    /** flush_txn_to_changeset: one transaction's operations, oldest first. */
    method FlushTxn(ops: seq<Op>)
      modifies this`btree
      ensures btree == ApplyAll(ops, old(btree))
    {
      for i := 0 to |ops|
        invariant btree == ApplyAll(ops[..i], old(btree))
      {
        assert ops[..i+1][..i] == ops[..i];
        btree := btree[ops[i].key := Apply(ops[i].act, Get(btree, ops[i].key))];
      }
      assert ops[..|ops|] == ops;
    }

    /** flush_committed_txns_impl. */
    method FlushCommittedTxns()
      requires Valid(State())
      modifies this
      ensures State() == DoFlush(old(State())) && Valid(State())
    {
      ghost var e := State();
      FlushLoop();
      Serializability.ValidFlush(e);
    }

    /** Always take the oldest transaction; stop at the first one that is still
        active. */
    method FlushLoop()
      requires Ascending(order)
      modifies this
      ensures State() == DoFlush(old(State()))
    {
      ghost var e := State();
      ghost var n := 0;
      FlushNone(e);
      while order != [] && !(order[0] in status && status[order[0]] == Active)
        invariant 0 <= n <= |e.order| && State() == FlushFirst(e, n) && |order| == |e.order| - n
        invariant forall i :: 0 <= i < n ==> !IsActive(e, e.order[i])
        decreases |order|
      {
        RemoveOldest(e, n);
        n := n + 1;
      }
      FlushFirstAll(e, n);
    }

    method RemoveOldest(ghost e: Env, ghost n: nat)
      requires Ascending(e.order) && n < |e.order| && State() == FlushFirst(e, n)
      requires order != [] && !IsActive(State(), order[0])
      modifies this
      ensures State() == FlushFirst(e, n + 1) && !IsActive(e, e.order[n])
      ensures |order| == old(|order|) - 1
    {
      FlushOneMore(e, n);
      var t := order[0];
      FlushTxn(By(log, t));
      log := Filter(NotOf([t]), log);
      status := status - {t};
      order := order[1..];
    }
  }

  /** The state after the n oldest transactions were flushed and removed. */
  function FlushFirst(e: Env, n: nat): Env
    requires n <= |e.order|
  {
    var ids := e.order[..n];
    e.(btree := ApplyAll(FlushedOps(ids, e.log), e.btree),
       order := e.order[n..],
       status := Without(e.status, ids),
       log := Filter(NotOf(ids), e.log))
  }

  lemma FlushNone(e: Env)
    ensures FlushFirst(e, 0) == e
  {
    assert e.order[..0] == [] && e.order[0..] == e.order;
    FilterAll(NotOf([]), e.log);
    assert (map t | t in e.status && t !in e.order[..0] :: e.status[t]) == e.status;
  }

  function Without(status: map<TxnId, Status>, ids: seq<TxnId>): map<TxnId, Status> {
    map t | t in status && t !in ids :: status[t]
  }

  lemma WithoutOneMore(status: map<TxnId, Status>, ids: seq<TxnId>, t: TxnId)
    ensures Without(status, ids + [t]) == Without(status, ids) - {t}
  {
  }

  lemma NotAmong(order: seq<TxnId>, n: nat)
    requires Ascending(order) && n < |order|
    ensures order[n] !in order[..n] && order[..n+1] == order[..n] + [order[n]] && order[n..][0] == order[n] &&
            order[n..][1..] == order[n+1..]
  {
  }

  lemma FlushOneMore(e: Env, n: nat)
    requires Ascending(e.order) && n < |e.order|
    ensures var s, t := FlushFirst(e, n), e.order[n];
            && s.order[0] == t
            && (t in s.status <==> t in e.status) && (t in e.status ==> s.status[t] == e.status[t])
            && FlushFirst(e, n + 1) == s.(btree := ApplyAll(By(s.log, t), s.btree),
                 order := s.order[1..], status := s.status - {t}, log := Filter(NotOf([t]), s.log))
  {
    var t, done := e.order[n], e.order[..n];
    NotAmong(e.order, n);
    WithoutOneMore(e.status, done, t);
    NextFlushed(e.log, done, t);
    assert ApplyAll(FlushedOps(done + [t], e.log), e.btree) ==
      ApplyAll(By(e.log, t), ApplyAll(FlushedOps(done, e.log), e.btree)) by {
      ApplyAllAppend(FlushedOps(done, e.log), By(e.log, t), e.btree);
    }
  }

  lemma FlushFirstAll(e: Env, n: nat)
    requires n <= |e.order|
    requires forall i :: 0 <= i < n ==> !IsActive(e, e.order[i])
    requires n < |e.order| ==> IsActive(FlushFirst(e, n), e.order[n])
    ensures FlushFirst(e, n) == DoFlush(e)
  {
    FlushableIs(e.order, e.status, n);
  }

  lemma {:induction false} ApplyAllAppend(a: seq<Op>, b: seq<Op>, bt: map<Key, Dups>)
    ensures ApplyAll(a + b, bt) == ApplyAll(b, ApplyAll(a, bt))
  {
    if b == [] {
      assert a + b == a;
    } else {
      ApplyAllAppend(a, b[..|b|-1], bt);
      assert (a + b)[..|a+b|-1] == a + b[..|b|-1];
    }
  }

  /** Removing transactions one by one leaves the remaining ones intact. */
  lemma NextFlushed(log: seq<Op>, done: seq<TxnId>, t: TxnId)
    requires t !in done
    ensures FlushedOps(done + [t], log) == FlushedOps(done, log) + By(log, t)
    ensures By(Filter(NotOf(done), log), t) == By(log, t)
    ensures Filter(NotOf([t]), Filter(NotOf(done), log)) == Filter(NotOf(done + [t]), log)
  {
    assert (done + [t])[..|done|] == done;
    NextFlushedRest(log, done, t);
  }

  lemma {:induction false} NextFlushedRest(log: seq<Op>, done: seq<TxnId>, t: TxnId)
    requires t !in done
    ensures By(Filter(NotOf(done), log), t) == By(log, t)
    ensures Filter(NotOf([t]), Filter(NotOf(done), log)) == Filter(NotOf(done + [t]), log)
  {
    if log != [] {
      NextFlushedRest(log[..|log|-1], done, t);
    }
  }

  lemma {:induction false} FlushableIs(order: seq<TxnId>, status: map<TxnId, Status>, n: nat)
    requires n <= |order|
    requires forall i :: 0 <= i < n ==> !(order[i] in status && status[order[i]] == Active)
    requires n < |order| ==> order[n] in status && status[order[n]] == Active
    ensures Flushable(order, status) == order[..n]
  {
    if n > 0 {
      FlushableIs(order[1..], status, n - 1);
      assert order[..n] == [order[0]] + order[1..][..n-1];
    }
  }
}
