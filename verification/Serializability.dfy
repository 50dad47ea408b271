/** Every run of interleaved transactions is equivalent to executing the
    committed transactions one after the other in commit order, and flushing is
    invisible, as long as each unchecked duplicate erase and each flush is
    clean. UncheckedEraseExact says that the first guard is the exact one,
    FlushExactPlain that the second is on keys without duplicates. */
module Serializability {
  import opened Actions
  import opened Seqs
  import opened Transactions
  import opened Ledger

  // ---- steps keep the environment valid ----

  lemma {:induction false} AgingFilter(p: Op -> bool, log: seq<Op>)
    requires Aging(log)
    ensures Aging(Filter(p, log))
  {
    if log != [] {
      var n := |log| - 1;
      AgingFilter(p, log[..n]);
      FilterMembers(p, log[..n]);
      forall o | o in log[..n] ensures o.lsn < log[n].lsn {
      }
      forall i | 0 <= i < |Filter(p, log[..n])| ensures Filter(p, log[..n])[i].lsn < log[n].lsn {
        assert Filter(p, log[..n])[i] in Filter(p, log[..n]);
      }
    }
  }

  lemma ValidNext(e: Env, s: Step)
    requires Valid(e)
    ensures Valid(Next(e, s))
  {
    match s
    case Begin =>
      ValidBegin(e);
    case Write(t, k, a) =>
      ValidWrite(e, t, k, a);
    case Commit(t) =>
    case Abort(t) =>
      ValidAbort(e, t);
    case Flush =>
      ValidFlush(e);
  }

  lemma ValidBegin(e: Env)
    requires Valid(e)
    ensures Valid(Next(e, Begin))
  {
    forall i | 0 <= i < |e.order| ensures e.order[i] < e.lastId + 1 {
      assert e.order[i] in e.order;
    }
  }

  lemma ValidWrite(e: Env, t: TxnId, k: Key, a: Action)
    requires Valid(e)
    ensures Valid(Next(e, Write(t, k, a)))
  {
    forall i | 0 <= i < |e.log| ensures e.log[i].lsn < e.lsn {
      assert e.log[i] in e.log;
    }
  }

  lemma ValidAbort(e: Env, t: TxnId)
    requires Valid(e)
    ensures Valid(Next(e, Abort(t)))
  {
    FilterMembers(NotOf([t]), e.log);
    AgingFilter(NotOf([t]), e.log);
  }

  lemma ValidFlush(e: Env)
    requires Valid(e)
    ensures Valid(DoFlush(e))
  {
    var ids := Flushable(e.order, e.status);
    FilterMembers(NotOf(ids), e.log);
    AgingFilter(NotOf(ids), e.log);
    DropPrefix(e.order, ids);
  }

  lemma DropPrefix(order: seq<TxnId>, ids: seq<TxnId>)
    requires Ascending(order) && ids <= order
    ensures Ascending(ids) && Ascending(order[|ids|..])
    ensures forall t :: t in order[|ids|..] <==> t in order && t !in ids
    ensures forall s, t :: s in ids && t in order && t !in ids ==> s < t
  {
  }

  // ---- steps keep each key isolated ----

  /** The canonical split of a node's operations follows from any split into
      committed operations and operations of one active transaction. */
  lemma SplitIsolates(e: Env, k: Key, c: seq<Op>, w: seq<Op>)
    requires On(e.log, k) == c + w
    requires forall o :: o in c ==> Having(e.status, Committed)(o)
    requires forall o :: o in w ==> Having(e.status, Active)(o)
    requires OneWriter(w)
    ensures Isolated(e, k) && CommittedOps(e, k) == c && ActiveOps(e, k) == w
  {
    FilterParts(Having(e.status, Committed), c, w);
    FilterParts(Having(e.status, Active), c, w);
  }

  lemma FilterParts(p: Op -> bool, c: seq<Op>, w: seq<Op>)
    ensures (forall o :: o in c ==> p(o)) && (forall o :: o in w ==> !p(o)) ==> Filter(p, c + w) == c
    ensures (forall o :: o in c ==> !p(o)) && (forall o :: o in w ==> p(o)) ==> Filter(p, c + w) == w
  {
    FilterAppend(p, c, w);
    if (forall o :: o in c ==> p(o)) && (forall o :: o in w ==> !p(o)) {
      FilterAll(p, c);
      FilterNone(p, w);
    }
    if (forall o :: o in c ==> !p(o)) && (forall o :: o in w ==> p(o)) {
      FilterNone(p, c);
      FilterAll(p, w);
    }
  }

  lemma SplitMembers(e: Env, k: Key)
    ensures forall o :: o in CommittedOps(e, k) ==> Having(e.status, Committed)(o) && o.key == k && o in e.log
    ensures forall o :: o in ActiveOps(e, k) ==> Having(e.status, Active)(o) && o.key == k && o in e.log
  {
    FilterMembers(OnKey(k), e.log);
    FilterMembers(Having(e.status, Committed), On(e.log, k));
    FilterMembers(Having(e.status, Active), On(e.log, k));
  }

  lemma OnAppend(log: seq<Op>, o: Op, k: Key)
    ensures On(log + [o], k) == if o.key == k then On(log, k) + [o] else On(log, k)
  {
  }

  lemma BeginStep(e: Env, k: Key)
    requires Valid(e) && Isolated(e, k)
    ensures Isolated(DoBegin(e), k) && CommittedOps(DoBegin(e), k) == CommittedOps(e, k)
  {
    SplitMembers(e, k);
    SplitIsolates(DoBegin(e), k, CommittedOps(e, k), ActiveOps(e, k));
  }

  lemma WriteStep(e: Env, t: TxnId, k: Key, a: Action, x: Key)
    requires Valid(e) && Isolated(e, x) && Isolated(e, k)
    requires a.Erase? && a.ref > 0 ==> !ForeignWriter(e, t, k)
    ensures Isolated(DoWrite(e, t, k, a), x)
    ensures CommittedOps(DoWrite(e, t, k, a), x) == CommittedOps(e, x)
  {
    if DoWrite(e, t, k, a) != e {
      assert !ForeignWriter(e, t, k) by {
        if !(a.Erase? && a.ref > 0) {
          ConflictExact(e, t, k, a);
        }
      }
      Logged(e, Op(t, k, a, e.lsn), x);
    }
  }

  /** An active transaction logs an operation on a key without another writer. */
  lemma Logged(e: Env, o: Op, x: Key)
    requires Isolated(e, x) && IsActive(e, o.txn) && !ForeignWriter(e, o.txn, o.key)
    ensures var e' := e.(log := e.log + [o], lsn := e.lsn + 1);
            Isolated(e', x) && CommittedOps(e', x) == CommittedOps(e, x)
  {
    var e' := e.(log := e.log + [o], lsn := e.lsn + 1);
    var c, w := CommittedOps(e, x), ActiveOps(e, x);
    OnAppend(e.log, o, x);
    SplitMembers(e, x);
    if x == o.key {
      ForeignWriterInActiveOps(e, o.txn, x);
      assert c + w + [o] == c + (w + [o]);
      SplitIsolates(e', x, c, w + [o]);
    } else {
      SplitIsolates(e', x, c, w);
    }
  }

  lemma KeepRight(p: Op -> bool, c: seq<Op>, w: seq<Op>)
    requires (forall o :: o in c ==> !p(o)) && (forall o :: o in w ==> p(o))
    ensures Filter(p, c + w) == w
  {
    FilterAppend(p, c, w);
    FilterNone(p, c);
    FilterAll(p, w);
  }

  lemma KeepNeither(p: Op -> bool, c: seq<Op>, w: seq<Op>)
    requires (forall o :: o in c ==> !p(o)) && (forall o :: o in w ==> !p(o))
    ensures Filter(p, c + w) == []
  {
    FilterAppend(p, c, w);
    FilterNone(p, c);
    FilterNone(p, w);
  }

  lemma KeepLeft(p: Op -> bool, c: seq<Op>, w: seq<Op>)
    requires (forall o :: o in c ==> p(o)) && (forall o :: o in w ==> !p(o))
    ensures Filter(p, c + w) == c
  {
    FilterAppend(p, c, w);
    FilterAll(p, c);
    FilterNone(p, w);
  }

  lemma KeepBoth(p: Op -> bool, c: seq<Op>, w: seq<Op>)
    requires (forall o :: o in c ==> p(o)) && (forall o :: o in w ==> p(o))
    ensures Filter(p, c + w) == c + w
  {
    FilterAll(p, c + w);
  }

  /** A committing transaction's operations on a key are all of the key's
      active operations or none of them. */
  lemma CommitStep(e: Env, t: TxnId, k: Key)
    requires Isolated(e, k) && IsActive(e, t)
    ensures Isolated(DoCommit(e, t), k)
    ensures CommittedOps(DoCommit(e, t), k) == CommittedOps(e, k) + On(By(e.log, t), k)
  {
    var c, w := CommittedOps(e, k), ActiveOps(e, k);
    SplitMembers(e, k);
    assert On(By(e.log, t), k) == Filter(OfTxn(t), c + w) by {
      FilterSwap(OnKey(k), OfTxn(t), e.log);
    }
    if w != [] && w[0].txn == t {
      KeepRight(OfTxn(t), c, w);
      assert c + w == (c + w) + [];
      SplitIsolates(DoCommit(e, t), k, c + w, []);
    } else {
      KeepNeither(OfTxn(t), c, w);
      assert c + [] == c;
      SplitIsolates(DoCommit(e, t), k, c, w);
    }
  }

  lemma AbortStep(e: Env, t: TxnId, k: Key)
    requires Isolated(e, k) && IsActive(e, t)
    ensures Isolated(DoAbort(e, t), k)
    ensures CommittedOps(DoAbort(e, t), k) == CommittedOps(e, k)
  {
    var e' := DoAbort(e, t);
    var c, w := CommittedOps(e, k), ActiveOps(e, k);
    SplitMembers(e, k);
    assert On(e'.log, k) == Filter(NotOf([t]), c + w) by {
      FilterSwap(OnKey(k), NotOf([t]), e.log);
    }
    if w != [] && w[0].txn == t {
      KeepLeft(NotOf([t]), c, w);
      assert c + [] == c;
      SplitIsolates(e', k, c, []);
    } else {
      KeepBoth(NotOf([t]), c, w);
      SplitIsolates(e', k, c, w);
    }
  }

  /** Exactly the unchecked erases of a duplicate that another open transaction
      is working on break the isolation of a key. */
  lemma UncheckedEraseExact(e: Env, t: TxnId, k: Key, ref: nat)
    requires Valid(e) && Isolated(e, k) && IsActive(e, t) && ref > 0
    ensures Isolated(DoWrite(e, t, k, Erase(ref)), k) <==> !ForeignWriter(e, t, k)
  {
    if ForeignWriter(e, t, k) {
      var e', o := DoWrite(e, t, k, Erase(ref)), Op(t, k, Erase(ref), e.lsn);
      ForeignWriterInActiveOps(e, t, k);
      var p :| p in ActiveOps(e, k) && p.txn != t;
      SplitMembers(e, k);
      FilterMembers(OnKey(k), e'.log);
      FilterMembers(Having(e'.status, Active), On(e'.log, k));
      assert o in e'.log && p in e'.log;
      assert o in ActiveOps(e', k) && p in ActiveOps(e', k);
    } else {
      WriteStep(e, t, k, Erase(ref), k);
    }
  }

  // ---- flushing ----

  /** What reaches the btree from key k, and what stays behind. */
  function FlushedOn(e: Env, k: Key): seq<Op> {
    On(FlushedOps(Flushable(e.order, e.status), e.log), k)
  }

  function StayingOn(e: Env, k: Key): seq<Op> {
    Filter(NotOf(Flushable(e.order, e.status)), CommittedOps(e, k))
  }

  function FoldApply(ops: seq<Op>, d: Dups): Dups {
    if ops == [] then d
    else Apply(ops[|ops|-1].act, FoldApply(ops[..|ops|-1], d))
  }

  lemma {:induction false} ApplyAllOn(ops: seq<Op>, bt: map<Key, Dups>, k: Key)
    ensures Get(ApplyAll(ops, bt), k) == FoldApply(On(ops, k), Get(bt, k))
  {
    if ops != [] {
      ApplyAllOn(ops[..|ops|-1], bt, k);
    }
  }

  predicate SafeAlong(ops: seq<Op>, d: Dups) {
    ops == [] || (
      var before := Fold(ops[..|ops|-1], d);
      && SafeAlong(ops[..|ops|-1], d)
      && InRange(ops[|ops|-1].act, before)
      && FlushSafe(ops[|ops|-1].act, before))
  }

  lemma {:induction false} SafeFold(ops: seq<Op>, d: Dups)
    requires SafeAlong(ops, d)
    ensures FoldApply(ops, d) == Fold(ops, d)
  {
    if ops != [] {
      SafeFold(ops[..|ops|-1], d);
      FlushAgrees(ops[|ops|-1].act, Fold(ops[..|ops|-1], d));
    }
  }

  /** The writers of k began in the order in which they wrote, and each
      operation means the same to the btree as to a reader. */
  predicate InBeginOrder(e: Env, k: Key) {
    && CommittedOps(e, k) == FlushedOn(e, k) + StayingOn(e, k)
    && SafeAlong(FlushedOn(e, k), Get(e.btree, k))
  }

  /** Either that, or k has no duplicates and the begin order puts an operation
      last that has the effect of the one that was logged last. */
  predicate FlushClean(e: Env, k: Key) {
    InBeginOrder(e, k) || (WithoutDuplicates(e, k) && SameLast(e, k))
  }

  lemma FlushStep(e: Env, k: Key)
    requires Isolated(e, k)
    ensures Isolated(DoFlush(e), k)
    ensures CommittedOps(DoFlush(e), k) == StayingOn(e, k)
    ensures Get(DoFlush(e).btree, k) == FoldApply(FlushedOn(e, k), Get(e.btree, k))
  {
    var ids, e' := Flushable(e.order, e.status), DoFlush(e);
    var c, w := CommittedOps(e, k), ActiveOps(e, k);
    ApplyAllOn(FlushedOps(ids, e.log), e.btree, k);
    SplitMembers(e, k);
    assert On(e'.log, k) == StayingOn(e, k) + w by {
      FilterSwap(OnKey(k), NotOf(ids), e.log);
      FilterAppend(NotOf(ids), c, w);
      FilterAll(NotOf(ids), w);
    }
    FilterMembers(NotOf(ids), c);
    SplitIsolates(e', k, StayingOn(e, k), w);
  }

  lemma FlushInvisible(e: Env, k: Key)
    requires Valid(e) && Isolated(e, k) && FlushClean(e, k)
    ensures View(DoFlush(e), k) == View(e, k)
  {
    if InBeginOrder(e, k) {
      FlushStep(e, k);
      SafeFold(FlushedOn(e, k), Get(e.btree, k));
      FoldAppend(FlushedOn(e, k), StayingOn(e, k), Get(e.btree, k));
    } else {
      FlushExactPlain(e, k);
    }
  }

  /** If all committed operations on a key come from one transaction then they
      are flushed together and in the order in which they were logged. */
  lemma SingleWriterFlushesInOrder(e: Env, k: Key)
    requires Valid(e) && Isolated(e, k)
    requires OneWriter(CommittedOps(e, k))
    ensures CommittedOps(e, k) == FlushedOn(e, k) + StayingOn(e, k)
    ensures FlushedOn(e, k) == [] || StayingOn(e, k) == []
  {
    var ids, c := Flushable(e.order, e.status), CommittedOps(e, k);
    FlushedByKey(e, ids, k);
    DropPrefix(e.order, ids);
    if c != [] && c[0].txn in ids {
      FilterNone(NotOf(ids), c);
      FilterAll(OfTxn(c[0].txn), c);
      Concentrated(ids, c, c[0].txn);
    } else {
      FilterAll(NotOf(ids), c);
      NoneFlushed(ids, c);
    }
  }

  ghost predicate Distinct(ids: seq<TxnId>) {
    forall i, j :: 0 <= i < j < |ids| ==> ids[i] != ids[j]
  }

  /** No two of the transactions have operations on the same key. */
  ghost predicate DisjointKeys(ids: seq<TxnId>, log: seq<Op>) {
    forall o, p :: o in log && p in log && o.txn in ids && p.txn in ids && o.key == p.key ==> o.txn == p.txn
  }

  /** Transactions that share no key can be flushed in any order. */
  lemma OrderFree(xs: seq<TxnId>, ys: seq<TxnId>, log: seq<Op>, bt: map<Key, Dups>)
    requires Distinct(xs) && Distinct(ys) && (forall t :: t in xs <==> t in ys)
    requires DisjointKeys(xs, log)
    ensures ApplyAll(FlushedOps(xs, log), bt) == ApplyAll(FlushedOps(ys, log), bt)
  {
    var a, b := ApplyAll(FlushedOps(xs, log), bt), ApplyAll(FlushedOps(ys, log), bt);
    forall k ensures Get(a, k) == Get(b, k) && (k in a <==> k in b) {
      OrderFreeOn(xs, ys, log, k);
      ApplyAllOn(FlushedOps(xs, log), bt, k);
      ApplyAllOn(FlushedOps(ys, log), bt, k);
      AppliedKeys(FlushedOps(xs, log), bt, k);
      AppliedKeys(FlushedOps(ys, log), bt, k);
    }
    SameMap(a, b);
  }

  lemma SameMap(a: map<Key, Dups>, b: map<Key, Dups>)
    requires forall k :: Get(a, k) == Get(b, k) && (k in a <==> k in b)
    ensures a == b
  {
    forall k ensures (k in a <==> k in b) && (k in a ==> a[k] == b[k]) {
      assert Get(a, k) == Get(b, k);
    }
  }

  lemma {:induction false} AppliedKeys(ops: seq<Op>, bt: map<Key, Dups>, k: Key)
    ensures k in ApplyAll(ops, bt) <==> k in bt || On(ops, k) != []
  {
    if ops != [] {
      AppliedKeys(ops[..|ops|-1], bt, k);
    }
  }

  lemma OrderFreeOn(xs: seq<TxnId>, ys: seq<TxnId>, log: seq<Op>, k: Key)
    requires Distinct(xs) && Distinct(ys) && (forall t :: t in xs <==> t in ys)
    requires DisjointKeys(xs, log)
    ensures On(FlushedOps(xs, log), k) == On(FlushedOps(ys, log), k)
  {
    var c := On(log, k);
    FilterMembers(OnKey(k), log);
    OnFlushed(xs, log, k);
    OnFlushed(ys, log, k);
    if o :| o in c && o.txn in xs {
      Concentrated(xs, c, o.txn);
      Concentrated(ys, c, o.txn);
    } else {
      NoneFlushed(xs, c);
      NoneFlushed(ys, c);
    }
  }

  lemma {:induction false} OnFlushed(ids: seq<TxnId>, log: seq<Op>, k: Key)
    ensures On(FlushedOps(ids, log), k) == FlushedOps(ids, On(log, k))
  {
    if ids != [] {
      var n := |ids| - 1;
      OnFlushed(ids[..n], log, k);
      FilterAppend(OnKey(k), FlushedOps(ids[..n], log), By(log, ids[n]));
      FilterSwap(OnKey(k), OfTxn(ids[n]), log);
    }
  }

  /** The flushed operations of a key are the flush of the key's committed
      operations. */
  lemma {:induction false} FlushedByKey(e: Env, ids: seq<TxnId>, k: Key)
    requires Isolated(e, k)
    requires forall t :: t in ids ==> !IsActive(e, t)
    ensures On(FlushedOps(ids, e.log), k) == FlushedOps(ids, CommittedOps(e, k))
  {
    if ids != [] {
      var n := |ids| - 1;
      var t := ids[n];
      assert t in ids && forall u :: u in ids[..n] ==> u in ids;
      FlushedByKey(e, ids[..n], k);
      FilterAppend(OnKey(k), FlushedOps(ids[..n], e.log), By(e.log, t));
      FilterSwap(OnKey(k), OfTxn(t), e.log);
      FilterAppend(OfTxn(t), CommittedOps(e, k), ActiveOps(e, k));
      SplitMembers(e, k);
      FilterNone(OfTxn(t), ActiveOps(e, k));
      assert By(On(e.log, k), t) == By(CommittedOps(e, k), t);
    }
  }

  lemma {:induction false} NoneFlushed(ids: seq<TxnId>, c: seq<Op>)
    requires forall o :: o in c ==> o.txn !in ids
    ensures FlushedOps(ids, c) == []
  {
    if ids != [] {
      NoneFlushed(ids[..|ids|-1], c);
      FilterNone(OfTxn(ids[|ids|-1]), c);
    }
  }

  /** Of operations of which only t's are flushed, exactly t's are. */
  lemma {:induction false} Concentrated(ids: seq<TxnId>, c: seq<Op>, t: TxnId)
    requires t in ids && Distinct(ids)
    requires forall o :: o in c && o.txn in ids ==> o.txn == t
    ensures FlushedOps(ids, c) == By(c, t)
  {
    var n := |ids| - 1;
    if ids[n] == t {
      NoneFlushed(ids[..n], c);
    } else {
      assert ids == ids[..n] + [ids[n]];
      Concentrated(ids[..n], c, t);
      FilterNone(OfTxn(ids[n]), c);
    }
  }

  /** Writers that began in the order in which they wrote flush in that order. */
  lemma BeginOrderFlushesInOrder(e: Env, k: Key)
    requires Valid(e) && Isolated(e, k)
    requires var c := CommittedOps(e, k); forall i, j :: 0 <= i < j < |c| ==> c[i].txn <= c[j].txn
    ensures CommittedOps(e, k) == FlushedOn(e, k) + StayingOn(e, k)
  {
    var ids, c := Flushable(e.order, e.status), CommittedOps(e, k);
    FlushedByKey(e, ids, k);
    DropPrefix(e.order, ids);
    assert forall o :: o in c ==> o.txn in e.order by { SplitMembers(e, k); }
    SortedFlush(ids, c);
  }

  lemma {:induction false} SortedFlush(ids: seq<TxnId>, c: seq<Op>)
    requires Ascending(ids)
    requires forall i, j :: 0 <= i < j < |c| ==> c[i].txn <= c[j].txn
    requires forall o :: o in c && o.txn !in ids ==> forall t :: t in ids ==> t < o.txn
    ensures c == FlushedOps(ids, c) + Filter(NotOf(ids), c)
  {
    if c == [] {
      NoneFlushed(ids, c);
    } else {
      var n, o := |c| - 1, c[|c|-1];
      var rest := c[..n];
      assert c == rest + [o];
      assert forall p :: p in rest ==> p in c;
      SortedFlush(ids, rest);
      forall p | p in rest ensures p.txn <= o.txn {
        var i :| 0 <= i < n && rest[i] == p;
        assert c[i].txn <= c[n].txn;
      }
      SortedFlushStep(ids, rest, o);
    }
  }

  lemma SortedFlushStep(ids: seq<TxnId>, rest: seq<Op>, o: Op)
    requires Ascending(ids)
    requires forall p :: p in rest ==> p.txn <= o.txn
    requires forall p :: p in rest && p.txn !in ids ==> forall t :: t in ids ==> t < p.txn
    requires rest == FlushedOps(ids, rest) + Filter(NotOf(ids), rest)
    ensures rest + [o] == FlushedOps(ids, rest + [o]) + Filter(NotOf(ids), rest + [o])
  {
    if o.txn in ids {
      forall p | p in rest ensures p.txn in ids {
        assert p.txn <= o.txn;
      }
      AllFlushedStep(ids, rest, o);
    } else {
      NotFlushedStep(ids, rest, o);
    }
  }

  lemma NotFlushedStep(ids: seq<TxnId>, rest: seq<Op>, o: Op)
    requires o.txn !in ids && rest == FlushedOps(ids, rest) + Filter(NotOf(ids), rest)
    ensures rest + [o] == FlushedOps(ids, rest + [o]) + Filter(NotOf(ids), rest + [o])
  {
    FlushedSkip(ids, rest, o);
    LastStays(ids, rest, o);
  }

  lemma AllFlushedStep(ids: seq<TxnId>, rest: seq<Op>, o: Op)
    requires Ascending(ids) && o.txn in ids && forall p :: p in rest ==> p.txn <= o.txn && p.txn in ids
    requires rest == FlushedOps(ids, rest) + Filter(NotOf(ids), rest)
    ensures rest + [o] == FlushedOps(ids, rest + [o]) + Filter(NotOf(ids), rest + [o])
  {
    FilterNone(NotOf(ids), rest);
    FilterNone(NotOf(ids), rest + [o]);
    FlushedSnoc(ids, rest, o);
  }

  lemma LastStays(ids: seq<TxnId>, rest: seq<Op>, o: Op)
    requires o.txn !in ids
    ensures Filter(NotOf(ids), rest + [o]) == Filter(NotOf(ids), rest) + [o]
  {
  }

  lemma {:induction false} FlushedSkip(ids: seq<TxnId>, c: seq<Op>, o: Op)
    requires o.txn !in ids
    ensures FlushedOps(ids, c + [o]) == FlushedOps(ids, c)
  {
    if ids != [] {
      FlushedSkip(ids[..|ids|-1], c, o);
      FilterAppend(OfTxn(ids[|ids|-1]), c, [o]);
      FilterNone(OfTxn(ids[|ids|-1]), [o]);
    }
  }

  /** Appending an operation of the newest writer appends it to the flush. */
  lemma {:induction false} FlushedSnoc(ids: seq<TxnId>, c: seq<Op>, o: Op)
    requires Ascending(ids)
    requires o.txn in ids
    requires forall p :: p in c ==> p.txn <= o.txn
    ensures FlushedOps(ids, c + [o]) == FlushedOps(ids, c) + [o]
  {
    var n := |ids| - 1;
    FilterAppend(OfTxn(ids[n]), c, [o]);
    if ids[n] == o.txn {
      FlushedSkip(ids[..n], c, o);
      FilterAll(OfTxn(ids[n]), [o]);
    } else {
      FlushedSnoc(ids[..n], c, o);
      FilterNone(OfTxn(ids[n]), [o]);
      FilterNone(OfTxn(ids[n]), c);
    }
  }

  // ---- databases without duplicates: the exact condition ----

  predicate PlainOp(a: Action) {
    a.Insert? || (a.Overwrite? && a.ref == 0) || (a.Erase? && a.ref == 0)
  }

  predicate Plain(ops: seq<Op>) { forall o :: o in ops ==> PlainOp(o.act) }

  /** The only record a whole-key operation can leave. */
  function Effect(a: Action): Dups {
    match a
    case Insert(r) => [r]
    case Overwrite(r, _) => [r]
    case InsertDup(r, _, _) => [r]
    case Erase(_) => []
  }

  lemma {:induction false} LastWriterWins(ops: seq<Op>, d: Dups)
    requires Plain(ops) && |d| <= 1
    ensures Fold(ops, d) == FoldApply(ops, d) == (if ops == [] then d else Effect(ops[|ops|-1].act))
    ensures |Fold(ops, d)| <= 1
  {
    if ops != [] {
      assert ops == ops[..|ops|-1] + [ops[|ops|-1]];
      LastWriterWins(ops[..|ops|-1], d);
    }
  }

  lemma TwoBatches(fl: seq<Op>, st: seq<Op>, d: Dups)
    requires Plain(fl) && Plain(st) && |d| <= 1
    ensures Fold(st, FoldApply(fl, d)) == if fl + st == [] then d else Effect((fl + st)[|fl + st|-1].act)
  {
    LastWriterWins(fl, d);
    LastWriterWins(st, FoldApply(fl, d));
    if st == [] {
      assert fl + st == fl;
    }
  }

  /** The operations on a key in the order the flush and the later readers
      apply them. */
  function FlushOrder(e: Env, k: Key): seq<Op> { FlushedOn(e, k) + StayingOn(e, k) }

  predicate WithoutDuplicates(e: Env, k: Key) {
    Plain(CommittedOps(e, k)) && |Get(e.btree, k)| <= 1
  }

  /** The operation that was logged last has the effect of the one that the begin
      order puts last. */
  predicate SameLast(e: Env, k: Key) {
    var c, f := CommittedOps(e, k), FlushOrder(e, k);
    |c| == |f| && (c == [] || Effect(c[|c|-1].act) == Effect(f[|f|-1].act))
  }

  /** Without duplicates, a flush is invisible on a key if and only if the
      operation that was logged last there has the effect of the one that the
      begin order puts last. */
  lemma FlushExactPlain(e: Env, k: Key)
    requires Valid(e) && Isolated(e, k) && WithoutDuplicates(e, k)
    ensures |CommittedOps(e, k)| == |FlushOrder(e, k)|
    ensures View(DoFlush(e), k) == View(e, k) <==> SameLast(e, k)
  {
    var c, fl, st := CommittedOps(e, k), FlushedOn(e, k), StayingOn(e, k);
    assert |c| == |fl| + |st| && Plain(fl) && Plain(st) by {
      FlushParts(e, k);
    }
    assert View(DoFlush(e), k) == Fold(st, FoldApply(fl, Get(e.btree, k))) by {
      FlushStep(e, k);
    }
    LastDecides(c, fl, st, Get(e.btree, k));
  }

  lemma LastDecides(c: seq<Op>, fl: seq<Op>, st: seq<Op>, d: Dups)
    requires Plain(c) && Plain(fl) && Plain(st) && |d| <= 1 && |c| == |fl| + |st|
    ensures var f := fl + st;
            Fold(st, FoldApply(fl, d)) == Fold(c, d) <==> c == [] || Effect(c[|c|-1].act) == Effect(f[|f|-1].act)
  {
    LastWriterWins(c, d);
    TwoBatches(fl, st, d);
  }

  lemma FlushParts(e: Env, k: Key)
    requires Valid(e) && Isolated(e, k) && Plain(CommittedOps(e, k))
    ensures |CommittedOps(e, k)| == |FlushedOn(e, k)| + |StayingOn(e, k)|
    ensures Plain(FlushedOn(e, k)) && Plain(StayingOn(e, k))
  {
    var ids, c := Flushable(e.order, e.status), CommittedOps(e, k);
    FlushedByKey(e, ids, k);
    assert Ascending(ids) by { DropPrefix(e.order, ids); }
    FlushPartition(ids, c);
    FilterMembers(NotOf(ids), c);
    FlushedMembers(ids, c);
  }

  lemma {:induction false} FlushedMembers(ids: seq<TxnId>, c: seq<Op>)
    ensures forall o :: o in FlushedOps(ids, c) ==> o in c
  {
    if ids != [] {
      FlushedMembers(ids[..|ids|-1], c);
      FilterMembers(OfTxn(ids[|ids|-1]), c);
    }
  }

  /** Flushing and staying together lose no operation. */
  lemma {:induction false} FlushPartition(ids: seq<TxnId>, c: seq<Op>)
    requires Ascending(ids)
    ensures |FlushedOps(ids, c)| + |Filter(NotOf(ids), c)| == |c|
  {
    if c == [] {
      NoneFlushed(ids, c);
    } else {
      var n, o := |c| - 1, c[|c|-1];
      assert c == c[..n] + [o];
      FlushPartition(ids, c[..n]);
      if o.txn in ids {
        FlushedGrows(ids, c[..n], o);
      } else {
        FlushedSkip(ids, c[..n], o);
      }
    }
  }

  lemma {:induction false} FlushedGrows(ids: seq<TxnId>, c: seq<Op>, o: Op)
    requires Ascending(ids)
    requires o.txn in ids
    ensures |FlushedOps(ids, c + [o])| == |FlushedOps(ids, c)| + 1
  {
    var n := |ids| - 1;
    FilterAppend(OfTxn(ids[n]), c, [o]);
    if ids[n] == o.txn {
      FlushedSkip(ids[..n], c, o);
      FilterAll(OfTxn(ids[n]), [o]);
    } else {
      FlushedGrows(ids[..n], c, o);
      FilterNone(OfTxn(ids[n]), [o]);
    }
  }

  lemma {:induction false} FlushedBy(ids: seq<TxnId>, log: seq<Op>, t: TxnId)
    requires Ascending(ids)
    ensures By(FlushedOps(ids, log), t) == if t in ids then By(log, t) else []
  {
    if ids != [] {
      var n := |ids| - 1;
      var first, last := FlushedOps(ids[..n], log), By(log, ids[n]);
      FlushedBy(ids[..n], log, t);
      FilterMembers(OfTxn(ids[n]), log);
      assert ids == ids[..n] + [ids[n]] && ids[n] !in ids[..n];
      FilterAppend(OfTxn(t), first, last);
      if t == ids[n] {
        FilterAll(OfTxn(t), last);
      } else {
        FilterNone(OfTxn(t), last);
      }
    }
  }

  lemma {:induction false} FlushedSorted(ids: seq<TxnId>, log: seq<Op>)
    requires Ascending(ids)
    ensures var ops := FlushedOps(ids, log); forall i, j :: 0 <= i < j < |ops| ==> ops[i].txn <= ops[j].txn
  {
    if ids != [] {
      var n := |ids| - 1;
      var first, last := FlushedOps(ids[..n], log), By(log, ids[n]);
      FlushedSorted(ids[..n], log);
      FilterMembers(OfTxn(ids[n]), log);
      forall i | 0 <= i < |first| ensures first[i].txn < ids[n] {
        FlushedFrom(ids[..n], log, first[i]);
      }
      forall j | 0 <= j < |last| ensures last[j].txn == ids[n] {
        assert last[j] in last;
      }
    }
  }

  /** The flush takes the transactions in list order, and of each all operations in
      the order in which they were made. */
  lemma FlushedInListOrder(ids: seq<TxnId>, log: seq<Op>)
    requires Ascending(ids)
    ensures var ops := FlushedOps(ids, log);
            && (forall t :: By(ops, t) == if t in ids then By(log, t) else [])
            && (forall i, j :: 0 <= i < j < |ops| ==> ops[i].txn <= ops[j].txn)
  {
    forall t ensures By(FlushedOps(ids, log), t) == if t in ids then By(log, t) else [] {
      FlushedBy(ids, log, t);
    }
    FlushedSorted(ids, log);
  }

  lemma {:induction false} FlushedFrom(ids: seq<TxnId>, log: seq<Op>, o: Op)
    requires o in FlushedOps(ids, log)
    ensures o.txn in ids
  {
    var n := |ids| - 1;
    FilterMembers(OfTxn(ids[n]), log);
    if o !in By(log, ids[n]) {
      FlushedFrom(ids[..n], log, o);
    }
  }

  // ---- whole runs ----

  /** The guards: cursor erases of a duplicate meet no other open writer, and
      flushes are clean on every key. */
  ghost predicate Clean(e: Env, s: Step) {
    match s
    case Write(t, k, Erase(ref)) => ref > 0 ==> !ForeignWriter(e, t, k)
    case Flush => forall k :: FlushClean(e, k)
    case _ => true
  }

  /** The operations a step commits. */
  function Commits(e: Env, s: Step): seq<Op> {
    if s.Commit? && IsActive(e, s.t) then By(e.log, s.t) else []
  }

  function Run(e: Env, steps: seq<Step>): Env {
    if steps == [] then e else Next(Run(e, steps[..|steps|-1]), steps[|steps|-1])
  }

  /** What a client has noted after a run, from the steps and the answers. */
  function Noted(e: Env, steps: seq<Step>): Notes {
    if steps == [] then Blank(e.lastId)
    else
      var n := |steps| - 1;
      Note(Noted(e, steps[..n]), steps[n], Answer(Run(e, steps[..n]), steps[n]))
  }

  ghost predicate CleanRun(e: Env, steps: seq<Step>) {
    forall i :: 0 <= i < |steps| ==> Clean(Run(e, steps[..i]), steps[i])
  }

  predicate Fresh(e: Env) { e.order == [] && e.status == map[] && e.log == [] }

  lemma StepView(e: Env, s: Step, k: Key)
    requires Valid(e) && (forall x :: Isolated(e, x)) && Clean(e, s)
    ensures Isolated(Next(e, s), k)
    ensures View(Next(e, s), k) == Fold(On(Commits(e, s), k), View(e, k))
  {
    match s
    case Begin => BeginStep(e, k);
    case Write(t, x, a) => WriteStep(e, t, x, a, k);
    case Commit(t) =>
      if IsActive(e, t) {
        CommitStep(e, t, k);
        FoldAppend(CommittedOps(e, k), On(By(e.log, t), k), Get(e.btree, k));
      }
    case Abort(t) =>
      if IsActive(e, t) { AbortStep(e, t, k); }
    case Flush =>
      FlushStep(e, k);
      FlushInvisible(e, k);
  }

  lemma {:induction false} RunIsolated(e: Env, steps: seq<Step>)
    requires Fresh(e) && CleanRun(e, steps)
    ensures Valid(Run(e, steps)) && forall k :: Isolated(Run(e, steps), k)
  {
    if steps != [] {
      var n := |steps| - 1;
      CleanPrefix(e, steps);
      RunIsolated(e, steps[..n]);
      var e1 := Run(e, steps[..n]);
      ValidNext(e1, steps[n]);
      forall k ensures Isolated(Next(e1, steps[n]), k) {
        StepView(e1, steps[n], k);
      }
    }
  }

  lemma CleanPrefix(e: Env, steps: seq<Step>)
    requires steps != [] && CleanRun(e, steps)
    ensures CleanRun(e, steps[..|steps|-1]) && Clean(Run(e, steps[..|steps|-1]), steps[|steps|-1])
  {
    var p := steps[..|steps|-1];
    forall i | 0 <= i < |p| ensures Clean(Run(e, p[..i]), p[i]) {
      assert p[..i] == steps[..i];
    }
  }

  /** After every run, clean or not, the log holds exactly the accepted writes of the
      transactions that are open or not yet flushed, in the order in which they were
      made; of an open transaction it holds all that was accepted from it. */
  lemma {:induction false} WritesKept(e: Env, steps: seq<Step>)
    requires Fresh(e)
    ensures Valid(Run(e, steps)) && Booked(Noted(e, steps), Run(e, steps))
    ensures var e', n := Run(e, steps), Noted(e, steps);
            && Plainly(e'.log) == Filter(Live(e'.status), n.all)
            && forall t :: IsActive(e', t) ==> t in n.open && Plainly(By(e'.log, t)) == n.open[t]
  {
    if steps != [] {
      var n := |steps| - 1;
      WritesKept(e, steps[..n]);
      ValidNext(Run(e, steps[..n]), steps[n]);
      BookedNext(Noted(e, steps[..n]), Run(e, steps[..n]), steps[n]);
    }
    forall t | IsActive(Run(e, steps), t)
      ensures t in Noted(e, steps).open && Plainly(By(Run(e, steps).log, t)) == Noted(e, steps).open[t]
    {
      OpenIsLogged(Noted(e, steps), Run(e, steps), t);
    }
  }

  /** The operations a step commits are the writes noted for the transaction. */
  lemma CommitsNoted(n: Notes, e: Env, s: Step, k: Key, d: Dups)
    requires Booked(n, e)
    ensures Fold(On(Commits(e, s), k), Serial(n.done, k, d)) == Serial(Note(n, s, Answer(e, s)).done, k, d)
  {
    if s.Commit? && IsActive(e, s.t) {
      OpenIsLogged(n, e, s.t);
      SerialIs(By(e.log, s.t), k, Serial(n.done, k, d));
      SerialAppend(n.done, n.open[s.t], k, d);
    }
  }

  /** After every clean run, with any interleaving of transactions and any
      flush policy, each key reads as if the accepted writes of the committed
      transactions had been made alone, transaction after transaction in commit
      order. */
  lemma {:induction false} Serializable(e: Env, steps: seq<Step>, k: Key)
    requires Fresh(e) && CleanRun(e, steps)
    ensures View(Run(e, steps), k) == Serial(Noted(e, steps).done, k, Get(e.btree, k))
  {
    if steps != [] {
      var n := |steps| - 1;
      var e1 := Run(e, steps[..n]);
      CleanPrefix(e, steps);
      Serializable(e, steps[..n], k);
      RunIsolated(e, steps[..n]);
      WritesKept(e, steps[..n]);
      StepView(e1, steps[n], k);
      CommitsNoted(Noted(e, steps[..n]), e1, steps[n], k, Get(e.btree, k));
    }
  }

  // ---- a run whose flush is visible ----

  const NOTHING := Env(map[], [], map[], [], 1, 0)

  const FIRST_WRITE := Op(2, 7, Overwrite(10, 0), 3)
  const SECOND_WRITE := Op(1, 7, Overwrite(20, 0), 5)

  const BOTH_COMMITTED := Env(map[], [1, 2], map[1 := Committed, 2 := Committed], [FIRST_WRITE, SECOND_WRITE], 7, 2)

  const OUT_OF_ORDER := [Begin, Begin, Write(2, 7, Overwrite(10, 0)), Commit(2), Write(1, 7, Overwrite(20, 0)),
    Commit(1)]

  lemma BothCommit()
    ensures Run(NOTHING, OUT_OF_ORDER) == BOTH_COMMITTED
  {
    var w := Write(1, 7, Overwrite(20, 0));
    var four := [Begin, Begin, Write(2, 7, Overwrite(10, 0)), Commit(2)];
    FirstCommits();
    RunOne(NOTHING, four, w);
    RunOne(NOTHING, four + [w], Commit(1));
    assert OUT_OF_ORDER == four + [w] + [Commit(1)];
    SecondCommits();
  }

  /** Transaction 1 begins first but overwrites key 7 last; the flush applies
      it first. Readers see record 20 before the flush and record 10 after. */
  lemma FlushReorders()
    ensures Fresh(NOTHING) && CleanRun(NOTHING, OUT_OF_ORDER)
    ensures View(Run(NOTHING, OUT_OF_ORDER), 7) == [20]
    ensures View(Run(NOTHING, OUT_OF_ORDER + [Flush]), 7) == [10]
  {
    assert CleanRun(NOTHING, OUT_OF_ORDER) by { Unguarded(NOTHING, OUT_OF_ORDER); }
    assert Run(NOTHING, OUT_OF_ORDER) == BOTH_COMMITTED by { BothCommit(); }
    ThenFlush(OUT_OF_ORDER);
  }

  lemma ThenFlush(steps: seq<Step>)
    requires Run(NOTHING, steps) == BOTH_COMMITTED
    ensures View(Run(NOTHING, steps), 7) == [20] && View(Run(NOTHING, steps + [Flush]), 7) == [10]
  {
    RunOne(NOTHING, steps, Flush);
    ViewBeforeFlush();
    ViewAfterFlush();
  }

  lemma Unguarded(e: Env, steps: seq<Step>)
    requires forall s :: s in steps ==> !s.Flush? && !(s.Write? && s.a.Erase?)
    ensures CleanRun(e, steps)
  {
  }

  const AFTER_FIRST := Env(map[], [1, 2], map[1 := Active, 2 := Committed], [FIRST_WRITE], 5, 2)

  lemma FirstCommits()
    ensures Run(NOTHING, [Begin, Begin, Write(2, 7, Overwrite(10, 0)), Commit(2)]) == AFTER_FIRST
  {
    var w := Write(2, 7, Overwrite(10, 0));
    RunOne(NOTHING, [], Begin);
    assert [] + [Begin] == [Begin];
    RunOne(NOTHING, [Begin], Begin);
    assert [Begin] + [Begin] == [Begin, Begin];
    RunOne(NOTHING, [Begin, Begin], w);
    assert [Begin, Begin] + [w] == [Begin, Begin, w];
    RunOne(NOTHING, [Begin, Begin, w], Commit(2));
    assert [Begin, Begin, w] + [Commit(2)] == [Begin, Begin, w, Commit(2)];
    assert Next(NOTHING, Begin) == Env(map[], [1], map[1 := Active], [], 2, 1);
    assert Next(Next(NOTHING, Begin), Begin) == Env(map[], [1, 2], map[1 := Active, 2 := Active], [], 3, 2);
  }

  lemma SecondCommits()
    ensures Next(Next(AFTER_FIRST, Write(1, 7, Overwrite(20, 0))), Commit(1)) == BOTH_COMMITTED
  {
  }

  lemma ViewBeforeFlush()
    ensures View(BOTH_COMMITTED, 7) == [20]
  {
  }

  lemma ViewAfterFlush()
    ensures View(DoFlush(BOTH_COMMITTED), 7) == [10]
  {
    ReorderedFlush(BOTH_COMMITTED, 1, 2, FIRST_WRITE, SECOND_WRITE);
  }

  /** Two committed transactions that overwrote the same key against their
      begin order: the first overwrite is the one that survives. */
  lemma ReorderedFlush(e: Env, s: TxnId, t: TxnId, o1: Op, o2: Op)
    requires s != t && o1.txn == t && o2.txn == s && o1.key == o2.key
    requires o1.act.Overwrite? && o2.act.Overwrite? && o1.act.ref == o2.act.ref == 0
    requires e.order == [s, t] && e.log == [o1] + [o2] && Get(e.btree, o1.key) == []
    requires e.status == map[s := Committed, t := Committed]
    ensures View(DoFlush(e), o1.key) == [o1.act.rec]
  {
    var ids := [s, t];
    assert Flushable(e.order, e.status) == ids by {
      assert [s, t][1..] == [t] && [t][1..] == [];
      assert Flushable([t], e.status) == [t];
    }
    FlushedInBeginOrder(s, t, o1, o2);
    ReorderedStore(e.btree, o1, o2);
    FilterNone(NotOf(ids), e.log);
  }

  lemma ReorderedStore(bt: map<Key, Dups>, o1: Op, o2: Op)
    requires o1.key == o2.key && Get(bt, o1.key) == []
    requires o1.act.Overwrite? && o2.act.Overwrite? && o1.act.ref == o2.act.ref == 0
    ensures Get(ApplyAll([o2, o1], bt), o1.key) == [o1.act.rec]
  {
    ApplyAllOn([o2, o1], bt, o1.key);
    assert [o2] + [o1] == [o2, o1];
    KeepBoth(OnKey(o1.key), [o2], [o1]);
    LastWriterWins([o2, o1], []);
  }

  lemma FlushedInBeginOrder(s: TxnId, t: TxnId, o1: Op, o2: Op)
    requires s != t && o1.txn == t && o2.txn == s
    ensures FlushedOps([s, t], [o1] + [o2]) == [o2, o1]
  {
    var log := [o1] + [o2];
    KeepRight(OfTxn(s), [o1], [o2]);
    KeepLeft(OfTxn(t), [o1], [o2]);
    assert [s, t][..1] == [s];
    assert FlushedOps([s], log) == FlushedOps([], log) + By(log, s) by { assert [s][..0] == []; }
  }

  lemma RunOne(e: Env, steps: seq<Step>, s: Step)
    ensures Run(e, steps + [s]) == Next(Run(e, steps), s)
  {
  }
}
