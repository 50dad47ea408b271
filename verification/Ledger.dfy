/** What a client of the engine can note down from the steps and the answers it
    gets: the transactions that are open, the writes of each that were accepted,
    all accepted writes in the order in which they were made, and those of the
    committed transactions in commit order. The notes know nothing of operation
    lists, flushes and btrees. At every point of every run the engine's log holds
    exactly what the notes say of the transactions that it has not flushed. */
module Ledger {
  import opened Actions
  import opened Seqs
  import opened Transactions

  /** A write that was accepted. */
  datatype Written = Written(txn: TxnId, key: Key, act: Action)

  datatype Notes = Notes(last: TxnId, open: map<TxnId, seq<Written>>, all: seq<Written>, done: seq<Written>)

  /** The answer to a step; only writes can be refused. */
  function Answer(e: Env, s: Step): Outcome { if s.Write? then Check(e, s.t, s.k, s.a) else Done }

  /** The notes after one more step and its answer. */
  function Note(n: Notes, s: Step, o: Outcome): Notes {
    match s
    case Begin => n.(last := n.last + 1, open := n.open[n.last + 1 := []])
    case Write(t, k, a) =>
      if t !in n.open || o != Done then n
      else n.(open := n.open[t := n.open[t] + [Written(t, k, a)]], all := n.all + [Written(t, k, a)])
    case Commit(t) => if t !in n.open then n else n.(open := n.open - {t}, done := n.done + n.open[t])
    case Abort(t) => n.(open := n.open - {t})
    case Flush => n
  }

  function Blank(last: TxnId): Notes { Notes(last, map[], [], []) }

  // ---- reading the notes ----

  function Of(t: TxnId): Written -> bool { (w: Written) => w.txn == t }

  function To(k: Key): Written -> bool { (w: Written) => w.key == k }

  function ActsOf(ws: seq<Written>): (r: seq<Action>)
    ensures |r| == |ws| && forall i :: 0 <= i < |ws| ==> r[i] == ws[i].act
  {
    seq(|ws|, i requires 0 <= i < |ws| => ws[i].act)
  }

  /** The records of a key after these writes, one after the other. */
  function Serial(ws: seq<Written>, k: Key, d: Dups): Dups { ConsolidateAll(ActsOf(Filter(To(k), ws)), d) }

  lemma {:induction false} ConsolidateAppend(a: seq<Action>, b: seq<Action>, d: Dups)
    ensures ConsolidateAll(a + b, d) == ConsolidateAll(b, ConsolidateAll(a, d))
  {
    if b == [] {
      assert a + b == a;
    } else {
      ConsolidateAppend(a, b[..|b|-1], d);
      assert (a + b)[..|a+b|-1] == a + b[..|b|-1];
    }
  }

  lemma SerialAppend(a: seq<Written>, b: seq<Written>, k: Key, d: Dups)
    ensures Serial(a + b, k, d) == Serial(b, k, Serial(a, k, d))
  {
    var x, y := Filter(To(k), a), Filter(To(k), b);
    FilterAppend(To(k), a, b);
    assert ActsOf(x + y) == ActsOf(x) + ActsOf(y);
    ConsolidateAppend(ActsOf(x), ActsOf(y), d);
  }

  // ---- the log and the notes ----

  function Plainly(ops: seq<Op>): (r: seq<Written>)
    ensures |r| == |ops| && forall i :: 0 <= i < |ops| ==> r[i] == Written(ops[i].txn, ops[i].key, ops[i].act)
  {
    seq(|ops|, i requires 0 <= i < |ops| => Written(ops[i].txn, ops[i].key, ops[i].act))
  }

  /** A choice of operations that does not depend on their age is one of writes. */
  lemma {:induction false} PlainlyFilter(p: Op -> bool, q: Written -> bool, ops: seq<Op>)
    requires forall o :: p(o) == q(Written(o.txn, o.key, o.act))
    ensures Plainly(Filter(p, ops)) == Filter(q, Plainly(ops))
  {
    if ops != [] {
      var n := |ops| - 1;
      PlainlyFilter(p, q, ops[..n]);
      assert Plainly(ops)[..n] == Plainly(ops[..n]);
      assert p(ops[n]) == q(Plainly(ops)[n]);
    }
  }

  lemma {:induction false} FoldIsSerial(ops: seq<Op>, d: Dups)
    ensures Fold(ops, d) == ConsolidateAll(ActsOf(Plainly(ops)), d)
  {
    if ops != [] {
      var n := |ops| - 1;
      FoldIsSerial(ops[..n], d);
      assert ActsOf(Plainly(ops))[..n] == ActsOf(Plainly(ops[..n]));
    }
  }

  lemma SerialIs(ops: seq<Op>, k: Key, d: Dups)
    ensures Fold(On(ops, k), d) == Serial(Plainly(ops), k, d)
  {
    PlainlyFilter(OnKey(k), To(k), ops);
    FoldIsSerial(On(ops, k), d);
  }

  /** The writes of transactions that are open, or committed and not flushed. */
  function Live(status: map<TxnId, Status>): Written -> bool {
    (w: Written) => w.txn in status && status[w.txn] != Aborted
  }

  function Without(ids: seq<TxnId>): Written -> bool { (w: Written) => w.txn !in ids }

  /** The same transactions are open, and the log holds exactly the accepted writes
      of those that are open or not yet flushed, in the order in which they were
      made. */
  ghost predicate Booked(n: Notes, e: Env) {
    && n.last == e.lastId
    && (forall t :: t in n.open <==> IsActive(e, t))
    && (forall w :: w in n.all ==> w.txn <= n.last)
    && Plainly(e.log) == Filter(Live(e.status), n.all)
    && (forall t :: t in n.open ==> n.open[t] == Filter(Of(t), n.all))
  }

  /** Filtering twice. */
  lemma {:induction false} FilterTwice(p: Written -> bool, q: Written -> bool, r: Written -> bool, ws: seq<Written>)
    requires forall w :: r(w) == (p(w) && q(w))
    ensures Filter(p, Filter(q, ws)) == Filter(r, ws)
  {
    if ws != [] {
      FilterTwice(p, q, r, ws[..|ws|-1]);
    }
  }

  lemma BookedBegin(n: Notes, e: Env)
    requires Booked(n, e) && Valid(e)
    ensures Booked(Note(n, Begin, Done), DoBegin(e))
  {
    FilterCongruent(Live(e.status), Live(DoBegin(e).status), n.all);
    FilterNone(Of(n.last + 1), n.all);
  }

  lemma OfAppend(u: TxnId, ws: seq<Written>, w: Written)
    ensures Filter(Of(u), ws + [w]) == Filter(Of(u), ws) + if u == w.txn then [w] else []
  {
    FilterAppend(Of(u), ws, [w]);
    if u == w.txn {
      FilterAll(Of(u), [w]);
    } else {
      FilterNone(Of(u), [w]);
    }
  }

  /** An open transaction logs one more write. */
  lemma LogGrows(n: Notes, e: Env, w: Written, lsn: nat)
    requires Booked(n, e) && IsActive(e, w.txn)
    ensures Plainly(e.log + [Op(w.txn, w.key, w.act, lsn)]) == Filter(Live(e.status), n.all + [w])
  {
    FilterAppend(Live(e.status), n.all, [w]);
    FilterAll(Live(e.status), [w]);
  }

  lemma BookedWrite(n: Notes, e: Env, t: TxnId, k: Key, a: Action)
    requires Booked(n, e) && Valid(e)
    ensures Booked(Note(n, Write(t, k, a), Check(e, t, k, a)), DoWrite(e, t, k, a))
  {
    var w := Written(t, k, a);
    if IsActive(e, t) && Check(e, t, k, a) == Done {
      LogGrows(n, e, w, e.lsn);
      var n' := Note(n, Write(t, k, a), Done);
      assert t in e.order;
      forall u | u in n'.open ensures n'.open[u] == Filter(Of(u), n'.all) {
        OfAppend(u, n.all, w);
      }
    }
  }

  lemma BookedCommit(n: Notes, e: Env, t: TxnId)
    requires Booked(n, e)
    ensures Booked(Note(n, Commit(t), Done), DoCommit(e, t))
  {
    FilterCongruent(Live(e.status), Live(DoCommit(e, t).status), n.all);
  }

  lemma BookedAbort(n: Notes, e: Env, t: TxnId)
    requires Booked(n, e)
    ensures Booked(Note(n, Abort(t), Done), DoAbort(e, t))
  {
    if IsActive(e, t) {
      PlainlyFilter(NotOf([t]), Without([t]), e.log);
      FilterTwice(Without([t]), Live(e.status), Live(DoAbort(e, t).status), n.all);
    }
  }

  lemma BookedFlush(n: Notes, e: Env)
    requires Booked(n, e)
    ensures Booked(n, DoFlush(e))
  {
    var ids := Flushable(e.order, e.status);
    PlainlyFilter(NotOf(ids), Without(ids), e.log);
    FilterTwice(Without(ids), Live(e.status), Live(DoFlush(e).status), n.all);
  }

  /** Every step and its note keep log and notes together. */
  lemma BookedNext(n: Notes, e: Env, s: Step)
    requires Booked(n, e) && Valid(e)
    ensures Booked(Note(n, s, Answer(e, s)), Next(e, s))
  {
    match s
    case Begin => BookedBegin(n, e);
    case Write(t, k, a) => BookedWrite(n, e, t, k, a);
    case Commit(t) => BookedCommit(n, e, t);
    case Abort(t) => BookedAbort(n, e, t);
    case Flush => BookedFlush(n, e);
  }

  /** What the log holds of an open transaction is what was accepted from it. */
  lemma OpenIsLogged(n: Notes, e: Env, t: TxnId)
    requires Booked(n, e) && t in n.open
    ensures Plainly(By(e.log, t)) == n.open[t]
  {
    PlainlyFilter(OfTxn(t), Of(t), e.log);
    FilterTwice(Of(t), Live(e.status), Of(t), n.all);
  }
}
