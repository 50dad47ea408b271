/** The two-file journal and crash recovery (3journal/journal.cc), driven by the
    transaction manager: a commit logs the whole transaction, a flush logs the
    modified pages as a changeset, recovery redoes the changesets and replays
    the operations that are younger than the youngest changeset. */
module Journal {
  import opened Actions
  import opened Seqs
  import opened Transactions

  datatype Entry =
    | TxnBegin(txn: TxnId)
    | Logged(op: Op)
    | TxnCommit(txn: TxnId)
    | Changeset(lsn: nat, images: map<Key, Dups>)

  /** A key stands for the part of a page that holds it: the images of a
      changeset cover every key on a modified page. */
  datatype Files = Files(files: seq<seq<Entry>>, cur: nat, count: nat, threshold: nat)

  ghost predicate ValidFiles(j: Files) { |j.files| == 2 && j.cur < 2 }

  function Older(j: Files): seq<Entry>
    requires ValidFiles(j)
  {
    j.files[1 - j.cur]
  }

  function Newer(j: Files): seq<Entry>
    requires ValidFiles(j)
  {
    j.files[j.cur]
  }

  // ---- writing ----

  /** switch_files_maybe: the other file is emptied without looking at it. */
  function Switch(j: Files): (r: Files)
    requires ValidFiles(j)
    ensures ValidFiles(r)
  {
    if j.count > j.threshold
    then j.(files := j.files[1 - j.cur := []], cur := 1 - j.cur, count := 0)
    else j
  }

  function Append(j: Files, es: seq<Entry>): (r: Files)
    requires ValidFiles(j)
    ensures ValidFiles(r)
  {
    j.(files := j.files[j.cur := j.files[j.cur] + es])
  }

  function LogOps(ops: seq<Op>): seq<Entry> {
    if ops == [] then [] else LogOps(ops[..|ops|-1]) + [Logged(ops[|ops|-1])]
  }

  function Block(t: TxnId, ops: seq<Op>): seq<Entry> {
    [TxnBegin(t)] + LogOps(ops) + [TxnCommit(t)]
  }

  /** flush_transaction_to_journal. */
  function AppendTxn(j: Files, t: TxnId, ops: seq<Op>): (r: Files)
    requires ValidFiles(j)
    ensures ValidFiles(r)
  {
    var s := Switch(j);
    Append(s, Block(t, ops)).(count := s.count + 1)
  }

  // ---- reading ----

  /** scan_for_oldest_changeset: the lsn of the first changeset, or 0. */
  function FirstChangeset(f: seq<Entry>): nat {
    if f == [] then 0
    else if f[0].Changeset? then f[0].lsn
    else FirstChangeset(f[1..])
  }

  /** The lsn redo_all_changesets returns, or 0. */
  function LastChangeset(f: seq<Entry>): nat {
    if f == [] then 0
    else if f[|f|-1].Changeset? then f[|f|-1].lsn
    else LastChangeset(f[..|f|-1])
  }

  function Redo(f: seq<Entry>, disk: map<Key, Dups>): map<Key, Dups> {
    if f == [] then disk
    else
      var d := Redo(f[..|f|-1], disk);
      if f[|f|-1].Changeset? then d + f[|f|-1].images else d
  }

  function OpsIn(f: seq<Entry>): seq<Op> {
    if f == [] then []
    else if f[|f|-1].Logged? then OpsIn(f[..|f|-1]) + [f[|f|-1].op]
    else OpsIn(f[..|f|-1])
  }

  /** recover_changeset: the file whose first changeset is older becomes the
      current one. A freshly opened journal starts with file 0. */
  function RecoveryCurrent(j: Files): (c: nat)
    requires ValidFiles(j)
    ensures c < 2
  {
    var l0, l1 := FirstChangeset(j.files[0]), FirstChangeset(j.files[1]);
    if l0 == 0 && l1 == 0 then 0 else if l0 < l1 then 0 else 1
  }

  function Max(a: nat, b: nat): nat { if a >= b then a else b }

  function StartLsn(j: Files): nat
    requires ValidFiles(j)
  {
    Max(LastChangeset(j.files[0]), LastChangeset(j.files[1]))
  }

  /** read_entry: the oldest file is taken to be the one that is not current. */
  function ReadOrder(j: Files): seq<Entry>
    requires ValidFiles(j)
  {
    j.files[1 - RecoveryCurrent(j)] + j.files[RecoveryCurrent(j)]
  }

  function Younger(start: nat): Op -> bool { (o: Op) => o.lsn > start }

  /** What recover_journal has read: the operations of transactions whose commit
      entry was there, in commit order, and those of transactions that are still
      open. The latter are aborted at the end. */
  datatype Progress = Progress(done: seq<Op>, open: seq<Op>)

  function Scan(f: seq<Entry>): Progress {
    if f == [] then Progress([], [])
    else
      var p := Scan(f[..|f|-1]);
      match f[|f|-1]
      case Logged(op) => p.(open := p.open + [op])
      case TxnCommit(t) => Progress(p.done + By(p.open, t), Filter(NotOf([t]), p.open))
      case _ => p
  }

  /** The operations recover_journal re-executes for good, in order. */
  function Replayed(j: Files): seq<Op>
    requires ValidFiles(j)
  {
    Filter(Younger(StartLsn(j)), Scan(ReadOrder(j)).done)
  }

  /** The pages after recover_changeset. */
  function Restored(j: Files, disk: map<Key, Dups>): map<Key, Dups>
    requires ValidFiles(j)
  {
    var c := RecoveryCurrent(j);
    Redo(j.files[1 - c], Redo(j.files[c], disk))
  }

  /** One replayed operation, up to the flush that ends the recovery: an insert
      of an existing key is skipped, and references to a duplicate are not logged.
      An insert before or after another duplicate then refers to a duplicate below
      the first. The source reads outside of its list there and anything may
      happen; here the operation is dropped, and ReplaySafe excludes it. */
  function ReplayOne(a: Action, d: Dups): Dups {
    match a
    case Insert(r) => if d == [] then [r] else d
    case Overwrite(r, _) => Apply(Overwrite(r, 0), d)
    case InsertDup(r, at, _) => Apply(InsertDup(r, at, 0), d)
    case Erase(_) => []
  }

  predicate ReplaySafe(a: Action, d: Dups) {
    match a
    case Insert(r) => d == [] || d == [r]
    case Overwrite(_, _) => FlushSafe(a, d)
    case InsertDup(_, at, _) => at.First? || at.Last?
    case Erase(ref) => ref == 0 || |d| == 1
  }

  /** Recovery repeats an operation faithfully exactly when it is ReplaySafe. */
  lemma ReplayAgrees(a: Action, d: Dups)
    requires InRange(a, d)
    ensures ReplayOne(a, d) == Consolidate(a, d) <==> ReplaySafe(a, d)
  {
  }

  /** What recovery makes of every operation, faithful or not: an insert of a key
      that exists is skipped, an overwrite replaces the first record, a duplicate
      goes to an end or is dropped, and every erase removes the key. */
  lemma ReplayOneExact(a: Action, d: Dups)
    ensures var c := ReplayOne(a, d);
            match a
            case Insert(r) => c == if d == [] then [r] else d
            case Overwrite(r, _) => c == [r] + if d == [] then [] else d[1..]
            case InsertDup(r, at, _) =>
              (at == First ==> c == InsertAt(d, 0, r)) && (at == Last ==> c == InsertAt(d, |d|, r)) &&
              (at == Before || at == After ==> c == d)
            case Erase(_) => c == []
  {
    ApplyExact(if a.Overwrite? then Overwrite(a.rec, 0) else a, d);
  }

  function ReplayAll(ops: seq<Op>, d: Dups): Dups {
    if ops == [] then d
    else ReplayOne(ops[|ops|-1].act, ReplayAll(ops[..|ops|-1], d))
  }

  predicate ReplaySafeAlong(ops: seq<Op>, d: Dups) {
    ops == [] || (
      var before := Fold(ops[..|ops|-1], d);
      && ReplaySafeAlong(ops[..|ops|-1], d)
      && InRange(ops[|ops|-1].act, before)
      && ReplaySafe(ops[|ops|-1].act, before))
  }

  lemma {:induction false} ReplayIsFold(ops: seq<Op>, d: Dups)
    requires ReplaySafeAlong(ops, d)
    ensures ReplayAll(ops, d) == Fold(ops, d)
  {
    if ops != [] {
      ReplayIsFold(ops[..|ops|-1], d);
      ReplayAgrees(ops[|ops|-1].act, Fold(ops[..|ops|-1], d));
    }
  }

  /** The records of key k after a complete recovery. */
  function Recovered(j: Files, disk: map<Key, Dups>, k: Key): Dups
    requires ValidFiles(j)
  {
    ReplayAll(On(Replayed(j), k), Get(Restored(j, disk), k))
  }

  // ---- small facts ----

  lemma {:induction false} OpsInAppend(a: seq<Entry>, b: seq<Entry>)
    ensures OpsIn(a + b) == OpsIn(a) + OpsIn(b)
  {
    if b == [] {
      assert a + b == a;
    } else {
      OpsInAppend(a, b[..|b|-1]);
      assert (a + b)[..|a+b|-1] == a + b[..|b|-1];
    }
  }

  lemma {:induction false} OpsInLog(ops: seq<Op>)
    ensures OpsIn(LogOps(ops)) == ops
    ensures forall e :: e in LogOps(ops) ==> e.Logged?
  {
    if ops != [] {
      OpsInLog(ops[..|ops|-1]);
    }
  }

  lemma OpsInBlock(t: TxnId, ops: seq<Op>)
    ensures OpsIn(Block(t, ops)) == ops
    ensures forall e :: e in Block(t, ops) ==> !e.Changeset?
  {
    OpsInLog(ops);
    OpsInAppend([TxnBegin(t)], LogOps(ops));
    OpsInAppend([TxnBegin(t)] + LogOps(ops), [TxnCommit(t)]);
    assert OpsIn([TxnBegin(t)]) == [] && OpsIn([TxnCommit(t)]) == [];
  }

  lemma {:induction false} OpsInMembers(f: seq<Entry>)
    ensures forall o :: o in OpsIn(f) <==> Logged(o) in f
  {
    if f != [] {
      OpsInMembers(f[..|f|-1]);
      assert f == f[..|f|-1] + [f[|f|-1]];
    }
  }

  lemma {:induction false} RedoAppend(a: seq<Entry>, b: seq<Entry>, d: map<Key, Dups>)
    ensures Redo(a + b, d) == Redo(b, Redo(a, d))
  {
    if b == [] {
      assert a + b == a;
    } else {
      RedoAppend(a, b[..|b|-1], d);
      assert (a + b)[..|a+b|-1] == a + b[..|b|-1];
    }
  }

  predicate HasChangeset(f: seq<Entry>) { exists e :: e in f && e.Changeset? }

  lemma {:induction false} NoChangeset(f: seq<Entry>, d: map<Key, Dups>)
    requires !HasChangeset(f)
    ensures FirstChangeset(f) == 0 && LastChangeset(f) == 0 && Redo(f, d) == d
  {
    if f != [] {
      assert f[0] in f && f[|f|-1] in f;
      assert forall e :: e in f[1..] ==> e in f;
      assert forall e :: e in f[..|f|-1] ==> e in f;
      NoChangesetFirst(f);
      NoChangeset(f[..|f|-1], d);
    }
  }

  lemma {:induction false} NoChangesetFirst(f: seq<Entry>)
    requires !HasChangeset(f)
    ensures FirstChangeset(f) == 0
  {
    if f != [] {
      assert f[0] in f && forall e :: e in f[1..] ==> e in f;
      NoChangesetFirst(f[1..]);
    }
  }

  /** Changesets carry positive, ascending lsns. */
  ghost predicate Rising(f: seq<Entry>) {
    && (forall e :: e in f && e.Changeset? ==> e.lsn > 0)
    && forall i, j :: 0 <= i < j < |f| && f[i].Changeset? && f[j].Changeset? ==> f[i].lsn < f[j].lsn
  }

  lemma {:induction false} FirstIsPositive(f: seq<Entry>)
    requires HasChangeset(f)
    requires forall e :: e in f && e.Changeset? ==> e.lsn > 0
    ensures FirstChangeset(f) > 0
    ensures exists e :: e in f && e.Changeset? && e.lsn == FirstChangeset(f)
  {
    if f[0].Changeset? {
      assert f[0] in f;
    } else {
      var e :| e in f && e.Changeset?;
      var t := f[1..];
      assert f == [f[0]] + t;
      assert e in t;
      FirstIsPositive(t);
      var x :| x in t && x.Changeset? && x.lsn == FirstChangeset(t);
      assert x in f;
    }
  }

  lemma {:induction false} LastIsGreatest(f: seq<Entry>)
    requires Rising(f) && HasChangeset(f)
    ensures LastChangeset(f) > 0
    ensures exists e :: e in f && e.Changeset? && e.lsn == LastChangeset(f)
    ensures forall e :: e in f && e.Changeset? ==> e.lsn <= LastChangeset(f)
  {
    var n := |f| - 1;
    var g := f[..n];
    assert f == g + [f[n]];
    if f[n].Changeset? {
      assert f[n] in f;
      forall e | e in f && e.Changeset? ensures e.lsn <= f[n].lsn {
        var i :| 0 <= i < |f| && f[i] == e;
      }
    } else {
      assert HasChangeset(g) by {
        var e :| e in f && e.Changeset?;
        assert e in g;
      }
      assert Rising(g) by {
        assert forall i :: 0 <= i < n ==> g[i] == f[i];
        assert forall e :: e in g ==> e in f;
      }
      LastIsGreatest(g);
    }
  }

  // ---- files of whole transactions ----

  /** Every transaction of a file is committed in it. */
  ghost predicate Whole(f: seq<Entry>) { Scan(f) == Progress(OpsIn(f), []) }

  /** Open transactions that are not committed later stay open. */
  lemma {:induction false} ScanAppend(a: seq<Entry>, b: seq<Entry>)
    requires forall o :: o in Scan(a).open ==> TxnCommit(o.txn) !in b
    ensures Scan(a + b) == Progress(Scan(a).done + Scan(b).done, Scan(a).open + Scan(b).open)
  {
    if b == [] {
      assert a + b == a;
    } else {
      var n := |b| - 1;
      var p, q := Scan(a), Scan(b[..n]);
      assert b[n] in b && forall x :: x in b[..n] ==> x in b;
      ScanAppend(a, b[..n]);
      assert (a + b)[..|a + b| - 1] == a + b[..n] && (a + b)[|a + b| - 1] == b[n];
      if b[n].TxnCommit? {
        CommitsOthers(p.open, q.open, b[n].txn);
      }
    }
  }

  /** A commit of a transaction that has no operations among the first. */
  lemma CommitsOthers(a: seq<Op>, b: seq<Op>, t: TxnId)
    requires forall o :: o in a ==> o.txn != t
    ensures By(a + b, t) == By(b, t) && Filter(NotOf([t]), a + b) == a + Filter(NotOf([t]), b)
  {
    FilterAppend(OfTxn(t), a, b);
    FilterAppend(NotOf([t]), a, b);
    FilterNone(OfTxn(t), a);
    FilterAll(NotOf([t]), a);
  }

  lemma WholeAppend(a: seq<Entry>, b: seq<Entry>)
    requires Whole(a) && Whole(b)
    ensures Whole(a + b)
  {
    ScanAppend(a, b);
    OpsInAppend(a, b);
  }

  lemma {:induction false} ScanLog(t: TxnId, ops: seq<Op>)
    ensures Scan([TxnBegin(t)] + LogOps(ops)) == Progress([], ops)
  {
    var f := [TxnBegin(t)] + LogOps(ops);
    if ops == [] {
      assert f == [TxnBegin(t)] && f[..0] == [];
    } else {
      ScanLog(t, ops[..|ops|-1]);
      assert f[..|f|-1] == [TxnBegin(t)] + LogOps(ops[..|ops|-1]);
    }
  }

  lemma WholeBlock(t: TxnId, ops: seq<Op>)
    requires forall o :: o in ops ==> o.txn == t
    ensures Whole(Block(t, ops))
  {
    var b := Block(t, ops);
    ScanLog(t, ops);
    OpsInBlock(t, ops);
    assert b[..|b|-1] == [TxnBegin(t)] + LogOps(ops);
    FilterAll(OfTxn(t), ops);
    FilterNone(NotOf([t]), ops);
  }

  lemma WholeChangeset(f: seq<Entry>, cs: Entry)
    requires Whole(f) && cs.Changeset?
    ensures Whole(f + [cs])
  {
    assert (f + [cs])[..|f|] == f;
  }

  lemma {:induction false} LogOpsPrefix(ops: seq<Op>, n: nat)
    requires n <= |ops|
    ensures |LogOps(ops)| == |ops| && LogOps(ops)[..n] == LogOps(ops[..n])
  {
    if ops != [] {
      var m := |ops| - 1;
      LogOpsPrefix(ops[..m], if n <= m then n else m);
      if n <= m {
        assert ops[..m][..n] == ops[..n];
      } else {
        assert ops[..n] == ops;
      }
    }
  }

  /** A transaction that was cut off before its commit entry has done nothing. */
  lemma ScanCut(t: TxnId, ops: seq<Op>, c: nat)
    requires c < |Block(t, ops)|
    ensures var p := Scan(Block(t, ops)[..c]);
            p.done == [] && forall o :: o in p.open ==> o in ops
  {
    LogOpsPrefix(ops, |ops|);
    if c > 0 {
      var n := c - 1;
      LogOpsPrefix(ops, n);
      assert Block(t, ops)[..c] == [TxnBegin(t)] + LogOps(ops[..n]);
      ScanLog(t, ops[..n]);
    } else {
      assert Block(t, ops)[..c] == [];
    }
  }
}
