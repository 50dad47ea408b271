/** Crash recovery, for every run: the state of the journal decides exactly
    whether recovery re-executes the committed, unflushed operations once each
    and in commit order; when it does, the recovered records are the ones
    readers saw before the crash. */
module Recovery {
  import opened Actions
  import opened Seqs
  import opened Transactions
  import opened Journal
  import Serializability

  /** `all` is everything ever logged, kept for the specification only; the
      files hold a suffix of it. */
  datatype Sys = Sys(env: Env, j: Files, all: seq<Entry>)

  datatype Event =
    | Plain(step: Step)
    | LogCommit(t: TxnId)
    | LogFlush(pages: set<Key>)

  function KeysOf(ops: seq<Op>): set<Key> { set o | o in ops :: o.key }

  /** A flush dirties at least the pages of the keys it writes. */
  predicate Enabled(s: Sys, ev: Event) {
    match ev
    case Plain(step) => !step.Commit? && !step.Flush?
    case LogCommit(t) => IsActive(s.env, t)
    case LogFlush(pages) => KeysOf(FlushedOps(Flushable(s.env.order, s.env.status), s.env.log)) <= pages
  }

  function Images(bt: map<Key, Dups>, pages: set<Key>): map<Key, Dups> {
    map k | k in pages :: Get(bt, k)
  }

  function NextSys(s: Sys, ev: Event): (s': Sys)
    requires ValidFiles(s.j)
    ensures ValidFiles(s'.j)
  {
    match ev
    case Plain(step) => s.(env := Next(s.env, step))
    case LogCommit(t) =>
      var ops := By(s.env.log, t);
      Sys(DoCommit(s.env, t), AppendTxn(s.j, t, ops), s.all + Block(t, ops))
    case LogFlush(pages) =>
      var e := DoFlush(s.env);
      if FlushedOps(Flushable(s.env.order, s.env.status), s.env.log) == [] then s.(env := e)
      else
        var cs := Changeset(e.lsn, Images(e.btree, pages));
        Sys(e.(lsn := e.lsn + 1), Append(s.j, [cs]), s.all + [cs])
  }

  // ---- the invariant of all runs ----

  function Open(status: map<TxnId, Status>): Op -> bool { (o: Op) => o.txn in status }

  /** The committed operations that are not yet in the btree, in commit order. */
  function Pending(s: Sys): seq<Op> { Filter(Open(s.env.status), OpsIn(s.all)) }

  /** The image of k in the youngest changeset that covers it. */
  function LastImage(f: seq<Entry>, k: Key): (r: (bool, Dups)) {
    if f == [] then (false, [])
    else
      var e := f[|f|-1];
      if e.Changeset? && k in e.images then (true, e.images[k]) else LastImage(f[..|f|-1], k)
  }

  /** Operations are older than the changesets that follow them. */
  ghost predicate OpsAreOlder(all: seq<Entry>) {
    forall i, j :: 0 <= i < j < |all| && all[i].Logged? && all[j].Changeset? ==> all[i].op.lsn < all[j].lsn
  }

  /** An operation whose transaction was flushed is followed by a changeset. */
  ghost predicate FlushedIsCovered(all: seq<Entry>, status: map<TxnId, Status>) {
    forall i :: 0 <= i < |all| && all[i].Logged? && all[i].op.txn !in status ==>
      exists j :: i < j < |all| && all[j].Changeset?
  }

  ghost predicate OpsKnown(ops: seq<Op>, e: Env) {
    forall o :: o in ops ==>
      && 0 < o.lsn < e.lsn && o.txn <= e.lastId
      && (o.txn in e.status ==> e.status[o.txn] == Committed && o in e.log)
  }

  ghost predicate ChangesetsBounded(all: seq<Entry>, lsn: nat) {
    forall x :: x in all && x.Changeset? ==> x.lsn < lsn
  }

  ghost predicate Distinct(ops: seq<Op>) {
    forall i, j :: 0 <= i < j < |ops| ==> ops[i] != ops[j]
  }

  ghost predicate IsSuffix(f: seq<Entry>, all: seq<Entry>) {
    |f| <= |all| && all[|all| - |f|..] == f
  }

  ghost predicate ImagesCurrent(all: seq<Entry>, bt: map<Key, Dups>) {
    forall k :: LastImage(all, k).0 ==> LastImage(all, k).1 == Get(bt, k)
  }

  ghost predicate PositiveLsns(e: Env) { 0 < e.lsn && forall o :: o in e.log ==> o.lsn > 0 }

  ghost predicate LogInv(s: Sys) {
    && ChangesetsBounded(s.all, s.env.lsn)
    && Rising(s.all)
    && OpsAreOlder(s.all)
    && FlushedIsCovered(s.all, s.env.status)
    && OpsKnown(OpsIn(s.all), s.env)
    && Distinct(OpsIn(s.all))
    && ImagesCurrent(s.all, s.env.btree)
  }

  /** A transaction with a commit entry is not active any more. */
  ghost predicate CommitsKnown(all: seq<Entry>, e: Env) {
    forall t: TxnId :: TxnCommit(t) in all ==> t <= e.lastId && !IsActive(e, t)
  }

  ghost predicate Inv(s: Sys) {
    && ValidFiles(s.j) && Valid(s.env) && PositiveLsns(s.env)
    && IsSuffix(Older(s.j) + Newer(s.j), s.all)
    && LogInv(s)
  }

  /** Each file consists of whole transactions. */
  ghost predicate Tidy(s: Sys)
    requires ValidFiles(s.j)
  {
    Whole(Older(s.j)) && Whole(Newer(s.j)) && CommitsKnown(s.all, s.env)
  }

  // ---- every event keeps the invariant ----

  lemma PlainKeepsLog(s: Sys, step: Step)
    requires Inv(s) && Enabled(s, Plain(step))
    ensures LogInv(NextSys(s, Plain(step))) && PositiveLsns(Next(s.env, step))
  {
    var e' := Next(s.env, step);
    match step
    case Begin =>
    case Write(t, k, a) =>
    case Abort(t) =>
      FilterMembers(NotOf([t]), s.env.log);
  }

  lemma DistinctAppend(a: seq<Op>, b: seq<Op>)
    requires Distinct(a) && Distinct(b) && forall o :: o in a ==> o !in b
    ensures Distinct(a + b)
  {
    forall i, j | 0 <= i < j < |a + b| ensures (a + b)[i] != (a + b)[j] {
      if i < |a| <= j {
        assert (a + b)[i] == a[i] && a[i] in a && (a + b)[j] == b[j - |a|] && b[j - |a|] in b;
      } else if j < |a| {
        assert (a + b)[i] == a[i] && (a + b)[j] == a[j];
      } else {
        assert (a + b)[i] == b[i - |a|] && (a + b)[j] == b[j - |a|];
      }
    }
  }

  lemma OpsOfTxn(e: Env, t: TxnId)
    requires Valid(e)
    ensures Distinct(By(e.log, t)) && forall o :: o in By(e.log, t) ==> o in e.log && o.txn == t
  {
    FilterMembers(OfTxn(t), e.log);
    Serializability.AgingFilter(OfTxn(t), e.log);
  }

  lemma CommitKeepsLog(s: Sys, t: TxnId)
    requires Inv(s) && IsActive(s.env, t)
    ensures LogInv(NextSys(s, LogCommit(t))) && PositiveLsns(DoCommit(s.env, t))
  {
    var ops := By(s.env.log, t);
    OpsOfTxn(s.env, t);
    OpsInBlock(t, ops);
    OpsInAppend(s.all, Block(t, ops));
    DistinctAppend(OpsIn(s.all), ops);
    OpsInMembers(Block(t, ops));
    forall x | x in Block(t, ops) && x.Logged? ensures x.op.txn in s.env.status {
      assert x == Logged(x.op) && x.op in ops;
    }
    BlockKeepsPositions(s.all, Block(t, ops), s.env);
    forall k ensures LastImage(s.all + Block(t, ops), k) == LastImage(s.all, k) {
      ImageAppend(s.all, Block(t, ops), k);
    }
  }

  /** Appending entries that are no changesets. */
  lemma BlockKeepsPositions(all: seq<Entry>, b: seq<Entry>, e: Env)
    requires forall x :: x in b ==> !x.Changeset? && (x.Logged? ==> x.op.txn in e.status)
    requires Rising(all) && OpsAreOlder(all) && FlushedIsCovered(all, e.status) && ChangesetsBounded(all, e.lsn)
    ensures Rising(all + b) && OpsAreOlder(all + b) && FlushedIsCovered(all + b, e.status) &&
            ChangesetsBounded(all + b, e.lsn)
  {
    forall i | |all| <= i < |all + b| ensures !(all + b)[i].Changeset? && (all + b)[i] in b {
      assert (all + b)[i] == b[i - |all|];
    }
    forall i | 0 <= i < |all + b| && (all + b)[i].Logged? && (all + b)[i].op.txn !in e.status
      ensures exists j :: i < j < |all + b| && (all + b)[j].Changeset? {
      assert i < |all| && all[i] == (all + b)[i];
      var j :| i < j < |all| && all[j].Changeset?;
      assert (all + b)[j] == all[j];
    }
  }

  lemma {:induction false} ImageAppend(all: seq<Entry>, b: seq<Entry>, k: Key)
    requires forall x :: x in b ==> !x.Changeset?
    ensures LastImage(all + b, k) == LastImage(all, k)
  {
    if b == [] {
      assert all + b == all;
    } else {
      assert b[|b|-1] in b && forall x :: x in b[..|b|-1] ==> x in b;
      ImageAppend(all, b[..|b|-1], k);
      assert (all + b)[..|all+b|-1] == all + b[..|b|-1];
    }
  }

  lemma FlushKeepsLog(s: Sys, pages: set<Key>)
    requires Inv(s) && Enabled(s, LogFlush(pages))
    ensures LogInv(NextSys(s, LogFlush(pages))) && PositiveLsns(NextSys(s, LogFlush(pages)).env)
  {
    var ids, e := Flushable(s.env.order, s.env.status), DoFlush(s.env);
    FilterMembers(NotOf(ids), s.env.log);
    if FlushedOps(ids, s.env.log) == [] {
      EmptyFlushKeepsLog(s, ids);
    } else {
      var cs := Changeset(e.lsn, Images(e.btree, pages));
      ChangesetKeepsPositions(s.all, cs, s.env);
      KnownAfterFlush(OpsIn(s.all), s.env);
      assert OpsIn(s.all + [cs]) == OpsIn(s.all) by {
        assert (s.all + [cs])[..|s.all|] == s.all;
      }
      ImagesAfterFlush(s, pages, cs);
    }
  }

  lemma KnownAfterFlush(ops: seq<Op>, e: Env)
    requires OpsKnown(ops, e)
    ensures OpsKnown(ops, DoFlush(e).(lsn := e.lsn + 1))
  {
    FilterMembers(NotOf(Flushable(e.order, e.status)), e.log);
  }

  lemma ImagesAfterFlush(s: Sys, pages: set<Key>, cs: Entry)
    requires ImagesCurrent(s.all, s.env.btree) && Enabled(s, LogFlush(pages))
    requires cs.Changeset? && cs.images == Images(DoFlush(s.env).btree, pages)
    ensures ImagesCurrent(s.all + [cs], DoFlush(s.env).btree)
  {
    var ops := FlushedOps(Flushable(s.env.order, s.env.status), s.env.log);
    var all, bt := s.all + [cs], DoFlush(s.env).btree;
    assert all[..|s.all|] == s.all;
    forall k | LastImage(all, k).0 ensures LastImage(all, k).1 == Get(bt, k) {
      if k !in pages {
        Untouched(ops, s.env.btree, k);
        assert LastImage(all, k) == LastImage(s.all, k);
      }
    }
  }

  lemma {:induction false} FlushedContains(ids: seq<TxnId>, log: seq<Op>)
    ensures forall o :: o in FlushedOps(ids, log) <==> o in log && o.txn in ids
  {
    if ids != [] {
      FlushedContains(ids[..|ids|-1], log);
      FilterMembers(OfTxn(ids[|ids|-1]), log);
      assert ids == ids[..|ids|-1] + [ids[|ids|-1]];
    }
  }

  lemma {:induction false} Untouched(ops: seq<Op>, bt: map<Key, Dups>, k: Key)
    requires k !in KeysOf(ops)
    ensures Get(ApplyAll(ops, bt), k) == Get(bt, k)
  {
    if ops != [] {
      assert ops[|ops|-1] in ops && forall o :: o in ops[..|ops|-1] ==> o in ops;
      Untouched(ops[..|ops|-1], bt, k);
    }
  }

  lemma EmptyFlushKeepsLog(s: Sys, ids: seq<TxnId>)
    requires Inv(s) && ids == Flushable(s.env.order, s.env.status) && FlushedOps(ids, s.env.log) == []
    ensures LogInv(s.(env := DoFlush(s.env)))
  {
    FilterMembers(NotOf(ids), s.env.log);
    FlushedContains(ids, s.env.log);
    OpsInMembers(s.all);
    forall i | 0 <= i < |s.all| && s.all[i].Logged? && s.all[i].op.txn !in DoFlush(s.env).status
      ensures s.all[i].op.txn !in s.env.status {
      assert s.all[i] == Logged(s.all[i].op);
      assert s.all[i] in s.all;
    }
  }

  lemma ChangesetKeepsPositions(all: seq<Entry>, cs: Entry, e: Env)
    requires cs.Changeset? && cs.lsn == e.lsn > 0
    requires Rising(all) && OpsAreOlder(all) && ChangesetsBounded(all, e.lsn) && OpsKnown(OpsIn(all), e)
    ensures Rising(all + [cs]) && OpsAreOlder(all + [cs]) && ChangesetsBounded(all + [cs], e.lsn + 1)
    ensures forall status :: FlushedIsCovered(all + [cs], status)
  {
    var a := all + [cs];
    OpsInMembers(all);
    forall i | 0 <= i < |all|
      ensures (all[i].Logged? ==> all[i].op.lsn < cs.lsn) && (all[i].Changeset? ==> all[i].lsn < cs.lsn) {
      assert all[i] in all;
      if all[i].Logged? {
        assert all[i] == Logged(all[i].op);
      }
    }
    forall status ensures FlushedIsCovered(a, status) {
      assert a[|all|].Changeset?;
    }
  }

  lemma InvPlain(s: Sys, step: Step)
    requires Inv(s) && Enabled(s, Plain(step))
    ensures Inv(NextSys(s, Plain(step)))
  {
    Serializability.ValidNext(s.env, step);
    PlainKeepsLog(s, step);
  }

  lemma SuffixCommit(s: Sys, t: TxnId)
    requires ValidFiles(s.j) && IsSuffix(Older(s.j) + Newer(s.j), s.all)
    ensures var s' := NextSys(s, LogCommit(t)); IsSuffix(Older(s'.j) + Newer(s'.j), s'.all)
  {
    var j := Switch(s.j);
    assert IsSuffix(Older(j) + Newer(j), s.all);
    SuffixGrows(Older(j), Newer(j), s.all, Block(t, By(s.env.log, t)));
  }

  lemma SuffixGrows(older: seq<Entry>, newer: seq<Entry>, all: seq<Entry>, b: seq<Entry>)
    requires IsSuffix(older + newer, all)
    ensures IsSuffix(older + (newer + b), all + b)
  {
    var f := older + newer;
    assert older + (newer + b) == f + b;
    assert (all + b)[|all| - |f|..] == all[|all| - |f|..] + b;
  }

  lemma InvCommit(s: Sys, t: TxnId)
    requires Inv(s) && Enabled(s, LogCommit(t))
    ensures Inv(NextSys(s, LogCommit(t)))
  {
    var s' := NextSys(s, LogCommit(t));
    assert Valid(s'.env) by { Serializability.ValidNext(s.env, Commit(t)); }
    assert LogInv(s') && PositiveLsns(s'.env) by { CommitKeepsLog(s, t); }
    assert IsSuffix(Older(s'.j) + Newer(s'.j), s'.all) by { SuffixCommit(s, t); }
  }

  lemma SuffixFlush(s: Sys, pages: set<Key>)
    requires ValidFiles(s.j) && IsSuffix(Older(s.j) + Newer(s.j), s.all)
    ensures var s' := NextSys(s, LogFlush(pages)); IsSuffix(Older(s'.j) + Newer(s'.j), s'.all)
  {
    var e := DoFlush(s.env);
    var cs := Changeset(e.lsn, Images(e.btree, pages));
    SuffixGrows(Older(s.j), Newer(s.j), s.all, [cs]);
  }

  lemma ValidLater(e: Env)
    requires Valid(e)
    ensures Valid(e.(lsn := e.lsn + 1))
  {
  }

  lemma InvFlush(s: Sys, pages: set<Key>)
    requires Inv(s) && Enabled(s, LogFlush(pages))
    ensures Inv(NextSys(s, LogFlush(pages)))
  {
    var s' := NextSys(s, LogFlush(pages));
    assert Valid(s'.env) by {
      Serializability.ValidFlush(s.env);
      ValidLater(DoFlush(s.env));
    }
    assert LogInv(s') && PositiveLsns(s'.env) by { FlushKeepsLog(s, pages); }
    assert IsSuffix(Older(s'.j) + Newer(s'.j), s'.all) by { SuffixFlush(s, pages); }
  }

  lemma InvNext(s: Sys, ev: Event)
    requires Inv(s) && Enabled(s, ev)
    ensures Inv(NextSys(s, ev))
  {
    match ev
    case Plain(step) => InvPlain(s, step);
    case LogCommit(t) => InvCommit(s, t);
    case LogFlush(pages) => InvFlush(s, pages);
  }

  lemma CommitFilesWhole(s: Sys, t: TxnId)
    requires Valid(s.env) && ValidFiles(s.j) && Whole(Older(s.j)) && Whole(Newer(s.j))
    ensures var j := AppendTxn(s.j, t, By(s.env.log, t)); Whole(Older(j)) && Whole(Newer(j))
  {
    var b, j := Block(t, By(s.env.log, t)), Switch(s.j);
    OpsOfTxn(s.env, t);
    WholeBlock(t, By(s.env.log, t));
    assert Whole([]);
    assert Whole(Older(j)) && Whole(Newer(j));
    WholeAppend(Newer(j), b);
  }

  lemma CommitIsKnown(all: seq<Entry>, e: Env, t: TxnId, ops: seq<Op>)
    requires CommitsKnown(all, e) && Valid(e) && IsActive(e, t)
    ensures CommitsKnown(all + Block(t, ops), DoCommit(e, t))
  {
    OpsInLog(ops);
    assert t in e.order;
    forall u: TxnId | TxnCommit(u) in all + Block(t, ops) ensures u == t || TxnCommit(u) in all {
    }
  }

  lemma TidyNext(s: Sys, ev: Event)
    requires Inv(s) && Tidy(s) && Enabled(s, ev)
    ensures Tidy(NextSys(s, ev))
  {
    match ev
    case Plain(step) =>
    case LogCommit(t) =>
      CommitFilesWhole(s, t);
      CommitIsKnown(s.all, s.env, t, By(s.env.log, t));
    case LogFlush(pages) =>
      TidyFlush(s, pages);
  }

  lemma TidyFlush(s: Sys, pages: set<Key>)
    requires ValidFiles(s.j) && Tidy(s)
    ensures Tidy(NextSys(s, LogFlush(pages)))
  {
    var e := DoFlush(s.env);
    WholeChangeset(Newer(s.j), Changeset(e.lsn, Images(e.btree, pages)));
  }

  // ---- which operations recovery repeats ----

  /** No changeset of a file lies beyond its last one. */
  lemma LastCovers(f: seq<Entry>)
    requires Rising(f)
    ensures forall e :: e in f && e.Changeset? ==> e.lsn <= LastChangeset(f)
    ensures if HasChangeset(f) then exists e :: e in f && e.Changeset? && e.lsn == LastChangeset(f)
            else LastChangeset(f) == 0
  {
    if HasChangeset(f) {
      LastIsGreatest(f);
    } else {
      NoChangeset(f, map[]);
    }
  }

  /** The start lsn is that of the youngest changeset in the files, or 0. */
  lemma StartCovers(s: Sys)
    requires Inv(s)
    ensures Rising(Older(s.j)) && Rising(Newer(s.j))
    ensures forall e :: e in Older(s.j) + Newer(s.j) && e.Changeset? ==> e.lsn <= StartLsn(s.j)
    ensures !HasChangeset(Older(s.j)) && !HasChangeset(Newer(s.j)) ==> StartLsn(s.j) == 0
    ensures StartLsn(s.j) == 0 || exists e :: e in Older(s.j) + Newer(s.j) && e.Changeset? && e.lsn == StartLsn(s.j)
  {
    var older, newer := Older(s.j), Newer(s.j);
    RisingParts(s.all, older, newer);
    LastCovers(older);
    LastCovers(newer);
    assert StartLsn(s.j) == Max(LastChangeset(older), LastChangeset(newer));
  }

  lemma RisingParts(all: seq<Entry>, older: seq<Entry>, newer: seq<Entry>)
    requires Rising(all) && IsSuffix(older + newer, all)
    ensures Rising(older) && Rising(newer)
    ensures forall x, y :: x in older && y in newer && x.Changeset? && y.Changeset? ==> x.lsn < y.lsn
  {
    var f := older + newer;
    var n := |all| - |f|;
    assert forall i :: 0 <= i < |f| ==> all[n + i] == f[i];
    assert forall i :: 0 <= i < |older| ==> older[i] == all[n + i];
    assert forall i :: 0 <= i < |newer| ==> newer[i] == all[n + |older| + i];
    forall i | 0 <= i < |f| ensures f[i] in all {
      assert all[n + i] in all;
    }
    forall x | x in older ensures x in all {
      assert x in f;
    }
    forall x | x in newer ensures x in all {
      assert x in f;
    }
  }

  /** An operation younger than the start lsn was not flushed. */
  lemma YoungAreOpen(s: Sys)
    requires Inv(s)
    ensures forall o :: o in OpsIn(Older(s.j) + Newer(s.j)) && o.lsn > StartLsn(s.j) ==> o.txn in s.env.status
  {
    StartCovers(s);
    YoungInSuffix(s.all, Older(s.j) + Newer(s.j), s.env.status, StartLsn(s.j));
  }

  lemma SuffixAt(f: seq<Entry>, all: seq<Entry>, i: nat)
    requires IsSuffix(f, all) && i < |f|
    ensures all[|all| - |f| + i] == f[i]
  {
  }

  /** A flushed operation is followed by a changeset with a higher lsn. */
  lemma CoveredInSuffix(all: seq<Entry>, f: seq<Entry>, status: map<TxnId, Status>, i: nat)
    requires IsSuffix(f, all) && OpsAreOlder(all) && FlushedIsCovered(all, status)
    requires i < |f| && f[i].Logged? && f[i].op.txn !in status
    ensures exists c :: c in f && c.Changeset? && f[i].op.lsn < c.lsn
  {
  }

  lemma YoungInSuffix(all: seq<Entry>, f: seq<Entry>, status: map<TxnId, Status>, start: nat)
    requires IsSuffix(f, all) && OpsAreOlder(all) && FlushedIsCovered(all, status)
    requires forall e :: e in f && e.Changeset? ==> e.lsn <= start
    ensures forall o :: o in OpsIn(f) && o.lsn > start ==> o.txn in status
  {
    OpsInMembers(f);
    forall o | o in OpsIn(f) && o.txn !in status ensures o.lsn <= start {
      var i :| 0 <= i < |f| && f[i] == Logged(o);
      CoveredInSuffix(all, f, status, i);
    }
  }

  /** An operation in the older part is older than every changeset in the newer
      part. */
  lemma BeforeChangeset(all: seq<Entry>, older: seq<Entry>, newer: seq<Entry>, i: nat, m: nat)
    requires IsSuffix(older + newer, all) && OpsAreOlder(all)
    requires i < |older| && older[i].Logged? && m < |newer| && newer[m].Changeset?
    ensures older[i].op.lsn < newer[m].lsn
  {
    SuffixAt(older + newer, all, i);
    SuffixAt(older + newer, all, |older| + m);
  }

  lemma OpsBeforeChangeset(all: seq<Entry>, older: seq<Entry>, newer: seq<Entry>, start: nat)
    requires IsSuffix(older + newer, all) && OpsAreOlder(all) && HasChangeset(newer)
    requires forall e :: e in newer && e.Changeset? ==> e.lsn <= start
    ensures forall o :: o in OpsIn(older) ==> o.lsn <= start
  {
    OpsInMembers(older);
    var m :| 0 <= m < |newer| && newer[m].Changeset?;
    assert newer[m] in newer;
    forall o | o in OpsIn(older) ensures o.lsn <= start {
      var i :| 0 <= i < |older| && older[i] == Logged(o);
      BeforeChangeset(all, older, newer, i, m);
    }
  }

  /** Operations in the older file are settled as soon as the newer file holds a
      changeset. */
  lemma OlderSettled(s: Sys)
    requires Inv(s) && HasChangeset(Newer(s.j))
    ensures Filter(Younger(StartLsn(s.j)), OpsIn(Older(s.j))) == []
  {
    assert forall e :: e in Newer(s.j) && e.Changeset? ==> e.lsn <= StartLsn(s.j) by {
      StartCovers(s);
      assert forall e :: e in Newer(s.j) ==> e in Older(s.j) + Newer(s.j);
    }
    OpsBeforeChangeset(s.all, Older(s.j), Newer(s.j), StartLsn(s.j));
    FilterNone(Younger(StartLsn(s.j)), OpsIn(Older(s.j)));
  }

  /** Recovery reads the newer file first, although it holds the younger
      operations, when no changeset tells the files apart and file 1 is the
      newer one. */
  predicate Misread(s: Sys)
    requires ValidFiles(s.j)
  {
    && !HasChangeset(Older(s.j)) && !HasChangeset(Newer(s.j)) && s.j.cur == 1
    && OpsIn(Older(s.j)) != [] && OpsIn(Newer(s.j)) != []
  }

  lemma ReadsWhole(j: Files)
    requires ValidFiles(j) && Whole(Older(j)) && Whole(Newer(j))
    ensures Whole(ReadOrder(j))
  {
    WholeAppend(Older(j), Newer(j));
    WholeAppend(Newer(j), Older(j));
  }

  lemma ReadChronologically(s: Sys)
    requires Inv(s) && Tidy(s)
    ensures var young := Younger(StartLsn(s.j));
            Replayed(s.j) == if Misread(s)
                             then Filter(young, OpsIn(Newer(s.j)) + OpsIn(Older(s.j)))
                             else Filter(young, OpsIn(Older(s.j)) + OpsIn(Newer(s.j)))
  {
    ReadsWhole(s.j);
    OpsInAppend(Older(s.j), Newer(s.j));
    OpsInAppend(Newer(s.j), Older(s.j));
    if HasChangeset(Newer(s.j)) {
      NewerIsReadFirst(s);
      OlderSettled(s);
      FilterAppend(Younger(StartLsn(s.j)), OpsIn(Older(s.j)), OpsIn(Newer(s.j)));
      FilterAppend(Younger(StartLsn(s.j)), OpsIn(Newer(s.j)), OpsIn(Older(s.j)));
    } else {
      WithoutNewChangeset(s);
    }
  }

  lemma WithoutNewChangeset(s: Sys)
    requires Inv(s) && !HasChangeset(Newer(s.j))
    ensures Misread(s) ==> OpsIn(ReadOrder(s.j)) == OpsIn(Newer(s.j)) + OpsIn(Older(s.j))
    ensures !Misread(s) ==> OpsIn(ReadOrder(s.j)) == OpsIn(Older(s.j)) + OpsIn(Newer(s.j))
  {
    assert Rising(Older(s.j)) by {
      StartCovers(s);
    }
    OpsInAppend(Older(s.j), Newer(s.j));
    OpsInAppend(Newer(s.j), Older(s.j));
    OrderWithoutNewChangeset(s.j);
    var a, b := OpsIn(Older(s.j)), OpsIn(Newer(s.j));
    assert a == [] || b == [] ==> a + b == b + a;
  }

  lemma OrderWithoutNewChangeset(j: Files)
    requires ValidFiles(j) && !HasChangeset(Newer(j)) && Rising(Older(j))
    ensures HasChangeset(Older(j)) || j.cur == 0 ==> ReadOrder(j) == Older(j) + Newer(j)
    ensures !HasChangeset(Older(j)) && j.cur == 1 ==> ReadOrder(j) == Newer(j) + Older(j)
  {
    NoChangeset(Newer(j), map[]);
    if HasChangeset(Older(j)) {
      FirstIsPositive(Older(j));
    } else {
      NoChangeset(Older(j), map[]);
    }
  }

  /** Recovery takes the older file for the current one. */
  lemma NewerIsReadFirst(s: Sys)
    requires Inv(s) && HasChangeset(Newer(s.j))
    ensures RecoveryCurrent(s.j) == 1 - s.j.cur && ReadOrder(s.j) == Newer(s.j) + Older(s.j)
  {
    RisingParts(s.all, Older(s.j), Newer(s.j));
    OlderComesFirst(Older(s.j), Newer(s.j));
  }

  lemma OlderComesFirst(older: seq<Entry>, newer: seq<Entry>)
    requires Rising(older) && Rising(newer) && HasChangeset(newer)
    requires forall x, y :: x in older && y in newer && x.Changeset? && y.Changeset? ==> x.lsn < y.lsn
    ensures FirstChangeset(older) < FirstChangeset(newer)
  {
    FirstIsPositive(newer);
    if HasChangeset(older) {
      FirstIsPositive(older);
    } else {
      NoChangeset(older, map[]);
    }
  }

  /** The number of entries that were cleared from the files. */
  function Cleared(s: Sys): int
    requires ValidFiles(s.j)
  {
    |s.all| - |Older(s.j) + Newer(s.j)|
  }

  /** What the journal must look like at the crash. */
  ghost predicate Intact(s: Sys)
    requires ValidFiles(s.j)
  {
    // no cleared entry belongs to a transaction that was not flushed
    && (forall i :: 0 <= i < Cleared(s) && i < |s.all| && s.all[i].Logged? ==> s.all[i].op.txn !in s.env.status)
    // no unflushed operation is older than a changeset in the files
    && (forall o, e :: o in Pending(s) && e in Older(s.j) + Newer(s.j) && e.Changeset? ==> e.lsn < o.lsn)
    // the files can be put in order
    && !Misread(s)
  }

  lemma {:induction false} FilterShrinks<T(!new)>(p: T -> bool, s: seq<T>)
    ensures |Filter(p, s)| <= |s|
    ensures |Filter(p, s)| == |s| ==> forall x :: x in s ==> p(x)
  {
    if s != [] {
      FilterShrinks(p, s[..|s|-1]);
      assert s == s[..|s|-1] + [s[|s|-1]];
    }
  }

  lemma PendingSplit(s: Sys)
    requires Inv(s)
    ensures var gone, open := OpsIn(s.all[..Cleared(s)]), Open(s.env.status);
            && OpsIn(s.all) == gone + (OpsIn(Older(s.j)) + OpsIn(Newer(s.j)))
            && Pending(s) == Filter(open, gone) + Filter(open, OpsIn(Older(s.j)) + OpsIn(Newer(s.j)))
            && (Filter(open, gone) == [] <==>
                forall i :: 0 <= i < Cleared(s) && s.all[i].Logged? ==> s.all[i].op.txn !in s.env.status)
  {
    var f := Older(s.j) + Newer(s.j);
    var g := s.all[..Cleared(s)];
    var gone, open := OpsIn(g), Open(s.env.status);
    assert s.all == g + f;
    OpsInAppend(g, f);
    OpsInAppend(Older(s.j), Newer(s.j));
    FilterAppend(open, gone, OpsIn(f));
    OpsInMembers(g);
    FilterMembers(open, gone);
    if Filter(open, gone) == [] {
      forall i | 0 <= i < Cleared(s) && s.all[i].Logged? ensures s.all[i].op.txn !in s.env.status {
        assert g[i] in g && g[i] == Logged(s.all[i].op);
        assert s.all[i].op in gone && s.all[i].op !in Filter(open, gone);
      }
    } else {
      var o := Filter(open, gone)[0];
      assert o in Filter(open, gone);
      assert Logged(o) in g;
      var i :| 0 <= i < |g| && g[i] == Logged(o);
      assert s.all[i] == g[i];
    }
  }

  /** Which operations are younger than the start lsn. */
  lemma YoungExact(s: Sys)
    requires Inv(s)
    ensures (forall o :: o in Pending(s) ==> o.lsn > StartLsn(s.j)) <==>
            forall o, e :: o in Pending(s) && e in Older(s.j) + Newer(s.j) && e.Changeset? ==> e.lsn < o.lsn
  {
    StartCovers(s);
    FilterMembers(Open(s.env.status), OpsIn(s.all));
  }

  /** Recovery repeats the committed, unflushed operations, each once and in
      commit order, if and only if the journal is intact. */
  lemma ReplayExact(s: Sys)
    requires Inv(s) && Tidy(s)
    ensures Replayed(s.j) == Pending(s) <==> Intact(s)
  {
    PendingSplit(s);
    YoungExact(s);
    var a, b, young := OpsIn(Older(s.j)), OpsIn(Newer(s.j)), Younger(StartLsn(s.j));
    if Misread(s) {
      assert Replayed(s.j) == Filter(young, b + a) by { ReadChronologically(s); }
      MisreadDiffers(s);
    } else {
      assert Replayed(s.j) == Filter(young, a + b) by { ReadChronologically(s); }
      OrderedExact(s);
    }
  }

  lemma YoungKept(s: Sys)
    requires Inv(s)
    ensures forall o :: o in OpsIn(Older(s.j)) + OpsIn(Newer(s.j)) && Younger(StartLsn(s.j))(o) ==>
            Open(s.env.status)(o)
  {
    OpsInAppend(Older(s.j), Newer(s.j));
    YoungAreOpen(s);
  }

  lemma OrderedExact(s: Sys)
    requires Inv(s)
    ensures var gone, kept := OpsIn(s.all[..Cleared(s)]), OpsIn(Older(s.j)) + OpsIn(Newer(s.j));
            var young, open := Younger(StartLsn(s.j)), Open(s.env.status);
            Filter(young, kept) == Filter(open, gone) + Filter(open, kept) <==>
            Filter(open, gone) == [] && forall o :: o in Filter(open, gone) + Filter(open, kept) ==> young(o)
  {
    YoungKept(s);
    KeptIffYoung(OpsIn(s.all[..Cleared(s)]), OpsIn(Older(s.j)) + OpsIn(Newer(s.j)), Younger(StartLsn(s.j)),
      Open(s.env.status));
  }

  lemma MisreadDiffers(s: Sys)
    requires Inv(s) && Misread(s)
    ensures var a, b := OpsIn(Older(s.j)), OpsIn(Newer(s.j));
            Filter(Younger(StartLsn(s.j)), b + a) != Filter(Open(s.env.status), OpsIn(s.all[..Cleared(s)])) +
              Filter(Open(s.env.status), a + b)
  {
    var a, b := OpsIn(Older(s.j)), OpsIn(Newer(s.j));
    PendingSplit(s);
    assert forall o :: o in a + b ==> Younger(StartLsn(s.j))(o) by {
      StartCovers(s);
      assert forall o :: o in a + b ==> o in OpsIn(s.all);
    }
    YoungKept(s);
    SwappedDiffers(OpsIn(s.all[..Cleared(s)]), a, b, Younger(StartLsn(s.j)), Open(s.env.status));
  }

  lemma KeptIffYoung(gone: seq<Op>, kept: seq<Op>, young: Op -> bool, open: Op -> bool)
    requires forall o :: o in kept && young(o) ==> open(o)
    ensures Filter(young, kept) == Filter(open, gone) + Filter(open, kept) <==>
            Filter(open, gone) == [] && forall o :: o in Filter(open, gone) + Filter(open, kept) ==> young(o)
  {
    var live := Filter(open, kept);
    YoungOfOpen(young, open, kept);
    FilterShrinks(young, live);
    assert [] + live == live;
    if Filter(open, gone) == [] && forall o :: o in live ==> young(o) {
      FilterAll(young, live);
    }
  }

  lemma {:induction false} YoungOfOpen(young: Op -> bool, open: Op -> bool, ops: seq<Op>)
    requires forall o :: o in ops && young(o) ==> open(o)
    ensures Filter(young, ops) == Filter(young, Filter(open, ops))
  {
    if ops != [] {
      assert ops == ops[..|ops|-1] + [ops[|ops|-1]];
      YoungOfOpen(young, open, ops[..|ops|-1]);
    }
  }

  lemma SwappedDiffers(gone: seq<Op>, a: seq<Op>, b: seq<Op>, young: Op -> bool, open: Op -> bool)
    requires a != [] && b != [] && Distinct(gone + (a + b))
    requires forall o :: o in a + b ==> young(o) && open(o)
    ensures Filter(young, b + a) != Filter(open, gone) + Filter(open, a + b)
  {
    FilterAll(young, b + a);
    FilterAll(open, a + b);
    var all, l, r := gone + (a + b), b + a, Filter(open, gone) + (a + b);
    assert all[|gone|] == a[0] && all[|gone| + |a|] == b[0];
    if Filter(open, gone) == [] {
      assert l[0] == b[0] && r[0] == a[0];
    } else {
      assert |l| < |r|;
    }
  }
}
