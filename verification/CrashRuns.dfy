/** Whole runs with a crash at the end: what recovery restores, when it may be
    interrupted and restarted, and which runs lose committed operations. */
module CrashRuns {
  import opened Actions
  import opened Seqs
  import opened Transactions
  import opened Journal
  import opened Recovery
  import opened Ledger
  import opened Serializability

  // ---- physical recovery ----

  predicate Covered(f: seq<Entry>, k: Key) { LastImage(f, k).0 }

  lemma {:induction false} RedoImage(f: seq<Entry>, d: map<Key, Dups>, k: Key)
    ensures Get(Redo(f, d), k) == if Covered(f, k) then LastImage(f, k).1 else Get(d, k)
  {
    if f != [] {
      RedoImage(f[..|f|-1], d, k);
    }
  }

  lemma {:induction false} ImageOfSuffix(g: seq<Entry>, f: seq<Entry>, k: Key)
    ensures Covered(f, k) ==> LastImage(g + f, k) == LastImage(f, k)
    ensures !Covered(f, k) ==> LastImage(g + f, k) == LastImage(g, k)
  {
    if f == [] {
      assert g + f == g;
    } else {
      ImageOfSuffix(g, f[..|f|-1], k);
      assert (g + f)[..|g+f|-1] == g + f[..|f|-1];
    }
  }

  lemma RestoredIs(j: Files, d: map<Key, Dups>)
    requires ValidFiles(j)
    ensures Restored(j, d) == if RecoveryCurrent(j) == j.cur then Redo(Older(j), Redo(Newer(j), d))
                              else Redo(Newer(j), Redo(Older(j), d))
  {
  }

  /** The changesets are redone oldest first, whichever file they are in. */
  lemma RestoredChronologically(s: Sys, d: map<Key, Dups>)
    requires Inv(s)
    ensures Restored(s.j, d) == Redo(Older(s.j) + Newer(s.j), d)
  {
    var older, newer := Older(s.j), Newer(s.j);
    RestoredIs(s.j, d);
    RedoAppend(older, newer, d);
    if HasChangeset(newer) {
      NewerIsReadFirst(s);
    } else {
      NoChangeset(newer, Redo(older, d));
      NoChangeset(newer, d);
    }
  }

  /** A crash leaves any content on the pages that the journal can restore:
      their writes may be torn. All other pages are up to date. */
  ghost predicate CrashDisk(s: Sys, disk: map<Key, Dups>)
    requires ValidFiles(s.j)
  {
    forall k :: !Covered(Older(s.j) + Newer(s.j), k) ==> Get(disk, k) == Get(s.env.btree, k)
  }

  lemma RestoredIsBtree(s: Sys, disk: map<Key, Dups>, k: Key)
    requires Inv(s) && CrashDisk(s, disk)
    ensures Get(Restored(s.j, disk), k) == Get(s.env.btree, k)
  {
    var f := Older(s.j) + Newer(s.j);
    var g := s.all[..|s.all| - |f|];
    RestoredChronologically(s, disk);
    RedoImage(f, disk, k);
    assert s.all == g + f;
    ImageOfSuffix(g, f, k);
  }

  // ---- logical recovery ----

  /** The journal's pending operations of a key are the committed operations of
      its node. */
  ghost predicate PendingAgrees(s: Sys, k: Key) {
    On(Pending(s), k) == CommittedOps(s.env, k)
  }

  /** Crash at any point of a run and recover: every key reads as before. */
  lemma CrashAndRecover(s: Sys, disk: map<Key, Dups>, k: Key)
    requires Inv(s) && Tidy(s) && PendingAgrees(s, k) && CrashDisk(s, disk) && Intact(s)
    requires ReplaySafeAlong(CommittedOps(s.env, k), Get(s.env.btree, k))
    ensures Recovered(s.j, disk, k) == View(s.env, k)
  {
    ReplayExact(s);
    RestoredIsBtree(s, disk, k);
    ReplayIsFold(CommittedOps(s.env, k), Get(s.env.btree, k));
  }

  lemma PendingPlain(s: Sys, step: Step, k: Key)
    requires Inv(s) && Enabled(s, Plain(step)) && Clean(s.env, step)
    requires forall x :: Isolated(s.env, x)
    requires PendingAgrees(s, k)
    ensures PendingAgrees(NextSys(s, Plain(step)), k)
  {
    var e' := Next(s.env, step);
    assert Pending(NextSys(s, Plain(step))) == Pending(s) by {
      FilterCongruent(Open(s.env.status), Open(e'.status), OpsIn(s.all));
    }
    match step
    case Begin => BeginStep(s.env, k);
    case Write(t, x, a) => WriteStep(s.env, t, x, a, k);
    case Abort(t) =>
      if IsActive(s.env, t) { AbortStep(s.env, t, k); }
  }

  lemma PendingCommit(s: Sys, t: TxnId, k: Key)
    requires Inv(s) && Enabled(s, LogCommit(t)) && Isolated(s.env, k) && PendingAgrees(s, k)
    ensures PendingAgrees(NextSys(s, LogCommit(t)), k)
  {
    var ops, e' := By(s.env.log, t), DoCommit(s.env, t);
    CommitStep(s.env, t, k);
    OpsInBlock(t, ops);
    OpsInAppend(s.all, Block(t, ops));
    FilterAppend(Open(e'.status), OpsIn(s.all), ops);
    FilterCongruent(Open(s.env.status), Open(e'.status), OpsIn(s.all));
    FilterMembers(OfTxn(t), s.env.log);
    FilterAll(Open(e'.status), ops);
    FilterAppend(OnKey(k), Pending(s), ops);
  }

  lemma PendingFlush(s: Sys, pages: set<Key>, k: Key)
    requires Inv(s) && Enabled(s, LogFlush(pages)) && Isolated(s.env, k) && PendingAgrees(s, k)
    ensures PendingAgrees(NextSys(s, LogFlush(pages)), k)
  {
    var ids, s' := Flushable(s.env.order, s.env.status), NextSys(s, LogFlush(pages));
    FlushStep(s.env, k);
    assert CommittedOps(s'.env, k) == CommittedOps(DoFlush(s.env), k);
    LoggedFlush(s, pages);
    StillOpen(s.env, ids, OpsIn(s.all));
    FilterSwap(OnKey(k), NotOf(ids), Pending(s));
  }

  lemma {:induction false} StillOpen(e: Env, ids: seq<TxnId>, ops: seq<Op>)
    ensures Filter(Open(map t | t in e.status && t !in ids :: e.status[t]), ops)
         == Filter(NotOf(ids), Filter(Open(e.status), ops))
  {
    if ops != [] {
      StillOpen(e, ids, ops[..|ops|-1]);
    }
  }

  // ---- whole runs ----

  /** The step of the transaction manager behind an event. */
  function StepOf(ev: Event): Step {
    match ev
    case Plain(step) => step
    case LogCommit(t) => Commit(t)
    case LogFlush(_) => Flush
  }

  ghost predicate Allowed(s: Sys, ev: Event)
    requires ValidFiles(s.j)
  {
    Enabled(s, ev) && Clean(s.env, StepOf(ev))
  }

  /** What a client has noted after these events, which began with notes n. */
  function NotedAfter(s: Sys, n: Notes, evs: seq<Event>): Notes
    requires ValidFiles(s.j)
    decreases |evs|
  {
    if evs == [] then n
    else NotedAfter(NextSys(s, evs[0]), Note(n, StepOf(evs[0]), Answer(s.env, StepOf(evs[0]))), evs[1..])
  }

  /** What holds of a running system: the invariant, isolation, and agreement of
      the journal with the operation lists, with the notes of a client, and with a
      serial execution over the initial records `base`. */
  ghost predicate Good(s: Sys, base: map<Key, Dups>, n: Notes) {
    && Inv(s) && Tidy(s)
    && (forall k :: Isolated(s.env, k))
    && (forall k :: PendingAgrees(s, k))
    && Booked(n, s.env) && Plainly(OpsIn(s.all)) == n.done
    && forall k :: View(s.env, k) == Fold(On(OpsIn(s.all), k), Get(base, k))
  }

  lemma SameUpToLsn(e: Env, k: Key)
    ensures Isolated(e.(lsn := e.lsn + 1), k) <==> Isolated(e, k)
    ensures View(e.(lsn := e.lsn + 1), k) == View(e, k)
  {
  }

  lemma SerialCommit(s: Sys, base: map<Key, Dups>, t: TxnId, k: Key)
    requires IsActive(s.env, t) && Valid(s.env) && (forall x :: Isolated(s.env, x)) && ValidFiles(s.j)
    requires View(s.env, k) == Fold(On(OpsIn(s.all), k), Get(base, k))
    ensures var s' := NextSys(s, LogCommit(t)); View(s'.env, k) == Fold(On(OpsIn(s'.all), k), Get(base, k))
  {
    var ops := By(s.env.log, t);
    StepView(s.env, Commit(t), k);
    OpsInBlock(t, ops);
    OpsInAppend(s.all, Block(t, ops));
    FilterAppend(OnKey(k), OpsIn(s.all), ops);
    FoldAppend(On(OpsIn(s.all), k), On(ops, k), Get(base, k));
  }

  lemma SerialFlush(s: Sys, base: map<Key, Dups>, pages: set<Key>, k: Key)
    requires Valid(s.env) && Isolated(s.env, k) && FlushClean(s.env, k) && ValidFiles(s.j)
    requires View(s.env, k) == Fold(On(OpsIn(s.all), k), Get(base, k))
    ensures var s' := NextSys(s, LogFlush(pages));
            Isolated(s'.env, k) && View(s'.env, k) == Fold(On(OpsIn(s'.all), k), Get(base, k))
  {
    var e := DoFlush(s.env);
    FlushStep(s.env, k);
    FlushInvisible(s.env, k);
    SameUpToLsn(e, k);
    LoggedFlush(s, pages);
  }

  lemma GoodKey(s: Sys, base: map<Key, Dups>, n: Notes, ev: Event, k: Key)
    requires Good(s, base, n) && Allowed(s, ev)
    ensures var s' := NextSys(s, ev);
            Isolated(s'.env, k) && PendingAgrees(s', k) && View(s'.env, k) == Fold(On(OpsIn(s'.all), k), Get(base, k))
  {
    var s' := NextSys(s, ev);
    match ev
    case Plain(step) =>
      assert PendingAgrees(s', k) by { PendingPlain(s, step, k); }
      StepView(s.env, step, k);
    case LogCommit(t) =>
      assert PendingAgrees(s', k) by { PendingCommit(s, t, k); }
      assert Isolated(s'.env, k) by { CommitStep(s.env, t, k); }
      SerialCommit(s, base, t, k);
    case LogFlush(pages) =>
      assert PendingAgrees(s', k) by { PendingFlush(s, pages, k); }
      SerialFlush(s, base, pages, k);
  }

  /** The age of the log says nothing about its contents. */
  lemma EnvAfter(s: Sys, ev: Event)
    requires ValidFiles(s.j)
    ensures var e, e' := Next(s.env, StepOf(ev)), NextSys(s, ev).env;
            e'.log == e.log && e'.status == e.status && e'.lastId == e.lastId
  {
  }

  lemma BookedEvent(s: Sys, n: Notes, ev: Event)
    requires ValidFiles(s.j) && Valid(s.env) && Booked(n, s.env)
    ensures Booked(Note(n, StepOf(ev), Answer(s.env, StepOf(ev))), NextSys(s, ev).env)
  {
    BookedNext(n, s.env, StepOf(ev));
    EnvAfter(s, ev);
  }

  /** A commit logs what the client has noted for the transaction. */
  lemma LoggedCommit(s: Sys, n: Notes, t: TxnId)
    requires ValidFiles(s.j) && IsActive(s.env, t) && Booked(n, s.env) && Plainly(OpsIn(s.all)) == n.done
    ensures Plainly(OpsIn(NextSys(s, LogCommit(t)).all)) == Note(n, Commit(t), Done).done
  {
    var ops := By(s.env.log, t);
    OpenIsLogged(n, s.env, t);
    OpsInBlock(t, ops);
    OpsInAppend(s.all, Block(t, ops));
    assert Plainly(OpsIn(s.all) + ops) == Plainly(OpsIn(s.all)) + Plainly(ops);
  }

  lemma LoggedFlush(s: Sys, pages: set<Key>)
    requires ValidFiles(s.j)
    ensures OpsIn(NextSys(s, LogFlush(pages)).all) == OpsIn(s.all)
  {
    var e := DoFlush(s.env);
    var cs := Changeset(e.lsn, Images(e.btree, pages));
    OpsInAppend(s.all, [cs]);
    assert OpsIn([cs]) == [];
  }

  /** The journal has logged exactly what the client has noted as committed. */
  lemma NotedNext(s: Sys, n: Notes, ev: Event)
    requires ValidFiles(s.j) && Enabled(s, ev) && Booked(n, s.env) && Plainly(OpsIn(s.all)) == n.done
    ensures Plainly(OpsIn(NextSys(s, ev).all)) == Note(n, StepOf(ev), Answer(s.env, StepOf(ev))).done
  {
    match ev
    case Plain(step) =>
    case LogCommit(t) => LoggedCommit(s, n, t);
    case LogFlush(pages) => LoggedFlush(s, pages);
  }

  lemma GoodNext(s: Sys, base: map<Key, Dups>, n: Notes, ev: Event)
    requires Good(s, base, n) && Allowed(s, ev)
    ensures Good(NextSys(s, ev), base, Note(n, StepOf(ev), Answer(s.env, StepOf(ev))))
  {
    InvNext(s, ev);
    TidyNext(s, ev);
    BookedEvent(s, n, ev);
    NotedNext(s, n, ev);
    forall k ensures var s' := NextSys(s, ev);
      Isolated(s'.env, k) && PendingAgrees(s', k) && View(s'.env, k) == Fold(On(OpsIn(s'.all), k), Get(base, k)) {
      GoodKey(s, base, n, ev, k);
    }
  }

  function Start(base: map<Key, Dups>, threshold: nat): (s: Sys)
    ensures ValidFiles(s.j)
  {
    Sys(Env(base, [], map[], [], 1, 0), Files([[], []], 0, 0, threshold), [])
  }

  /** Events that are allowed one after the other, and the state they lead to. */
  ghost predicate Reaches(s: Sys, evs: seq<Event>, t: Sys)
    requires ValidFiles(s.j)
    decreases |evs|
  {
    if evs == [] then s == t
    else Allowed(s, evs[0]) && Reaches(NextSys(s, evs[0]), evs[1..], t)
  }

  lemma {:induction false} GoodRun(s: Sys, base: map<Key, Dups>, n: Notes, evs: seq<Event>, t: Sys)
    requires Good(s, base, n) && Reaches(s, evs, t)
    ensures Good(t, base, NotedAfter(s, n, evs))
    decreases |evs|
  {
    if evs != [] {
      GoodNext(s, base, n, evs[0]);
      GoodRun(NextSys(s, evs[0]), base, Note(n, StepOf(evs[0]), Answer(s.env, StepOf(evs[0]))), evs[1..], t);
    }
  }

  /** The writes that a client has noted as committed after a run from an empty
      log. */
  function CommittedIn(base: map<Key, Dups>, threshold: nat, evs: seq<Event>): seq<Written> {
    NotedAfter(Start(base, threshold), Blank(0), evs).done
  }

  /** For every run from an empty log, cut by a crash at any point with any torn
      page writes, recovery yields the serial execution of exactly the accepted
      writes of the committed transactions, provided the journal is intact at the
      crash. */
  lemma DurableRun(base: map<Key, Dups>, threshold: nat, evs: seq<Event>, s: Sys, disk: map<Key, Dups>, k: Key)
    requires Reaches(Start(base, threshold), evs, s)
    requires ValidFiles(s.j) && CrashDisk(s, disk) && Intact(s)
    requires ReplaySafeAlong(CommittedOps(s.env, k), Get(s.env.btree, k))
    ensures Recovered(s.j, disk, k) == Serial(CommittedIn(base, threshold, evs), k, Get(base, k))
  {
    StartIsGood(base, threshold);
    GoodRun(Start(base, threshold), base, Blank(0), evs, s);
    CrashAndRecover(s, disk, k);
    SerialIs(OpsIn(s.all), k, Get(base, k));
  }

  // ---- the size of the files ----

  /** The number of transactions that begin in a file. */
  function TxnsIn(f: seq<Entry>): nat {
    if f == [] then 0 else TxnsIn(f[..|f|-1]) + if f[|f|-1].TxnBegin? then 1 else 0
  }

  lemma {:induction false} TxnsAppend(a: seq<Entry>, b: seq<Entry>)
    ensures TxnsIn(a + b) == TxnsIn(a) + TxnsIn(b)
  {
    if b == [] {
      assert a + b == a;
    } else {
      TxnsAppend(a, b[..|b|-1]);
      assert (a + b)[..|a+b|-1] == a + b[..|b|-1];
    }
  }

  lemma {:induction false} NoTxns(f: seq<Entry>)
    requires forall e :: e in f ==> !e.TxnBegin?
    ensures TxnsIn(f) == 0
  {
    if f != [] {
      assert f[|f|-1] in f && forall e :: e in f[..|f|-1] ==> e in f;
      NoTxns(f[..|f|-1]);
    }
  }

  lemma {:induction false} LogOpsAreOps(ops: seq<Op>)
    ensures forall e :: e in LogOps(ops) ==> e.Logged?
  {
    if ops != [] {
      LogOpsAreOps(ops[..|ops|-1]);
    }
  }

  lemma OneTxn(t: TxnId, ops: seq<Op>)
    ensures TxnsIn(Block(t, ops)) == 1
  {
    LogOpsAreOps(ops);
    NoTxns(LogOps(ops));
    NoTxns([TxnCommit(t)]);
    TxnsAppend([TxnBegin(t)], LogOps(ops));
    TxnsAppend([TxnBegin(t)] + LogOps(ops), [TxnCommit(t)]);
    assert TxnsIn([]) == 0 && [TxnBegin(t)][..0] == [];
  }

  /** The counter is the number of transactions in the newer file, and neither file
      holds more than the threshold admits. */
  predicate Counted(j: Files)
    requires |j.files| == 2 && j.cur < 2
  {
    && j.count == TxnsIn(j.files[j.cur]) <= j.threshold + 1
    && TxnsIn(j.files[1 - j.cur]) <= j.threshold + 1
  }

  lemma CountedNext(s: Sys, ev: Event)
    requires ValidFiles(s.j) && Counted(s.j)
    ensures Counted(NextSys(s, ev).j)
  {
    match ev
    case Plain(_) =>
    case LogCommit(t) =>
      OneTxn(t, By(s.env.log, t));
      TxnsAppend(Newer(Switch(s.j)), Block(t, By(s.env.log, t)));
    case LogFlush(pages) =>
      var e := DoFlush(s.env);
      var cs := Changeset(e.lsn, Images(e.btree, pages));
      NoTxns([cs]);
      TxnsAppend(Newer(s.j), [cs]);
  }

  /** Along every run neither file holds more than threshold + 1 transactions. */
  lemma {:induction false} FilesStayShort(s: Sys, evs: seq<Event>, t: Sys)
    requires ValidFiles(s.j) && Counted(s.j) && Reaches(s, evs, t)
    ensures ValidFiles(t.j) && Counted(t.j)
    decreases |evs|
  {
    if evs != [] {
      CountedNext(s, evs[0]);
      FilesStayShort(NextSys(s, evs[0]), evs[1..], t);
    }
  }

  // ---- crashes in the middle of a commit ----

  /** A crash in the middle of a commit: only the first c entries of the
      transaction were written, perhaps after a switch of the files. */
  function CutCommit(s: Sys, t: TxnId, c: nat): (j: Files)
    requires ValidFiles(s.j) && c < |Block(t, By(s.env.log, t))|
    ensures ValidFiles(j)
  {
    Append(Switch(s.j), Block(t, By(s.env.log, t))[..c])
  }

  lemma {:induction false} ChangesetsAppend(f: seq<Entry>, b: seq<Entry>)
    requires !HasChangeset(b)
    ensures FirstChangeset(f + b) == FirstChangeset(f) && LastChangeset(f + b) == LastChangeset(f)
    ensures forall d :: Redo(f + b, d) == Redo(f, d)
  {
    FirstAppend(f, b);
    if b == [] {
      assert f + b == f;
    } else {
      var n := |b| - 1;
      assert b[n] in b && forall x :: x in b[..n] ==> x in b;
      ChangesetsAppend(f, b[..n]);
      assert (f + b)[..|f + b| - 1] == f + b[..n] && (f + b)[|f + b| - 1] == b[n];
    }
  }

  lemma {:induction false} FirstAppend(f: seq<Entry>, b: seq<Entry>)
    requires !HasChangeset(b)
    ensures FirstChangeset(f + b) == FirstChangeset(f)
  {
    if f == [] {
      assert f + b == b;
      NoChangesetFirst(b);
    } else {
      FirstAppend(f[1..], b);
      assert (f + b)[1..] == f[1..] + b;
    }
  }

  lemma UnfinishedScan(f: seq<Entry>, b: seq<Entry>, g: seq<Entry>)
    requires Whole(f) && Whole(g) && Scan(b).done == []
    requires forall o :: o in Scan(b).open ==> TxnCommit(o.txn) !in g
    ensures Scan(g + (f + b)).done == Scan(g + f).done
    ensures Scan((f + b) + g).done == Scan(f + g).done
  {
    assert Scan(f + b).done == Scan(f).done && Scan(f + b).open == Scan(b).open by {
      ScanAppend(f, b);
    }
    assert Scan(g + (f + b)).done == Scan(g + f).done by {
      ScanAppend(g, f);
      ScanAppend(g, f + b);
    }
    assert Scan((f + b) + g).done == Scan(f + g).done by {
      ScanAppend(f, g);
      ScanAppend(f + b, g);
    }
  }

  lemma SameChangesets(j: Files, b: seq<Entry>)
    requires ValidFiles(j) && !HasChangeset(b)
    ensures var j' := Append(j, b);
            && RecoveryCurrent(j') == RecoveryCurrent(j) && StartLsn(j') == StartLsn(j)
            && forall d :: Restored(j', d) == Restored(j, d)
  {
    ChangesetsAppend(Newer(j), b);
  }

  /** Appending entries to the current file that are no changesets and finish no
      transaction. */
  lemma UnfinishedIgnored(j: Files, b: seq<Entry>)
    requires ValidFiles(j) && !HasChangeset(b) && Scan(b).done == []
    requires Whole(Older(j)) && Whole(Newer(j))
    requires forall o :: o in Scan(b).open ==> TxnCommit(o.txn) !in Older(j)
    ensures Replayed(Append(j, b)) == Replayed(j) && forall d :: Restored(Append(j, b), d) == Restored(j, d)
  {
    var j', f, g := Append(j, b), Newer(j), Older(j);
    SameChangesets(j, b);
    assert Scan(ReadOrder(j')).done == Scan(ReadOrder(j)).done by {
      UnfinishedScan(f, b, g);
      if RecoveryCurrent(j) == j.cur {
        assert ReadOrder(j) == g + f && ReadOrder(j') == g + (f + b);
      } else {
        assert ReadOrder(j) == f + g && ReadOrder(j') == (f + b) + g;
      }
    }
  }

  /** The files hold no commit entry of an active transaction. */
  lemma NotCommitted(s: Sys, t: TxnId)
    requires ValidFiles(s.j) && IsSuffix(Older(s.j) + Newer(s.j), s.all)
    requires CommitsKnown(s.all, s.env) && IsActive(s.env, t)
    ensures TxnCommit(t) !in Older(Switch(s.j))
  {
    var f := Older(s.j) + Newer(s.j);
    assert TxnCommit(t) !in s.all;
    assert forall x :: x in f ==> x in s.all;
    assert forall x :: x in Older(Switch(s.j)) ==> x in f;
  }

  lemma CutBlock(t: TxnId, ops: seq<Op>, c: nat)
    requires c < |Block(t, ops)| && forall o :: o in ops ==> o.txn == t
    ensures var b := Block(t, ops)[..c];
            !HasChangeset(b) && Scan(b).done == [] && forall o :: o in Scan(b).open ==> o.txn == t
  {
    OpsInBlock(t, ops);
    assert forall x :: x in Block(t, ops)[..c] ==> x in Block(t, ops);
    ScanCut(t, ops, c);
  }

  /** Such a crash is recovered as one before the commit. */
  lemma CutCommitIgnored(s: Sys, t: TxnId, c: nat)
    requires Inv(s) && Tidy(s) && IsActive(s.env, t) && c < |Block(t, By(s.env.log, t))|
    ensures Replayed(CutCommit(s, t, c)) == Replayed(Switch(s.j))
    ensures forall d :: Restored(CutCommit(s, t, c), d) == Restored(Switch(s.j), d)
  {
    OpsOfTxn(s.env, t);
    CutBlock(t, By(s.env.log, t), c);
    NotCommitted(s, t);
    assert Whole([]);
    UnfinishedIgnored(Switch(s.j), Block(t, By(s.env.log, t))[..c]);
  }

  /** Every run, cut by a crash in the middle of a commit: recovery yields the
      serial execution of the transactions that were committed before. */
  lemma DurableCut(base: map<Key, Dups>, threshold: nat, evs: seq<Event>, s: Sys, t: TxnId, c: nat,
                   disk: map<Key, Dups>, k: Key)
    requires Reaches(Start(base, threshold), evs, s) && ValidFiles(s.j)
    requires IsActive(s.env, t) && c < |Block(t, By(s.env.log, t))|
    requires var s' := s.(j := Switch(s.j)); CrashDisk(s', disk) && Intact(s')
    requires ReplaySafeAlong(CommittedOps(s.env, k), Get(s.env.btree, k))
    ensures Recovered(CutCommit(s, t, c), disk, k) == Serial(CommittedIn(base, threshold, evs), k, Get(base, k))
  {
    StartIsGood(base, threshold);
    GoodRun(Start(base, threshold), base, Blank(0), evs, s);
    SerialIs(OpsIn(s.all), k, Get(base, k));
    CutCommitIgnored(s, t, c);
    var s' := s.(j := Switch(s.j));
    SwitchKeepsInv(s);
    assert PendingAgrees(s, k);
    CrashAndRecover(s', disk, k);
  }

  lemma SwitchKeepsInv(s: Sys)
    requires Inv(s) && Tidy(s)
    ensures Inv(s.(j := Switch(s.j))) && Tidy(s.(j := Switch(s.j)))
  {
  }

  lemma StartIsGood(base: map<Key, Dups>, threshold: nat)
    ensures Good(Start(base, threshold), base, Blank(0))
  {
  }

  // ---- runs that lose operations ----

  /** A transaction that has already written when others are flushed, and that
      commits afterwards: recovery skips what it wrote before the flush, because
      those operations are older than the changeset. */
  lemma SpanningTxnIsLost(s: Sys, pages: set<Key>, t: TxnId, o: Op)
    requires Inv(s) && Enabled(s, LogFlush(pages))
    requires FlushedOps(Flushable(s.env.order, s.env.status), s.env.log) != []
    requires IsActive(s.env, t) && o in s.env.log && o.txn == t
    ensures var s1 := NextSys(s, LogFlush(pages));
            var s2 := NextSys(s1, LogCommit(t));
            Enabled(s1, LogCommit(t)) && o in Pending(s2) && o !in Replayed(s2.j) && !Intact(s2)
  {
    var s1 := NextSys(s, LogFlush(pages));
    var cs := Changeset(s.env.lsn, Images(DoFlush(s.env).btree, pages));
    assert IsActive(s1.env, t) && o in s1.env.log by {
      FilterMembers(NotOf(Flushable(s.env.order, s.env.status)), s.env.log);
    }
    InvFlush(s, pages);
    assert cs in Newer(s1.j) && o.lsn < cs.lsn;
    CommitBehind(s1, t, o, cs);
  }

  /** A commit behind a changeset that is younger than one of its operations. */
  lemma CommitBehind(s: Sys, t: TxnId, o: Op, cs: Entry)
    requires Inv(s) && IsActive(s.env, t) && o in s.env.log && o.txn == t
    requires cs in Newer(s.j) && cs.Changeset? && o.lsn < cs.lsn
    ensures var s' := NextSys(s, LogCommit(t)); o in Pending(s') && o !in Replayed(s'.j) && !Intact(s')
  {
    var s' := NextSys(s, LogCommit(t));
    assert o in Pending(s') by { LoggedAtCommit(s, t, o); }
    assert cs in Older(s'.j) + Newer(s'.j) by { StaysInFiles(s, t, cs); }
    InvCommit(s, t);
    assert o.lsn < cs.lsn <= StartLsn(s'.j) by { StartCovers(s'); }
    assert o !in Replayed(s'.j) by {
      FilterMembers(Younger(StartLsn(s'.j)), Scan(ReadOrder(s'.j)).done);
    }
  }

  /** A commit clears at most the older file. */
  lemma StaysInFiles(s: Sys, t: TxnId, x: Entry)
    requires ValidFiles(s.j) && x in Newer(s.j)
    ensures var s' := NextSys(s, LogCommit(t)); x in Older(s'.j) + Newer(s'.j)
  {
  }

  lemma LoggedAtCommit(s: Sys, t: TxnId, o: Op)
    requires Inv(s) && IsActive(s.env, t) && o in s.env.log && o.txn == t
    ensures o in Pending(NextSys(s, LogCommit(t)))
  {
    var ops, s' := By(s.env.log, t), NextSys(s, LogCommit(t));
    FilterMembers(OfTxn(t), s.env.log);
    OpsInBlock(t, ops);
    OpsInAppend(s.all, Block(t, ops));
    FilterMembers(Open(s'.env.status), OpsIn(s'.all));
  }

  /** A full current file: the switch empties the older file even if it holds
      the only copy of an unflushed transaction. */
  lemma SwitchLosesUnflushed(s: Sys, t: TxnId, o: Op)
    requires Inv(s) && IsActive(s.env, t) && s.j.count > s.j.threshold
    requires o in OpsIn(Older(s.j)) && o.txn in s.env.status
    ensures !Intact(NextSys(s, LogCommit(t)))
  {
    var s' := NextSys(s, LogCommit(t));
    var older, newer := Older(s.j), Newer(s.j);
    var n := |s.all| - |older + newer|;
    OpsInMembers(older);
    var i :| 0 <= i < |older| && older[i] == Logged(o);
    assert (older + newer)[i] == older[i];
    assert s.all[n + i] == Logged(o);
    assert s'.all[n + i] == s.all[n + i];
    var b := Block(t, By(s.env.log, t));
    assert Older(s'.j) == newer && Newer(s'.j) == b;
    assert Cleared(s') == n + |older|;
  }

  /** The first switch from file 0 to file 1 before any changeset was written
      makes recovery replay the two files in the wrong order. */
  lemma FirstSwitchMisreads(s: Sys, t: TxnId)
    requires Inv(s) && IsActive(s.env, t) && s.j.count > s.j.threshold
    requires s.j.cur == 0 && !HasChangeset(Newer(s.j)) && OpsIn(Newer(s.j)) != [] && By(s.env.log, t) != []
    ensures Misread(NextSys(s, LogCommit(t))) && !Intact(NextSys(s, LogCommit(t)))
  {
    var s' := NextSys(s, LogCommit(t));
    var b := Block(t, By(s.env.log, t));
    OpsInBlock(t, By(s.env.log, t));
    assert Older(s'.j) == Newer(s.j) && Newer(s'.j) == b;
  }

  // ---- interrupted recovery ----

  /** An attempt at recovery that is interrupted. Recovery writes pages without
      logging them, and any of them may have reached the disk: a key then holds what
      some part of its replay has made of the restored records. Pages that a
      changeset restores may be torn. */
  ghost predicate Interrupted(j: Files, disk: map<Key, Dups>, disk': map<Key, Dups>)
    requires ValidFiles(j)
  {
    forall k :: !Covered(j.files[0] + j.files[1], k) ==>
      Get(disk', k) == Get(disk, k) || PartlyReplayed(On(Replayed(j), k), Get(Restored(j, disk), k), Get(disk', k))
  }

  ghost predicate PartlyReplayed(ops: seq<Op>, d: Dups, d': Dups) {
    exists n :: 0 <= n <= |ops| && d' == ReplayAll(ops[..n], d)
  }

  /** A chain of interrupted attempts. */
  ghost predicate Restarts(j: Files, disks: seq<map<Key, Dups>>)
    requires ValidFiles(j)
  {
    disks != [] && forall i :: 0 <= i < |disks| - 1 ==> Interrupted(j, disks[i], disks[i+1])
  }

  // ---- which operations can be replayed twice ----

  /** A duplicate is inserted. A replayed insert before or after another duplicate
      has none to refer to. */
  predicate Grows(a: Action) { a.InsertDup? && (a.at.First? || a.at.Last?) }

  /** Operations that may be replayed again after any part of them: an erase makes
      what was before it irrelevant, and without one no duplicate is inserted.
      Inserts and overwrites of a whole key do no harm. */
  predicate Repeatable(ops: seq<Op>) {
    (exists o :: o in ops && o.act.Erase?) || forall o :: o in ops ==> !Grows(o.act)
  }

  lemma {:induction false} EraseForgets(ops: seq<Op>, d: Dups, e: Dups)
    requires exists o :: o in ops && o.act.Erase?
    ensures ReplayAll(ops, d) == ReplayAll(ops, e)
  {
    var n := |ops| - 1;
    if !ops[n].act.Erase? {
      var o :| o in ops && o.act.Erase?;
      assert ops == ops[..n] + [ops[n]];
      assert o in ops[..n];
      EraseForgets(ops[..n], d, e);
    }
  }

  predicate NoneGrows(ops: seq<Op>) { forall i :: 0 <= i < |ops| ==> !Grows(ops[i].act) && !ops[i].act.Erase? }

  /** Without duplicates and erases, only the first record of a key changes. */
  lemma {:induction false} OnlyFirstChanges(ops: seq<Op>, d: Dups)
    requires NoneGrows(ops) && d != []
    ensures ReplayAll(ops, d) != [] && ReplayAll(ops, d)[1..] == d[1..]
  {
    if ops != [] {
      OnlyFirstChanges(ops[..|ops|-1], d);
    }
  }

  /** Operations that leave an absent key absent do nothing at all. */
  lemma {:induction false} DoesNothing(ops: seq<Op>, d: Dups, e: Dups)
    requires NoneGrows(ops) && ReplayAll(ops, d) == []
    ensures d == [] && ReplayAll(ops, e) == e
  {
    if ops != [] {
      DoesNothing(ops[..|ops|-1], d, e);
    }
  }

  lemma {:induction false} ReplayedTwice(ops: seq<Op>, d: Dups)
    requires NoneGrows(ops)
    ensures ReplayAll(ops, ReplayAll(ops, d)) == ReplayAll(ops, d)
  {
    if ops != [] {
      var init, a := ops[..|ops|-1], ops[|ops|-1].act;
      var z := ReplayAll(init, d);
      var y := ReplayAll(ops, d);
      ReplayedTwice(init, d);
      if z == [] {
        DoesNothing(init, d, y);
      } else {
        OnlyFirstChanges(init, y);
        assert y == [y[0]] + y[1..] && ReplayAll(init, y) == [ReplayAll(init, y)[0]] + y[1..];
      }
    }
  }

  /** Replaying everything after a part of it. */
  lemma {:induction false} ReplayAfterPart(ops: seq<Op>, n: nat, d: Dups)
    requires n <= |ops| && Repeatable(ops)
    ensures ReplayAll(ops, ReplayAll(ops[..n], d)) == ReplayAll(ops, d)
  {
    if exists o :: o in ops && o.act.Erase? {
      EraseForgets(ops, ReplayAll(ops[..n], d), d);
    } else {
      assert NoneGrows(ops) by {
        forall i | 0 <= i < |ops| ensures !Grows(ops[i].act) && !ops[i].act.Erase? {
          assert ops[i] in ops;
        }
      }
      PlainAfterPart(ops, n, d);
    }
  }

  lemma {:induction false} PlainAfterPart(ops: seq<Op>, n: nat, d: Dups)
    requires n <= |ops| && NoneGrows(ops)
    ensures ReplayAll(ops, ReplayAll(ops[..n], d)) == ReplayAll(ops, d)
    decreases |ops|
  {
    if n == |ops| {
      assert ops[..n] == ops;
      ReplayedTwice(ops, d);
    } else {
      var init := ops[..|ops|-1];
      assert init[..n] == ops[..n];
      PlainAfterPart(init, n, d);
    }
  }

  lemma {:induction false} ReplayGrows(ops: seq<Op>, d: Dups)
    requires forall o :: o in ops ==> !o.act.Erase?
    ensures |ReplayAll(ops, d)| >= |d|
    ensures (exists o :: o in ops && Grows(o.act)) ==> |ReplayAll(ops, d)| > |d|
  {
    if ops != [] {
      var n := |ops| - 1;
      assert ops == ops[..n] + [ops[n]];
      assert ops[n] in ops && forall o :: o in ops[..n] ==> o in ops;
      ReplayGrows(ops[..n], d);
    }
  }

  // ---- restarting ----

  /** A part of the replay on a page that no changeset restores, and then all of it
      again. */
  lemma AttemptKeepsKey(j: Files, disk: map<Key, Dups>, disk': map<Key, Dups>, k: Key)
    requires ValidFiles(j) && Interrupted(j, disk, disk')
    requires Covered(j.files[0] + j.files[1], k) || Repeatable(On(Replayed(j), k))
    ensures Recovered(j, disk', k) == Recovered(j, disk, k)
  {
    RestoredImage(j, disk, k);
    RestoredImage(j, disk', k);
    if !Covered(j.files[0] + j.files[1], k) && Get(disk', k) != Get(disk, k) {
      var ops, d := On(Replayed(j), k), Get(Restored(j, disk), k);
      var n :| 0 <= n <= |ops| && Get(disk', k) == ReplayAll(ops[..n], d);
      ReplayAfterPart(ops, n, d);
    }
  }

  lemma {:induction false} ChainKeepsKey(j: Files, disks: seq<map<Key, Dups>>, k: Key)
    requires ValidFiles(j) && Restarts(j, disks)
    requires Covered(j.files[0] + j.files[1], k) || Repeatable(On(Replayed(j), k))
    ensures Recovered(j, disks[|disks|-1], k) == Recovered(j, disks[0], k)
    decreases |disks|
  {
    var n := |disks| - 1;
    if n > 0 {
      assert Restarts(j, disks[..n]);
      ChainKeepsKey(j, disks[..n], k);
      AttemptKeepsKey(j, disks[n-1], disks[n], k);
    }
  }

  /** One attempt that is interrupted after all of a key has been replayed. */
  lemma AttemptGrowsKey(j: Files, disk: map<Key, Dups>, k: Key)
    requires ValidFiles(j) && !Covered(j.files[0] + j.files[1], k) && !Repeatable(On(Replayed(j), k))
    ensures var disk' := disk[k := Recovered(j, disk, k)];
            Interrupted(j, disk, disk') && Recovered(j, disk', k) != Recovered(j, disk, k)
  {
    var ops, disk' := On(Replayed(j), k), disk[k := Recovered(j, disk, k)];
    RestoredImage(j, disk, k);
    RestoredImage(j, disk', k);
    ReplayGrows(ops, Recovered(j, disk, k));
    assert ops[..|ops|] == ops;
    assert PartlyReplayed(ops, Get(Restored(j, disk), k), Get(disk', k));
  }

  /** After any number of interrupted attempts, recovery gives a key the same
      records as without them, if and only if a changeset restores its page or its
      pending operations can be repeated. */
  lemma RestartExact(j: Files, disk: map<Key, Dups>, k: Key)
    requires ValidFiles(j)
    ensures (Covered(j.files[0] + j.files[1], k) || Repeatable(On(Replayed(j), k))) <==>
            (forall disks :: Restarts(j, disks) && disks[0] == disk ==>
              Recovered(j, disks[|disks|-1], k) == Recovered(j, disk, k))
  {
    if Covered(j.files[0] + j.files[1], k) || Repeatable(On(Replayed(j), k)) {
      forall disks | Restarts(j, disks) && disks[0] == disk
        ensures Recovered(j, disks[|disks|-1], k) == Recovered(j, disk, k) {
        ChainKeepsKey(j, disks, k);
      }
    } else {
      AttemptGrowsKey(j, disk, k);
      var disks := [disk, disk[k := Recovered(j, disk, k)]];
      assert Restarts(j, disks) && disks[0] == disk;
    }
  }

  lemma RestoredImage(j: Files, d: map<Key, Dups>, k: Key)
    requires ValidFiles(j)
    ensures !Covered(j.files[0] + j.files[1], k) ==> Get(Restored(j, d), k) == Get(d, k)
    ensures Covered(j.files[0] + j.files[1], k) ==> forall d' :: Get(Restored(j, d'), k) == Get(Restored(j, d), k)
  {
    var c := RecoveryCurrent(j);
    var f, g := j.files[c], j.files[1 - c];
    ImageOfSuffix(j.files[0], j.files[1], k);
    forall d'
      ensures Get(Restored(j, d'), k) ==
        if Covered(g, k) then LastImage(g, k).1 else if Covered(f, k) then LastImage(f, k).1 else Get(d', k) {
      RedoImage(f, d', k);
      RedoImage(g, Redo(f, d'), k);
    }
  }

  /** A restart after a complete replay, before the journal was cleared, inserts
      a duplicate twice when its page is not restored. */
  lemma DuplicateInsertedTwice(j: Files, disk: map<Key, Dups>, k: Key, o: Op)
    requires ValidFiles(j) && On(Replayed(j), k) == [o] && o.act.InsertDup? && o.act.at.Last?
    requires !Covered(j.files[0] + j.files[1], k)
    ensures var disk' := disk[k := Recovered(j, disk, k)];
            && Recovered(j, disk, k) == Get(disk, k) + [o.act.rec]
            && Recovered(j, disk', k) == Get(disk, k) + [o.act.rec, o.act.rec]
  {
    var disk' := disk[k := Recovered(j, disk, k)];
    RestoredImage(j, disk, k);
    RestoredImage(j, disk', k);
    forall d ensures ReplayAll([o], d) == d + [o.act.rec] {
      assert [o][..0] == [];
      assert ReplayAll([], d) == d;
    }
  }
}
