/** The journal as an object with two files that are appended to, switched,
    scanned and cleared in place (3journal/journal.cc), proved against the
    functions of module Journal. */
module JournalFiles {
  import opened Actions
  import opened Seqs
  import opened Transactions
  import opened Journal

  class Log {
    var files: seq<seq<Entry>>
    var currentFd: nat
    var numTransactions: nat
    var threshold: nat

    function State(): Files
      reads this
    {
      Files(files, currentFd, numTransactions, threshold)
    }

    /** An entry is in one of the files. */
    ghost predicate Holds(e: Entry)
      requires ValidFiles(State())
      reads this
    {
      e in Older(State()) || e in Newer(State())
    }

    constructor (threshold: nat)
      ensures ValidFiles(State()) && State() == Files([[], []], 0, 0, threshold)
    {
      files, currentFd, numTransactions := [[], []], 0, 0;
      this.threshold := threshold;
    }

    /** switch_files_maybe: the file that was written stays in the journal as the
        older one. What is discarded is everything in the other file, and only when
        the file that was written is full. */
    method SwitchFilesMaybe()
      requires ValidFiles(State())
      modifies this
      ensures ValidFiles(State()) && State() == Switch(old(State()))
      ensures forall e :: Holds(e) <==>
              e in old(Newer(State())) || (old(numTransactions <= threshold) && e in old(Older(State())))
      ensures old(numTransactions > threshold) ==> Older(State()) == old(Newer(State())) && Newer(State()) == []
      ensures numTransactions <= threshold
    {
      if numTransactions > threshold {
        var other := 1 - currentFd;
        files := files[other := []];
        currentFd := other;
        numTransactions := 0;
      }
    }

    /** flush_transaction_to_journal: begin, every operation, commit. */
    method AppendTransaction(t: TxnId, ops: seq<Op>)
      requires ValidFiles(State())
      modifies this
      ensures ValidFiles(State()) && State() == AppendTxn(old(State()), t, ops)
      ensures Newer(State()) == (if old(numTransactions > threshold) then [] else old(Newer(State()))) + Block(t, ops)
      ensures Older(State()) == if old(numTransactions > threshold) then old(Newer(State())) else old(Older(State()))
      ensures numTransactions == if old(numTransactions > threshold) then 1 else old(numTransactions) + 1
    {
      SwitchFilesMaybe();
      ghost var before := files[currentFd];
      AppendEntry(TxnBegin(t));
      numTransactions := numTransactions + 1;
      assert [TxnBegin(t)] + LogOps(ops[..0]) == [TxnBegin(t)];
      for i := 0 to |ops|
        invariant ValidFiles(State()) && currentFd == Switch(old(State())).cur
        invariant threshold == old(threshold) && numTransactions == Switch(old(State())).count + 1
        invariant files == Switch(old(State())).files[currentFd := before + ([TxnBegin(t)] + LogOps(ops[..i]))]
      {
        assert ops[..i+1][..i] == ops[..i];
        AppendEntry(Logged(ops[i]));
        assert before + ([TxnBegin(t)] + LogOps(ops[..i])) + [Logged(ops[i])] ==
          before + ([TxnBegin(t)] + LogOps(ops[..i+1]));
      }
      assert ops[..|ops|] == ops;
      AppendEntry(TxnCommit(t));
      assert before + ([TxnBegin(t)] + LogOps(ops)) + [TxnCommit(t)] == before + Block(t, ops);
    }

    method AppendEntry(e: Entry)
      requires ValidFiles(State())
      modifies this`files
      ensures ValidFiles(State()) && State() == Append(old(State()), [e])
    {
      files := files[currentFd := files[currentFd] + [e]];
    }

    method ScanForOldestChangeset(file: seq<Entry>) returns (lsn: nat)
      ensures lsn == FirstChangeset(file)
    {
      var i := 0;
      assert file[0..] == file;
      while i < |file|
        invariant i <= |file| && FirstChangeset(file) == FirstChangeset(file[i..])
      {
        if file[i].Changeset? {
          return file[i].lsn;
        }
        assert file[i..][1..] == file[i+1..];
        i := i + 1;
      }
      lsn := 0;
    }

    method RedoAllChangesets(file: seq<Entry>, disk: map<Key, Dups>) returns (pages: map<Key, Dups>, maxLsn: nat)
      ensures pages == Redo(file, disk) && maxLsn == LastChangeset(file)
    {
      pages, maxLsn := disk, 0;
      for i := 0 to |file|
        invariant pages == Redo(file[..i], disk) && maxLsn == LastChangeset(file[..i])
      {
        assert file[..i+1][..i] == file[..i];
        if file[i].Changeset? {
          maxLsn := file[i].lsn;
          pages := pages + file[i].images;
        }
      }
      assert file[..|file|] == file;
    }

    /** Journal::recover: redo the changesets, replay the younger operations,
        clear both files. */
    method Recover(disk: map<Key, Dups>) returns (store: map<Key, Dups>)
      requires ValidFiles(State())
      modifies this
      ensures forall k :: Get(store, k) == Recovered(old(State()), disk, k)
      ensures files == [[], []]
    {
      var l0 := ScanForOldestChangeset(files[0]);
      var l1 := ScanForOldestChangeset(files[1]);
      var cur := if l0 == 0 && l1 == 0 then 0 else if l0 < l1 then 0 else 1;
      var m0, m1;
      store, m0 := RedoAllChangesets(files[cur], disk);
      store, m1 := RedoAllChangesets(files[1 - cur], store);
      var start := if m0 >= m1 then m0 else m1;
      currentFd := cur;
      store := ReplayFile(store, start, files[1 - cur] + files[cur]);
      files := [[], []];
    }

    /** recover_journal: operations that are not younger than `start` are skipped,
        and transactions without a commit entry have no effect. */
    method ReplayFile(pages: map<Key, Dups>, start: nat, entries: seq<Entry>) returns (store: map<Key, Dups>)
      ensures forall k :: Get(store, k) == ReplayAll(On(Filter(Younger(start), Scan(entries).done), k), Get(pages, k))
    {
      store := ReplayLoop(pages, start, entries);
      forall k ensures Get(store, k) == ReplayAll(On(Filter(Younger(start), Scan(entries).done), k), Get(pages, k)) {
        ReplayStoreOn(Filter(Younger(start), Scan(entries).done), pages, k);
      }
    }

    /** The loop: a commit entry carries out the operations of its transaction;
        what is open at the end is aborted. */
    method ReplayLoop(pages: map<Key, Dups>, start: nat, entries: seq<Entry>) returns (store: map<Key, Dups>)
      ensures store == ReplayStore(Filter(Younger(start), Scan(entries).done), pages)
    {
      store := pages;
      var open: seq<Op> := [];
      for i := 0 to |entries|
        invariant store == ReplayStore(Filter(Younger(start), Scan(entries[..i]).done), pages)
        invariant open == Filter(Younger(start), Scan(entries[..i]).open)
      {
        ghost var p := Scan(entries[..i]);
        assert entries[..i+1][..i] == entries[..i];
        match entries[i]
        case Logged(op) =>
          FilterAppend(Younger(start), p.open, [op]);
          assert Filter(Younger(start), [op]) == if op.lsn > start then [op] else [];
          if op.lsn > start {
            open := open + [op];
          }
        case TxnCommit(t) =>
          CommitRead(start, p, t, pages);
          store := ReplayOps(By(open, t), store);
          open := Filter(NotOf([t]), open);
        case _ =>
      }
      assert entries[..|entries|] == entries;
    }

    method ReplayOps(ops: seq<Op>, pages: map<Key, Dups>) returns (store: map<Key, Dups>)
      ensures store == ReplayStore(ops, pages)
    {
      store := pages;
      for i := 0 to |ops|
        invariant store == ReplayStore(ops[..i], pages)
      {
        assert ops[..i+1][..i] == ops[..i];
        store := store[ops[i].key := ReplayOne(ops[i].act, Get(store, ops[i].key))];
      }
      assert ops[..|ops|] == ops;
    }
  }

  lemma CommitRead(start: nat, p: Progress, t: TxnId, pages: map<Key, Dups>)
    ensures var young, open := Younger(start), Filter(Younger(start), p.open);
            && ReplayStore(Filter(young, p.done + By(p.open, t)), pages)
               == ReplayStore(By(open, t), ReplayStore(Filter(young, p.done), pages))
            && Filter(young, Filter(NotOf([t]), p.open)) == Filter(NotOf([t]), open)
  {
    var young := Younger(start);
    FilterAppend(young, p.done, By(p.open, t));
    FilterSwap(young, OfTxn(t), p.open);
    FilterSwap(young, NotOf([t]), p.open);
    ReplayStoreAppend(Filter(young, p.done), Filter(young, By(p.open, t)), pages);
  }

  function ReplayStore(ops: seq<Op>, pages: map<Key, Dups>): map<Key, Dups> {
    if ops == [] then pages
    else
      var s, op := ReplayStore(ops[..|ops|-1], pages), ops[|ops|-1];
      s[op.key := ReplayOne(op.act, Get(s, op.key))]
  }

  lemma {:induction false} ReplayStoreAppend(a: seq<Op>, b: seq<Op>, pages: map<Key, Dups>)
    ensures ReplayStore(a + b, pages) == ReplayStore(b, ReplayStore(a, pages))
  {
    if b == [] {
      assert a + b == a;
    } else {
      ReplayStoreAppend(a, b[..|b|-1], pages);
      assert (a + b)[..|a + b|-1] == a + b[..|b|-1];
    }
  }

  lemma {:induction false} ReplayStoreOn(ops: seq<Op>, pages: map<Key, Dups>, k: Key)
    ensures Get(ReplayStore(ops, pages), k) == ReplayAll(On(ops, k), Get(pages, k))
  {
    if ops != [] {
      ReplayStoreOn(ops[..|ops|-1], pages, k);
    }
  }
}
