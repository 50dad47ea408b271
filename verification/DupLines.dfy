/** The duplicate cache of a cursor holds lines, not records: the index of an
    operation, or -1-i for the i-th record of the btree. A line says which of the
    two cursors shows the record. */
module DupLines {
  import opened Seqs
  import opened Trees
  import Actions

  function BtreeLines(n: nat): (ls: seq<int>)
    ensures |ls| == n && forall i :: 0 <= i < n ==> ls[i] == -1 - i
  {
    seq(n, i => -1 - i)
  }

  /** An operation with its own index in place of its record. */
  function Coded(a: Action, j: nat): (c: Action) {
    match a
    case Insert(_) => Actions.Insert(j)
    case Overwrite(_, ref) => Actions.Overwrite(j, ref)
    case InsertDup(_, at, ref) => Actions.InsertDup(j, at, ref)
    case Erase(ref) => Actions.Erase(ref)
  }

  function CodedOps(ops: seq<Op>): (c: seq<Action>)
    ensures |c| == |ops| && forall j :: 0 <= j < |ops| ==> c[j] == Coded(ops[j].act, j)
  {
    seq(|ops|, j requires 0 <= j < |ops| => Coded(ops[j].act, j))
  }

  /** A line of a key with these operations and btree records. */
  predicate Fit(ops: seq<Op>, recs: seq<Rec>, l: int) {
    if l < 0 then -1 - l < |recs| else l < |ops| && !ops[l].act.Erase?
  }

  predicate AllFit(ops: seq<Op>, recs: seq<Rec>, ls: seq<int>) { forall i :: 0 <= i < |ls| ==> Fit(ops, recs, ls[i]) }

  function RecOf(ops: seq<Op>, recs: seq<Rec>, l: int): Rec
    requires Fit(ops, recs, l)
  {
    if l < 0 then recs[-1-l] else ops[l].act.rec
  }

  function RecsAt(ops: seq<Op>, recs: seq<Rec>, ls: seq<int>): (r: seq<Rec>)
    requires AllFit(ops, recs, ls)
    ensures |r| == |ls| && forall i :: 0 <= i < |ls| ==> r[i] == RecOf(ops, recs, ls[i])
  {
    seq(|ls|, i requires 0 <= i < |ls| => RecOf(ops, recs, ls[i]))
  }

  lemma LineLeads(ops: seq<Op>, recs: seq<Rec>, ls: seq<int>, i: nat)
    requires AllFit(ops, recs, ls) && i < |ls|
    ensures Fit(ops, recs, ls[i]) && RecsAt(ops, recs, ls)[i] == RecOf(ops, recs, ls[i])
  {
  }

  lemma LineInserted(ops: seq<Op>, recs: seq<Rec>, ls: seq<int>, p: nat, j: nat)
    requires AllFit(ops, recs, ls) && p <= |ls| && Fit(ops, recs, j)
    ensures AllFit(ops, recs, InsertAt(ls, p, j))
    ensures RecsAt(ops, recs, InsertAt(ls, p, j)) == InsertAt(RecsAt(ops, recs, ls), p, RecOf(ops, recs, j))
  {
    var k := InsertAt(ls, p, j);
    forall i | 0 <= i < |k| ensures Fit(ops, recs, k[i]) {
      assert k[i] == if i < p then ls[i] else if i == p then j else ls[i-1];
    }
  }

  lemma LinePlaced(ops: seq<Op>, recs: seq<Rec>, ls: seq<int>, j: nat)
    requires j < |ops| && AllFit(ops, recs, ls) && ops[j].act.InsertDup? && Actions.InRange(ops[j].act, ls)
    ensures var k := Actions.Consolidate(Coded(ops[j].act, j), ls);
            AllFit(ops, recs, k) && RecsAt(ops, recs, k) == Actions.Consolidate(ops[j].act, RecsAt(ops, recs, ls))
  {
    var a, r := ops[j].act, RecsAt(ops, recs, ls);
    var p := match a.at
      case First => 0
      case Before => a.ref - 1
      case After => if a.ref >= |ls| then |ls| else a.ref
      case Last => |ls|;
    assert Actions.Consolidate(Coded(a, j), ls) == InsertAt(ls, p, j);
    assert Actions.Consolidate(a, r) == InsertAt(r, p, a.rec);
    LineInserted(ops, recs, ls, p, j);
  }

  lemma LineErased(ops: seq<Op>, recs: seq<Rec>, ls: seq<int>, i: nat)
    requires AllFit(ops, recs, ls) && i < |ls|
    ensures AllFit(ops, recs, RemoveAt(ls, i))
    ensures RecsAt(ops, recs, RemoveAt(ls, i)) == RemoveAt(RecsAt(ops, recs, ls), i)
  {
  }

  /** One operation does to the lines what it does to the records. */
  lemma LineStep(ops: seq<Op>, recs: seq<Rec>, ls: seq<int>, j: nat)
    requires j < |ops| && AllFit(ops, recs, ls)
    ensures var k := Actions.Consolidate(Coded(ops[j].act, j), ls);
            AllFit(ops, recs, k) && RecsAt(ops, recs, k) == Actions.Consolidate(ops[j].act, RecsAt(ops, recs, ls))
  {
    var k, r := Actions.Consolidate(Coded(ops[j].act, j), ls), RecsAt(ops, recs, ls);
    match ops[j].act
    case Insert(_) =>
    case Overwrite(_, ref) =>
    case InsertDup(_, _, _) =>
      if Actions.InRange(ops[j].act, ls) {
        LinePlaced(ops, recs, ls, j);
      }
    case Erase(ref) =>
      if 0 < ref <= |ls| {
        assert k == RemoveAt(ls, ref - 1) && Actions.Consolidate(ops[j].act, r) == RemoveAt(r, ref - 1);
        LineErased(ops, recs, ls, ref - 1);
      }
  }

  /** The lines that all operations leave. */
  lemma {:induction false} LinesAreRecords(ops: seq<Op>, n: nat, recs: seq<Rec>, ls: seq<int>)
    requires n <= |ops| && AllFit(ops, recs, ls)
    ensures var k := Actions.ConsolidateAll(CodedOps(ops)[..n], ls);
            AllFit(ops, recs, k) && RecsAt(ops, recs, k) ==
              Actions.ConsolidateAll(Acts(ops)[..n], RecsAt(ops, recs, ls))
  {
    if n > 0 {
      LinesAreRecords(ops, n - 1, recs, ls);
      assert CodedOps(ops)[..n][..n-1] == CodedOps(ops)[..n-1] && Acts(ops)[..n][..n-1] == Acts(ops)[..n-1];
      LineStep(ops, recs, Actions.ConsolidateAll(CodedOps(ops)[..n-1], ls), n - 1);
    }
  }
}
