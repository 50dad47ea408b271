/** What one logged operation does to the duplicate list of its key: once as
    readers consolidate it (4cursor/cursor_local.cc, append_txn_duplicates) and
    once as a flush carries it out on the btree (4db/db_local.cc,
    flush_txn_operation). The two differ, and FlushAgrees says exactly when. */
module Actions {
  import opened Seqs

  type Key = int
  type Rec = int

  /** All records stored under one key, oldest position first; an absent key
      has the empty list. */
  type Dups = seq<Rec>

  datatype Where = First | Before | After | Last

  /** The four kinds of TxnOperation; `ref` is the 1-based referenced_duplicate,
      0 meaning that no duplicate is referenced. */
  datatype Action =
    | Insert(rec: Rec)
    | Overwrite(rec: Rec, ref: nat)
    | InsertDup(rec: Rec, at: Where, ref: nat)
    | Erase(ref: nat)

  /** The references that the source asserts to be valid positions. */
  predicate InRange(a: Action, d: Dups) {
    match a
    case Insert(_) => true
    case Overwrite(_, ref) => ref <= |d|
    case InsertDup(_, Before, ref) => 1 <= ref && ref - 1 <= |d|
    case InsertDup(_, After, ref) => 1 <= ref
    case InsertDup(_, _, _) => true
    case Erase(ref) => ref <= |d|
  }

  /** The reader's meaning of an operation. */
  function Consolidate(a: Action, d: Dups): Dups {
    if !InRange(a, d) then d else
    match a
    case Insert(r) => [r]
    case Overwrite(r, ref) => if ref > 0 then d[ref-1 := r] else [r]
    case InsertDup(r, First, _) => [r] + d
    case InsertDup(r, Before, ref) => InsertAt(d, ref - 1, r)
    case InsertDup(r, After, ref) => if ref >= |d| then d + [r] else InsertAt(d, ref, r)
    case InsertDup(r, Last, _) => d + [r]
    case Erase(ref) => if ref > 0 then d[..ref-1] + d[ref..] else []
  }

  /** The flush's meaning: a btree insert or erase without a coupled cursor, so
      the duplicate position handed to the record list is 0. */
  function Apply(a: Action, d: Dups): Dups {
    if !InRange(a, d) then d else
    match a
    case Insert(r) => if d == [] then [r] else d[0 := r]
    case Overwrite(r, _) => if d == [] then [r] else d[0 := r]
    case InsertDup(r, First, _) => [r] + d
    case InsertDup(r, Before, _) => [r] + d
    case InsertDup(r, After, _) => if d == [] then [r] else InsertAt(d, 1, r)
    case InsertDup(r, Last, _) => d + [r]
    case Erase(ref) => if ref > 0 then d[..ref-1] + d[ref..] else []
  }

  /** Where a duplicate table puts a new record; `idx` is the 0-based index of the
      duplicate that the flag refers to. */
  function Place(at: Where, idx: nat, count: nat): nat {
    match at
    case First => 0
    case Before => idx
    case After => if idx < count then idx + 1 else count
    case Last => count
  }

  lemma InsertedOnce(d: Dups, p: nat, r: Rec)
    requires p <= |d|
    ensures multiset(InsertAt(d, p, r)) == multiset(d) + multiset{r}
  {
    assert d == d[..p] + d[p..];
  }

  lemma ConsolidatePlaces(r: Rec, at: Where, ref: nat, d: Dups)
    requires InRange(InsertDup(r, at, ref), d)
    ensures var p := Place(at, if ref == 0 then 0 else ref - 1, |d|);
            p <= |d| && Consolidate(InsertDup(r, at, ref), d) == InsertAt(d, p, r)
  {
  }

  lemma ApplyPlaces(r: Rec, at: Where, ref: nat, d: Dups)
    requires InRange(InsertDup(r, at, ref), d)
    ensures Apply(InsertDup(r, at, ref), d) == InsertAt(d, if d == [] then 0 else Place(at, 0, |d|), r)
  {
  }

  /** What readers find, for every operation: a duplicate is inserted at the place
      it refers to, an overwrite of one duplicate replaces it and no other, one of
      the key leaves a single record, and an erase removes one record or all.
      References outside of the list do nothing. */
  lemma ConsolidateExact(a: Action, d: Dups)
    ensures !InRange(a, d) ==> Consolidate(a, d) == d
    ensures InRange(a, d) ==>
            var c := Consolidate(a, d);
            match a
            case Insert(r) => c == [r]
            case Overwrite(r, ref) =>
              if ref == 0 then c == [r]
              else |c| == |d| && forall i :: 0 <= i < |d| ==> c[i] == if i == ref - 1 then r else d[i]
            case InsertDup(r, at, ref) =>
              var p := Place(at, if ref == 0 then 0 else ref - 1, |d|);
              p <= |d| && c == InsertAt(d, p, r) && multiset(c) == multiset(d) + multiset{r}
            case Erase(ref) => if ref == 0 then c == [] else c == RemoveAt(d, ref - 1)
  {
    if a.InsertDup? && InRange(a, d) {
      ConsolidatePlaces(a.rec, a.at, a.ref, d);
      InsertedOnce(d, Place(a.at, if a.ref == 0 then 0 else a.ref - 1, |d|), a.rec);
    }
  }

  /** What a flush writes, for every operation: a duplicate is inserted where the
      flag puts it if the first duplicate is the one it refers to, an insert or an
      overwrite replaces the first record and keeps the others, and an erase removes
      one record or all. No record is lost or invented. */
  lemma ApplyExact(a: Action, d: Dups)
    ensures !InRange(a, d) ==> Apply(a, d) == d
    ensures InRange(a, d) ==>
            var c := Apply(a, d);
            match a
            case Insert(r) => c == [r] + if d == [] then [] else d[1..]
            case Overwrite(r, _) => c == [r] + if d == [] then [] else d[1..]
            case InsertDup(r, at, _) =>
              c == InsertAt(d, if d == [] then 0 else Place(at, 0, |d|), r) && multiset(c) == multiset(d) + multiset{r}
            case Erase(ref) => if ref == 0 then c == [] else c == RemoveAt(d, ref - 1)
  {
    if a.InsertDup? && InRange(a, d) {
      ApplyPlaces(a.rec, a.at, a.ref, d);
      InsertedOnce(d, if d == [] then 0 else Place(a.at, 0, |d|), a.rec);
    }
  }

  function Min(a: nat, b: nat): nat { if a <= b then a else b }

  /** A whole-key overwrite must find at most one record, and a positional
      operation must reference the position a cursor-less flush uses, up to
      records that are equal anyway. */
  predicate FlushSafe(a: Action, d: Dups) {
    match a
    case Insert(_) => |d| <= 1
    case Overwrite(r, ref) =>
      if ref == 0 then |d| <= 1
      else ref == 1 || ref > |d| || (d[0] == r && d[ref-1] == r)
    case InsertDup(r, Before, ref) => forall j :: 0 <= j < Min(ref, |d| + 1) - 1 ==> d[j] == r
    case InsertDup(r, After, ref) => forall j :: 1 <= j < Min(ref, |d|) ==> d[j] == r
    case InsertDup(_, _, _) => true
    case Erase(_) => true
  }

  lemma InsertAtSame(d: Dups, i: nat, j: nat, r: Rec)
    requires i <= j <= |d|
    ensures InsertAt(d, i, r) == InsertAt(d, j, r) <==> forall x :: i <= x < j ==> d[x] == r
  {
    var a, b := InsertAt(d, i, r), InsertAt(d, j, r);
    if forall x :: i <= x < j ==> d[x] == r {
      forall x | 0 <= x < |a| ensures a[x] == b[x] {
      }
    } else {
      var x :| i <= x < j && d[x] != r && forall y :: i <= y < x ==> d[y] == r by {
        FirstDifferent(d, i, j, r);
      }
      assert a[x] == (if x == i then r else d[x-1]) == r;
      assert b[x] == d[x];
    }
  }

  lemma {:induction false} FirstDifferent(d: Dups, i: nat, j: nat, r: Rec)
    requires i <= j <= |d|
    requires exists x :: i <= x < j && d[x] != r
    ensures exists x :: i <= x < j && d[x] != r && forall y :: i <= y < x ==> d[y] == r
    decreases j - i
  {
    if d[i] == r {
      FirstDifferent(d, i + 1, j, r);
    }
  }

  lemma OverwriteAgrees(r: Rec, ref: nat, d: Dups)
    requires 0 < ref <= |d|
    ensures d[0 := r] == d[ref-1 := r] <==> ref == 1 || (d[0] == r && d[ref-1] == r)
  {
    if ref > 1 {
      var a, b := d[0 := r], d[ref-1 := r];
      assert a[0] == r && b[0] == d[0] && a[ref-1] == d[ref-1] && b[ref-1] == r;
    }
  }

  lemma BeforeAgrees(r: Rec, ref: nat, d: Dups)
    requires 1 <= ref && ref - 1 <= |d|
    ensures [r] + d == InsertAt(d, ref - 1, r) <==> forall j :: 0 <= j < ref - 1 ==> d[j] == r
  {
    assert [r] + d == InsertAt(d, 0, r);
    InsertAtSame(d, 0, ref - 1, r);
  }

  lemma AfterAgrees(r: Rec, ref: nat, d: Dups)
    requires 1 <= ref && d != []
    ensures InsertAt(d, 1, r) == (if ref >= |d| then d + [r] else InsertAt(d, ref, r)) <==>
            forall j :: 1 <= j < Min(ref, |d|) ==> d[j] == r
  {
    assert d + [r] == InsertAt(d, |d|, r);
    InsertAtSame(d, 1, Min(ref, |d|), r);
  }

  /** A flush changes what readers see of one key, by one operation, exactly
      when the operation is not FlushSafe. */
  lemma FlushAgrees(a: Action, d: Dups)
    requires InRange(a, d)
    ensures Apply(a, d) == Consolidate(a, d) <==> FlushSafe(a, d)
  {
    match a
    case Insert(r) =>
      if d != [] {
        assert d[0 := r] == [r] <==> |d| == 1;
      }
    case Overwrite(r, ref) =>
      if ref > 0 {
        OverwriteAgrees(r, ref, d);
      } else if d != [] {
        assert d[0 := r] == [r] <==> |d| == 1;
      }
    case InsertDup(r, Before, ref) =>
      BeforeAgrees(r, ref, d);
    case InsertDup(r, After, ref) =>
      if d != [] {
        AfterAgrees(r, ref, d);
      }
    case InsertDup(r, _, _) =>
    case Erase(_) =>
  }

  /** append_txn_duplicates: the duplicate cache is started with the btree's
      records and updated in place by every operation of the node, oldest
      first. */
  method BuildDuplicateCache(btree: Dups, ops: seq<Action>) returns (cache: Dups)
    ensures cache == ConsolidateAll(ops, btree)
  {
    cache := btree;
    for i := 0 to |ops|
      invariant cache == ConsolidateAll(ops[..i], btree)
    {
      assert ops[..i+1][..i] == ops[..i];
      cache := Consolidate(ops[i], cache);
    }
    assert ops[..|ops|] == ops;
  }

  function ConsolidateAll(ops: seq<Action>, d: Dups): Dups {
    if ops == [] then d
    else Consolidate(ops[|ops|-1], ConsolidateAll(ops[..|ops|-1], d))
  }
}
