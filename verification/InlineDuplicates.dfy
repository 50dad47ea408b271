/** The duplicates of a key inside a btree leaf, for records of fixed length
    (DuplicateInlineRecordList in 3btree/btree_records_duplicate.h). The chunk is
    an array of records, the first `count` of which are in use. */
module InlineDuplicates {
  import opened Seqs
  import opened DuplicateTables
  import opened Actions

  type Rec = int

  /** What stands behind the gap is what should stand there anyway. */
  predicate Repeats(a: seq<Rec>, p: nat, n: nat)
    requires 1 <= p < n < |a|
  {
    a[n] == a[n-1] && forall i, j :: p <= i && j == i + 2 <= n ==> a[i] == a[j]
  }

  /** Inserting in the middle moves the records the wrong way. */
  predicate Sound(a: seq<Rec>, p: nat, n: nat)
    requires p <= n < |a|
  {
    p == 0 || p == n || Repeats(a, p, n)
  }

  /** What an insert into the middle leaves instead: the records move down over the
      place, and what stood behind the list becomes part of it. */
  function Garbled(a: seq<Rec>, p: nat, n: nat, rec: Rec): seq<Rec>
    requires 0 < p < n < |a|
  {
    a[..p] + [rec] + a[p + 2..n + 1] + [a[n]]
  }

  class InlineList {
    var a: array<Rec>
    var count: nat

    ghost predicate Valid()
      reads this
    {
      count <= a.Length
    }

    ghost function Contents(): seq<Rec>
      requires Valid()
      reads this, a
    {
      a[..count]
    }

    constructor (room: nat)
      ensures Valid() && fresh(a) && Contents() == [] && a.Length == room
    {
      a := new Rec[room];
      count := 0;
    }

    method MemMove(dst: nat, src: nat, n: nat)
      requires dst + n <= a.Length && src + n <= a.Length
      modifies a
      ensures a[..] == Move(old(a[..]), dst, src, n)
    {
      forall i | dst <= i < dst + n {
        a[i] := a[i + (src - dst)];
      }
    }

    /** Writes the record at p after the source's move for that place. */
    method Put(p: nat, rec: Rec)
      requires Valid() && p <= count < a.Length
      modifies this`count, a
      ensures Valid() && count == old(count) + 1 && a[p] == rec
      ensures Contents() == InsertAt(old(Contents()), p, rec) <==> Sound(old(a[..]), p, old(count))
      ensures 0 < p < old(count) ==> Contents() == Garbled(old(a[..]), p, old(count), rec)
    {
      PutIs(a[..], p, count, rec);
      if p == 0 {
        MemMove(1, 0, count);
      } else {
        MemMove(p, p + 1, count - p);
      }
      a[p] := rec;
      count := count + 1;
    }

    /** set_record with one of the insert flags. The result is the vector insert
        if and only if the record goes to an end of the list or the records
        behind it happen to repeat. */
    method InsertRecord(idx: nat, rec: Rec, where: Where) returns (newIdx: nat)
      requires Valid() && idx <= count < a.Length
      modifies this`count, a
      ensures Valid() && count == old(count) + 1 && newIdx == Place(where, idx, old(count)) && a[newIdx] == rec
      ensures Contents() == InsertAt(old(Contents()), newIdx, rec) <==> Sound(old(a[..]), newIdx, old(count))
      ensures 0 < newIdx < old(count) ==> Contents() == Garbled(old(a[..]), newIdx, old(count), rec)
    {
      var at, i := where, idx;
      if at == Before && i == 0 {
        at := First;
      } else if at == After {
        if i == count {
          at := Last;
        } else {
          at, i := Before, i + 1;
        }
      }
      newIdx := if at == First then 0 else if at == Before then i else count;
      Put(newIdx, rec);
    }

    /** erase_record. */
    method EraseRecord(idx: nat, all: bool)
      requires Valid() && (all || idx < count)
      modifies this`count, a
      ensures Valid() && Contents() == if all then [] else RemoveAt(old(Contents()), idx)
    {
      if all || (count == 1 && idx == 0) {
        count := 0;
      } else {
        Close(idx);
      }
    }

    method Close(idx: nat)
      requires Valid() && idx < count
      modifies this`count, a
      ensures Valid() && Contents() == RemoveAt(old(Contents()), idx)
    {
      ghost var was, n := a[..], count;
      if idx < count - 1 {
        MemMove(idx, idx + 1, count - idx - 1);
      }
      count := count - 1;
      EraseIs(was, idx, n);
      assert a[..count] == a[..][..count] && was[..n] == old(Contents());
    }
  }

  /** The chunk after an insert at p. */
  function AfterPut(s: seq<Rec>, p: nat, n: nat, rec: Rec): (r: seq<Rec>)
    requires p <= n < |s|
    ensures |r| == |s|
  {
    (if p == 0 then Move(s, 1, 0, n) else Move(s, p, p + 1, n - p))[p := rec]
  }

  lemma PutIs(s: seq<Rec>, p: nat, n: nat, rec: Rec)
    requires p <= n < |s|
    ensures AfterPut(s, p, n, rec)[..n + 1] == InsertAt(s[..n], p, rec) <==> Sound(s, p, n)
    ensures 0 < p < n ==> AfterPut(s, p, n, rec)[..n + 1] == Garbled(s, p, n, rec)
  {
    var now := AfterPut(s, p, n, rec)[..n + 1];
    if p == 0 {
      AtFront(s, now, n, rec);
    } else if p == n {
      AtBack(s, now, n, rec);
    } else {
      Shifted(s, now, p, n, rec);
    }
  }

  lemma EraseIs(s: seq<Rec>, p: nat, n: nat)
    requires p < n <= |s|
    ensures (if p < n - 1 then Move(s, p, p + 1, n - p - 1) else s)[..n - 1] == RemoveAt(s[..n], p)
  {
  }

  lemma AtFront(was: seq<Rec>, now: seq<Rec>, n: nat, rec: Rec)
    requires n < |was| && |now| == n + 1 && now[0] == rec && forall j :: 1 <= j <= n ==> now[j] == was[j-1]
    ensures now == InsertAt(was[..n], 0, rec)
  {
  }

  lemma AtBack(was: seq<Rec>, now: seq<Rec>, n: nat, rec: Rec)
    requires n < |was| && |now| == n + 1 && now[n] == rec && forall j :: 0 <= j < n ==> now[j] == was[j]
    ensures now == InsertAt(was[..n], n, rec)
  {
  }

  /** The list after the move in the wrong direction. */
  lemma Shifted(was: seq<Rec>, now: seq<Rec>, p: nat, n: nat, rec: Rec)
    requires 0 < p < n < |was| && |now| == n + 1 && now[p] == rec && now[n] == was[n]
    requires forall j :: 0 <= j < p ==> now[j] == was[j]
    requires forall j :: p < j < n ==> now[j] == was[j+1]
    ensures now == InsertAt(was[..n], p, rec) <==> Repeats(was, p, n)
  {
    var want := InsertAt(was[..n], p, rec);
    assert want[n] == was[n-1];
    if Repeats(was, p, n) {
      forall j | 0 <= j <= n ensures now[j] == want[j] {
      }
    } else if was[n] == was[n-1] {
      var i, j :| p <= i && j == i + 2 <= n && was[i] != was[j];
      assert now[i+1] == was[j] && want[i+1] == was[i];
    }
  }

  /** Records 10, 20 and 30, and 40 inserted before the second: the result is 10, 40
      and twice what was behind the list. */
  method RecordsLost() returns (l: seq<Rec>)
    ensures l == [10, 40, 0, 0]
  {
    var list := new InlineList(4);
    list.a[0], list.a[1], list.a[2], list.a[3] := 10, 20, 30, 0;
    list.count := 3;
    assert list.a[..] == [10, 20, 30, 0];
    var _ := list.InsertRecord(1, 40, Before);
    l := list.a[..list.count];
  }
}
