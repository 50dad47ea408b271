/** The compaction of a slot directory's payload (UpfrontIndex::vacuumize in
    3btree/upfront_index.h): the invariant of its loop, on values. */
module Vacuum {
  import opened Chunks

  /** A copy of a slot: its offset and its number (SortHelper). */
  datatype Entry = Entry(offset: nat, slot: nat)

  predicate Sorted(s: seq<Entry>) { forall i, j :: 0 <= i < j < |s| ==> s[i].offset <= s[j].offset }

  predicate DistinctSlots(s: seq<Entry>) { forall i, j :: 0 <= i < j < |s| ==> s[i].slot != s[j].slot }

  function InsertSorted(s: seq<Entry>, e: Entry): seq<Entry> {
    if s == [] || s[|s|-1].offset <= e.offset then s + [e]
    else InsertSorted(s[..|s|-1], e) + [s[|s|-1]]
  }

  function SortByOffset(s: seq<Entry>): seq<Entry> {
    if s == [] then [] else InsertSorted(SortByOffset(s[..|s|-1]), s[|s|-1])
  }

  lemma {:induction false} InsertSortedKeeps(s: seq<Entry>, e: Entry)
    requires Sorted(s) && DistinctSlots(s) && forall i :: 0 <= i < |s| ==> s[i].slot != e.slot
    ensures var r := InsertSorted(s, e);
            && |r| == |s| + 1 && Sorted(r) && DistinctSlots(r)
            && (forall x :: x in r <==> x in s || x == e)
  {
    if s != [] && s[|s|-1].offset > e.offset {
      var q := s[..|s|-1];
      InsertSortedKeeps(q, e);
      var r := InsertSorted(q, e);
      assert s == q + [s[|s|-1]];
      forall i | 0 <= i < |r| ensures r[i].offset <= s[|s|-1].offset && r[i].slot != s[|s|-1].slot {
        assert r[i] in r;
      }
    }
  }

  lemma {:induction false} SortKeeps(s: seq<Entry>)
    requires DistinctSlots(s)
    ensures var r := SortByOffset(s);
            |r| == |s| && Sorted(r) && DistinctSlots(r) && forall x :: x in r <==> x in s
  {
    if s != [] {
      var q := s[..|s|-1];
      SortKeeps(q);
      assert s == q + [s[|s|-1]];
      var r := SortByOffset(q);
      forall i | 0 <= i < |r| ensures r[i].slot != s[|s|-1].slot {
        assert r[i] in q;
      }
      InsertSortedKeeps(r, s[|s|-1]);
    }
  }

  /** s lists slots of c, each at most once, ordered by offset. */
  ghost predicate Listing(c: seq<Chunk>, s: seq<Entry>) {
    && |s| == |c| && Sorted(s) && DistinctSlots(s)
    && (forall i :: 0 <= i < |s| ==> s[i].slot < |c| && s[i].offset == c[s[i].slot].offset)
  }

  /** Every slot of c is listed. */
  ghost predicate Complete(c: seq<Chunk>, s: seq<Entry>) { forall k: nat :: k < |c| ==> Entry(c[k].offset, k) in s }

  /** A move of len bytes inside the payload. */
  ghost predicate Moved(p: seq<Byte>, q: seq<Byte>, dst: nat, src: nat, len: nat)
    requires dst + len <= |p| && src + len <= |p|
  {
    && |q| == |p|
    && (forall x :: 0 <= x < dst || dst + len <= x < |p| ==> q[x] == p[x])
    && (forall x :: dst <= x < dst + len ==> q[x] == p[x + (src - dst)])
  }

  ghost predicate RestSame(p0: seq<Byte>, p: seq<Byte>, nx: nat) {
    |p| == |p0| && forall x :: nx <= x < |p| ==> p[x] == p0[x]
  }

  ghost predicate Untouched(c: seq<Chunk>, s: seq<Entry>, i: nat, sl: seq<Chunk>) {
    |sl| == |c| && forall j :: i <= j < |s| ==> s[j].slot < |c| && sl[s[j].slot] == c[s[j].slot]
  }

  ghost predicate InPlace(p0: seq<Byte>, c: seq<Chunk>, s: seq<Entry>, i: nat, p: seq<Byte>, sl: seq<Chunk>, nx: nat) {
    && |sl| == |c| && i <= |s|
    && forall j :: 0 <= j < i ==> s[j].slot < |c| && PackedChunk(p0, c[s[j].slot], p, sl[s[j].slot], nx)
  }

  ghost predicate InOrder(s: seq<Entry>, i: nat, sl: seq<Chunk>) {
    && i <= |s| && (forall j :: 0 <= j < i ==> s[j].slot < |sl|)
    && forall j, k :: 0 <= j < k < i ==> End(sl[s[j].slot]) <= sl[s[k].slot].offset
  }

  ghost predicate Ahead(c: seq<Chunk>, s: seq<Entry>, i: nat, nx: nat) {
    forall j :: i <= j < |s| ==> s[j].slot < |c| && (c[s[j].slot].size > 0 ==> nx <= s[j].offset)
  }

  /** The first i chunks in the order of their offsets have been moved to the
      front, without gaps, and everything from nx on is as it was. */
  ghost predicate Packed(p0: seq<Byte>, c: seq<Chunk>, s: seq<Entry>, i: nat, p: seq<Byte>, sl: seq<Chunk>, nx: nat) {
    && i <= |s| && nx <= |p| && nx == Sum(c, s, i)
    && RestSame(p0, p, nx) && Untouched(c, s, i, sl) && InPlace(p0, c, s, i, p, sl, nx) && InOrder(s, i, sl) &&
      Ahead(c, s, i, nx)
  }

  ghost predicate PackedChunk(p0: seq<Byte>, was: Chunk, p: seq<Byte>, now: Chunk, nx: nat) {
    && now.size == was.size && End(now) <= nx <= |p| && End(was) <= |p0|
    && Piece(p, now) == Piece(p0, was)
  }

  /** A chunk that is in place stays in place. */
  lemma StayPacked(p0: seq<Byte>, was: Chunk, p: seq<Byte>, now: Chunk, nx: nat, q: seq<Byte>, src: nat, z: nat)
    requires PackedChunk(p0, was, p, now, nx) && nx + z <= |p| && src + z <= |p| && Moved(p, q, nx, src, z)
    ensures PackedChunk(p0, was, q, now, nx + z)
  {
  }

  /** The chunk that is moved arrives with its data. */
  lemma NowPacked(p0: seq<Byte>, was: Chunk, p: seq<Byte>, nx: nat, q: seq<Byte>)
    requires |p| == |p0| && End(was) <= |p| && nx + was.size <= |p| && Moved(p, q, nx, was.offset, was.size)
    requires forall x :: nx <= x < |p| ==> p[x] == p0[x]
    requires was.size > 0 ==> nx <= was.offset
    ensures PackedChunk(p0, was, q, Chunk(nx, was.size), nx + was.size)
  {
  }

  lemma StepUntouched(c: seq<Chunk>, s: seq<Entry>, i: nat, sl: seq<Chunk>, n: Chunk)
    requires Untouched(c, s, i, sl) && i < |s| && DistinctSlots(s)
    ensures Untouched(c, s, i + 1, sl[s[i].slot := n])
  {
  }

  lemma StepOrder(s: seq<Entry>, i: nat, sl: seq<Chunk>, nx: nat, z: ChunkSize)
    requires InOrder(s, i, sl) && i < |s| && DistinctSlots(s) && s[i].slot < |sl|
    requires forall j :: 0 <= j < i ==> End(sl[s[j].slot]) <= nx
    ensures InOrder(s, i + 1, sl[s[i].slot := Chunk(nx, z)])
  {
  }

  lemma StepAhead(c: seq<Chunk>, s: seq<Entry>, i: nat, nx: nat)
    requires Listing(c, s) && Apart(c) && i < |s| && Ahead(c, s, i, nx)
    ensures Ahead(c, s, i + 1, nx + c[s[i].slot].size)
  {
  }

  lemma StepInPlace(p0: seq<Byte>, c: seq<Chunk>, s: seq<Entry>, i: nat, p: seq<Byte>, sl: seq<Chunk>, nx: nat,
                    q: seq<Byte>)
    requires InPlace(p0, c, s, i, p, sl, nx) && RestSame(p0, p, nx) && i < |s| && DistinctSlots(s) && s[i].slot < |c|
    requires End(c[s[i].slot]) <= |p0| && (c[s[i].slot].size > 0 ==> nx <= c[s[i].slot].offset)
    requires var w := c[s[i].slot]; nx + w.size <= |p| && Moved(p, q, nx, w.offset, w.size)
    ensures var w := c[s[i].slot]; InPlace(p0, c, s, i + 1, q, sl[s[i].slot := Chunk(nx, w.size)], nx + w.size)
  {
    var w := c[s[i].slot];
    forall j | 0 <= j < i ensures PackedChunk(p0, c[s[j].slot], q, sl[s[j].slot], nx + w.size) {
      StayPacked(p0, c[s[j].slot], p, sl[s[j].slot], nx, q, w.offset, w.size);
    }
    NowPacked(p0, w, p, nx, q);
  }

  lemma StepRest(p0: seq<Byte>, p: seq<Byte>, nx: nat, q: seq<Byte>, src: nat, z: nat)
    requires RestSame(p0, p, nx) && nx + z <= |p| && src + z <= |p| && Moved(p, q, nx, src, z)
    ensures RestSame(p0, q, nx + z)
  {
  }

  /** The chunks lie apart in the area and s lists them. */
  ghost predicate Packable(p0: seq<Byte>, c: seq<Chunk>, s: seq<Entry>) { Listing(c, s) && Apart(c) && Within(c, |p0|) }

  /** The next chunk is where it was, and there is room for it at nx. */
  lemma NextChunk(p0: seq<Byte>, c: seq<Chunk>, s: seq<Entry>, i: nat, p: seq<Byte>, sl: seq<Chunk>, nx: nat)
    requires Packable(p0, c, s) && Packed(p0, c, s, i, p, sl, nx) && i < |s|
    ensures s[i].slot < |sl| == |c| && sl[s[i].slot] == c[s[i].slot] && s[i].offset == c[s[i].slot].offset
    ensures nx + c[s[i].slot].size <= |p| && End(c[s[i].slot]) <= |p|
  {
  }

  /** One step of the loop: the next chunk moves to nx. */
  lemma PackStep(p0: seq<Byte>, c: seq<Chunk>, s: seq<Entry>, i: nat, p: seq<Byte>, sl: seq<Chunk>, nx: nat,
                    q: seq<Byte>)
    requires Packable(p0, c, s) && Packed(p0, c, s, i, p, sl, nx) && i < |s|
    requires var w := c[s[i].slot]; nx + w.size <= |p| && Moved(p, q, nx, w.offset, w.size)
    ensures var k := s[i].slot; Packed(p0, c, s, i + 1, q, sl[k := Chunk(nx, c[k].size)], nx + c[k].size)
  {
    var w := c[s[i].slot];
    StepRest(p0, p, nx, q, w.offset, w.size);
    StepUntouched(c, s, i, sl, Chunk(nx, w.size));
    StepAhead(c, s, i, nx);
    assert InOrder(s, i + 1, sl[s[i].slot := Chunk(nx, w.size)]) by {
      StepOrder(s, i, sl, nx, w.size);
    }
    StepInPlace(p0, c, s, i, p, sl, nx, q);
  }

  lemma Listed(c: seq<Chunk>, s: seq<Entry>, k: nat) returns (i: nat)
    requires Complete(c, s) && k < |c|
    ensures i < |s| && s[i].slot == k
  {
    assert Entry(c[k].offset, k) in s;
    i :| i < |s| && s[i] == Entry(c[k].offset, k);
  }

  lemma PackedApart(c: seq<Chunk>, s: seq<Entry>, sl: seq<Chunk>, k: nat, m: nat)
    requires Complete(c, s) && InOrder(s, |s|, sl) && k < m < |c| == |sl|
    ensures Disjoint(sl[k], sl[m])
  {
    var i := Listed(c, s, k);
    var j := Listed(c, s, m);
    assert End(sl[s[if i < j then i else j].slot]) <= sl[s[if i < j then j else i].slot].offset;
  }

  lemma PackedSlot(p0: seq<Byte>, c: seq<Chunk>, s: seq<Entry>, p: seq<Byte>, sl: seq<Chunk>, nx: nat, k: nat)
    requires Complete(c, s) && InPlace(p0, c, s, |s|, p, sl, nx) && k < |c|
    ensures PackedChunk(p0, c[k], p, sl[k], nx)
  {
  }

  /** After the last step all chunks hold their data and lie apart below nx. */
  lemma PackedAll(p0: seq<Byte>, c: seq<Chunk>, s: seq<Entry>, p: seq<Byte>, sl: seq<Chunk>, nx: nat)
    requires Packable(p0, c, s) && Packed(p0, c, s, |s|, p, sl, nx) && Complete(c, s)
    ensures Sound(sl, nx, |p|) && Pieces(p, sl) == Pieces(p0, c)
    ensures forall k :: 0 <= k < |c| ==> sl[k].size == c[k].size
  {
    assert forall k :: 0 <= k < |c| ==> PackedChunk(p0, c[k], p, sl[k], nx) by {
      forall k | 0 <= k < |c| ensures PackedChunk(p0, c[k], p, sl[k], nx) {
        PackedSlot(p0, c, s, p, sl, nx, k);
      }
    }
    assert Apart(sl) by {
      forall k, m | 0 <= k < m < |c| ensures Disjoint(sl[k], sl[m]) {
        PackedApart(c, s, sl, k, m);
      }
    }
  }

  // ---- listings ----

  /** The slots of c in their own order. */
  function Identity(c: seq<Chunk>): (s: seq<Entry>)
    ensures |s| == |c| && forall i: nat :: i < |c| ==> s[i] == Entry(c[i].offset, i)
  {
    seq(|c|, i requires 0 <= i < |c| => Entry(c[i].offset, i))
  }

  lemma SortedListing(c: seq<Chunk>)
    ensures Listing(c, SortByOffset(Identity(c))) && Complete(c, SortByOffset(Identity(c)))
  {
    var s := Identity(c);
    SortKeeps(s);
    var r := SortByOffset(s);
    forall i | 0 <= i < |r| ensures r[i].slot < |c| && r[i].offset == c[r[i].slot].offset {
      assert r[i] in s;
    }
    forall k: nat | k < |c| ensures Entry(c[k].offset, k) in r {
      assert s[k] in s;
    }
  }

  lemma IdentityListing(c: seq<Chunk>)
    requires Sorted(Identity(c))
    ensures Listing(c, Identity(c)) && Complete(c, Identity(c))
  {
  }

  function SizeOf(c: seq<Chunk>, e: Entry): nat { if e.slot < |c| then c[e.slot].size else 0 }

  /** The sizes of the first i listed chunks. */
  function Sum(c: seq<Chunk>, s: seq<Entry>, i: nat): nat {
    if i == 0 || i > |s| then 0 else Sum(c, s, i - 1) + SizeOf(c, s[i-1])
  }

  lemma {:induction false} SumPrefix(c: seq<Chunk>, a: seq<Entry>, b: seq<Entry>, i: nat)
    requires i <= |a| && i <= |b| && forall j :: 0 <= j < i ==> a[j] == b[j]
    ensures Sum(c, a, i) == Sum(c, b, i)
  {
    if i > 0 {
      SumPrefix(c, a, b, i - 1);
    }
  }

  lemma {:induction false} InsertSortedSum(c: seq<Chunk>, s: seq<Entry>, e: Entry)
    ensures |InsertSorted(s, e)| == |s| + 1
    ensures Sum(c, InsertSorted(s, e), |s| + 1) == Sum(c, s, |s|) + SizeOf(c, e)
  {
    if s == [] || s[|s|-1].offset <= e.offset {
      SumPrefix(c, s + [e], s, |s|);
    } else {
      var q := s[..|s|-1];
      InsertSortedSum(c, q, e);
      var r := InsertSorted(q, e);
      SumPrefix(c, r + [s[|s|-1]], r, |s|);
      SumPrefix(c, s, q, |q|);
    }
  }

  lemma {:induction false} SortSum(c: seq<Chunk>, s: seq<Entry>)
    ensures |SortByOffset(s)| == |s| && Sum(c, SortByOffset(s), |s|) == Sum(c, s, |s|)
  {
    if s != [] {
      var q := s[..|s|-1];
      SortSum(c, q);
      InsertSortedSum(c, SortByOffset(q), s[|s|-1]);
      SumPrefix(c, s, q, |q|);
    }
  }

  lemma {:induction false} IdentitySum(c: seq<Chunk>, n: nat)
    requires n <= |c|
    ensures Sum(c, Identity(c), n) == Total(c, n)
  {
    if n > 0 {
      IdentitySum(c, n - 1);
    }
  }

  lemma {:induction false} PrefixFits(c: seq<Chunk>, s: seq<Entry>, i: nat, size: nat)
    requires Listing(c, s) && Apart(c) && Within(c, size) && i <= |s|
    ensures Ahead(c, s, i, Sum(c, s, i)) && Sum(c, s, i) <= size
  {
    if i > 0 {
      PrefixFits(c, s, i - 1, size);
      StepAhead(c, s, i - 1, Sum(c, s, i - 1));
      assert End(c[s[i-1].slot]) <= size;
    }
  }

  lemma SortedSum(c: seq<Chunk>)
    ensures Listing(c, SortByOffset(Identity(c))) && Complete(c, SortByOffset(Identity(c)))
    ensures Sum(c, SortByOffset(Identity(c)), |c|) == Total(c, |c|)
  {
    SortedListing(c);
    SortSum(c, Identity(c));
    IdentitySum(c, |c|);
  }

  lemma SomeListing(c: seq<Chunk>) returns (s: seq<Entry>)
    ensures Listing(c, s) && Sum(c, s, |c|) == Total(c, |c|)
  {
    s := SortByOffset(Identity(c));
    SortedSum(c);
  }

  /** Chunks that lie apart in an area fit into it one after the other. */
  lemma TotalFits(c: seq<Chunk>, size: nat)
    requires Apart(c) && Within(c, size)
    ensures Total(c, |c|) <= size
  {
    var s := SomeListing(c);
    PrefixFits(c, s, |s|, size);
  }

  lemma PackStart(p: seq<Byte>, c: seq<Chunk>, s: seq<Entry>)
    requires Packable(p, c, s)
    ensures Packed(p, c, s, 0, p, c, 0)
  {
  }
}
