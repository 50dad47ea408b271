/** Chunks of a payload area and the lists of slots that point to them
    (3btree/upfront_index.h), on values. */
module Chunks {
  import opened Seqs
  import TableBytes

  type Byte = TableBytes.Byte

  /** The size of a chunk is stored in one byte. */
  type ChunkSize = n: nat | n <= 255

  datatype Chunk = Chunk(offset: nat, size: ChunkSize)

  function End(c: Chunk): nat { c.offset + c.size }

  /** No byte in common; an empty chunk has none. */
  predicate Disjoint(a: Chunk, b: Chunk) { a.size == 0 || b.size == 0 || End(a) <= b.offset || End(b) <= a.offset }

  predicate Apart(s: seq<Chunk>) { forall i, j :: 0 <= i < j < |s| ==> Disjoint(s[i], s[j]) }

  predicate Within(s: seq<Chunk>, n: nat) { forall i :: 0 <= i < |s| ==> End(s[i]) <= n }

  predicate Behind(s: seq<Chunk>, n: nat) { forall i :: 0 <= i < |s| && s[i].size > 0 ==> End(s[i]) <= n }

  /** The end of the last of the first k chunks. */
  function MaxEnd(s: seq<Chunk>, k: nat): nat {
    if k == 0 || k > |s| then 0
    else if End(s[k-1]) >= MaxEnd(s, k - 1) then End(s[k-1]) else MaxEnd(s, k - 1)
  }

  lemma {:induction false} MaxEndBounds(s: seq<Chunk>, k: nat, size: nat)
    requires k <= |s| && forall i :: 0 <= i < k ==> End(s[i]) <= size
    ensures MaxEnd(s, k) <= size && forall i :: 0 <= i < k ==> End(s[i]) <= MaxEnd(s, k)
  {
    if k > 0 {
      MaxEndBounds(s, k - 1, size);
    }
  }

  /** It is the end of one of them. */
  lemma {:induction false} MaxEndReached(s: seq<Chunk>, k: nat)
    requires 0 < k <= |s|
    ensures exists i :: 0 <= i < k && End(s[i]) == MaxEnd(s, k)
  {
    if k > 1 && End(s[k-1]) < MaxEnd(s, k - 1) {
      MaxEndReached(s, k - 1);
    } else {
      assert End(s[k-1]) == MaxEnd(s, k);
    }
  }

  /** The greatest end of all chunks. */
  lemma GreatestEnd(s: seq<Chunk>, size: nat)
    requires Within(s, size)
    ensures forall i :: 0 <= i < |s| ==> End(s[i]) <= MaxEnd(s, |s|)
    ensures if s == [] then MaxEnd(s, |s|) == 0 else exists i :: 0 <= i < |s| && End(s[i]) == MaxEnd(s, |s|)
  {
    MaxEndBounds(s, |s|, size);
    if s != [] {
      MaxEndReached(s, |s|);
    }
  }

  /** The size of the first k chunks. */
  function Total(s: seq<Chunk>, k: nat): nat {
    if k == 0 || k > |s| then 0 else Total(s, k - 1) + s[k-1].size
  }

  /** All chunks, used and free, lie apart inside the payload; a cached next
      offset is behind them all. */
  predicate Sound(s: seq<Chunk>, next: int, size: nat) {
    && Apart(s) && Within(s, size)
    && (next == -1 || (0 <= next <= size && Behind(s, next)))
  }

  function Piece(p: seq<Byte>, c: Chunk): seq<Byte>
    requires End(c) <= |p|
  {
    p[c.offset..End(c)]
  }

  /** The data of a list of chunks. */
  function Pieces(p: seq<Byte>, s: seq<Chunk>): (d: seq<seq<Byte>>)
    requires Within(s, |p|)
    ensures |d| == |s| && forall i :: 0 <= i < |s| ==> d[i] == Piece(p, s[i])
  {
    seq(|s|, i requires 0 <= i < |s| => Piece(p, s[i]))
  }

  const INVALID: nat := 0xFFFF_FFFF

  // ---- the operations on the slots ----

  /** A new, empty slot among the used ones; used and free slots behind it move
      up. */
  lemma SlotInserted(all: seq<Chunk>, next: int, size: nat, slot: nat)
    requires Sound(all, next, size) && slot <= |all|
    ensures Sound(InsertAt(all, slot, Chunk(0, 0)), next, size)
  {
  }

  /** A slot moves to the end, behind the free ones. */
  lemma SlotFreed(all: seq<Chunk>, next: int, size: nat, slot: nat)
    requires Sound(all, next, size) && slot < |all|
    ensures Sound(RemoveAt(all, slot) + [all[slot]], next, size)
  {
  }

  /** Space at the end: a new chunk, or the last chunk with a new size. */
  lemma AppendedChunk(all: seq<Chunk>, next: nat, size: nat, slot: nat, bytes: ChunkSize)
    requires Sound(all, next, size) && slot < |all|
    requires next + bytes <= size
    ensures Sound(all[slot := Chunk(next, bytes)], next + bytes, size)
    ensures next == End(all[slot]) ==> Sound(all[slot := Chunk(all[slot].offset, bytes)], all[slot].offset + bytes,
            size)
  {
  }

  /** A free chunk at i is given to the slot, and its entry is removed. */
  lemma ReusedChunk(all: seq<Chunk>, next: int, size: nat, slot: nat, i: nat, bytes: ChunkSize)
    requires Sound(all, next, size) && slot < i < |all| && all[i].size >= bytes
    ensures Sound(RemoveAt(all[slot := Chunk(all[i].offset, bytes)], i), next, size)
    ensures Sound(RemoveAt(all[slot := Chunk(all[i].offset, bytes)], i), -1, size)
  {
  }

  lemma PiecesInserted(p: seq<Byte>, s: seq<Chunk>, slot: nat)
    requires Within(s, |p|) && slot <= |s|
    ensures Within(InsertAt(s, slot, Chunk(0, 0)), |p|)
    ensures Pieces(p, InsertAt(s, slot, Chunk(0, 0))) == InsertAt(Pieces(p, s), slot, [])
  {
    var t := InsertAt(s, slot, Chunk(0, 0));
    assert Within(t, |p|) by {
      forall i | 0 <= i < |t| ensures End(t[i]) <= |p| {
        assert i != slot ==> t[i] == s[if i < slot then i else i - 1];
      }
    }
    var a, b := Pieces(p, t), InsertAt(Pieces(p, s), slot, []);
    forall i | 0 <= i < |a| ensures a[i] == b[i] {
      if i == slot {
        assert a[i] == p[0..0];
      } else {
        var j := if i < slot then i else i - 1;
        assert t[i] == s[j] && b[i] == Pieces(p, s)[j];
      }
    }
  }

  lemma PiecesRemoved(p: seq<Byte>, s: seq<Chunk>, slot: nat)
    requires Within(s, |p|) && slot < |s|
    ensures Within(RemoveAt(s, slot), |p|)
    ensures Pieces(p, RemoveAt(s, slot)) == RemoveAt(Pieces(p, s), slot)
  {
  }

  /** The slots after an erase: those behind it move down, and its chunk is put
      behind the free ones, unless it is the last used slot anyway. */
  function SlotsErased(slots: seq<Chunk>, n: nat, total: nat, slot: nat): seq<Chunk>
    requires slot < n <= total <= |slots|
  {
    if slot == n - 1 then slots
    else slots[..slot] + slots[slot + 1..total] + [slots[slot]] + slots[total..]
  }

  lemma ErasedSlots(slots: seq<Chunk>, n: nat, total: nat, slot: nat, next: int, size: nat)
    requires slot < n <= total <= |slots| && Sound(slots[..total], next, size)
    ensures var r := SlotsErased(slots, n, total, slot);
            && |r| == |slots| && Sound(r[..total], next, size) && r[..n - 1] == RemoveAt(slots[..n], slot)
            && multiset(r[n - 1..total]) == multiset(slots[n..total]) + multiset{slots[slot]}
            && multiset(r[..total]) == multiset(slots[..total])
  {
    var r := SlotsErased(slots, n, total, slot);
    ErasedChunks(slots, n, total, slot);
    if slot < n - 1 {
      SlotFreed(slots[..total], next, size, slot);
      assert r[..total] == RemoveAt(slots[..total], slot) + [slots[..total][slot]];
    }
  }

  /** The freed chunk joins the free ones, and no chunk is lost. */
  lemma ErasedChunks(slots: seq<Chunk>, n: nat, total: nat, slot: nat)
    requires slot < n <= total <= |slots|
    ensures var r := SlotsErased(slots, n, total, slot);
            && |r| == |slots|
            && multiset(r[n - 1..total]) == multiset(slots[n..total]) + multiset{slots[slot]}
            && multiset(r[..total]) == multiset(slots[..total])
  {
    var r, c := SlotsErased(slots, n, total, slot), slots[slot];
    if slot < n - 1 {
      assert r[n - 1..total] == slots[n..total] + [c];
      assert r[..total] == slots[..slot] + slots[slot + 1..total] + [c];
      assert slots[..total] == slots[..slot] + [c] + slots[slot + 1..total];
    } else {
      assert r[n - 1..total] == [c] + slots[n..total];
    }
  }

  /** The slots after an insert: used and free slots behind it move up. */
  function SlotsInserted(slots: seq<Chunk>, total: nat, slot: nat): seq<Chunk>
    requires slot <= total < |slots|
  {
    slots[..slot] + [Chunk(0, 0)] + slots[slot..total] + slots[total + 1..]
  }

  lemma InsertedSlots(slots: seq<Chunk>, n: nat, total: nat, slot: nat)
    requires slot <= n <= total < |slots|
    ensures var r := SlotsInserted(slots, total, slot);
            && |r| == |slots|
            && r[..total + 1] == InsertAt(slots[..total], slot, Chunk(0, 0))
            && r[..n + 1] == InsertAt(slots[..n], slot, Chunk(0, 0)) && r[n + 1..total + 1] == slots[n..total]
  {
  }

  /** The slots after free chunk i has been given to a used slot. */
  function SlotsReused(slots: seq<Chunk>, total: nat, slot: nat, i: nat, bytes: ChunkSize): seq<Chunk>
    requires slot < i < total <= |slots|
  {
    var s := slots[slot := Chunk(slots[i].offset, bytes)];
    s[..i] + s[i + 1..total] + s[total - 1..]
  }

  lemma ReusedSlots(slots: seq<Chunk>, n: nat, total: nat, slot: nat, i: nat, bytes: ChunkSize)
    requires slot < n <= i < total <= |slots|
    ensures var r := SlotsReused(slots, total, slot, i, bytes); var c := Chunk(slots[i].offset, bytes);
            && |r| == |slots|
            && r[..total - 1] == RemoveAt(slots[..total][slot := c], i)
            && r[..n] == slots[..n][slot := c] && r[n..total - 1] == RemoveAt(slots[n..total], i - n)
  {
  }

  lemma FreeChunkUsed(slots: seq<Chunk>, n: nat, total: nat, slot: nat, i: nat, bytes: ChunkSize, next: int, size: nat)
    requires slot < n <= i < total <= |slots| && Sound(slots[..total], next, size) && slots[i].size >= bytes
    ensures var r := SlotsReused(slots, total, slot, i, bytes);
            && |r| == |slots| && r[..n] == slots[..n][slot := Chunk(slots[i].offset, bytes)]
            && r[n..total - 1] == RemoveAt(slots[n..total], i - n)
            && Sound(r[..total - 1], next, size) && Sound(r[..total - 1], -1, size)
  {
    ReusedSlots(slots, n, total, slot, i, bytes);
    ReusedChunk(slots[..total], next, size, slot, i, bytes);
  }

  // ---- sizes ----

  /** The length of the first k pieces of data. */
  function Length(d: seq<seq<Byte>>, k: nat): nat {
    if k == 0 || k > |d| then 0 else Length(d, k - 1) + |d[k-1]|
  }

  function Size(d: seq<seq<Byte>>): nat { Length(d, |d|) }

  lemma {:induction false} LengthIsTotal(p: seq<Byte>, s: seq<Chunk>, k: nat)
    requires Within(s, |p|) && k <= |s|
    ensures Length(Pieces(p, s), k) == Total(s, k)
  {
    if k > 0 {
      LengthIsTotal(p, s, k - 1);
      assert |Pieces(p, s)[k-1]| == s[k-1].size;
    }
  }

  lemma {:induction false} LengthGrows(d: seq<seq<Byte>>, j: nat, k: nat)
    requires j <= k <= |d|
    ensures Length(d, j) <= Length(d, k)
  {
    if j < k {
      LengthGrows(d, j, k - 1);
    }
  }

  lemma {:induction false} LengthPrefix(a: seq<seq<Byte>>, b: seq<seq<Byte>>, k: nat)
    requires k <= |a|
    ensures Length(a + b, k) == Length(a, k)
  {
    if k > 0 {
      LengthPrefix(a, b, k - 1);
    }
  }

  lemma {:induction false} LengthAppend(a: seq<seq<Byte>>, b: seq<seq<Byte>>, k: nat)
    requires k <= |b|
    ensures Length(a + b, |a| + k) == Length(a, |a|) + Length(b, k)
  {
    if k == 0 {
      LengthPrefix(a, b, |a|);
    } else {
      LengthAppend(a, b, k - 1);
      assert (a + b)[|a| + k - 1] == b[k-1];
    }
  }

  lemma LengthSplit(d: seq<seq<Byte>>, k: nat)
    requires k <= |d|
    ensures Size(d[..k]) + Size(d[k..]) == Size(d)
  {
    assert d == d[..k] + d[k..];
    LengthAppend(d[..k], d[k..], |d| - k);
  }

  // ---- writing a chunk ----

  /** Writing one chunk changes its own piece only. */
  lemma PieceWritten(p: seq<Byte>, q: seq<Byte>, s: seq<Chunk>, slot: nat, data: seq<Byte>)
    requires Apart(s) && Within(s, |p|) && slot < |s| && |data| == s[slot].size && |q| == |p|
    requires forall x :: 0 <= x < s[slot].offset || End(s[slot]) <= x < |p| ==> q[x] == p[x]
    requires Piece(q, s[slot]) == data
    ensures Pieces(q, s) == Pieces(p, s)[slot := data]
  {
    forall i | 0 <= i < |s| && i != slot ensures Piece(q, s[i]) == Piece(p, s[i]) {
      assert Disjoint(s[if i < slot then i else slot], s[if i < slot then slot else i]);
      OtherPiece(p, q, s[slot], s[i]);
    }
  }

  lemma OtherPiece(p: seq<Byte>, q: seq<Byte>, w: Chunk, c: Chunk)
    requires |p| == |q| && End(w) <= |p| && End(c) <= |p| && (Disjoint(w, c) || Disjoint(c, w))
    requires forall x :: 0 <= x < w.offset || End(w) <= x < |p| ==> q[x] == p[x]
    ensures w.size > 0 ==> Piece(q, c) == Piece(p, c)
    ensures w.size == 0 ==> q == p
  {
  }

  /** Giving the last slot another chunk does not touch the data of the rest. */
  lemma Resized(p: seq<Byte>, s: seq<Chunk>, d: seq<seq<Byte>>, k: nat, c: Chunk)
    requires Within(s, |p|) && |s| == k + 1 && End(c) <= |p| && Pieces(p, s) == d + [[]]
    ensures Within(s[k := c], |p|) && Pieces(p, s[k := c])[..k] == d
  {
    assert Pieces(p, s)[..k] == d;
  }
}
