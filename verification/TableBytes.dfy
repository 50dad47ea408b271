/** The byte layout of the overflow table for the duplicates of one key
    (DuplicateTable in 3btree/btree_records_duplicate.h) in its variable-length
    form: count, capacity, and nine bytes for each duplicate. */
module TableBytes {
  import opened Seqs

  type Byte = x: int | 0 <= x < 256
  type Bytes = seq<Byte>
  type Id = nat

  const ID_LIMIT: nat := 0x1_0000_0000_0000_0000

  // ---- words ----

  function Power(n: nat): nat { if n == 0 then 1 else 256 * Power(n - 1) }

  /** A word of n bytes, low byte first. */
  function ToBytes(w: nat, n: nat): (b: Bytes)
    ensures |b| == n
  {
    if n == 0 then [] else [w % 256] + ToBytes(w / 256, n - 1)
  }

  function FromBytes(b: Bytes): nat {
    if b == [] then 0 else b[0] + 256 * FromBytes(b[1..])
  }

  lemma {:induction false} WordRoundTrip(w: nat, n: nat)
    requires w < Power(n)
    ensures FromBytes(ToBytes(w, n)) == w
  {
    if n > 0 {
      assert w / 256 < Power(n - 1);
      WordRoundTrip(w / 256, n - 1);
      assert ToBytes(w, n)[1..] == ToBytes(w / 256, n - 1);
    }
  }

  function Digit(w: nat, i: nat): Byte { if i == 0 then w % 256 else Digit(w / 256, i - 1) }

  /** Each byte holds its digit. */
  lemma {:induction false} ByteAt(w: nat, n: nat, i: nat)
    requires i < n
    ensures ToBytes(w, n)[i] == Digit(w, i)
  {
    if i > 0 {
      ByteAt(w / 256, n - 1, i - 1);
    }
  }

  lemma Powers()
    ensures Power(4) == 0x1_0000_0000 && Power(8) == ID_LIMIT
  {
  }

  // ---- slots ----

  const TINY: Byte := 1
  const SMALL: Byte := 2
  const EMPTY: Byte := 4

  datatype Slot = Inline(data: Bytes) | Blob(id: Id)

  predicate WellFormed(b: Bytes) { |b| == 9 && b[0] in {0, TINY, SMALL, EMPTY} && (b[0] == TINY ==> b[8] <= 7) }

  function DecodeSlot(b: Bytes): Slot
    requires WellFormed(b)
  {
    if b[0] == EMPTY then Inline([])
    else if b[0] == TINY then Inline(b[1..1+b[8]])
    else if b[0] == SMALL then Inline(b[1..9])
    else Blob(FromBytes(b[1..9]))
  }

  /** A record of at most eight bytes; what a shorter one does not cover keeps
      the bytes that were there. */
  function StoreInline(old9: Bytes, rec: Bytes): Bytes
    requires |old9| == 9 && |rec| <= 8
  {
    if |rec| == 0 then [EMPTY, 0, 0, 0, 0, 0, 0, 0, 0]
    else if |rec| < 8 then [TINY] + rec + old9[1+|rec|..8] + [|rec|]
    else [SMALL] + rec
  }

  function StoreBlob(id: Id): Bytes { [0] + ToBytes(id, 8) }

  lemma InlineRoundTrip(old9: Bytes, rec: Bytes)
    requires |old9| == 9 && |rec| <= 8
    ensures WellFormed(StoreInline(old9, rec)) && DecodeSlot(StoreInline(old9, rec)) == Inline(rec)
  {
  }

  lemma BlobRoundTrip(id: Id)
    requires id < ID_LIMIT
    ensures WellFormed(StoreBlob(id)) && DecodeSlot(StoreBlob(id)) == Blob(id)
  {
    Powers();
    WordRoundTrip(id, 8);
    assert StoreBlob(id)[1..9] == ToBytes(id, 8);
  }

  /** The bytes of a slot: a flag, which is 1 for up to seven bytes, 2 for eight, 4
      for an empty record and 0 for a blob; then the record with its size in the
      last byte, or the id, low byte first. */
  lemma SlotLayout(old9: Bytes, rec: Bytes, id: Id, i: nat)
    requires |old9| == 9 && |rec| <= 8 && i < 8
    ensures var b := StoreInline(old9, rec);
            && |b| == 9 && b[0] == (if rec == [] then 4 else if |rec| < 8 then 1 else 2)
            && (i < |rec| ==> b[1 + i] == rec[i]) && (0 < |rec| < 8 ==> b[8] == |rec|) && (rec == [] ==> b[1 + i] == 0)
    ensures |StoreBlob(id)| == 9 && StoreBlob(id)[0] == 0 && StoreBlob(id)[1 + i] == Digit(id, i)
  {
    ByteAt(id, 8, i);
  }

  /** The bytes of the header and where a slot begins. */
  lemma TableLayout(t: Bytes, n: nat, i: nat)
    requires |t| >= 8 && i < 4
    ensures SetCount(t, n)[i] == Digit(n, i) && SetCapacity(t, n)[4 + i] == Digit(n, i) && Offset(n) == 8 + 9 * n
  {
    ByteAt(n, 4, i);
  }

  // ---- the byte array ----

  function Count(t: Bytes): nat
    requires |t| >= 8
  {
    FromBytes(t[0..4])
  }

  function Capacity(t: Bytes): nat
    requires |t| >= 8
  {
    FromBytes(t[4..8])
  }

  function Offset(i: nat): nat { 8 + 9 * i }

  function SlotBytes(t: Bytes, i: nat): (b: Bytes)
    requires Offset(i + 1) <= |t|
    ensures |b| == 9
  {
    t[Offset(i)..Offset(i + 1)]
  }

  lemma SameSlot(t: Bytes, i: nat, u: Bytes, j: nat)
    requires Offset(i + 1) <= |t| && Offset(j + 1) <= |u|
    requires forall x :: Offset(i) <= x < Offset(i + 1) ==> t[x] == u[x + 9 * (j - i)]
    ensures SlotBytes(t, i) == SlotBytes(u, j)
  {
  }

  function SetCount(t: Bytes, n: nat): Bytes
    requires |t| >= 8
  {
    Write(t, 0, ToBytes(n, 4))
  }

  function SetCapacity(t: Bytes, n: nat): Bytes
    requires |t| >= 8
  {
    Write(t, 4, ToBytes(n, 4))
  }

  lemma Header(t: Bytes, n: nat)
    requires |t| >= 8 && n < 0x1_0000_0000
    ensures Count(SetCount(t, n)) == n && Capacity(SetCount(t, n)) == Capacity(t)
    ensures Capacity(SetCapacity(t, n)) == n && Count(SetCapacity(t, n)) == Count(t)
    ensures forall i: nat :: Offset(i + 1) <= |t| ==> SlotBytes(SetCount(t, n), i) == SlotBytes(t, i)
    ensures forall i: nat :: Offset(i + 1) <= |t| ==> SlotBytes(SetCapacity(t, n), i) == SlotBytes(t, i)
  {
    Powers();
    WordRoundTrip(n, 4);
    assert SetCount(t, n)[0..4] == ToBytes(n, 4) && SetCount(t, n)[4..8] == t[4..8];
    assert SetCapacity(t, n)[4..8] == ToBytes(n, 4) && SetCapacity(t, n)[0..4] == t[0..4];
    forall i: nat | Offset(i + 1) <= |t|
      ensures SlotBytes(SetCount(t, n), i) == SlotBytes(t, i) && SlotBytes(SetCapacity(t, n), i) == SlotBytes(t, i)
    {
      SameSlot(SetCount(t, n), i, t, i);
      SameSlot(SetCapacity(t, n), i, t, i);
    }
  }

  lemma SlotWritten(t: Bytes, p: nat, b: Bytes)
    requires |b| == 9 && Offset(p + 1) <= |t|
    ensures var u := Write(t, Offset(p), b);
            && u[..8] == t[..8] && SlotBytes(u, p) == b
            && forall i: nat :: i != p && Offset(i + 1) <= |t| ==> SlotBytes(u, i) == SlotBytes(t, i)
  {
  }

  /** Opening a gap at p moves the slots from p to n up by one. */
  lemma GapOpened(t: Bytes, p: nat, n: nat)
    requires p <= n && Offset(n + 1) <= |t|
    ensures var u := Move(t, Offset(p + 1), Offset(p), 9 * (n - p));
            && u[..8] == t[..8]
            && (forall i: nat :: i < p ==> SlotBytes(u, i) == SlotBytes(t, i))
            && (forall i: nat :: p < i <= n ==> SlotBytes(u, i) == SlotBytes(t, i - 1))
  {
  }

  /** Closing the gap at p moves the slots behind p down by one. */
  lemma GapClosed(t: Bytes, p: nat, n: nat)
    requires p < n && Offset(n) <= |t|
    ensures var u := Move(t, Offset(p), Offset(p + 1), 9 * (n - p - 1));
            && u[..8] == t[..8]
            && (forall i: nat :: i < p ==> SlotBytes(u, i) == SlotBytes(t, i))
            && (forall i: nat :: p <= i < n - 1 ==> SlotBytes(u, i) == SlotBytes(t, i + 1))
  {
  }

  // ---- what the bytes mean ----

  predicate Layout(t: Bytes) {
    && |t| >= 8 && Count(t) <= Capacity(t) && |t| == Offset(Capacity(t))
    && forall i: nat :: i < Count(t) ==> WellFormed(SlotBytes(t, i))
  }

  function Slots(t: Bytes): (s: seq<Slot>)
    requires Layout(t)
    ensures |s| == Count(t)
    ensures forall i :: 0 <= i < |s| ==> s[i] == DecodeSlot(SlotBytes(t, i))
  {
    seq(Count(t), i requires 0 <= i < Count(t) => DecodeSlot(SlotBytes(t, i)))
  }

  function Opened(t: Bytes, p: nat): Bytes
    requires Layout(t) && p <= Count(t) < Capacity(t)
  {
    SetCount(Move(t, Offset(p + 1), Offset(p), 9 * (Count(t) - p)), Count(t) + 1)
  }

  lemma SameHeader(t: Bytes, u: Bytes)
    requires |t| >= 8 && |u| >= 8 && t[..8] == u[..8]
    ensures Count(t) == Count(u) && Capacity(t) == Capacity(u)
  {
    assert t[0..4] == t[..8][0..4] && t[4..8] == t[..8][4..8];
    assert u[0..4] == u[..8][0..4] && u[4..8] == u[..8][4..8];
  }

  lemma OpenedSlots(t: Bytes, p: nat)
    requires Layout(t) && p <= Count(t) < Capacity(t) && Capacity(t) < 0x1_0000_0000
    ensures var o := Opened(t, p);
            && |o| == |t| && Count(o) == Count(t) + 1 && Capacity(o) == Capacity(t)
            && (forall i: nat :: i < p ==> SlotBytes(o, i) == SlotBytes(t, i))
            && (forall i: nat :: p < i <= Count(t) ==> SlotBytes(o, i) == SlotBytes(t, i - 1))
  {
    var n := Count(t);
    var m := Move(t, Offset(p + 1), Offset(p), 9 * (n - p));
    GapOpened(t, p, n);
    SameHeader(t, m);
    Header(m, n + 1);
  }

  lemma SlotInserted(t: Bytes, p: nat, b: Bytes)
    requires Layout(t) && p <= Count(t) < Capacity(t) && Capacity(t) < 0x1_0000_0000 && WellFormed(b)
    ensures |Opened(t, p)| == |t| && Offset(p + 1) <= |t|
    ensures var u := Write(Opened(t, p), Offset(p), b);
            Layout(u) && Capacity(u) == Capacity(t) && Slots(u) == InsertAt(Slots(t), p, DecodeSlot(b))
  {
    OpenedSlots(t, p);
    var o := Opened(t, p);
    SlotWritten(o, p, b);
    SameHeader(o, Write(o, Offset(p), b));
  }

  lemma SlotReplaced(t: Bytes, p: nat, b: Bytes)
    requires Layout(t) && p < Count(t) && WellFormed(b)
    ensures Offset(p + 1) <= |t|
    ensures var u := Write(t, Offset(p), b);
            Layout(u) && Capacity(u) == Capacity(t) && Slots(u) == Slots(t)[p := DecodeSlot(b)]
  {
    SlotWritten(t, p, b);
    var u := Write(t, Offset(p), b);
    SameHeader(t, u);
  }

  function Closed(t: Bytes, p: nat): Bytes
    requires Layout(t) && p < Count(t)
  {
    SetCount(Move(t, Offset(p), Offset(p + 1), 9 * (Count(t) - p - 1)), Count(t) - 1)
  }

  lemma ClosedSlots(t: Bytes, p: nat)
    requires Layout(t) && p < Count(t) < 0x1_0000_0000
    ensures var u := Closed(t, p);
            && |u| == |t| && Count(u) == Count(t) - 1 && Capacity(u) == Capacity(t)
            && (forall i: nat :: i < p ==> SlotBytes(u, i) == SlotBytes(t, i))
            && (forall i: nat :: p <= i < Count(t) - 1 ==> SlotBytes(u, i) == SlotBytes(t, i + 1))
  {
    var n := Count(t);
    var m := Move(t, Offset(p), Offset(p + 1), 9 * (n - p - 1));
    assert Count(m) == n && Capacity(m) == Capacity(t) by {
      GapClosed(t, p, n);
      SameHeader(t, m);
    }
    GapClosed(t, p, n);
    Header(m, n - 1);
    var u := Closed(t, p);
    assert forall i: nat :: Offset(i + 1) <= |t| ==> SlotBytes(u, i) == SlotBytes(m, i);
  }

  lemma SlotRemoved(t: Bytes, p: nat)
    requires Layout(t) && p < Count(t) < 0x1_0000_0000
    ensures Layout(Closed(t, p)) && Capacity(Closed(t, p)) == Capacity(t) && |Closed(t, p)| == |t|
    ensures Slots(Closed(t, p)) == RemoveAt(Slots(t), p)
  {
    ClosedSlots(t, p);
  }

  /** Doubled capacity; an empty table grows to sixteen slots. */
  function Grown(t: Bytes): Bytes
    requires Layout(t)
  {
    var n := if Capacity(t) == 0 then 16 else 2 * Capacity(t);
    SetCapacity(t + seq(9 * (n - Capacity(t)), i => 0), n)
  }

  lemma TableGrown(t: Bytes)
    requires Layout(t) && 2 * Capacity(t) < 0x1_0000_0000
    ensures Layout(Grown(t)) && Capacity(Grown(t)) > Capacity(t) && |Grown(t)| > |t|
    ensures Capacity(Grown(t)) == (if Capacity(t) == 0 then 16 else 2 * Capacity(t))
    ensures Slots(Grown(t)) == Slots(t)
  {
    var n := if Capacity(t) == 0 then 16 else 2 * Capacity(t);
    var u := t + seq(9 * (n - Capacity(t)), i => 0);
    assert u[0..4] == t[0..4] && u[4..8] == t[4..8];
    Header(u, n);
    forall i: nat | i < Count(t) ensures SlotBytes(Grown(t), i) == SlotBytes(t, i) {
      assert SlotBytes(u, i) == SlotBytes(t, i);
    }
  }

  // ---- a new table ----

  /** The inline duplicates that are handed over: nine bytes each. */
  predicate Handed(data: Bytes, n: nat) {
    |data| == 9 * n && forall i: nat :: i < n ==> WellFormed(data[9 * i..9 * i + 9])
  }

  function HandedSlots(data: Bytes, n: nat): seq<Slot>
    requires Handed(data, n)
  {
    seq(n, i requires 0 <= i < n => DecodeSlot(data[9 * i..9 * i + 9]))
  }

  /** Twice the room that is needed. */
  function NewTable(data: Bytes, n: nat): Bytes
    requires |data| == 9 * n
  {
    SetCapacity(SetCount(Write(seq(8 + 18 * n, i => 0), 8, data), n), 2 * n)
  }

  lemma HandedOver(data: Bytes, n: nat, i: nat)
    requires |data| == 9 * n && i < n
    ensures SlotBytes(Write(seq(8 + 18 * n, i => 0), 8, data), i) == data[9 * i..9 * i + 9]
  {
  }

  lemma TableCreated(data: Bytes, n: nat)
    requires Handed(data, n) && 2 * n < 0x1_0000_0000
    ensures Layout(NewTable(data, n)) && Capacity(NewTable(data, n)) == 2 * n &&
            Slots(NewTable(data, n)) == HandedSlots(data, n)
  {
    var w := Write(seq(8 + 18 * n, i => 0), 8, data);
    forall i: nat | i < n ensures SlotBytes(w, i) == data[9 * i..9 * i + 9] {
      HandedOver(data, n, i);
    }
    Header(w, n);
    Header(SetCount(w, n), 2 * n);
  }
}
