/** The overflow table for duplicates and the blobs it owns (DuplicateTable in
    3btree/btree_records_duplicate.h): every operation is the vector operation of
    the same name, no blob is leaked or shared, and the copy on disk says the
    same as the one in memory. */
module DuplicateTables {
  import opened Seqs
  import opened TableBytes
  import opened Actions

  type Store = map<Id, Bytes>

  // ---- ownership ----

  function Read(store: Store, s: Slot): Bytes {
    match s
    case Inline(d) => d
    case Blob(id) => if id in store then store[id] else []
  }

  function Records(store: Store, slots: seq<Slot>): (r: seq<Bytes>)
    ensures |r| == |slots| && forall i :: 0 <= i < |r| ==> r[i] == Read(store, slots[i])
  {
    seq(|slots|, i requires 0 <= i < |slots| => Read(store, slots[i]))
  }

  ghost predicate HasBlob(slots: seq<Slot>, id: Id) { exists i :: 0 <= i < |slots| && slots[i] == Blob(id) }

  /** The table's blobs exist, hold long records, and belong to one slot each. */
  ghost predicate Owns(store: Store, slots: seq<Slot>, table: Id) {
    && 0 !in store && (table != 0 ==> table in store)
    && (forall i :: 0 <= i < |slots| && slots[i].Blob? ==>
      slots[i].id in store && slots[i].id != table && |store[slots[i].id]| > 8)
    && (forall i, j :: 0 <= i < j < |slots| && slots[i].Blob? && slots[j].Blob? ==> slots[i].id != slots[j].id)
  }

  /** An id that is neither the table nor one of its records. */
  ghost predicate Foreign(slots: seq<Slot>, table: Id, id: Id) { id != table && !HasBlob(slots, id) }

  /** Blobs of others stay, and blobs that are given up are gone. */
  ghost predicate Settled(before: Store, slots: seq<Slot>, table: Id, after: Store, slots': seq<Slot>, table': Id) {
    forall id :: Foreign(slots', table', id) ==>
      if Foreign(slots, table, id) then (id in before <==> id in after) && (id in before ==> before[id] == after[id])
      else id !in after
  }

  /** The result of storing one record: in the slot, or as a new blob. */
  ghost predicate Stored(before: Store, after: Store, s: Slot, rec: Bytes) {
    match s
    case Inline(d) => d == rec && after == before
    case Blob(id) => id !in before && id != 0 && |rec| > 8 && after == before[id := rec]
  }

  lemma InsertBlobs(slots: seq<Slot>, p: nat, s: Slot)
    requires p <= |slots|
    ensures forall id :: HasBlob(InsertAt(slots, p, s), id) <==> HasBlob(slots, id) || s == Blob(id)
  {
    var n := InsertAt(slots, p, s);
    forall id ensures HasBlob(n, id) <==> HasBlob(slots, id) || s == Blob(id) {
      if HasBlob(slots, id) {
        var i :| 0 <= i < |slots| && slots[i] == Blob(id);
        assert n[if i < p then i else i + 1] == Blob(id);
      }
      if s == Blob(id) {
        assert n[p] == Blob(id);
      }
    }
  }

  lemma InsertOwns(st: Store, st': Store, slots: seq<Slot>, table: Id, p: nat, s: Slot, rec: Bytes)
    requires Owns(st, slots, table) && p <= |slots| && Stored(st, st', s, rec)
    ensures Owns(st', InsertAt(slots, p, s), table)
  {
  }

  lemma InsertOwned(st: Store, st': Store, slots: seq<Slot>, table: Id, p: nat, s: Slot, rec: Bytes)
    requires Owns(st, slots, table) && p <= |slots| && Stored(st, st', s, rec)
    ensures var n := InsertAt(slots, p, s);
            Owns(st', n, table) && Records(st', n) == InsertAt(Records(st, slots), p, rec) &&
              Settled(st, slots, table, st', n, table)
  {
    var n := InsertAt(slots, p, s);
    InsertOwns(st, st', slots, table, p, s, rec);
    assert Settled(st, slots, table, st', n, table) by {
      InsertBlobs(slots, p, s);
    }
    assert Records(st', n) == InsertAt(Records(st, slots), p, rec) by {
      forall i | 0 <= i < |slots| ensures Read(st', slots[i]) == Read(st, slots[i]) {
      }
    }
  }

  /** The old record's blob, if it has one, was erased before. */
  lemma ReplaceOwned(st: Store, st': Store, slots: seq<Slot>, table: Id, p: nat, s: Slot, rec: Bytes)
    requires Owns(st, slots, table) && p < |slots|
    requires Stored(if slots[p].Blob? then st - {slots[p].id} else st, st', s, rec)
    ensures var n := slots[p := s];
            Owns(st', n, table) && Records(st', n) == Records(st, slots)[p := rec] &&
              Settled(st, slots, table, st', n, table)
  {
    var n := slots[p := s];
    forall id
      ensures HasBlob(n, id) <==>
        (exists i :: 0 <= i < |slots| && i != p && slots[i] == Blob(id)) || s == Blob(id) {
      if s == Blob(id) {
        assert n[p] == Blob(id);
      }
      forall i | 0 <= i < |slots| && i != p && slots[i] == Blob(id) ensures HasBlob(n, id) {
        assert n[i] == Blob(id);
      }
    }
  }

  lemma RemoveOwned(st: Store, slots: seq<Slot>, table: Id, p: nat)
    requires Owns(st, slots, table) && p < |slots|
    ensures var n := RemoveAt(slots, p); var st' := if slots[p].Blob? then st - {slots[p].id} else st;
            Owns(st', n, table) && Records(st', n) == RemoveAt(Records(st, slots), p) &&
              Settled(st, slots, table, st', n, table)
  {
    var n := RemoveAt(slots, p);
    forall id ensures HasBlob(n, id) <==> (exists i :: 0 <= i < |slots| && i != p && slots[i] == Blob(id)) {
      forall i | 0 <= i < |slots| && i != p && slots[i] == Blob(id) ensures HasBlob(n, id) {
        assert n[if i < p then i else i - 1] == Blob(id);
      }
    }
  }

  /** Only the table's own blob is replaced. */
  lemma FlushOwned(st: Store, st': Store, slots: seq<Slot>, table: Id, table': Id, data: Bytes)
    requires Owns(st, slots, table) && table' != 0 && (table' == table || table' !in st)
    requires st' == (st - {table})[table' := data]
    ensures Owns(st', slots, table') && Records(st', slots) == Records(st, slots) &&
            Settled(st, slots, table, st', slots, table')
  {
  }

  lemma SettledTwice(a: Store, sa: seq<Slot>, ta: Id, b: Store, sb: seq<Slot>, tb: Id, c: Store, sc: seq<Slot>, tc: Id)
    requires Settled(a, sa, ta, b, sb, tb) && Settled(b, sb, tb, c, sc, tc)
    requires forall id :: Foreign(sa, ta, id) && !Foreign(sb, tb, id) ==> id !in a
    ensures Settled(a, sa, ta, c, sc, tc)
  {
  }

  // ---- the blob manager ----

  datatype Region = Region(offset: nat, size: nat)

  ghost predicate InRegion(regions: seq<Region>, x: nat) {
    exists i :: 0 <= i < |regions| && regions[i].offset <= x < regions[i].offset + regions[i].size
  }

  predicate Fits(regions: seq<Region>, n: nat) {
    forall i :: 0 <= i < |regions| ==> regions[i].offset + regions[i].size <= n
  }

  class BlobManager {
    var blobs: Store
    var next: Id

    ghost predicate Valid()
      reads this
    {
      1 <= next <= ID_LIMIT && forall id :: id in blobs ==> 1 <= id < next
    }

    method Allocate(data: Bytes) returns (id: Id)
      requires Valid() && next < ID_LIMIT
      modifies this
      ensures Valid() && next == old(next) + 1 && 0 < id < ID_LIMIT
      ensures id !in old(blobs) && blobs == old(blobs)[id := data]
    {
      id := next;
      blobs := blobs[id := data];
      next := next + 1;
    }

    /** The blob is written in place if there is room, and moved otherwise. */
    method Overwrite(id: Id, data: Bytes) returns (r: Id)
      requires Valid() && id in blobs && next < ID_LIMIT
      modifies this
      ensures Valid() && next <= old(next) + 1 && 0 < r < ID_LIMIT
      ensures (r == id || r !in old(blobs)) && blobs == (old(blobs) - {id})[r := data]
    {
      if |data| <= |blobs[id]| {
        blobs := blobs[id := data];
        r := id;
      } else {
        r := Allocate(data);
        blobs := blobs - {id};
      }
    }

    /** Unless the blob grows, only the regions are written. */
    method OverwriteRegions(id: Id, data: Bytes, regions: seq<Region>) returns (r: Id)
      requires Valid() && id in blobs && next < ID_LIMIT && Fits(regions, |data|) && |blobs[id]| <= |data|
      modifies this
      ensures Valid() && next <= old(next) + 1 && 0 < r < ID_LIMIT && r in blobs && |blobs[r]| == |data|
      ensures (r == id || r !in old(blobs)) && blobs == (old(blobs) - {id})[r := blobs[r]]
      ensures forall x :: 0 <= x < |data| ==>
                blobs[r][x] == data[x] || (|old(blobs)[id]| == |data| && !InRegion(regions, x) &&
                  blobs[r][x] == old(blobs)[id][x])
    {
      if |data| > |blobs[id]| {
        r := Overwrite(id, data);
        return;
      }
      var c := blobs[id];
      for n := 0 to |regions|
        invariant |c| == |data|
        invariant forall x :: 0 <= x < |data| ==>
                  c[x] == data[x] || (!InRegion(regions[..n], x) && c[x] == old(blobs)[id][x])
      {
        var g := regions[n];
        assert regions[..n+1] == regions[..n] + [g];
        c := Write(c, g.offset, data[g.offset..g.offset + g.size]);
      }
      assert regions[..|regions|] == regions;
      blobs := blobs[id := c];
      r := id;
    }

    method Erase(id: Id)
      requires Valid() && id in blobs
      modifies this
      ensures Valid() && next == old(next) && blobs == old(blobs) - {id}
    {
      blobs := blobs - {id};
    }
  }

  // ---- the table ----

  /** The used part of the table is on disk. */
  predicate Saved(store: Store, id: Id, t: Bytes)
    requires Layout(t)
  {
    id != 0 ==> id in store && |store[id]| == |t| && forall x :: 0 <= x < Offset(Count(t)) ==> store[id][x] == t[x]
  }

  lemma SavedSlots(t: Bytes, u: Bytes)
    requires Layout(t) && |u| == |t| && forall x :: 0 <= x < Offset(Count(t)) ==> u[x] == t[x]
    ensures Layout(u) && Slots(u) == Slots(t) && Capacity(u) == Capacity(t)
  {
    assert u[..8] == t[..8];
    SameHeader(t, u);
    forall i: nat | i < Count(t) ensures SlotBytes(u, i) == SlotBytes(t, i) {
      SameSlot(u, i, t, i);
    }
  }

  lemma AppendRegions(p: nat)
    ensures forall x :: 0 <= x < 8 || Offset(p) <= x < Offset(p + 1) ==>
            InRegion([Region(0, 8), Region(Offset(p), 9)], x)
  {
    var r := [Region(0, 8), Region(Offset(p), 9)];
    forall x | 0 <= x < 8 || Offset(p) <= x < Offset(p + 1) ensures InRegion(r, x) {
      assert r[if x < 8 then 0 else 1].offset <= x;
    }
  }

  lemma PutRegions(p: nat, regions: seq<Region>)
    requires regions == [Region(Offset(p), 9)]
    ensures forall x :: Offset(p) <= x < Offset(p + 1) ==> InRegion(regions, x)
  {
    assert regions[0].offset == Offset(p);
  }

  /** A blob that a slot did not have before is a new one. */
  lemma NewBlobs(st: Store, st': Store, slots: seq<Slot>, table: Id, p: nat, s: Slot, rec: Bytes)
    requires p < |slots| && Stored(if slots[p].Blob? then st - {slots[p].id} else st, st', s, rec)
    ensures forall id :: Foreign(slots, table, id) && !Foreign(slots[p := s], table, id) ==> id !in st
  {
    forall id | HasBlob(slots[p := s], id) ensures HasBlob(slots, id) || s == Blob(id) {
    }
  }

  /** The blobs that do not belong to the slots. */
  ghost function Others(store: Store, slots: seq<Slot>): Store {
    map id | id in store && !HasBlob(slots, id) :: store[id]
  }

  lemma OthersNext(store: Store, slots: seq<Slot>, i: nat)
    requires i < |slots|
    ensures Others(store, slots[..i + 1]) ==
            if slots[i].Blob? then Others(store, slots[..i]) - {slots[i].id} else Others(store, slots[..i])
  {
    assert slots[..i + 1] == slots[..i] + [slots[i]];
  }

  lemma StillThere(store: Store, slots: seq<Slot>, table: Id, i: nat)
    requires Owns(store, slots, table) && i < |slots| && slots[i].Blob?
    ensures slots[i].id in Others(store, slots[..i]) && slots[i].id != 0
  {
  }

  lemma EraseRegions(p: nat, n: nat)
    requires p < n
    ensures var r := if p < n - 1 then [Region(0, 4), Region(Offset(p), 9 * (n - p - 1))] else [Region(0, 4)];
            forall x :: 0 <= x < 4 || Offset(p) <= x < Offset(n - 1) ==> InRegion(r, x)
  {
    var r := if p < n - 1 then [Region(0, 4), Region(Offset(p), 9 * (n - p - 1))] else [Region(0, 4)];
    forall x | 0 <= x < 4 || Offset(p) <= x < Offset(n - 1) ensures InRegion(r, x) {
      assert r[if x < 4 then 0 else 1].offset <= x;
    }
  }

  lemma ClosedBytes(t: Bytes, p: nat)
    requires Layout(t) && p < Count(t)
    ensures |Closed(t, p)| == |t| && forall x :: 4 <= x < Offset(p) ==> Closed(t, p)[x] == t[x]
  {
  }

  class DuplicateTable {
    const store: BlobManager
    var table: Bytes
    var tableId: Id

    /** create: takes over the inline duplicates of a key and their blobs. */
    constructor (bm: BlobManager, data: Bytes, count: nat)
      requires bm.Valid() && bm.next < ID_LIMIT && Handed(data, count) && 2 * count < 0x8000_0000
      requires Owns(bm.blobs, HandedSlots(data, count), 0)
      modifies bm
      ensures store == bm && Valid() && tableId != 0
      ensures Contents() == Records(old(bm.blobs), HandedSlots(data, count))
      ensures Settled(old(bm.blobs), HandedSlots(data, count), 0, bm.blobs, Slots(table), tableId)
    {
      store := bm;
      table := NewTable(data, count);
      tableId := 0;
      TableCreated(data, count);
      new;
      Flush([]);
    }

    ghost predicate Held()
      reads this, store
    {
      && store.Valid() && Layout(table) && Capacity(table) < 0x1_0000_0000
      && Owns(store.blobs, Slots(table), tableId)
    }

    ghost predicate Valid()
      reads this, store
    {
      Held() && (tableId == 0 ==> Count(table) == 0) && Saved(store.blobs, tableId, table)
    }

    ghost function Contents(): seq<Bytes>
      requires Layout(table)
      reads this, store
    {
      Records(store.blobs, Slots(table))
    }

    /** flush_duplicate_table: the whole table, or only regions of it. */
    method Flush(regions: seq<Region>)
      requires Held() && store.next < ID_LIMIT && Fits(regions, |table|)
      requires regions != [] && tableId != 0 ==>
                 && |store.blobs[tableId]| <= |table|
                 && (|store.blobs[tableId]| == |table| ==>
                       forall x :: 0 <= x < Offset(Count(table)) ==>
                         InRegion(regions, x) || store.blobs[tableId][x] == table[x])
      modifies this`tableId, store
      ensures Valid() && tableId != 0 && store.next <= old(store.next) + 1
      ensures Contents() == old(Contents())
      ensures Settled(old(store.blobs), Slots(table), old(tableId), store.blobs, Slots(table), tableId)
      ensures tableId == old(tableId) || tableId !in old(store.blobs)
    {
      ghost var st, id0 := store.blobs, tableId;
      if tableId == 0 {
        tableId := store.Allocate(table);
        assert st - {0} == st;
      } else if regions != [] {
        tableId := store.OverwriteRegions(tableId, table, regions);
      } else {
        tableId := store.Overwrite(tableId, table);
      }
      FlushOwned(st, store.blobs, Slots(table), id0, tableId, store.blobs[tableId]);
    }

    /** The nine bytes for a record: in the slot itself or as a new blob. */
    method MakeSlot(old9: Bytes, rec: Bytes) returns (b: Bytes)
      requires store.Valid() && store.next < ID_LIMIT && |old9| == 9
      modifies store
      ensures store.Valid() && store.next <= old(store.next) + 1
      ensures WellFormed(b) && Stored(old(store.blobs), store.blobs, DecodeSlot(b), rec)
    {
      if |rec| <= 8 {
        b := StoreInline(old9, rec);
        InlineRoundTrip(old9, rec);
      } else {
        var id := store.Allocate(rec);
        b := StoreBlob(id);
        BlobRoundTrip(id);
      }
    }

    /** Opens a gap at p and stores the record there. */
    method PutNew(p: nat, rec: Bytes)
      requires Held() && p <= Count(table) < Capacity(table) && store.next < ID_LIMIT
      modifies this`table, store
      ensures Held() && store.next <= old(store.next) + 1
      ensures Contents() == InsertAt(old(Contents()), p, rec)
      ensures Settled(old(store.blobs), old(Slots(table)), tableId, store.blobs, Slots(table), tableId)
      ensures forall id :: id in old(store.blobs) ==> id in store.blobs && store.blobs[id] == old(store.blobs)[id]
      ensures forall id :: HasBlob(Slots(table), id) && !HasBlob(old(Slots(table)), id) ==> id !in old(store.blobs)
      ensures |table| == old(|table|) && Count(table) == old(Count(table)) + 1
      ensures forall x :: 8 <= x < Offset(p) ==> table[x] == old(table)[x]
    {
      ghost var t, st := table, store.blobs;
      OpenedSlots(table, p);
      table := Opened(table, p);
      var b := MakeSlot(SlotBytes(table, p), rec);
      SlotInserted(t, p, b);
      table := Write(table, Offset(p), b);
      InsertOwned(st, store.blobs, Slots(t), tableId, p, DecodeSlot(b), rec);
      InsertBlobs(Slots(t), p, DecodeSlot(b));
    }

    method GrowIfFull()
      requires Valid() && 2 * Capacity(table) < 0x8000_0000
      modifies this`table
      ensures Held() && Slots(table) == old(Slots(table)) && Count(table) < Capacity(table)
      ensures table == old(table) || |table| > old(|table|)
    {
      if Count(table) == Capacity(table) {
        TableGrown(table);
        table := Grown(table);
      }
    }

    /** The flags of set_record are reduced to a gap position; only an append is
        flushed by regions. */
    method Locate(idx: nat, where: Where) returns (p: nat, append: bool)
      requires Layout(table) && idx <= Count(table)
      ensures p == Place(where, idx, Count(table)) <= Count(table)
      ensures append ==> p == Count(table)
    {
      var count, at, i := Count(table), where, idx;
      if at == Before && i == 0 {
        at := First;
      } else if at == After {
        if i == count {
          at := Last;
        } else {
          at, i := Before, i + 1;
        }
      }
      return if at == First then 0 else if at == Before then i else count, at == Last;
    }

    /** set_record with one of the insert flags: the vector insert at the place
        that the flag names. */
    method InsertRecord(idx: nat, rec: Bytes, where: Where) returns (newIdx: nat)
      requires Valid() && idx <= Count(table) && 2 * Capacity(table) < 0x8000_0000
      requires store.next + 2 <= ID_LIMIT
      modifies this, store
      ensures Valid() && newIdx == Place(where, idx, old(Count(table)))
      ensures Contents() == InsertAt(old(Contents()), newIdx, rec)
      ensures Settled(old(store.blobs), old(Slots(table)), old(tableId), store.blobs, Slots(table), tableId)
    {
      var append;
      newIdx, append := Locate(idx, where);
      GrowIfFull();
      ghost var s0, id0, st0 := Slots(table), tableId, store.blobs;
      PutNew(newIdx, rec);
      ghost var st1 := store.blobs;
      if append {
        AppendRegions(newIdx);
        Flush([Region(0, 8), Region(Offset(newIdx), 9)]);
      } else {
        Flush([]);
      }
      SettledTwice(st0, s0, id0, st1, Slots(table), id0, store.blobs, Slots(table), tableId);
    }

    /** Replaces the slot at p, whose own blob, if any, must be gone or reused. */
    method PutSlot(p: nat, b: Bytes, rec: Bytes, ghost st: Store)
      requires Layout(table) && Capacity(table) < 0x1_0000_0000 && p < Count(table) && WellFormed(b)
      requires Owns(st, Slots(table), tableId) && store.Valid()
      requires Stored(if Slots(table)[p].Blob? then st - {Slots(table)[p].id} else st, store.blobs, DecodeSlot(b), rec)
      modifies this`table
      ensures Held() && Slots(table) == old(Slots(table))[p := DecodeSlot(b)]
      ensures Contents() == Records(st, old(Slots(table)))[p := rec]
      ensures Settled(st, old(Slots(table)), tableId, store.blobs, Slots(table), tableId)
      ensures |table| == old(|table|) && Count(table) == old(Count(table))
      ensures forall x :: 0 <= x < Offset(p) || Offset(p + 1) <= x < |table| ==> table[x] == old(table)[x]
    {
      SlotReplaced(table, p, b);
      ReplaceOwned(st, store.blobs, Slots(table), tableId, p, DecodeSlot(b), rec);
      table := Write(table, Offset(p), b);
    }

    /** The slot at p, on disk as well. */
    method Put(p: nat, b: Bytes, rec: Bytes, ghost st: Store, regions: seq<Region>)
      requires Layout(table) && Capacity(table) < 0x1_0000_0000 && p < Count(table) && WellFormed(b)
      requires Owns(st, Slots(table), tableId) && Saved(st, tableId, table) && tableId != 0
      requires store.Valid() && store.next < ID_LIMIT
      requires Stored(if Slots(table)[p].Blob? then st - {Slots(table)[p].id} else st, store.blobs, DecodeSlot(b), rec)
      requires regions == [] || regions == [Region(Offset(p), 9)]
      modifies this, store
      ensures Valid() && Contents() == Records(st, old(Slots(table)))[p := rec]
      ensures Settled(st, old(Slots(table)), old(tableId), store.blobs, Slots(table), tableId)
    {
      ghost var s0, id0, st1 := Slots(table), tableId, store.blobs;
      PutSlot(p, b, rec, st);
      ghost var s1 := Slots(table);
      if regions != [] {
        PutRegions(p, regions);
      }
      Flush(regions);
      NewBlobs(st, st1, s0, id0, p, DecodeSlot(b), rec);
      SettledTwice(st, s0, id0, st1, s1, id0, store.blobs, s1, tableId);
    }

    /** set_record with UPS_OVERWRITE. */
    method OverwriteRecord(idx: nat, rec: Bytes)
      requires Valid() && idx < Count(table) && store.next + 2 <= ID_LIMIT
      modifies this, store
      ensures Valid() && Contents() == old(Contents())[idx := rec]
      ensures Settled(old(store.blobs), old(Slots(table)), old(tableId), store.blobs, Slots(table), tableId)
    {
      var old9 := SlotBytes(table, idx);
      ghost var st := store.blobs;
      if old9[0] == 0 {
        var id := FromBytes(old9[1..9]);
        assert Slots(table)[idx] == Blob(id);
        if |rec| > 8 {
          id := store.Overwrite(id, rec);
          BlobRoundTrip(id);
          Put(idx, StoreBlob(id), rec, st, [Region(Offset(idx), 9)]);
          return;
        }
        store.Erase(id);
      }
      var b := MakeSlot(old9, rec);
      Put(idx, b, rec, st, []);
    }

    /** erase_record of one duplicate, when others are left. */
    method EraseOne(idx: nat)
      requires Valid() && idx < Count(table) && store.next < ID_LIMIT
      modifies this, store
      ensures Valid() && Contents() == RemoveAt(old(Contents()), idx)
      ensures Settled(old(store.blobs), old(Slots(table)), old(tableId), store.blobs, Slots(table), tableId)
    {
      var count := Count(table);
      ghost var s0, id0, st0 := Slots(table), tableId, store.blobs;
      RemoveOwned(store.blobs, s0, tableId, idx);
      SlotRemoved(table, idx);
      var b := SlotBytes(table, idx);
      if b[0] == 0 {
        store.Erase(FromBytes(b[1..9]));
      }
      ghost var st1, t0 := store.blobs, table;
      table := Closed(table, idx);
      ClosedBytes(t0, idx);
      EraseRegions(idx, count);
      Flush(if idx < count - 1 then [Region(0, 4), Region(Offset(idx), 9 * (count - idx - 1))] else [Region(0, 4)]);
      assert forall id :: HasBlob(Slots(table), id) ==> HasBlob(s0, id);
      SettledTwice(st0, s0, id0, st1, Slots(table), id0, store.blobs, Slots(table), tableId);
    }

    /** Erases the blobs of all records. */
    method EraseBlobs()
      requires store.Valid() && Layout(table) && Owns(store.blobs, Slots(table), tableId)
      modifies store
      ensures store.Valid() && store.next == old(store.next) && store.blobs == Others(old(store.blobs), Slots(table))
    {
      ghost var s0, st0 := Slots(table), store.blobs;
      for i := 0 to Count(table)
        invariant store.Valid() && store.next == old(store.next) && store.blobs == Others(st0, s0[..i])
      {
        OthersNext(st0, s0, i);
        var b := SlotBytes(table, i);
        if b[0] == 0 {
          assert s0[i] == Blob(FromBytes(b[1..9]));
          StillThere(st0, s0, tableId, i);
          if FromBytes(b[1..9]) != 0 {
            store.Erase(FromBytes(b[1..9]));
          }
        }
      }
      assert s0[..|s0|] == s0;
    }

    /** erase_record of all duplicates: their blobs and the table go. */
    method EraseAll()
      requires Valid()
      modifies this, store
      ensures Valid() && Contents() == [] && tableId == 0 && store.next == old(store.next)
      ensures Settled(old(store.blobs), old(Slots(table)), old(tableId), store.blobs, [], 0)
    {
      EraseBlobs();
      if tableId != 0 {
        store.Erase(tableId);
      }
      Header(table, 0);
      table := SetCount(table, 0);
      tableId := 0;
    }

    /** erase_record: the vector removal; the table itself goes with its last
        record. */
    method EraseRecord(idx: nat, all: bool)
      requires Valid() && (all || idx < Count(table)) && store.next < ID_LIMIT
      modifies this, store
      ensures Valid() && Contents() == if all then [] else RemoveAt(old(Contents()), idx)
      ensures Contents() == [] ==> tableId == 0
      ensures Settled(old(store.blobs), old(Slots(table)), old(tableId), store.blobs, Slots(table), tableId)
    {
      if all || (Count(table) == 1 && idx == 0) {
        EraseAll();
      } else {
        EraseOne(idx);
      }
    }

    /** The table is dropped from memory and read from disk again. */
    method Reopen()
      requires Valid() && tableId != 0
      modifies this`table
      ensures Valid() && Contents() == old(Contents())
    {
      SavedSlots(table, store.blobs[tableId]);
      table := store.blobs[tableId];
    }
  }
}
