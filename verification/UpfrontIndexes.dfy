/** The slot directory of a variable-length key or record list
    (3btree/upfront_index.h): slots of used chunks, followed by slots of free
    chunks, over one payload area. The number of used slots, which the source
    leaves to the caller, is a field here. */
module UpfrontIndexes {
  import opened Seqs
  import opened Chunks
  import Vacuum

  class UpfrontIndex {
    const payload: array<Byte>
    var slots: seq<Chunk>
    var count: nat
    var free: nat
    var next: int          // cached, -1 if it must be calculated
    var vacuum: nat

    ghost predicate Valid()
      reads this
    {
      && count + free <= |slots| && payload.Length <= 0xFFFF
      && Sound(slots[..count + free], next, payload.Length)
    }

    constructor (size: nat, capacity: nat)
      requires size <= 0xFFFF
      ensures Valid() && fresh(payload) && payload.Length == size && |slots| == capacity
      ensures count == 0 && free == 0 && next == 0 && vacuum == 0
    {
      payload := new Byte[size];
      slots := seq(capacity, i => Chunk(0, 0));
      count, free, next, vacuum := 0, 0, 0, 0;
    }

    /** What the index stores: the data of the used slots in order. */
    ghost function Contents(): seq<seq<Byte>>
      requires Valid()
      reads this, payload
    {
      assert slots[..count] == slots[..count + free][..count];
      Pieces(payload[..], slots[..count])
    }

    /** The chunks on the freelist. */
    ghost function FreeChunks(): seq<Chunk>
      requires count + free <= |slots|
      reads this
    {
      slots[count..count + free]
    }

    /** insert: a slot with an empty chunk. */
    method Insert(slot: nat)
      requires Valid() && slot <= count && count + free < |slots|
      modifies this`slots, this`count
      ensures Valid() && |slots| == old(|slots|) && count == old(count) + 1
      ensures slots[..count] == InsertAt(old(slots[..count]), slot, Chunk(0, 0)) && FreeChunks() == old(FreeChunks())
      ensures Contents() == InsertAt(old(Contents()), slot, [])
    {
      SlotInserted(slots[..count + free], next, payload.Length, slot);
      PiecesInserted(payload[..], slots[..count], slot);
      InsertedSlots(slots, count, count + free, slot);
      slots := SlotsInserted(slots, count + free, slot);
      count := count + 1;
    }

    /** The slots without a used one, whose chunk is free now. */
    method Freed(slot: nat) returns (r: seq<Chunk>)
      requires Valid() && slot < count
      ensures |r| == |slots| && Sound(r[..count + free], next, payload.Length)
      ensures r[..count - 1] == RemoveAt(slots[..count], slot)
      ensures multiset(r[count - 1..count + free]) == multiset(FreeChunks()) + multiset{slots[slot]}
    {
      ErasedSlots(slots, count, count + free, slot, next, payload.Length);
      r := SlotsErased(slots, count, count + free, slot);
    }

    /** erase: the chunk goes to the freelist, and its size counts for the next
        vacuumize. */
    method Erase(slot: nat)
      requires Valid() && slot < count
      modifies this`slots, this`count, this`free, this`vacuum
      ensures Valid() && free == old(free) + 1 && |slots| == old(|slots|) && count == old(count) - 1
      ensures Contents() == RemoveAt(old(Contents()), slot) && slots[..count] == RemoveAt(old(slots[..count]), slot)
      ensures multiset(FreeChunks()) == multiset(old(FreeChunks())) + multiset{old(slots[slot])}
      ensures vacuum == old(vacuum + slots[slot].size)
    {
      ghost var total := count + free;
      PiecesRemoved(payload[..], slots[..count], slot);
      vacuum := vacuum + slots[slot].size;
      slots := Freed(slot);
      free := free + 1;
      count := count - 1;
      assert count + free == total;
    }

    /** calc_next_offset. */
    method CalcNextOffset() returns (r: nat)
      requires Valid()
      ensures r == MaxEnd(slots[..count + free], count + free)
      ensures forall i :: 0 <= i < count + free ==> End(slots[i]) <= r
      ensures if count + free == 0 then r == 0 else exists i :: 0 <= i < count + free && End(slots[i]) == r
    {
      r := 0;
      for i := 0 to count + free
        invariant r == MaxEnd(slots[..count + free], i)
      {
        var e := End(slots[i]);
        if e >= r {
          r := e;
        }
      }
      GreatestEnd(slots[..count + free], payload.Length);
    }

    /** The offset behind all chunks, if it is known. */
    ghost function Next(): nat
      requires Valid()
      reads this
    {
      if next >= 0 then next else if count > 0 then MaxEnd(slots[..count + free], count + free) else INVALID
    }

    /** next_offset. An index without used slots does not recover from an
        invalidated cache. */
    method NextOffset() returns (r: nat)
      requires Valid()
      modifies this`next
      ensures Valid() && r == old(Next()) == Next()
      ensures next == if old(next) == -1 && count == 0 then -1 else r
    {
      if next == -1 {
        if count == 0 {
          return INVALID;
        }
        var e := CalcNextOffset();
        MaxEndBounds(slots[..count + free], count + free, payload.Length);
        next := e;
      }
      r := next;
    }

    ghost predicate Fit(bytes: nat)
      requires Valid()
      reads this
    {
      Next() + bytes <= payload.Length || exists i :: count <= i < count + free && slots[i].size >= bytes
    }

    /** i is the first free chunk that is large enough. */
    ghost predicate FirstFit(i: int, bytes: nat)
      requires count + free <= |slots|
      reads this
    {
      && count <= i < count + free && slots[i].size >= bytes
      && forall j :: count <= j < i ==> slots[j].size < bytes
    }

    /** The first free chunk that is large enough, or -1. */
    method FindFree(bytes: nat) returns (i: int)
      requires count + free <= |slots|
      ensures i >= -1 && (i == -1 ==> forall j :: count <= j < count + free ==> slots[j].size < bytes)
      ensures i >= 0 ==> FirstFit(i, bytes)
    {
      i := count;
      while i < count + free
        invariant count <= i <= count + free && forall j :: count <= j < i ==> slots[j].size < bytes
      {
        if slots[i].size >= bytes {
          return;
        }
        i := i + 1;
      }
      i := -1;
    }

    /** can_allocate_space. */
    method CanAllocateSpace(bytes: nat) returns (ok: bool)
      requires Valid()
      modifies this`next
      ensures Valid() && Next() == old(Next()) && ok == Fit(bytes)
    {
      var e := NextOffset();
      if e + bytes <= payload.Length {
        return true;
      }
      var i := FindFree(bytes);
      ok := i >= 0;
    }

    /** Space that was erased can be allocated again. */
    method EraseMakesRoom(slot: nat, bytes: nat) returns (ok: bool)
      requires Valid() && slot < count
      modifies this`slots, this`count, this`free, this`vacuum, this`next
      ensures Valid() && (bytes <= old(slots[slot].size) ==> ok)
    {
      ghost var c := slots[slot];
      Erase(slot);
      assert c in multiset(FreeChunks());
      ghost var i :| 0 <= i < free && FreeChunks()[i] == c;
      assert slots[count + i] == c;
      ok := CanAllocateSpace(bytes);
    }

    /** Where space behind all chunks is taken: the last chunk of the payload is
        resized in place. */
    ghost function EndOffset(slot: nat, e: nat): nat
      requires slot < |slots|
      reads this
    {
      if e == End(slots[slot]) then slots[slot].offset else e
    }

    /** Space behind all chunks. */
    method AllocateAtEnd(slot: nat, bytes: ChunkSize) returns (offset: nat)
      requires Valid() && slot < count && next >= 0 && next + bytes <= payload.Length
      modifies this`slots, this`next
      ensures |slots| == old(|slots|) && Valid() && next == offset + bytes && offset == old(EndOffset(slot, next))
      ensures slots[..count] == old(slots[..count])[slot := Chunk(offset, bytes)] && FreeChunks() == old(FreeChunks())
    {
      ghost var all := slots[..count + free];
      AppendedChunk(all, next, payload.Length, slot, bytes);
      if next == End(slots[slot]) {
        offset := slots[slot].offset;
      } else {
        offset := next;
      }
      next := offset + bytes;
      slots := slots[slot := Chunk(offset, bytes)];
      assert slots[..count + free] == all[slot := Chunk(offset, bytes)];
    }

    /** The slots after free chunk i was given to a used slot. */
    method Given(slot: nat, i: nat, bytes: ChunkSize) returns (r: seq<Chunk>)
      requires Valid() && slot < count <= i < count + free && slots[i].size >= bytes
      ensures |r| == |slots| && r[..count] == slots[..count][slot := Chunk(slots[i].offset, bytes)]
      ensures r[count..count + free - 1] == RemoveAt(FreeChunks(), i - count)
      ensures Sound(r[..count + free - 1], next, payload.Length) && Sound(r[..count + free - 1], -1, payload.Length)
    {
      FreeChunkUsed(slots, count, count + free, slot, i, bytes, next, payload.Length);
      r := SlotsReused(slots, count + free, slot, i, bytes);
    }

    /** Space from the freelist. */
    method AllocateFree(slot: nat, i: nat, bytes: ChunkSize) returns (offset: nat)
      requires Valid() && slot < count <= i < count + free && slots[i].size >= bytes
      modifies this`slots, this`next, this`free
      ensures |slots| == old(|slots|) && Valid() && free == old(free) - 1 && offset == old(slots[i].offset)
      ensures slots[..count] == old(slots[..count])[slot := Chunk(offset, bytes)]
      ensures FreeChunks() == RemoveAt(old(FreeChunks()), i - count)
    {
      var last := next == End(slots[i]) || next == End(slots[slot]);
      offset := slots[i].offset;
      slots := Given(slot, i, bytes);
      free := free - 1;
      if last {
        next := -1;
      }
    }

    /** allocate_space, once the next offset has been read. */
    method AllocateFrom(e: nat, slot: nat, bytes: ChunkSize) returns (ok: bool, offset: nat)
      requires Valid() && slot < count && (e + bytes <= payload.Length ==> next == e)
      modifies this`slots, this`next, this`free
      ensures |slots| == old(|slots|) && free <= old(free) && Valid()
      ensures ok <==>
              e + bytes <= payload.Length || old(exists i :: count <= i < count + free && slots[i].size >= bytes)
      ensures ok ==> slots[..count] == old(slots[..count])[slot := Chunk(offset, bytes)]
      ensures !ok ==> slots == old(slots) && next == old(next) && free == old(free)
      ensures e + bytes <= payload.Length ==>
              && free == old(free) && FreeChunks() == old(FreeChunks())
              && next == offset + bytes && offset == old(EndOffset(slot, e))
      ensures ok && e + bytes > payload.Length ==>
              exists i :: old(FirstFit(i, bytes)) && Reused(i, offset, old(slots), old(free))
    {
      if e + bytes <= payload.Length {
        offset := AllocateAtEnd(slot, bytes);
        return true, offset;
      }
      var i := FindFree(bytes);
      if i < 0 {
        return false, 0;
      }
      offset := AllocateFree(slot, i, bytes);
      assert Reused(i, offset, old(slots), old(free));
      ok := true;
    }

    /** Chunk i of the old slots was taken from the freelist. */
    ghost predicate Reused(i: int, offset: nat, was: seq<Chunk>, wasFree: nat)
      reads this
    {
      && count <= i < count + wasFree <= |was| && count + free <= |slots| && offset == was[i].offset
      && FreeChunks() == RemoveAt(was[count..count + wasFree], i - count)
    }

    /** allocate_space: it succeeds exactly where can_allocate_space says so. Then
        the slot has a chunk of its own, and no other slot changes; otherwise
        nothing changes. The space is taken from the end, where the last chunk is
        resized in place, or else it is the first free chunk that is large enough,
        which leaves the freelist. */
    method AllocateSpace(slot: nat, bytes: ChunkSize) returns (ok: bool, offset: nat)
      requires Valid() && slot < count
      modifies this`slots, this`next, this`free
      ensures |slots| == old(|slots|) && free <= old(free) && Valid()
      ensures ok == old(Fit(bytes))
      ensures ok ==> slots[..count] == old(slots[..count])[slot := Chunk(offset, bytes)]
      ensures !ok ==> slots == old(slots) && free == old(free)
      ensures old(Next()) + bytes <= payload.Length ==>
              FreeChunks() == old(FreeChunks()) && next == offset + bytes && offset == old(EndOffset(slot, Next()))
      ensures ok && old(Next()) + bytes > payload.Length ==>
              exists i :: old(FirstFit(i, bytes)) && Reused(i, offset, old(slots), old(free))
    {
      var e := NextOffset();
      ok, offset := AllocateFrom(e, slot, bytes);
    }

    /** add_to_freelist: nothing happens if all slots are taken. */
    method AddToFreelist(c: Chunk)
      requires Valid() && End(c) <= payload.Length && (next >= 0 ==> End(c) <= next)
      requires forall i :: 0 <= i < count + free ==> Disjoint(slots[i], c)
      modifies this`slots, this`free
      ensures Valid() && |slots| == old(|slots|) && slots[..count] == old(slots[..count])
      ensures FreeChunks() == old(FreeChunks()) + if count + old(free) < |slots| then [c] else []
    {
      var total := count + free;
      if total < |slots| {
        ghost var all := slots[..total];
        free := free + 1;
        slots := slots[total := c];
        assert slots[..total + 1] == all + [c];
      }
    }

    // ---- vacuumize ----

    method MemMove(dst: nat, src: nat, len: nat)
      requires dst + len <= payload.Length && src + len <= payload.Length
      modifies payload
      ensures Vacuum.Moved(old(payload[..]), payload[..], dst, src, len)
    {
      forall x | dst <= x < dst + len {
        payload[x] := payload[x + (src - dst)];
      }
    }

    /** The copy of the used slots, sorted only if they are not in order. */
    method ListSlots() returns (s: seq<Vacuum.Entry>)
      requires count <= |slots|
      ensures Vacuum.Listing(slots[..count], s) && Vacuum.Complete(slots[..count], s)
      ensures Vacuum.Sum(slots[..count], s, count) == Total(slots[..count], count)
    {
      ghost var c := slots[..count];
      s := [];
      var requiresSort := false;
      for i := 0 to count
        invariant s == Vacuum.Identity(c)[..i] && (!requiresSort ==> Vacuum.Sorted(s))
      {
        var e := Vacuum.Entry(slots[i].offset, i);
        if i > 0 && e.offset < s[i-1].offset {
          requiresSort := true;
        }
        s := s + [e];
      }
      assert s == Vacuum.Identity(c);
      if requiresSort {
        s := Vacuum.SortByOffset(s);
        Vacuum.SortedSum(c);
      } else {
        Vacuum.IdentityListing(c);
        Vacuum.IdentitySum(c, count);
      }
    }

    /** The state of the loop below before step i. */
    ghost predicate Packing(p0: seq<Byte>, c: seq<Chunk>, s: seq<Vacuum.Entry>, i: nat)
      reads this, payload
    {
      count <= |slots| && 0 <= next && Vacuum.Packed(p0, c, s, i, payload[..], slots[..count], next)
    }

    method PackOne(s: seq<Vacuum.Entry>, i: nat, ghost p0: seq<Byte>, ghost c: seq<Chunk>)
      requires i < |s| && |c| == count && |p0| == payload.Length
      requires Vacuum.Packable(p0, c, s) && Packing(p0, c, s, i)
      modifies this`slots, this`next, payload
      ensures |slots| == old(|slots|) && Packing(p0, c, s, i + 1)
    {
      Vacuum.NextChunk(p0, c, s, i, payload[..], slots[..count], next);
      var offset, slot := s[i].offset, s[i].slot;
      var size := slots[slot].size;
      ghost var p := payload[..];
      if offset != next {
        MemMove(next, offset, size);
      }
      Vacuum.PackStep(p0, c, s, i, p, slots[..count], next, payload[..]);
      assert slots[..count][slot := Chunk(next, size)] == slots[slot := Chunk(next, size)][..count];
      slots := slots[slot := Chunk(next, size)];
      next := next + size;
    }

    /** The loop of vacuumize: each chunk in turn moves down to the end of the
        ones before it. */
    method Pack(s: seq<Vacuum.Entry>, ghost p0: seq<Byte>, ghost c: seq<Chunk>)
      requires |c| == count && |p0| == payload.Length && Vacuum.Packable(p0, c, s) && Packing(p0, c, s, 0)
      modifies this`slots, this`next, payload
      ensures |slots| == old(|slots|) && Packing(p0, c, s, count)
    {
      for i := 0 to count
        invariant |slots| == old(|slots|) && Packing(p0, c, s, i)
      {
        PackOne(s, i, p0, c);
      }
    }

    method Compact()
      requires count <= |slots| && Apart(slots[..count]) && Within(slots[..count], payload.Length)
      modifies this`slots, this`next, payload
      ensures |slots| == old(|slots|) && Sound(slots[..count], next, payload.Length)
      ensures Pieces(payload[..], slots[..count]) == old(Pieces(payload[..], slots[..count]))
      ensures next == Size(Pieces(payload[..], slots[..count]))
    {
      var s := ListSlots();
      ghost var c, p0 := slots[..count], payload[..];
      next := 0;
      Vacuum.PackStart(p0, c, s);
      Pack(s, p0, c);
      Vacuum.PackedAll(p0, c, s, payload[..], slots[..count], next);
      LengthIsTotal(p0, c, count);
    }

    /** vacuumize: with little to gain only the freelist is dropped; otherwise
        the payload is compacted, and the space that is left is all the space
        the data leaves. The data of every slot stays the same. */
    method Vacuumize()
      requires Valid()
      modifies this`slots, this`next, this`free, this`vacuum, payload
      ensures Valid() && free == 0 && |slots| == old(|slots|)
      ensures Contents() == old(Contents())
      ensures old(vacuum) < 10 ==> slots == old(slots) && vacuum == old(vacuum)
      ensures old(vacuum) < 10 ==> next == if old(free) > 0 then -1 else old(next)
      ensures old(vacuum) >= 10 ==> next == Size(Contents()) && vacuum == 0
    {
      assert slots[..count] == slots[..count + free][..count];
      if vacuum < 10 {
        if free > 0 {
          free, next := 0, -1;
        }
        return;
      }
      free := 0;
      Compact();
      vacuum := 0;
    }

    // ---- split and merge ----

    method Clear()
      modifies this`count, this`free, this`next, this`vacuum
      ensures count == 0 && free == 0 && next == 0 && vacuum == 0
      ensures payload.Length <= 0xFFFF ==> Valid() && Contents() == []
    {
      count, free, next, vacuum := 0, 0, 0, 0;
      assert slots[..0] == [];
    }

    /** Copies data into the chunk of a slot. */
    method Fill(slot: nat, data: seq<Byte>)
      requires Valid() && slot < count && |data| == slots[slot].size
      modifies payload
      ensures Contents() == old(Contents())[slot := data]
    {
      ghost var p, s := payload[..], slots[..count];
      assert s == slots[..count + free][..count];
      var offset := slots[slot].offset;
      forall x | offset <= x < offset + |data| {
        payload[x] := data[x - offset];
      }
      assert Piece(payload[..], s[slot]) == data;
      PieceWritten(p, payload[..], s, slot, data);
    }

    /** The loop body of split and merge_from: a new last slot with a copy of the
        given data. The new slot is not among those that allocate_space counts. If
        there is no room, the new slot is not used. */
    method Append(data: seq<Byte>) returns (ok: bool)
      requires Valid() && free == 0 && count < |slots| && |data| <= 255
      modifies this`slots, this`count, this`next, this`free, payload
      ensures Valid() && free == 0 && |slots| == old(|slots|)
      ensures ok <==> old(Next()) + |data| <= payload.Length
      ensures ok ==> count == old(count) + 1 && next == old(Next()) + |data| && Contents() == old(Contents()) + [data]
      ensures !ok ==> count == old(count) && Contents() == old(Contents())
    {
      var e := NextOffset();
      ghost var was := Contents();
      Insert(count);
      ghost var all := slots[..count];
      assert all[..count - 1] == old(slots[..count]) && all[count - 1] == Chunk(0, 0);
      var offset;
      ok, offset := AllocateFrom(e, count - 1, |data|);
      if !ok {
        count := count - 1;
        assert slots[..count] == all[..count];
        return;
      }
      ghost var grown := Contents();
      assert slots[..count + free][count - 1] == slots[..count][count - 1] == Chunk(offset, |data|);
      Resized(payload[..], all, was, count - 1, Chunk(offset, |data|));
      assert grown[..count - 1] == was;
      Fill(count - 1, data);
      assert Contents() == was + [data];
    }

    /** Reads the data of a slot. */
    method Copy(slot: nat) returns (data: seq<Byte>)
      requires Valid() && slot < count
      ensures data == Contents()[slot]
    {
      assert slots[..count] == slots[..count + free][..count] && slots[..count][slot] == slots[slot];
      data := payload[slots[slot].offset..End(slots[slot])];
    }

    /** The state of the copying loop: the first k pieces of d have been appended
        to `mine`, with space from `room` on. */
    ghost predicate Copying(mine: seq<seq<Byte>>, d: seq<seq<Byte>>, k: nat, room: nat)
      reads this, payload
    {
      && Valid() && free == 0 && k <= |d| && count + |d| - k <= |slots|
      && Next() == room + Length(d, k) && (k > 0 ==> Next() <= payload.Length)
      && Contents() == mine + d[..k]
    }

    method CopyOne(data: seq<Byte>, ghost mine: seq<seq<Byte>>, ghost d: seq<seq<Byte>>, ghost k: nat, ghost room: nat)
      returns (ok: bool)
      requires k < |d| && Copying(mine, d, k, room) && data == d[k] && |data| <= 255
      modifies this`slots, this`count, this`next, this`free, payload
      ensures Valid() && |slots| == old(|slots|)
      ensures ok <==> room + Length(d, k + 1) <= payload.Length
      ensures ok ==> Copying(mine, d, k + 1, room) && count == old(count) + 1
      ensures !ok ==> Contents() == old(Contents())
    {
      ok := Append(data);
      assert mine + d[..k] + [data] == mine + d[..k + 1];
    }

    /** The common loop of split and merge_from: the data of the other index is
        appended slot by slot, as far as there is room behind all chunks. */
    method AppendAll(d: seq<seq<Byte>>) returns (ok: bool)
      requires Valid() && free == 0 && count + |d| <= |slots| && forall i :: 0 <= i < |d| ==> |d[i]| <= 255
      modifies this`slots, this`count, this`next, this`free, payload
      ensures Valid() && |slots| == old(|slots|)
      ensures ok <==> d == [] || old(Next()) + Size(d) <= payload.Length
      ensures ok ==> free == 0 && count == old(count) + |d| && Contents() == old(Contents()) + d
      ensures !ok ==> old(Contents()) <= Contents()
    {
      ghost var mine, room := Contents(), Next();
      assert mine + d[..0] == mine;
      for k := 0 to |d|
        invariant |slots| == old(|slots|) && count == old(count) + k
        invariant Copying(mine, d, k, room)
      {
        ok := CopyOne(d[k], mine, d, k, room);
        if !ok {
          LengthGrows(d, k + 1, |d|);
          return;
        }
      }
      assert d[..|d|] == d;
      ok := true;
    }

    /** The data of the slots from `from` on. */
    method ReadFrom(from: nat) returns (d: seq<seq<Byte>>)
      requires Valid() && from <= count
      ensures d == Contents()[from..]
    {
      d := [];
      for i := from to count
        invariant d == Contents()[from..i]
      {
        var data := Copy(i);
        d := d + [data];
      }
    }

    /** Forgetting the slots from pivot on. */
    lemma Truncated(pivot: nat)
      requires Valid() && pivot <= count
      ensures Sound(slots[..pivot], -1, payload.Length) && Pieces(payload[..], slots[..pivot]) == Contents()[..pivot]
    {
    }

    /** split: the slots from pivot on move to the other index, if it has room. */
    method Split(other: UpfrontIndex, pivot: nat) returns (ok: bool)
      requires Valid() && pivot <= count && other != this && other.payload != payload
      requires other.payload.Length <= 0xFFFF && count - pivot <= |other.slots|
      modifies this`count, this`free, this`next, this`vacuum
      modifies other`slots, other`count, other`next, other`free, other`vacuum, other.payload
      ensures Valid() && other.Valid() && |other.slots| == old(|other.slots|)
      ensures ok <==> Size(old(Contents())[pivot..]) <= other.payload.Length
      ensures ok ==> count == pivot && free == 0 && next == -1 && vacuum == old(vacuum + count)
      ensures ok ==> other.count == old(count) - pivot && other.free == 0
      ensures ok ==> Contents() == old(Contents())[..pivot] && other.Contents() == old(Contents())[pivot..]
      ensures !ok ==> Contents() == old(Contents())
    {
      Truncated(pivot);
      other.Clear();
      var d := ReadFrom(pivot);
      ok := other.AppendAll(d);
      if ok {
        vacuum := vacuum + count;
        count, free, next := pivot, 0, -1;
      }
    }

    /** Where the unused space begins after vacuumize. */
    ghost function NextAfterVacuum(): nat
      requires Valid()
      reads this, payload
    {
      if vacuum >= 10 then Size(Contents())
      else if next >= 0 && free == 0 then next
      else if count > 0 then MaxEnd(slots[..count], count)
      else INVALID
    }

    /** merge_from: the slots of the other index are appended, if there is room
        behind those that are left. */
    method MergeFrom(other: UpfrontIndex) returns (ok: bool)
      requires Valid() && other.Valid() && other != this && other.payload != payload
      requires count + other.count <= |slots|
      modifies this`slots, this`count, this`next, this`free, this`vacuum, payload
      modifies other`count, other`free, other`next, other`vacuum
      ensures Valid() && other.Valid() && |slots| == old(|slots|)
      ensures ok <==> old(other.count == 0 || NextAfterVacuum() + Size(other.Contents()) <= payload.Length)
      ensures ok ==> count == old(count + other.count) && other.Contents() == []
      ensures ok ==> Contents() == old(Contents()) + old(other.Contents())
      ensures !ok ==> old(Contents()) <= Contents() && other.Contents() == old(other.Contents())
    {
      assert other.Contents()[0..] == other.Contents();
      Vacuumize();
      var d := other.ReadFrom(0);
      ok := AppendAll(d);
      if ok {
        other.Clear();
      }
    }

    lemma UsedFits()
      requires Valid()
      ensures Size(Contents()) <= payload.Length
    {
      Truncated(count);
      Vacuum.TotalFits(slots[..count], payload.Length);
      LengthIsTotal(payload[..], slots[..count], count);
    }

    /** The first half, with the second half behind it, fits again: always after
        a compaction; without one if nothing moves, or if something stays and the
        space behind it is large enough. */
    ghost predicate Mergeable(pivot: nat)
      requires Valid() && pivot <= count
      reads this, payload
    {
      || vacuum + count >= 10
      || pivot == count
      || (pivot > 0 && MaxEnd(slots[..pivot], pivot) + Size(Contents()[pivot..]) <= payload.Length)
    }

    /** A split followed by a merge: both succeed exactly if the other index has
        room and the halves fit together again, and then the index stores what it
        stored before. */
    method SplitAndMerge(other: UpfrontIndex, pivot: nat) returns (ok: bool)
      requires Valid() && pivot <= count && other != this && other.payload != payload
      requires other.payload.Length <= 0xFFFF && count - pivot <= |other.slots|
      modifies this`slots, this`count, this`next, this`free, this`vacuum, payload
      modifies other`slots, other`count, other`next, other`free, other`vacuum, other.payload
      ensures Valid() && (ok <==> old(Size(Contents()[pivot..]) <= other.payload.Length && Mergeable(pivot)))
      ensures ok ==> count == old(count) && Contents() == old(Contents())
    {
      ghost var all := Contents();
      UsedFits();
      LengthSplit(all, pivot);
      ok := Split(other, pivot);
      if ok {
        ok := MergeBack(other, all, pivot);
      }
    }

    method MergeBack(other: UpfrontIndex, ghost all: seq<seq<Byte>>, ghost pivot: nat) returns (ok: bool)
      requires Valid() && other.Valid() && other != this && other.payload != payload
      requires pivot <= |all| && Contents() == all[..pivot] && other.Contents() == all[pivot..]
      requires count + other.count <= |slots| && next == -1 && free == 0
      requires Size(all[..pivot]) + Size(all[pivot..]) <= payload.Length
      modifies this`slots, this`count, this`next, this`free, this`vacuum, payload
      modifies other`count, other`free, other`next, other`vacuum
      ensures Valid()
      ensures ok <==> || old(vacuum) >= 10 || old(other.count) == 0
                      || (old(count) > 0 && old(MaxEnd(slots[..count], count)) + Size(all[pivot..]) <= payload.Length)
      ensures ok ==> count == old(count + other.count) && Contents() == all
    {
      assert all == all[..pivot] + all[pivot..];
      ok := MergeFrom(other);
    }
  }

  /** Fewer than ten chunks that all move to another index cannot move back: the
      emptied index is not compacted, and without a used slot it does not find out
      where its free space begins. */
  method EmptiedIndex(d: seq<seq<Byte>>) returns (ok: bool)
    requires 0 < |d| < 10 && Size(d) <= 0xFFFF && forall i :: 0 <= i < |d| ==> |d[i]| <= 255
    ensures !ok
  {
    var a := new UpfrontIndex(Size(d), |d|);
    var b := new UpfrontIndex(Size(d), |d|);
    ok := a.AppendAll(d);
    assert a.count == |d| && !a.Mergeable(0);
    ok := a.SplitAndMerge(b, 0);
  }
}
