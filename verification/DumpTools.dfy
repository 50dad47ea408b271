/** The exporter and the importer as they run over files (tools/ups_export.cc and
    tools/ups_import.cc), and what a dump file carries from one to the other. */
module DumpTools {
  import opened TableBytes
  import opened DumpCodec
  import opened Dump
  import Frames
  import opened Options

  const MAGIC: nat := 0x1234321

  function EncodeAll(ds: seq<Datum>): seq<Bytes> {
    if ds == [] then [] else [Encode(ds[0])] + EncodeAll(ds[1..])
  }

  /** The bytes of a list of messages. */
  function Dumped(ds: seq<Datum>): Bytes { Frames.WriteAll(EncodeAll(ds)) }

  lemma {:induction false} EncodeAllAppend(a: seq<Datum>, b: seq<Datum>)
    ensures EncodeAll(a + b) == EncodeAll(a) + EncodeAll(b)
  {
    if a == [] {
      assert a + b == b;
    } else {
      EncodeAllAppend(a[1..], b);
      assert (a + b)[0] == a[0] && (a + b)[1..] == a[1..] + b;
      Prepended(Encode(a[0]), EncodeAll(a[1..]), EncodeAll(b));
    }
  }

  lemma Prepended(x: Bytes, a: seq<Bytes>, b: seq<Bytes>)
    ensures [x] + (a + b) == ([x] + a) + b
  {
  }

  lemma DumpedAppend(a: seq<Datum>, b: seq<Datum>)
    ensures Dumped(a + b) == Dumped(a) + Dumped(b)
  {
    EncodeAllAppend(a, b);
    Frames.WriteAllAppend(EncodeAll(a), EncodeAll(b));
  }

  lemma DumpedOne(d: Datum)
    ensures Dumped([d]) == Frames.Frame(Encode(d))
  {
    var ds := [d];
    assert ds[1..] == [] && EncodeAll(ds[1..]) == [];
    assert EncodeAll(ds) == [Encode(d)] + EncodeAll(ds[1..]);
    var fs := EncodeAll(ds);
    assert fs[0] == Encode(d) && fs[1..] == [];
    assert Frames.WriteAll(fs) == Frames.Frame(fs[0]) + Frames.WriteAll(fs[1..]);
  }

  class BinaryExporter {
    var f: Bytes

    constructor ()
      ensures f == ToBytes(MAGIC, 4) == [0x21, 0x43, 0x23, 0x01]
    {
      f := ToBytes(MAGIC, 4);
    }

    method Append(d: Datum)
      modifies this
      ensures f == old(f) + Dumped([d])
    {
      var s := Encode(d);
      f := f + ToBytes(|s|, 4);
      f := f + s;
      DumpedOne(d);
    }

    method ExportRow(row: Row)
      modifies this
      ensures f == old(f) + Dumped(RowItems(row.key, row.records))
    {
      ghost var f0, r := f, row.records;
      for j := 0 to |row.records|
        invariant f + Dumped(RowItems(row.key, r[j..])) == f0 + Dumped(RowItems(row.key, r))
      {
        ghost var d, rest := Item(row.key, r[j]), RowItems(row.key, r[j + 1..]);
        assert RowItems(row.key, r[j..]) == [d] + rest by {
          assert r[j..][1..] == r[j + 1..];
        }
        DumpedAppend([d], rest);
        Concat(f, Dumped([d]), Dumped(rest));
        Append(Item(row.key, row.records[j]));
      }
      assert f + [] == f && r[|r|..] == [];
    }

    /** The items of a walk over a database. */
    method ExportItems(rows: seq<Row>)
      modifies this
      ensures f == old(f) + Dumped(Items(rows))
    {
      ghost var f0 := f;
      for i := 0 to |rows|
        invariant f + Dumped(Items(rows[i..])) == f0 + Dumped(Items(rows))
      {
        ghost var a, b := RowItems(rows[i].key, rows[i].records), Items(rows[i + 1..]);
        assert Items(rows[i..]) == a + b by {
          assert rows[i..][1..] == rows[i + 1..];
        }
        DumpedAppend(a, b);
        Concat(f, Dumped(a), Dumped(b));
        ExportRow(rows[i]);
      }
      assert f + [] == f && rows[|rows|..] == [];
    }

    /** export_database: the database and then its items. */
    method ExportDatabase(t: Table)
      modifies this
      ensures f == old(f) + Dumped(ExportTable(t))
    {
      var head := Database(t.name, Exported(t.flags), t.keySize, t.keyType, t.recordSize);
      DumpedAppend([head], Items(t.rows));
      Concat(f, Dumped([head]), Dumped(Items(t.rows)));
      Append(head);
      ExportItems(t.rows);
    }

    method ExportDatabases(ts: seq<Table>)
      modifies this
      ensures f == old(f) + Dumped(ExportTables(ts))
    {
      ghost var f0 := f;
      for i := 0 to |ts|
        invariant f + Dumped(ExportTables(ts[i..])) == f0 + Dumped(ExportTables(ts))
      {
        ghost var a, b := ExportTable(ts[i]), ExportTables(ts[i + 1..]);
        assert ExportTables(ts[i..]) == a + b by {
          assert ts[i..][1..] == ts[i + 1..];
        }
        DumpedAppend(a, b);
        Concat(f, Dumped(a), Dumped(b));
        ExportDatabase(ts[i]);
      }
      assert f + [] == f && ts[|ts|..] == [];
    }

    /** The main function of ups_export. */
    method ExportEnvironment(src: Source)
      modifies this
      ensures f == old(f) + Dumped(Export(src))
    {
      var head := Environment(Exported(src.flags), src.pageSize, src.maxDatabases);
      DumpedAppend([head], ExportTables(src.tables));
      Concat(f, Dumped([head]), Dumped(ExportTables(src.tables)));
      Append(head);
      ExportDatabases(src.tables);
    }
  }

  lemma Concat(a: Bytes, b: Bytes, c: Bytes)
    ensures (a + b) + c == a + (b + c)
  {
  }

  function Tail(s: seq<Bytes>): seq<Bytes> { if s == [] then [] else s[1..] }

  class BinaryImporter {
    var env: Option<Env>
    var db: Option<nat>
    var dup: bool            // UPS_DUPLICATE is among the insert flags
    var over: bool           // UPS_OVERWRITE is among the insert flags

    constructor (e: Option<Env>)
      ensures Now() == State(e, None, false, false)
    {
      env, db, dup, over := e, None, false, false;
    }

    ghost function Now(): State
      reads this
    {
      State(env, db, dup, over)
    }

    /** The database that items go to is there. */
    ghost predicate Selected()
      reads this
    {
      env.Some? && db.Some? && db.value in env.value.dbs
    }

    /** The records of a key in that database. */
    ghost function Records(key: Bytes): seq<Bytes>
      reads this
    {
      if Selected() && key in env.value.dbs[db.value].data then env.value.dbs[db.value].data[key] else []
    }

    /** All keys but one are as before. */
    ghost predicate Keeps(data: Data, key: Bytes)
      requires Selected()
      reads this
    {
      var now := env.value.dbs[db.value].data;
      forall x :: x != key ==> (x in now <==> x in data) && (x in now ==> now[x] == data[x])
    }

    method ReadEnvironment(flags: bv32, pageSize: nat, maxDatabases: nat)
      modifies this`env
      ensures Step(old(Now()), Environment(flags, pageSize, maxDatabases)) == Some(Now())
    {
      if env.Some? {
        return;
      }
      env := Some(Env(flags, pageSize, map[]));
    }

    /** A database: on success it is there and selected, an existing one untouched
        and a missing one empty, and no other database changes. Once a database
        without duplicates was read, items overwrite for good. */
    method ReadDatabase(name: nat, flags: bv32, keySize: nat, keyType: nat, recordSize: nat) returns (ok: bool)
      modifies this
      ensures dup == Dups(flags) && over == (old(over) || !Dups(flags))
      ensures ok <==> old(env).Some? && CanOpen(flags) && (name in old(env).value.dbs || CanCreate(flags))
      ensures ok ==> env.Some? && db == Some(name) && env.value.dbs.Keys == old(env).value.dbs.Keys + {name}
      ensures ok ==> forall n :: n in old(env).value.dbs ==> env.value.dbs[n] == old(env).value.dbs[n]
      ensures ok && name !in old(env).value.dbs ==>
              env.value.dbs[name] == Db(flags, keySize, keyType, recordSize, map[])
      ensures !ok ==> env == old(env) && db == None
      ensures match Step(old(Now()), Database(name, flags, keySize, keyType, recordSize))
              case None => !ok
              case Some(t) => ok && Now() == t
    {
      db := None;
      if Dups(flags) {
        dup := true;
      } else {
        dup := false;
        over := true;
      }
      if env.None? || !CanOpen(flags) {
        return false;
      }
      if name !in env.value.dbs {
        if !CanCreate(flags) {
          return false;
        }
        env := Some(env.value.(dbs := env.value.dbs[name := Db(flags, keySize, keyType, recordSize, map[])]));
      }
      db := Some(name);
      ok := true;
    }

    /** An item: on success the record is the last one of its key, or with
        overwriting the first, and no other record, key or database changes. */
    method ReadItem(key: Bytes, record: Bytes) returns (ok: bool)
      modifies this`env
      ensures ok ==> old(Selected()) && Selected() && Keeps(old(env).value.dbs[db.value].data, key)
      ensures ok ==> Records(key) == if dup then old(Records(key)) + [record] else [record] + Tail(old(Records(key)))
      ensures ok ==> forall n :: n != db.value ==> (n in env.value.dbs <==> n in old(env).value.dbs)
      ensures ok ==> forall n :: n != db.value && n in env.value.dbs ==> env.value.dbs[n] == old(env).value.dbs[n]
      ensures ok <==> old(Selected()) && !(dup && over) && (dup ==> Dups(old(env).value.dbs[db.value].flags))
                      && (dup || over || key !in old(env).value.dbs[db.value].data)
      ensures !ok ==> env == old(env)
      ensures match Step(old(Now()), Item(key, record)) case None => !ok case Some(t) => ok && Now() == t
    {
      if env.None? || db.None? || db.value !in env.value.dbs {
        return false;
      }
      var d := env.value.dbs[db.value];
      if (dup && over) || (dup && !Dups(d.flags)) {
        return false;
      }
      var was := if key in d.data then d.data[key] else [];
      var now := if dup then was + [record] else if was == [] then [record] else was[0 := record];
      if !dup && !over && key in d.data {
        return false;
      }
      env := Some(env.value.(dbs := env.value.dbs[db.value := d.(data := d.data[key := now])]));
      ok := true;
    }

    method Process(d: Datum) returns (ok: bool)
      modifies this
      ensures match Step(old(Now()), d) case None => !ok case Some(t) => ok && Now() == t
    {
      match d
      case Environment(flags, pageSize, maxDatabases) =>
        ReadEnvironment(flags, pageSize, maxDatabases);
        ok := true;
      case Database(name, flags, keySize, keyType, recordSize) =>
        ok := ReadDatabase(name, flags, keySize, keyType, recordSize);
      case Item(key, record) =>
        ok := ReadItem(key, record);
    }

    /** run: the messages of the file are processed in order, until the file
        ends or something fails. */
    method Run(file: Bytes) returns (ok: bool)
      modifies this
      ensures var p := Frames.Parse(file); var r := Processed(old(Now()), p.frames);
              (ok <==> p.ok && r.Some?) && (ok ==> r == Some(Now()))
    {
      var frames, complete := Frames.Run(file);
      ghost var s0 := Now();
      for i := 0 to |frames|
        invariant Processed(s0, frames) == Processed(Now(), frames[i..])
      {
        assert frames[i..][1..] == frames[i + 1..];
        var d := Decode(frames[i]);
        if d.None? {
          return false;
        }
        var done := Process(d.value);
        if !done {
          return false;
        }
      }
      ok := complete;
    }
  }

  /** Decoding and carrying out a list of messages. */
  function Processed(s: State, fs: seq<Bytes>): Option<State>
    decreases fs
  {
    if fs == [] then Some(s)
    else
      match Decode(fs[0])
      case None => None
      case Some(d) =>
        match Step(s, d)
        case None => None
        case Some(t) => Processed(t, fs[1..])
  }

  lemma {:induction false} EncodedIsProcessed(s: State, ds: seq<Datum>)
    ensures Processed(s, EncodeAll(ds)) == Import(s, ds)
    decreases ds
  {
    if ds != [] {
      DatumRoundTrip(ds[0]);
      assert EncodeAll(ds)[1..] == EncodeAll(ds[1..]);
      match Step(s, ds[0])
      case None =>
      case Some(t) => EncodedIsProcessed(t, ds[1..]);
    }
  }

  lemma {:induction false} EncodedNotEmpty(ds: seq<Datum>)
    ensures forall i :: 0 <= i < |EncodeAll(ds)| ==> EncodeAll(ds)[i] != []
  {
    if ds != [] {
      DatumRoundTrip(ds[0]);
      EncodedNotEmpty(ds[1..]);
    }
  }

  lemma {:induction false} EncodedPrefix(ds: seq<Datum>, k: nat)
    requires k <= |ds|
    ensures |EncodeAll(ds)| == |ds| && EncodeAll(ds)[..k] == EncodeAll(ds[..k])
  {
    if ds != [] {
      EncodedPrefix(ds[1..], if k == 0 then 0 else k - 1);
      if k > 0 {
        assert ds[..k][1..] == ds[1..][..k-1];
      }
    }
  }

  /** Importing a dump that was cut off anywhere either fails or leaves exactly
      the state of the messages before some message boundary. */
  lemma CutImport(s: State, ds: seq<Datum>, c: nat)
    requires Frames.Fits(EncodeAll(ds)) && c <= |Dumped(ds)|
    ensures var p := Frames.Parse(Dumped(ds)[..c]); var k := Frames.Whole(EncodeAll(ds), c);
            && k <= |ds| && (p.ok <==> c == |Dumped(ds[..k])|)
            && Processed(s, p.frames) == Import(s, ds[..k])
  {
    var fs := EncodeAll(ds);
    var k := Frames.Whole(fs, c);
    EncodedNotEmpty(ds);
    Frames.CutDump(fs, c);
    EncodedPrefix(ds, |ds|);
    EncodedPrefix(ds, k);
    EncodedIsProcessed(s, ds[..k]);
  }

  /** Export an environment to a file and import the file into a new one: the
      import succeeds exactly for importable environments, and then the two are
      equal in flags, page size, databases, keys and records. */
  method ExportThenImport(src: Source) returns (ok: bool, env: Option<Env>)
    requires ValidSource(src) && Frames.Fits(EncodeAll(Export(src)))
    ensures ok <==> Importable(false, src.tables)
    ensures ok ==> env.Some? && SameEnvironment(src, env.value)
  {
    var exporter := new BinaryExporter();
    exporter.ExportEnvironment(src);
    var file := exporter.f[4..];
    assert file == Dumped(Export(src));
    var importer := new BinaryImporter(None);
    ok := importer.Run(file);
    env := importer.env;
    ghost var fs := EncodeAll(Export(src));
    EncodedNotEmpty(Export(src));
    Frames.ParseInvertsWrite(fs);
    EncodedIsProcessed(START, Export(src));
    ImportExport(src);
    if Importable(false, src.tables) {
      ImportIsSame(src);
    }
  }
}
