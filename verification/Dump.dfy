/** Exporting an environment and importing the dump (tools/ups_export.cc and
    tools/ups_import.cc). */
module Dump {
  import opened TableBytes
  import opened DumpCodec
  import opened Options

  // ---- flags ----

  const IGNORE_MISSING_CALLBACK: bv32 := 0x2
  const READ_ONLY: bv32 := 0x4
  const RECORD_NUMBER32: bv32 := 0x1000
  const RECORD_NUMBER64: bv32 := 0x2000
  const ENABLE_DUPLICATES: bv32 := 0x4000
  const FORCE_RECORDS_INLINE: bv32 := 0x80_0000

  /** The flags that ups_env_open_db admits. The second one stands in its mask
      as the number of a parameter, which equals this flag. */
  const OPEN_MASK: bv32 := FORCE_RECORDS_INLINE | RECORD_NUMBER32 | IGNORE_MISSING_CALLBACK | READ_ONLY

  /** The flags that ups_env_create_db admits. */
  const CREATE_MASK: bv32 :=
    FORCE_RECORDS_INLINE | ENABLE_DUPLICATES | IGNORE_MISSING_CALLBACK | RECORD_NUMBER32 | RECORD_NUMBER64

  predicate Dups(flags: bv32) { flags & ENABLE_DUPLICATES != 0 }

  /** The importer opens every database first, with all its flags but two. */
  predicate CanOpen(flags: bv32) { flags & !ENABLE_DUPLICATES & !IGNORE_MISSING_CALLBACK & !OPEN_MASK == 0 }

  predicate CanCreate(flags: bv32) { flags & !CREATE_MASK == 0 }

  /** The flags that the exporter writes. */
  function Exported(flags: bv32): bv32 { flags & !READ_ONLY }

  /** All flags but UPS_READ_ONLY are exported as they are. */
  lemma ExportedBits(f: bv32)
    ensures Exported(f) | READ_ONLY == f | READ_ONLY && Exported(f) & READ_ONLY == 0
  {
  }

  lemma ExportedAsIs(f: bv32)
    requires f & READ_ONLY == 0
    ensures Exported(f) == f
  {
  }

  lemma ExportedFlags(f: bv32)
    ensures Dups(Exported(f)) == Dups(f)
    ensures CanOpen(Exported(f)) ==> CanCreate(Exported(f))
  {
  }

  /** The flags that are admitted, as numbers: a database can be opened with 0x2,
      0x4, 0x1000, 0x4000 and 0x800000, and created with 0x2, 0x1000, 0x2000, 0x4000
      and 0x800000. */
  lemma AdmittedFlags(f: bv32)
    ensures CanOpen(f) <==> f | 0x80_5006 == 0x80_5006
    ensures CanCreate(f) <==> f | 0x80_7002 == 0x80_7002
    ensures Dups(f) <==> f | 0x4000 == f
  {
  }

  // ---- environments ----

  type Data = map<Bytes, seq<Bytes>>

  datatype Db = Db(flags: bv32, keySize: nat, keyType: nat, recordSize: nat, data: Data)

  datatype Env = Env(flags: bv32, pageSize: nat, dbs: map<nat, Db>)

  datatype Row = Row(key: Bytes, records: seq<Bytes>)

  /** A database as the exporter walks it: its keys in order, each with its
      duplicates in order. */
  datatype Table = Table(name: nat, flags: bv32, keySize: nat, keyType: nat, recordSize: nat, rows: seq<Row>)

  datatype Source = Source(flags: bv32, pageSize: nat, maxDatabases: nat, tables: seq<Table>)

  predicate DistinctKeys(rows: seq<Row>) { forall i, j :: 0 <= i < j < |rows| ==> rows[i].key != rows[j].key }

  predicate ValidTable(t: Table) {
    && DistinctKeys(t.rows)
    && forall i :: 0 <= i < |t.rows| ==> |t.rows[i].records| >= 1 && (!Dups(t.flags) ==> |t.rows[i].records| == 1)
  }

  predicate ValidSource(s: Source) {
    && (forall i :: 0 <= i < |s.tables| ==> ValidTable(s.tables[i]))
    && DistinctNames(s.tables)
  }

  // ---- export ----

  function RowItems(key: Bytes, records: seq<Bytes>): seq<Datum> {
    if records == [] then [] else [Item(key, records[0])] + RowItems(key, records[1..])
  }

  function Items(rows: seq<Row>): seq<Datum> {
    if rows == [] then [] else RowItems(rows[0].key, rows[0].records) + Items(rows[1..])
  }

  function ExportTable(t: Table): seq<Datum> {
    [Database(t.name, Exported(t.flags), t.keySize, t.keyType, t.recordSize)] + Items(t.rows)
  }

  function ExportTables(ts: seq<Table>): seq<Datum> {
    if ts == [] then [] else ExportTable(ts[0]) + ExportTables(ts[1..])
  }

  function Export(s: Source): seq<Datum> {
    [Environment(Exported(s.flags), s.pageSize, s.maxDatabases)] + ExportTables(s.tables)
  }

  // ---- import ----

  /** The importer's fields; `dup` and `over` are the two insert flags. */
  datatype State = State(env: Option<Env>, db: Option<nat>, dup: bool, over: bool)

  const START := State(None, None, false, false)

  function Get(data: Data, key: Bytes): seq<Bytes> { if key in data then data[key] else [] }

  function Put(dup: bool, d: seq<Bytes>, r: Bytes): seq<Bytes> {
    if dup then d + [r] else if d == [] then [r] else d[0 := r]
  }

  /** One message; None is an error exit. */
  function Step(s: State, d: Datum): Option<State> {
    match d
    case Environment(flags, pageSize, _) =>
      Some(if s.env.Some? then s else s.(env := Some(Env(flags, pageSize, map[]))))
    case Database(name, flags, keySize, keyType, recordSize) =>
      var dup := Dups(flags);
      var t := s.(dup := dup, over := s.over || !dup, db := Some(name));
      if s.env.None? || !CanOpen(flags) then None
      else if name in s.env.value.dbs then Some(t)
      else if !CanCreate(flags) then None
      else
        var e := s.env.value;
        Some(t.(env := Some(e.(dbs := e.dbs[name := Db(flags, keySize, keyType, recordSize, map[])]))))
    case Item(key, record) =>
      if s.env.None? || s.db.None? || s.db.value !in s.env.value.dbs then None
      else
        var e, n := s.env.value, s.db.value;
        var db := e.dbs[n];
        if (s.dup && s.over) || (s.dup && !Dups(db.flags)) || (!s.dup && !s.over && key in db.data) then None
        else
          var now := Put(s.dup, Get(db.data, key), record);
          Some(s.(env := Some(e.(dbs := e.dbs[n := db.(data := db.data[key := now])]))))
  }

  function Import(s: State, ds: seq<Datum>): Option<State>
    decreases ds
  {
    if ds == [] then Some(s)
    else
      match Step(s, ds[0])
      case None => None
      case Some(t) => Import(t, ds[1..])
  }

  lemma {:induction false} ImportAppend(s: State, a: seq<Datum>, b: seq<Datum>)
    ensures Import(s, a + b) == match Import(s, a) case None => None case Some(t) => Import(t, b)
    decreases a
  {
    if a == [] {
      assert a + b == b;
    } else {
      assert (a + b)[0] == a[0] && (a + b)[1..] == a[1..] + b;
      match Step(s, a[0])
      case None =>
      case Some(t) => ImportAppend(t, a[1..], b);
    }
  }

  // ---- items ----

  function PutAll(dup: bool, d: seq<Bytes>, records: seq<Bytes>): seq<Bytes>
    decreases records
  {
    if records == [] then d else PutAll(dup, Put(dup, d, records[0]), records[1..])
  }

  /** The data of a database after rows have been imported into it. */
  function Filled(dup: bool, data: Data, rows: seq<Row>): Data
    decreases rows
  {
    if rows == [] then data
    else Filled(dup, data[rows[0].key := PutAll(dup, Get(data, rows[0].key), rows[0].records)], rows[1..])
  }

  /** Items can be inserted: the two insert flags do not exclude each other and
      they suit the database. */
  predicate Ready(s: State) {
    && s.env.Some? && s.db.Some? && s.db.value in s.env.value.dbs && s.dup != s.over
    && (s.dup ==> Dups(s.env.value.dbs[s.db.value].flags))
  }

  function Current(s: State): Data
    requires Ready(s)
  {
    s.env.value.dbs[s.db.value].data
  }

  function WithData(s: State, data: Data): State
    requires Ready(s)
  {
    var e, n := s.env.value, s.db.value;
    s.(env := Some(e.(dbs := e.dbs[n := e.dbs[n].(data := data)])))
  }

  lemma ItemImported(s: State, key: Bytes, record: Bytes)
    requires Ready(s)
    ensures var data := Current(s)[key := Put(s.dup, Get(Current(s), key), record)];
            Step(s, Item(key, record)) == Some(WithData(s, data)) && Ready(WithData(s, data)) &&
              Current(WithData(s, data)) == data
  {
  }

  lemma WithDataTwice(s: State, a: Data, b: Data)
    requires Ready(s)
    ensures Ready(WithData(s, a)) && WithData(WithData(s, a), b) == WithData(s, b)
  {
    var e, n := s.env.value, s.db.value;
    assert e.dbs[n := e.dbs[n].(data := a)][n := e.dbs[n].(data := b)] == e.dbs[n := e.dbs[n].(data := b)];
  }

  lemma WithSame(s: State)
    requires Ready(s)
    ensures WithData(s, Current(s)) == s
  {
    var e, n := s.env.value, s.db.value;
    assert e.dbs[n := e.dbs[n].(data := e.dbs[n].data)] == e.dbs;
  }

  lemma {:induction false} RowImported(s: State, key: Bytes, records: seq<Bytes>)
    requires Ready(s) && records != []
    ensures Import(s, RowItems(key, records)) == Some(WithData(s,
            Current(s)[key := PutAll(s.dup, Get(Current(s), key), records)]))
    decreases records
  {
    var r := records[0];
    var data := Current(s)[key := Put(s.dup, Get(Current(s), key), r)];
    var t := WithData(s, data);
    ItemImported(s, key, r);
    assert RowItems(key, records)[1..] == RowItems(key, records[1..]);
    if |records| > 1 {
      RowImported(t, key, records[1..]);
      var p := PutAll(s.dup, Get(Current(s), key), records);
      assert data[key := p] == Current(s)[key := p];
      WithDataTwice(s, data, data[key := p]);
    } else {
      assert records[1..] == [];
    }
  }

  lemma {:induction false} RowsImported(s: State, rows: seq<Row>)
    requires Ready(s) && forall i :: 0 <= i < |rows| ==> rows[i].records != []
    ensures Import(s, Items(rows)) == Some(WithData(s, Filled(s.dup, Current(s), rows)))
    decreases rows
  {
    if rows == [] {
      WithSame(s);
    } else {
      var key, records := rows[0].key, rows[0].records;
      var data := Current(s)[key := PutAll(s.dup, Get(Current(s), key), records)];
      RowImported(s, key, records);
      ImportAppend(s, RowItems(key, records), Items(rows[1..]));
      WithDataTwice(s, data, Filled(s.dup, data, rows[1..]));
      RowsImported(WithData(s, data), rows[1..]);
    }
  }

  // ---- what an import into a database means ----

  lemma {:induction false} PutAllMeaning(dup: bool, d: seq<Bytes>, records: seq<Bytes>)
    ensures dup ==> PutAll(dup, d, records) == d + records
    ensures !dup && records != [] ==>
              PutAll(dup, d, records) == [records[|records|-1]] + if d == [] then [] else d[1..]
    decreases records
  {
    if records != [] {
      PutAllMeaning(dup, Put(dup, d, records[0]), records[1..]);
    }
  }

  ghost predicate HasKey(rows: seq<Row>, k: Bytes) { exists i :: 0 <= i < |rows| && rows[i].key == k }

  /** Merging: keys that the dump does not mention keep their records; with
      duplicates the dump's records are appended to the existing ones; without,
      the dump's record replaces the existing one. */
  lemma {:induction false} MergeMeaning(dup: bool, data: Data, rows: seq<Row>, k: Bytes)
    requires DistinctKeys(rows)
    ensures !HasKey(rows, k) ==>
            (k in Filled(dup, data, rows) <==> k in data) && Get(Filled(dup, data, rows), k) == Get(data, k)
    ensures forall i :: 0 <= i < |rows| && rows[i].key == k ==>
              k in Filled(dup, data, rows) && Filled(dup, data, rows)[k] == PutAll(dup, Get(data, k), rows[i].records)
    decreases rows
  {
    if rows != [] {
      var r, rest := rows[0], rows[1..];
      var data' := data[r.key := PutAll(dup, Get(data, r.key), r.records)];
      MergeMeaning(dup, data', rest, k);
      assert HasKey(rest, k) ==> HasKey(rows, k);
      if r.key == k {
        assert !HasKey(rest, k);
      } else {
        forall i | 0 <= i < |rows| && rows[i].key == k ensures rest[i-1] == rows[i] && HasKey(rest, k) {
          assert rest[i-1].key == k;
        }
      }
    }
  }

  /** Merging the same data again changes nothing where duplicates are off. */
  lemma MergeTwice(data: Data, rows: seq<Row>, k: Bytes)
    requires DistinctKeys(rows) && forall i :: 0 <= i < |rows| ==> rows[i].records != []
    ensures var once := Filled(false, data, rows); Get(Filled(false, once, rows), k) == Get(once, k)
  {
    var once := Filled(false, data, rows);
    MergeMeaning(false, data, rows, k);
    MergeMeaning(false, once, rows, k);
    if HasKey(rows, k) {
      var i :| 0 <= i < |rows| && rows[i].key == k;
      PutAllMeaning(false, Get(data, k), rows[i].records);
      PutAllMeaning(false, Get(once, k), rows[i].records);
    }
  }

  // ---- the insert flags along a run ----

  /** The last database message decides; without one, what was before. */
  function LastDup(ds: seq<Datum>, before: bool): bool
    decreases ds
  {
    if ds == [] then before
    else LastDup(ds[1..], if ds[0].Database? then Dups(ds[0].flags) else before)
  }

  ghost predicate SomePlain(ds: seq<Datum>) { exists i :: 0 <= i < |ds| && ds[i].Database? && !Dups(ds[i].flags) }

  /** Along any stream of messages the duplicate flag is that of the current
      database, and the overwrite flag is set exactly if some database so far had
      no duplicates: it is never cleared. */
  lemma {:induction false} FlagsAlongRun(s: State, ds: seq<Datum>)
    requires Import(s, ds).Some?
    ensures var t := Import(s, ds).value; t.dup == LastDup(ds, s.dup) && (t.over <==> s.over || SomePlain(ds))
    decreases ds
  {
    if ds != [] {
      var t := Step(s, ds[0]).value;
      FlagsAlongRun(t, ds[1..]);
      if SomePlain(ds[1..]) {
        var i :| 0 <= i < |ds[1..]| && ds[1..][i].Database? && !Dups(ds[1..][i].flags);
        assert ds[i+1] == ds[1..][i];
      }
      forall i | 0 < i < |ds| && ds[i].Database? && !Dups(ds[i].flags) ensures SomePlain(ds[1..]) {
        assert ds[1..][i-1] == ds[i];
      }
      assert ds[0].Database? && !Dups(ds[0].flags) ==> SomePlain(ds);
    }
  }

  // ---- the whole dump ----

  /** The records of a walk, by key. */
  function ByKey(rows: seq<Row>): Data
    decreases rows
  {
    if rows == [] then map[] else ByKey(rows[..|rows|-1])[rows[|rows|-1].key := rows[|rows|-1].records]
  }

  lemma {:induction false} ByKeyAt(rows: seq<Row>, k: Bytes)
    requires DistinctKeys(rows)
    ensures k in ByKey(rows) <==> HasKey(rows, k)
    ensures forall i :: 0 <= i < |rows| && rows[i].key == k ==> k in ByKey(rows) && ByKey(rows)[k] == rows[i].records
    decreases rows
  {
    if rows != [] {
      var n := |rows| - 1;
      ByKeyAt(rows[..n], k);
      if HasKey(rows[..n], k) {
        var i :| 0 <= i < n && rows[..n][i].key == k;
        assert rows[i].key == k;
      }
      forall i | 0 <= i < n && rows[i].key == k ensures HasKey(rows[..n], k) {
        assert rows[..n][i].key == k;
      }
    }
  }

  lemma FilledFresh(t: Table)
    requires ValidTable(t)
    ensures Filled(Dups(t.flags), map[], t.rows) == ByKey(t.rows)
  {
    var dup := Dups(t.flags);
    var a, b := Filled(dup, map[], t.rows), ByKey(t.rows);
    forall k ensures (k in a <==> k in b) && (k in a ==> a[k] == b[k]) {
      MergeMeaning(dup, map[], t.rows, k);
      ByKeyAt(t.rows, k);
      if HasKey(t.rows, k) {
        var i :| 0 <= i < |t.rows| && t.rows[i].key == k;
        PutAllMeaning(dup, [], t.rows[i].records);
      }
    }
  }

  /** A table as it should look after the import. */
  function Rebuilt(t: Table): Db {
    Db(Exported(t.flags), t.keySize, t.keyType, t.recordSize, ByKey(t.rows))
  }

  function AddAll(dbs: map<nat, Db>, ts: seq<Table>): map<nat, Db>
    decreases ts
  {
    if ts == [] then dbs else AddAll(dbs[ts[0].name := Rebuilt(ts[0])], ts[1..])
  }

  predicate DistinctNames(ts: seq<Table>) { forall i, j :: 0 <= i < j < |ts| ==> ts[i].name != ts[j].name }

  predicate Absent(dbs: map<nat, Db>, ts: seq<Table>) { forall i :: 0 <= i < |ts| ==> ts[i].name !in dbs }

  lemma {:induction false} AddAllMeaning(dbs: map<nat, Db>, ts: seq<Table>, n: nat)
    requires DistinctNames(ts)
    ensures (forall i :: 0 <= i < |ts| ==> ts[i].name != n) ==>
              (n in AddAll(dbs, ts) <==> n in dbs) && (n in dbs ==> AddAll(dbs, ts)[n] == dbs[n])
    ensures forall i :: 0 <= i < |ts| && ts[i].name == n ==>
            n in AddAll(dbs, ts) && AddAll(dbs, ts)[n] == Rebuilt(ts[i])
    decreases ts
  {
    if ts != [] {
      AddAllMeaning(dbs[ts[0].name := Rebuilt(ts[0])], ts[1..], n);
      forall i | 0 < i < |ts| ensures ts[i] == ts[1..][i-1] {
      }
    }
  }

  /** Importing one table, given the state of the UPS_OVERWRITE flag. */
  predicate TableImportable(over: bool, t: Table) {
    CanOpen(Exported(t.flags)) && !(Dups(t.flags) && over && t.rows != [])
  }

  lemma FirstItem(rows: seq<Row>)
    requires rows != [] && rows[0].records != []
    ensures Items(rows) != [] && Items(rows)[0] == Item(rows[0].key, rows[0].records[0])
  {
  }

  lemma TableImported(s: State, t: Table)
    requires s.env.Some? && t.name !in s.env.value.dbs && ValidTable(t)
    ensures Import(s, ExportTable(t)) ==
              if TableImportable(s.over, t)
              then Some(State(Some(s.env.value.(dbs := s.env.value.dbs[t.name := Rebuilt(t)])), Some(t.name),
                Dups(t.flags), s.over || !Dups(t.flags)))
              else None
  {
    ExportedFlags(t.flags);
    var f, ds := Exported(t.flags), ExportTable(t);
    assert ds[1..] == Items(t.rows);
    if CanOpen(f) {
      var s1 := Step(s, ds[0]).value;
      if Dups(f) && s.over {
        if t.rows != [] {
          FirstItem(t.rows);
        }
      } else {
        RowsImported(s1, t.rows);
        FilledFresh(t);
        var d := s1.env.value.dbs;
        assert d[t.name := d[t.name].(data := ByKey(t.rows))] == s.env.value.dbs[t.name := Rebuilt(t)];
      }
    }
  }

  /** Every database can be opened with its flags, and a database with duplicates
      that holds data comes before all databases without. */
  predicate Importable(over: bool, ts: seq<Table>) {
    && (forall i :: 0 <= i < |ts| ==> CanOpen(Exported(ts[i].flags)))
    && (forall i :: 0 <= i < |ts| && Dups(ts[i].flags) && ts[i].rows != [] ==>
          !over && forall j :: 0 <= j < i ==> Dups(ts[j].flags))
  }

  lemma ImportableFirst(over: bool, ts: seq<Table>)
    requires ts != []
    ensures Importable(over, ts) <==> TableImportable(over, ts[0]) && Importable(over || !Dups(ts[0].flags), ts[1..])
  {
  }

  lemma {:induction false} TablesImported(s: State, ts: seq<Table>)
    requires s.env.Some? && DistinctNames(ts) && Absent(s.env.value.dbs, ts)
    requires forall i :: 0 <= i < |ts| ==> ValidTable(ts[i])
    ensures var r := Import(s, ExportTables(ts));
            && (r.Some? <==> Importable(s.over, ts))
            && (r.Some? ==> r.value.env == Some(s.env.value.(dbs := AddAll(s.env.value.dbs, ts))))
    decreases ts
  {
    if ts != [] {
      ImportableFirst(s.over, ts);
      TableImported(s, ts[0]);
      ImportAppend(s, ExportTable(ts[0]), ExportTables(ts[1..]));
      var r := Import(s, ExportTable(ts[0]));
      if r.Some? {
        TablesImported(r.value, ts[1..]);
      }
    }
  }

  /** Importing an exported environment into a new file. It ends without an error
      if and only if every database can be opened with its flags and no database
      with duplicates and data follows one without duplicates. Then the new
      environment has the flags, the page size and exactly the databases of the
      old one, with the same keys and the same records in the same order. */
  lemma ImportExport(src: Source)
    requires ValidSource(src)
    ensures var r := Import(START, Export(src));
            && (r.Some? <==> Importable(false, src.tables))
            && (r.Some? ==> r.value.env == Some(Env(Exported(src.flags), src.pageSize, AddAll(map[], src.tables))))
    ensures forall i :: 0 <= i < |src.tables| ==>
              var t := src.tables[i];
              t.name in AddAll(map[], src.tables) && AddAll(map[], src.tables)[t.name] == Rebuilt(t)
    ensures forall n :: n in AddAll(map[], src.tables) ==> exists i :: 0 <= i < |src.tables| && src.tables[i].name == n
  {
    var ds := Export(src);
    var s1 := Step(START, ds[0]).value;
    assert ds[1..] == ExportTables(src.tables);
    TablesImported(s1, src.tables);
    forall i | 0 <= i < |src.tables|
      ensures var t := src.tables[i];
              t.name in AddAll(map[], src.tables) && AddAll(map[], src.tables)[t.name] == Rebuilt(t)
    {
      AddAllMeaning(map[], src.tables, src.tables[i].name);
    }
    forall n | n in AddAll(map[], src.tables) ensures exists i :: 0 <= i < |src.tables| && src.tables[i].name == n {
      AddAllMeaning(map[], src.tables, n);
    }
  }

  /** The database is the one that was exported: the same flags, unless it was read
      only, the same parameters, and the same keys with the same records. */
  ghost predicate SameTable(t: Table, db: Db) {
    && db.flags | READ_ONLY == t.flags | READ_ONLY && db.flags & READ_ONLY == 0
    && db.keySize == t.keySize && db.keyType == t.keyType && db.recordSize == t.recordSize
    && (forall i :: 0 <= i < |t.rows| ==> t.rows[i].key in db.data && db.data[t.rows[i].key] == t.rows[i].records)
    && (forall k :: k in db.data ==> HasKey(t.rows, k))
  }

  ghost predicate SameEnvironment(src: Source, env: Env) {
    && env.flags | READ_ONLY == src.flags | READ_ONLY && env.flags & READ_ONLY == 0 && env.pageSize == src.pageSize
    && (forall i :: 0 <= i < |src.tables| ==>
          src.tables[i].name in env.dbs && SameTable(src.tables[i], env.dbs[src.tables[i].name]))
    && (forall n :: n in env.dbs ==> exists i :: 0 <= i < |src.tables| && src.tables[i].name == n)
  }

  lemma RebuiltIsSame(t: Table)
    requires ValidTable(t)
    ensures SameTable(t, Rebuilt(t))
  {
    ExportedBits(t.flags);
    forall i | 0 <= i < |t.rows|
      ensures t.rows[i].key in ByKey(t.rows) && ByKey(t.rows)[t.rows[i].key] == t.rows[i].records
    {
      ByKeyAt(t.rows, t.rows[i].key);
    }
    forall k | k in ByKey(t.rows) ensures HasKey(t.rows, k) {
      ByKeyAt(t.rows, k);
    }
  }

  /** What is imported is what was exported, whatever it was: the environment, its
      databases and their data. */
  lemma ImportIsSame(src: Source)
    requires ValidSource(src) && Importable(false, src.tables)
    ensures var r := Import(START, Export(src)); r.Some? && r.value.env.Some? && SameEnvironment(src, r.value.env.value)
  {
    ImportExport(src);
    ExportedBits(src.flags);
    forall i | 0 <= i < |src.tables| ensures SameTable(src.tables[i], Rebuilt(src.tables[i])) {
      RebuiltIsSame(src.tables[i]);
    }
  }

  /** A database with 64-bit record numbers is exported, but its import fails: it
      could be created, but not opened. */
  lemma RecordNumbersLost(t: Table)
    requires ValidTable(t) && t.flags == RECORD_NUMBER64
    ensures CanCreate(t.flags) && Import(START, Export(Source(0, 0, 0, [t]))).None?
  {
    var src := Source(0, 0, 0, [t]);
    ExportedAsIs(t.flags);
    assert !Importable(false, src.tables) by {
      assert !CanOpen(Exported(src.tables[0].flags));
    }
    ImportExport(src);
  }

  /** The limit on the number of databases is exported, but the import does not look
      at it. */
  lemma LimitIgnored(src: Source, limit: nat)
    ensures Export(src)[0].Environment? && Export(src)[0].maxDatabases == src.maxDatabases
    ensures Import(START, Export(src.(maxDatabases := limit))) == Import(START, Export(src))
  {
    var a, b := Export(src), Export(src.(maxDatabases := limit));
    assert a[1..] == b[1..] && Step(START, a[0]) == Step(START, b[0]);
  }

  /** The smallest environment that is lost: a database without duplicates,
      followed by one with duplicates that holds a record. */
  lemma ImportFails(key: Bytes, record: Bytes)
    ensures var src := Source(0, 0, 0, [Table(1, 0, 0, 0, 0, []),
            Table(2, ENABLE_DUPLICATES, 0, 0, 0, [Row(key, [record])])]);
            ValidSource(src) && Import(START, Export(src)).None?
  {
    var src := Source(0, 0, 0, [Table(1, 0, 0, 0, 0, []), Table(2, ENABLE_DUPLICATES, 0, 0, 0, [Row(key, [record])])]);
    assert !Importable(false, src.tables) by {
      assert Dups(src.tables[1].flags) && src.tables[1].rows != [] && !Dups(src.tables[0].flags);
    }
    ImportExport(src);
  }
}
