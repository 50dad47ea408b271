/** Writing a configuration as JSON tokens and reading it back with the callback
    of tools/config.c: exactly which configurations survive. */
module ConfigRoundTrip {
  import opened ConfigReader
  import opened Options

  datatype GlobalConfig = GlobalConfig(
    port: Option<int>, enableErrorLog: Option<bool>, errorLog: Option<string>, enableAccessLog: Option<bool>,
    accessLog: Option<string>)

  datatype DbConfig = DbConfig(name: Option<int>, flags: Option<string>)

  datatype EnvConfig = EnvConfig(
    url: Option<string>, path: Option<string>, flags: Option<string>, openExclusive: Option<bool>,
    dbs: Option<seq<DbConfig>>)

  datatype Config = Config(globals: GlobalConfig, envs: seq<EnvConfig>)

  // ---- writing ----

  function TextField(k: string, o: Option<string>): seq<Event> { if o.None? then [] else [Key(k), Text(o.value)] }

  function IntField(k: string, o: Option<int>): seq<Event> { if o.None? then [] else [Key(k), Integer(o.value)] }

  function BoolField(k: string, o: Option<bool>): seq<Event> {
    if o.None? then [] else [Key(k), if o.value then True else False]
  }

  function GlobalFields(g: GlobalConfig): seq<Event> {
    IntField("port", g.port)
    + (BoolField("enable-error-log", g.enableErrorLog)
    + (TextField("error-log", g.errorLog)
    + (BoolField("enable-access-log", g.enableAccessLog)
    + TextField("access-log", g.accessLog))))
  }

  function WriteDb(d: DbConfig): seq<Event> {
    [ObjectBegin] + (IntField("name", d.name) + (TextField("flags", d.flags) + [ObjectEnd]))
  }

  function WriteDbs(ds: seq<DbConfig>): seq<Event> {
    if ds == [] then [] else WriteDb(ds[0]) + WriteDbs(ds[1..])
  }

  function WriteDatabases(o: Option<seq<DbConfig>>): seq<Event> {
    if o.None? then [] else [Key("databases"), ArrayBegin] + (WriteDbs(o.value) + [ArrayEnd])
  }

  function WriteEnv(e: EnvConfig): seq<Event> {
    [ObjectBegin]
    + (TextField("url", e.url)
    + (TextField("path", e.path)
    + (TextField("flags", e.flags)
    + (BoolField("open-exclusive", e.openExclusive)
    + (WriteDatabases(e.dbs) + [ObjectEnd])))))
  }

  function WriteEnvs(es: seq<EnvConfig>): seq<Event> {
    if es == [] then [] else WriteEnv(es[0]) + WriteEnvs(es[1..])
  }

  function Write(c: Config): seq<Event> {
    [ObjectBegin, Key("global")]
    + ([ObjectBegin] + (GlobalFields(c.globals)
    + ([ObjectEnd, Key("environments")]
    + ([ArrayBegin] + (WriteEnvs(c.envs) + [ArrayEnd, ObjectEnd])))))
  }

  // ---- what should be read ----

  function Or<T>(o: Option<T>, default: T): T { if o.None? then default else o.value }

  function ToGlobals(g: GlobalConfig): Globals {
    Globals(Or(g.port, 0), Or(g.enableErrorLog, false), g.errorLog, Or(g.enableAccessLog, false), g.accessLog)
  }

  function ToDb(d: DbConfig): DbEntry { DbEntry(Or(d.name, 0), d.flags) }

  function ToDbs(ds: seq<DbConfig>): (r: seq<DbEntry>)
    ensures |r| == |ds|
  {
    if ds == [] then [] else [ToDb(ds[0])] + ToDbs(ds[1..])
  }

  function ToEnv(e: EnvConfig): EnvEntry {
    EnvEntry(e.url, e.path, e.flags, Or(e.openExclusive, false), ToDbs(Or(e.dbs, [])))
  }

  function ToEnvs(es: seq<EnvConfig>): (r: seq<EnvEntry>)
    ensures |r| == |es|
  {
    if es == [] then [] else [ToEnv(es[0])] + ToEnvs(es[1..])
  }

  /** What becomes of environments behind a list of databases: each is taken for a
      database with its flags, followed by its own databases. */
  function AsDbs(es: seq<EnvConfig>): seq<DbEntry> {
    if es == [] then [] else [DbEntry(0, es[0].flags)] + ToDbs(Or(es[0].dbs, [])) + AsDbs(es[1..])
  }

  /** The environments that are read: the first one that lists databases is the
      last. */
  function ReadEnvs(es: seq<EnvConfig>): seq<EnvEntry> {
    if es == [] then []
    else if es[0].dbs.None? then [ToEnv(es[0])] + ReadEnvs(es[1..])
    else [ToEnv(es[0]).(dbs := ToDbs(es[0].dbs.value) + AsDbs(es[1..]))]
  }

  /** Some global setting is written. */
  predicate HasGlobal(g: GlobalConfig) {
    g.port.Some? || g.enableErrorLog.Some? || g.errorLog.Some? || g.enableAccessLog.Some? || g.accessLog.Some?
  }

  /** Only the last environment has a list of databases. */
  predicate DatabasesLast(es: seq<EnvConfig>) { forall i :: 0 <= i < |es| - 1 ==> es[i].dbs.None? }

  // ---- reading short pieces ----

  lemma One(t: Table, a: Event)
    ensures Run(t, [a]) == Callback(t, a)
  {
  }

  lemma Two(t: Table, a: Event, b: Event)
    ensures Run(t, [a, b]) == if Callback(t, a).Accept? then Callback(Callback(t, a).table, b) else Callback(t, a)
  {
    assert [a, b][1..] == [b];
    if Callback(t, a).Accept? {
      One(Callback(t, a).table, b);
    }
  }

  function KeyAfter<T>(key: Option<string>, k: string, o: Option<T>): Option<string> {
    if o.None? then key else Some(k)
  }

  lemma GlobalInt(t: Table, o: Option<int>)
    requires t.state == Global
    ensures Run(t, IntField("port", o))
              == Accept(t.(key := KeyAfter(t.key, "port", o),
                globals := t.globals.(port := Or(o, t.globals.port))))
  {
    if o.Some? {
      Two(t, Key("port"), Integer(o.value));
    }
  }

  lemma GlobalBool(t: Table, o: Option<bool>)
    requires t.state == Global
    ensures Run(t, BoolField("enable-error-log", o))
              == Accept(t.(key := KeyAfter(t.key, "enable-error-log", o),
                globals := t.globals.(enableErrorLog := Or(o, t.globals.enableErrorLog))))
    ensures Run(t, BoolField("enable-access-log", o))
              == Accept(t.(key := KeyAfter(t.key, "enable-access-log", o),
                globals := t.globals.(enableAccessLog := Or(o, t.globals.enableAccessLog))))
  {
    if o.Some? {
      Two(t, Key("enable-error-log"), if o.value then True else False);
      Two(t, Key("enable-access-log"), if o.value then True else False);
    }
  }

  lemma GlobalText(t: Table, o: Option<string>)
    requires t.state == Global
    ensures Run(t, TextField("error-log", o))
              == Accept(t.(key := KeyAfter(t.key, "error-log", o),
                globals := t.globals.(errorLog := if o.None? then t.globals.errorLog else o)))
    ensures Run(t, TextField("access-log", o))
              == Accept(t.(key := KeyAfter(t.key, "access-log", o),
                globals := t.globals.(accessLog := if o.None? then t.globals.accessLog else o)))
  {
    if o.Some? {
      Two(t, Key("error-log"), Text(o.value));
      Two(t, Key("access-log"), Text(o.value));
    }
  }

  lemma GlobalsRead(t: Table, g: GlobalConfig)
    requires t.state == Global && t.key.None? && t.globals == START.globals
    ensures var o := Run(t, GlobalFields(g));
            && o.Accept? && o.table == t.(globals := ToGlobals(g), key := o.table.key)
            && (o.table.key.Some? <==> HasGlobal(g)) && o.table.key != Some("databases")
  {
    var f2 := TextField("access-log", g.accessLog);
    var f3 := BoolField("enable-access-log", g.enableAccessLog) + f2;
    var f4 := TextField("error-log", g.errorLog) + f3;
    var f5 := BoolField("enable-error-log", g.enableErrorLog) + f4;
    GlobalInt(t, g.port);
    RunAppend(t, IntField("port", g.port), f5);
    var t1 := Run(t, IntField("port", g.port)).table;
    GlobalBool(t1, g.enableErrorLog);
    RunAppend(t1, BoolField("enable-error-log", g.enableErrorLog), f4);
    var t2 := Run(t1, BoolField("enable-error-log", g.enableErrorLog)).table;
    GlobalText(t2, g.errorLog);
    RunAppend(t2, TextField("error-log", g.errorLog), f3);
    var t3 := Run(t2, TextField("error-log", g.errorLog)).table;
    GlobalBool(t3, g.enableAccessLog);
    RunAppend(t3, BoolField("enable-access-log", g.enableAccessLog), f2);
    var t4 := Run(t3, BoolField("enable-access-log", g.enableAccessLog)).table;
    GlobalText(t4, g.accessLog);
  }

  // ---- environments ----

  /** Reading the fields of the last environment. */
  predicate InEnv(t: Table) { t.state == Environments && t.curEnv == |t.envs| && t.envs != [] && t.key.Some? }

  function Last(t: Table): EnvEntry
    requires t.envs != []
  {
    t.envs[|t.envs|-1]
  }

  function WithLast(t: Table, e: EnvEntry): Table
    requires t.envs != []
  {
    t.(envs := t.envs[|t.envs|-1 := e])
  }

  function Either<T>(o: Option<T>, p: Option<T>): Option<T> { if o.None? then p else o }

  lemma SameLast(t: Table)
    requires t.envs != []
    ensures WithLast(t, Last(t)) == t
  {
  }

  lemma EnvUrl(t: Table, o: Option<string>)
    requires InEnv(t)
    ensures Run(t, TextField("url", o))
              == Accept(WithLast(t, Last(t).(url := Either(o, Last(t).url))).(key := KeyAfter(t.key, "url", o)))
  {
    if o.Some? {
      Two(t, Key("url"), Text(o.value));
    } else {
      SameLast(t);
    }
  }

  lemma EnvPath(t: Table, o: Option<string>)
    requires InEnv(t)
    ensures Run(t, TextField("path", o))
              == Accept(WithLast(t, Last(t).(path := Either(o, Last(t).path))).(key := KeyAfter(t.key, "path", o)))
  {
    if o.Some? {
      Two(t, Key("path"), Text(o.value));
    } else {
      SameLast(t);
    }
  }

  lemma EnvFlags(t: Table, o: Option<string>)
    requires InEnv(t)
    ensures Run(t, TextField("flags", o))
              == Accept(WithLast(t, Last(t).(flags := Either(o, Last(t).flags))).(key := KeyAfter(t.key, "flags", o)))
  {
    if o.Some? {
      Two(t, Key("flags"), Text(o.value));
    } else {
      SameLast(t);
    }
  }

  lemma EnvBool(t: Table, o: Option<bool>)
    requires InEnv(t)
    ensures Run(t, BoolField("open-exclusive", o))
              == Accept(WithLast(t, Last(t).(openExclusive := Or(o, Last(t).openExclusive)))
                        .(key := KeyAfter(t.key, "open-exclusive", o)))
  {
    if o.Some? {
      Two(t, Key("open-exclusive"), if o.value then True else False);
    } else {
      SameLast(t);
    }
  }

  /** The fields of an environment up to its databases. */
  function Fields(e: EnvConfig): seq<Event> {
    TextField("url", e.url) + (TextField("path", e.path) + (TextField("flags", e.flags) +
      BoolField("open-exclusive", e.openExclusive)))
  }

  lemma FieldsRead(t: Table, e: EnvConfig)
    requires InEnv(t) && Last(t) == EMPTY_ENV
    ensures var o := Run(t, Fields(e));
            && o.Accept? && InEnv(o.table)
            && o.table == WithLast(t, ToEnv(e.(dbs := None))).(key := o.table.key)
  {
    var f1 := BoolField("open-exclusive", e.openExclusive);
    var f2 := TextField("flags", e.flags) + f1;
    var f3 := TextField("path", e.path) + f2;
    EnvUrl(t, e.url);
    RunAppend(t, TextField("url", e.url), f3);
    var t1 := Run(t, TextField("url", e.url)).table;
    EnvPath(t1, e.path);
    RunAppend(t1, TextField("path", e.path), f2);
    var t2 := Run(t1, TextField("path", e.path)).table;
    EnvFlags(t2, e.flags);
    RunAppend(t2, TextField("flags", e.flags), f1);
    var t3 := Run(t2, TextField("flags", e.flags)).table;
    EnvBool(t3, e.openExclusive);
  }

  // ---- databases ----

  predicate InDbs(t: Table) { t.state == Databases && t.curEnv == |t.envs| && t.envs != [] && t.key.Some? }

  /** Reading the fields of the last database. */
  predicate InDb(t: Table) { InDbs(t) && Last(t).dbs != [] && t.curDb == |Last(t).dbs| }

  function LastDb(t: Table): DbEntry
    requires InDb(t)
  {
    Last(t).dbs[|Last(t).dbs|-1]
  }

  function WithDb(t: Table, d: DbEntry): Table
    requires InDb(t)
  {
    WithLast(t, Last(t).(dbs := Last(t).dbs[|Last(t).dbs|-1 := d]))
  }

  lemma SameDb(t: Table)
    requires InDb(t)
    ensures WithDb(t, LastDb(t)) == t
  {
    SameLast(t);
    assert Last(t).dbs[|Last(t).dbs|-1 := LastDb(t)] == Last(t).dbs;
  }

  lemma WithDbTwice(t: Table, a: DbEntry, b: DbEntry, k: Option<string>)
    requires InDb(t) && k.Some?
    ensures InDb(WithDb(t, a).(key := k)) && LastDb(WithDb(t, a).(key := k)) == a
    ensures WithDb(WithDb(t, a).(key := k), b) == WithDb(t, b).(key := k)
  {
    var n := |Last(t).dbs| - 1;
    assert Last(t).dbs[n := a][n := b] == Last(t).dbs[n := b];
  }

  lemma DbName(t: Table, o: Option<int>)
    requires InDb(t)
    ensures Run(t, IntField("name", o))
              == Accept(WithDb(t, LastDb(t).(name := Or(o, LastDb(t).name))).(key := KeyAfter(t.key, "name", o)))
  {
    if o.Some? {
      Two(t, Key("name"), Integer(o.value));
    } else {
      SameDb(t);
    }
  }

  lemma DbFlags(t: Table, o: Option<string>)
    requires InDb(t)
    ensures Run(t, TextField("flags", o))
              == Accept(WithDb(t, LastDb(t).(flags := Either(o, LastDb(t).flags))).(key := KeyAfter(t.key, "flags", o)))
  {
    if o.Some? {
      Two(t, Key("flags"), Text(o.value));
    } else {
      SameDb(t);
    }
  }

  lemma DbFields(t: Table, d: DbConfig)
    requires InDb(t) && LastDb(t) == EMPTY_DB
    ensures var o := Run(t, IntField("name", d.name) + (TextField("flags", d.flags) + [ObjectEnd]));
            o.Accept? && o.table.key.Some? && o.table == WithDb(t, ToDb(d)).(key := o.table.key)
  {
    var named, k1 := EMPTY_DB.(name := Or(d.name, 0)), KeyAfter(t.key, "name", d.name);
    DbName(t, d.name);
    RunAppend(t, IntField("name", d.name), TextField("flags", d.flags) + [ObjectEnd]);
    WithDbTwice(t, named, ToDb(d), k1);
    var t1 := WithDb(t, named).(key := k1);
    DbFlags(t1, d.flags);
    RunAppend(t1, TextField("flags", d.flags), [ObjectEnd]);
    One(Run(t1, TextField("flags", d.flags)).table, ObjectEnd);
  }

  lemma DbRead(t: Table, d: DbConfig)
    requires InDbs(t)
    ensures var o := Run(t, WriteDb(d));
            && o.Accept? && InDbs(o.table) && o.table.globals == t.globals
            && o.table.envs == WithLast(t, Last(t).(dbs := Last(t).dbs + [ToDb(d)])).envs
  {
    var rest := IntField("name", d.name) + (TextField("flags", d.flags) + [ObjectEnd]);
    One(t, ObjectBegin);
    RunAppend(t, [ObjectBegin], rest);
    var t1 := Callback(t, ObjectBegin).table;
    DbFields(t1, d);
    var k := |Last(t).dbs|;
    assert (Last(t).dbs + [EMPTY_DB])[k := ToDb(d)] == Last(t).dbs + [ToDb(d)];
  }

  lemma MoreDbs(t: Table, t1: Table, a: seq<DbEntry>, b: seq<DbEntry>)
    requires t.envs != [] && t1.envs == WithLast(t, Last(t).(dbs := Last(t).dbs + a)).envs
    ensures t1.envs != [] && WithLast(t1, Last(t1).(dbs := Last(t1).dbs + b)).envs ==
            WithLast(t, Last(t).(dbs := Last(t).dbs + (a + b))).envs
  {
    assert Last(t).dbs + a + b == Last(t).dbs + (a + b);
  }

  lemma {:induction false} DbsRead(t: Table, ds: seq<DbConfig>)
    requires InDbs(t)
    ensures var o := Run(t, WriteDbs(ds));
            && o.Accept? && InDbs(o.table) && o.table.globals == t.globals
            && o.table.envs == WithLast(t, Last(t).(dbs := Last(t).dbs + ToDbs(ds))).envs
    decreases ds
  {
    if ds == [] {
      assert Last(t).dbs + [] == Last(t).dbs;
      SameLast(t);
    } else {
      DbRead(t, ds[0]);
      RunAppend(t, WriteDb(ds[0]), WriteDbs(ds[1..]));
      var t1 := Run(t, WriteDb(ds[0])).table;
      DbsRead(t1, ds[1..]);
      MoreDbs(t, t1, [ToDb(ds[0])], ToDbs(ds[1..]));
    }
  }

  lemma DatabasesRead(t: Table, o: Option<seq<DbConfig>>)
    requires InEnv(t) && Last(t).dbs == []
    ensures var r := Run(t, WriteDatabases(o) + [ObjectEnd]);
            && r.Accept? && r.table.globals == t.globals && r.table.curEnv == t.curEnv && r.table.key.Some?
            && r.table.state == (if o.None? then Environments else Databases)
            && r.table.envs == WithLast(t, Last(t).(dbs := ToDbs(Or(o, [])))).envs
  {
    RunAppend(t, WriteDatabases(o), [ObjectEnd]);
    if o.None? {
      One(t, ObjectEnd);
      SameLast(t);
    } else {
      var ds := WriteDbs(o.value);
      Two(t, Key("databases"), ArrayBegin);
      RunAppend(t, [Key("databases"), ArrayBegin], ds + [ArrayEnd]);
      var t1 := Run(t, [Key("databases"), ArrayBegin]).table;
      DbsRead(t1, o.value);
      RunAppend(t1, ds, [ArrayEnd]);
      var t2 := Run(t1, ds).table;
      One(t2, ArrayEnd);
      One(t2, ObjectEnd);
      assert [] + ToDbs(o.value) == ToDbs(o.value);
    }
  }

  // ---- the list of environments ----

  /** Between two environments. */
  predicate Between(t: Table) { t.state == Environments && t.curEnv == |t.envs| && t.key.Some? }

  lemma EnvRead(t: Table, e: EnvConfig)
    requires Between(t)
    ensures var o := Run(t, WriteEnv(e));
            && o.Accept? && o.table.globals == t.globals && o.table.curEnv == |o.table.envs| && o.table.key.Some?
            && o.table.state == (if e.dbs.None? then Environments else Databases)
            && o.table.envs == t.envs + [ToEnv(e)]
  {
    var tail := WriteDatabases(e.dbs) + [ObjectEnd];
    assert WriteEnv(e) == [ObjectBegin] + (Fields(e) + tail);
    One(t, ObjectBegin);
    RunAppend(t, [ObjectBegin], Fields(e) + tail);
    var t1 := Callback(t, ObjectBegin).table;
    FieldsRead(t1, e);
    RunAppend(t1, Fields(e), tail);
    var t2 := Run(t1, Fields(e)).table;
    DatabasesRead(t2, e.dbs);
  }

  lemma DatabasesLastRest(es: seq<EnvConfig>)
    requires es != []
    ensures DatabasesLast(es) <==> (|es| > 1 ==> es[0].dbs.None?) && DatabasesLast(es[1..])
  {
  }

  lemma Assoc(a: seq<EnvEntry>, x: EnvEntry, b: seq<EnvEntry>)
    ensures a + [x] + b == a + ([x] + b)
  {
  }

  /** A field that the callback does not know while it reads databases. */
  lemma FieldIgnored(t: Table, k: string, o: Option<string>, b: Option<bool>)
    requires InDbs(t) && k != "flags"
    ensures Run(t, TextField(k, o)) == Accept(t.(key := KeyAfter(t.key, k, o)))
    ensures Run(t, BoolField(k, b)) == Accept(t.(key := KeyAfter(t.key, k, b)))
  {
    if o.Some? {
      Two(t, Key(k), Text(o.value));
    }
    if b.Some? {
      Two(t, Key(k), if b.value then True else False);
    }
  }

  lemma FieldsAsDb(t: Table, e: EnvConfig)
    requires InDb(t) && LastDb(t) == EMPTY_DB
    ensures var o := Run(t, Fields(e));
            o.Accept? && o.table.key.Some? && o.table == WithDb(t, DbEntry(0, e.flags)).(key := o.table.key)
  {
    var f1 := BoolField("open-exclusive", e.openExclusive);
    var f2 := TextField("flags", e.flags) + f1;
    var f3 := TextField("path", e.path) + f2;
    FieldIgnored(t, "url", e.url, None);
    RunAppend(t, TextField("url", e.url), f3);
    var t1 := Run(t, TextField("url", e.url)).table;
    FieldIgnored(t1, "path", e.path, None);
    RunAppend(t1, TextField("path", e.path), f2);
    var t2 := Run(t1, TextField("path", e.path)).table;
    DbFlags(t2, e.flags);
    RunAppend(t2, TextField("flags", e.flags), f1);
    var t3 := Run(t2, TextField("flags", e.flags)).table;
    FieldIgnored(t3, "open-exclusive", None, e.openExclusive);
  }

  lemma DatabasesAgain(t: Table, o: Option<seq<DbConfig>>)
    requires InDbs(t)
    ensures var r := Run(t, WriteDatabases(o) + [ObjectEnd]);
            && r.Accept? && InDbs(r.table) && r.table.globals == t.globals
            && r.table.envs == WithLast(t, Last(t).(dbs := Last(t).dbs + ToDbs(Or(o, [])))).envs
  {
    RunAppend(t, WriteDatabases(o), [ObjectEnd]);
    if o.None? {
      One(t, ObjectEnd);
      assert Last(t).dbs + [] == Last(t).dbs;
      SameLast(t);
    } else {
      var ds := WriteDbs(o.value);
      Two(t, Key("databases"), ArrayBegin);
      RunAppend(t, [Key("databases"), ArrayBegin], ds + [ArrayEnd]);
      var t1 := t.(key := Some("databases"));
      DbsRead(t1, o.value);
      RunAppend(t1, ds, [ArrayEnd]);
      var t2 := Run(t1, ds).table;
      One(t2, ArrayEnd);
      One(t2, ObjectEnd);
    }
  }

  /** An environment behind a list of databases. */
  lemma EnvAsDbs(t: Table, e: EnvConfig)
    requires InDbs(t)
    ensures var o := Run(t, WriteEnv(e));
            && o.Accept? && InDbs(o.table) && o.table.globals == t.globals
            && o.table.envs == WithLast(t, Last(t).(dbs := Last(t).dbs +
              ([DbEntry(0, e.flags)] + ToDbs(Or(e.dbs, []))))).envs
  {
    var tail := WriteDatabases(e.dbs) + [ObjectEnd];
    assert WriteEnv(e) == [ObjectBegin] + (Fields(e) + tail);
    One(t, ObjectBegin);
    RunAppend(t, [ObjectBegin], Fields(e) + tail);
    var t1 := Callback(t, ObjectBegin).table;
    FieldsAsDb(t1, e);
    RunAppend(t1, Fields(e), tail);
    var t2 := Run(t1, Fields(e)).table;
    var k := |Last(t).dbs|;
    assert (Last(t).dbs + [EMPTY_DB])[k := DbEntry(0, e.flags)] == Last(t).dbs + [DbEntry(0, e.flags)];
    DatabasesAgain(t2, e.dbs);
    MoreDbs(t, t2, [DbEntry(0, e.flags)], ToDbs(Or(e.dbs, [])));
  }

  lemma {:induction false} EnvsAsDbs(t: Table, es: seq<EnvConfig>)
    requires InDbs(t)
    ensures var o := Run(t, WriteEnvs(es));
            && o.Accept? && InDbs(o.table) && o.table.globals == t.globals
            && o.table.envs == WithLast(t, Last(t).(dbs := Last(t).dbs + AsDbs(es))).envs
    decreases es
  {
    if es == [] {
      assert Last(t).dbs + [] == Last(t).dbs;
      SameLast(t);
    } else {
      EnvAsDbs(t, es[0]);
      RunAppend(t, WriteEnv(es[0]), WriteEnvs(es[1..]));
      var t1 := Run(t, WriteEnv(es[0])).table;
      EnvsAsDbs(t1, es[1..]);
      MoreDbs(t, t1, [DbEntry(0, es[0].flags)] + ToDbs(Or(es[0].dbs, [])), AsDbs(es[1..]));
    }
  }

  /** Exactly these environments are read, whatever was written. */
  lemma {:induction false} EnvsRead(t: Table, es: seq<EnvConfig>)
    requires Between(t)
    ensures var o := Run(t, WriteEnvs(es));
            && o.Accept? && o.table.globals == t.globals && o.table.envs == t.envs + ReadEnvs(es)
            && (o.table.state == Environments || o.table.state == Databases)
    decreases es
  {
    if es == [] {
      assert t.envs + [] == t.envs;
    } else {
      var e, rest := es[0], es[1..];
      EnvRead(t, e);
      RunAppend(t, WriteEnv(e), WriteEnvs(rest));
      var t1 := Run(t, WriteEnv(e)).table;
      if e.dbs.None? {
        EnvsRead(t1, rest);
        Assoc(t.envs, ToEnv(e), ReadEnvs(rest));
      } else {
        EnvsAsDbs(t1, rest);
      }
    }
  }

  lemma {:induction false} ReadAsWritten(es: seq<EnvConfig>)
    ensures |ReadEnvs(es)| <= |es|
    ensures ReadEnvs(es) == ToEnvs(es) <==> DatabasesLast(es)
    ensures |ReadEnvs(es)| == |es| <==> DatabasesLast(es)
  {
    if es != [] {
      ReadAsWritten(es[1..]);
      DatabasesLastRest(es);
      if es[0].dbs.None? {
        assert ReadEnvs(es)[1..] == ReadEnvs(es[1..]) && ToEnvs(es)[1..] == ToEnvs(es[1..]);
      } else {
        assert ToDbs(es[0].dbs.value) + [] == ToDbs(es[0].dbs.value);
      }
    }
  }

  /** What is read before the first environment. Without a global setting the
      reader compares a key that it never saw. */
  lemma HeadRead(c: Config) returns (t: Table)
    ensures !HasGlobal(c.globals) ==> Run(START, Write(c)).Undefined?
    ensures HasGlobal(c.globals) ==> Run(START, Write(c)) == Run(t, WriteEnvs(c.envs) + [ArrayEnd, ObjectEnd])
    ensures t.globals == ToGlobals(c.globals) && t.envs == [] && (HasGlobal(c.globals) ==> Between(t))
  {
    var e4 := WriteEnvs(c.envs) + [ArrayEnd, ObjectEnd];
    var e3 := [ArrayBegin] + e4;
    var e2 := [ObjectEnd, Key("environments")] + e3;
    var e1 := GlobalFields(c.globals) + e2;
    Two(START, ObjectBegin, Key("global"));
    RunAppend(START, [ObjectBegin, Key("global")], [ObjectBegin] + e1);
    var t1 := START.(state := Global);
    One(t1, ObjectBegin);
    RunAppend(t1, [ObjectBegin], e1);
    GlobalsRead(t1, c.globals);
    RunAppend(t1, GlobalFields(c.globals), e2);
    var t2 := Run(t1, GlobalFields(c.globals)).table;
    Two(t2, ObjectEnd, Key("environments"));
    RunAppend(t2, [ObjectEnd, Key("environments")], e3);
    t := t2.(state := Environments);
    One(t, ArrayBegin);
    RunAppend(t, [ArrayBegin], e4);
  }

  /** Writing a configuration and reading it back. Without a global setting the
      reader uses a key that it never saw; with one, the global settings are read
      back and the environments are those of ReadEnvs. */
  lemma ConfigRead(c: Config)
    ensures var o := Run(START, Write(c));
            && (!HasGlobal(c.globals) ==> o.Undefined?)
            && (HasGlobal(c.globals) ==>
                  o.Accept? && o.table.globals == ToGlobals(c.globals) && o.table.envs == ReadEnvs(c.envs))
  {
    var t := HeadRead(c);
    if HasGlobal(c.globals) {
      EnvsRead(t, c.envs);
      RunAppend(t, WriteEnvs(c.envs), [ArrayEnd, ObjectEnd]);
      Two(Run(t, WriteEnvs(c.envs)).table, ArrayEnd, ObjectEnd);
      assert [] + ReadEnvs(c.envs) == ReadEnvs(c.envs);
    }
  }

  ghost predicate Survives(c: Config) {
    var o := Run(START, Write(c));
    o.Accept? && o.table.globals == ToGlobals(c.globals) && o.table.envs == ToEnvs(c.envs)
  }

  /** The reader gives back what was written if and only if some global setting
      was written and only the last environment lists databases. */
  lemma ConfigSurvives(c: Config)
    ensures Survives(c) <==> HasGlobal(c.globals) && DatabasesLast(c.envs)
  {
    ConfigRead(c);
    ReadAsWritten(c.envs);
  }

  /** Two environments with a database each: the second one, and its database, are
      read as databases of the first. */
  lemma SecondEnvironmentLost(c: Config, d: DbConfig)
    requires |c.envs| == 2 && c.envs[0].dbs.Some? && c.envs[1].dbs == Some([d]) && HasGlobal(c.globals)
    ensures var o, e := Run(START, Write(c)), ToEnv(c.envs[0]);
            o.Accept? && o.table.envs == [e.(dbs := e.dbs + [DbEntry(0, c.envs[1].flags), ToDb(d)])]
  {
    ConfigRead(c);
    assert AsDbs(c.envs[1..][1..]) == [] && ToDbs([d]) == [ToDb(d)];
    assert AsDbs(c.envs[1..]) == [DbEntry(0, c.envs[1].flags), ToDb(d)];
  }
}
