/** The configuration reader of the server (tools/config.c): a callback that is
    called for every token of a JSON text and fills a table. The tokenizer itself
    is not part of this model. */
module ConfigReader {
  import opened Options

  datatype Event =
    | ObjectBegin | ObjectEnd | ArrayBegin | ArrayEnd
    | Key(name: string) | Text(s: string) | Integer(n: int) | True | False | Other

  datatype Mode = Top | Global | Environments | Databases

  datatype Globals = Globals(
    port: int, enableErrorLog: bool, errorLog: Option<string>, enableAccessLog: bool, accessLog: Option<string>)

  datatype DbEntry = DbEntry(name: int, flags: Option<string>)

  datatype EnvEntry = EnvEntry(
    url: Option<string>, path: Option<string>, flags: Option<string>, openExclusive: bool, dbs: seq<DbEntry>)

  datatype Table = Table(
    state: Mode, curEnv: nat, curDb: nat, key: Option<string>, globals: Globals, envs: seq<EnvEntry>)

  const EMPTY_DB := DbEntry(0, None)
  const EMPTY_ENV := EnvEntry(None, None, None, false, [])
  const START := Table(Top, 0, 0, None, Globals(0, false, None, false, None), [])

  /** The callback accepts the token, refuses it, or uses something that is not
      there: a key that was never seen, an environment or a database before the
      first one. */
  datatype Outcome = Accept(table: Table) | Refuse | Undefined

  function InTop(t: Table, e: Event): Outcome {
    match e
    case ObjectBegin => Accept(t)
    case Key("global") => Accept(t.(state := Global))
    case Key("environments") => Accept(t.(state := Environments))
    case _ => Refuse
  }

  predicate IsValue(e: Event) { e.Text? || e.Integer? || e.True? || e.False? }

  function InGlobal(t: Table, e: Event): Outcome {
    if e == ObjectBegin then Accept(t)
    else if e == ObjectEnd then Accept(t.(state := Top))
    else if e.Key? then Accept(t.(key := Some(e.name)))
    else if !IsValue(e) then Refuse
    else if t.key.None? then Undefined
    else
      var k, g := t.key.value, t.globals;
      if e.Integer? && k == "port" then Accept(t.(globals := g.(port := e.n)))
      else if e.Text? && k == "error-log" then Accept(t.(globals := g.(errorLog := Some(e.s))))
      else if e.Text? && k == "access-log" then Accept(t.(globals := g.(accessLog := Some(e.s))))
      else if (e.True? || e.False?) && k == "enable-error-log" then Accept(t.(globals := g.(enableErrorLog := e.True?)))
      else if (e.True? || e.False?) && k == "enable-access-log" then
        Accept(t.(globals := g.(enableAccessLog := e.True?)))
      else Refuse
  }

  /** Changes the current environment, if there is one. */
  function SetEnv(t: Table, e: EnvEntry): Outcome
    requires 1 <= t.curEnv <= |t.envs|
  {
    Accept(t.(envs := t.envs[t.curEnv - 1 := e]))
  }

  function InEnvironments(t: Table, e: Event): Outcome {
    if e == ObjectBegin then Accept(t.(envs := t.envs + [EMPTY_ENV], curEnv := |t.envs| + 1))
    else if e.Key? then Accept(t.(key := Some(e.name)))
    else if !(e.Text? || e.True? || e.False? || e.ArrayBegin?) then Accept(t)
    else if t.key.None? then Undefined
    else
      var k := t.key.value;
      if e.ArrayBegin? then Accept(if k == "databases" then t.(state := Databases) else t)
      else if e.Text? && k !in ["url", "path", "flags"] then Accept(t)
      else if !e.Text? && k != "open-exclusive" then Accept(t)
      else if !(1 <= t.curEnv <= |t.envs|) then Undefined
      else
        var c := t.envs[t.curEnv - 1];
        if !e.Text? then SetEnv(t, c.(openExclusive := e.True?))
        else if k == "url" then SetEnv(t, c.(url := Some(e.s)))
        else if k == "path" then SetEnv(t, c.(path := Some(e.s)))
        else SetEnv(t, c.(flags := Some(e.s)))
  }

  function InDatabases(t: Table, e: Event): Outcome {
    if e.Key? then Accept(t.(key := Some(e.name)))
    else if !(e == ObjectBegin || e.Text? || e.Integer?) then Accept(t)
    else if e != ObjectBegin && t.key.None? then Undefined
    else if e.Text? && t.key.value != "flags" then Accept(t)
    else if e.Integer? && t.key.value != "name" then Accept(t)
    else if !(1 <= t.curEnv <= |t.envs|) then Undefined
    else
      var c := t.envs[t.curEnv - 1];
      if e == ObjectBegin then
        Accept(t.(envs := t.envs[t.curEnv - 1 := c.(dbs := c.dbs + [EMPTY_DB])], curDb := |c.dbs| + 1))
      else if !(1 <= t.curDb <= |c.dbs|) then Undefined
      else
        var d := c.dbs[t.curDb - 1];
        var d' := if e.Text? then d.(flags := Some(e.s)) else d.(name := e.n);
        SetEnv(t, c.(dbs := c.dbs[t.curDb - 1 := d']))
  }

  function Callback(t: Table, e: Event): Outcome {
    match t.state
    case Top => InTop(t, e)
    case Global => InGlobal(t, e)
    case Environments => InEnvironments(t, e)
    case Databases => InDatabases(t, e)
  }

  function Run(t: Table, es: seq<Event>): Outcome
    decreases es
  {
    if es == [] then Accept(t)
    else
      match Callback(t, es[0])
      case Accept(u) => Run(u, es[1..])
      case Refuse => Refuse
      case Undefined => Undefined
  }

  lemma {:induction false} RunAppend(t: Table, a: seq<Event>, b: seq<Event>)
    ensures Run(t, a + b) == if Run(t, a).Accept? then Run(Run(t, a).table, b) else Run(t, a)
    decreases a
  {
    if a == [] {
      assert a + b == b;
    } else {
      assert (a + b)[0] == a[0] && (a + b)[1..] == a[1..] + b;
      var o := Callback(t, a[0]);
      if o.Accept? {
        RunAppend(o.table, a[1..], b);
      }
    }
  }

  // ---- what every run keeps ----

  /** The current environment is the last one, and while databases are read the
      current database is the last one of that environment. */
  predicate Inv(t: Table) {
    && t.curEnv == |t.envs|
    && (t.state == Databases && t.envs != [] ==> t.curDb <= |t.envs[|t.envs|-1].dbs|)
    && (t.state != Databases ==> t.curDb == 0)
  }

  lemma InvKept(t: Table, e: Event)
    requires Inv(t)
    ensures Callback(t, e).Accept? ==> Inv(Callback(t, e).table)
  {
  }

  lemma {:induction false} InvRun(t: Table, es: seq<Event>)
    requires Inv(t)
    ensures Run(t, es).Accept? ==> Inv(Run(t, es).table)
    decreases es
  {
    if es != [] {
      InvKept(t, es[0]);
      var o := Callback(t, es[0]);
      if o.Accept? {
        InvRun(o.table, es[1..]);
      }
    }
  }

  /** There is something to write to: a key, an environment, and a database while
      databases are read. */
  predicate Ready(t: Table) {
    t.key.Some? && t.envs != [] && (t.state == Databases ==> t.curDb > 0)
  }

  /** Nothing that is missing is used, and nothing but the last environment
      changes. */
  lemma ReadyDefined(t: Table, e: Event)
    requires Inv(t)
    ensures Ready(t) ==> !Callback(t, e).Undefined?
    ensures Callback(t, e).Accept? ==>
              var u := Callback(t, e).table;
              |t.envs| <= |u.envs| && forall i :: 0 <= i < |t.envs| - 1 ==> u.envs[i] == t.envs[i]
  {
  }

  /** Only certain tokens change something, and each changes only what it names:
      keys move to the two sections and are remembered elsewhere, the end of an
      object leaves the global section, an array of databases leaves the list of
      environments, values change the setting of their key, and objects add an
      environment or a database. Everything else is passed over. */
  lemma OnlyNamed(t: Table, e: Event)
    requires Callback(t, e).Accept?
    ensures var u := Callback(t, e).table;
            && (u.state != t.state ==>
                  || (t.state == Top && e in [Key("global"), Key("environments")])
                  || (t.state == Global && e == ObjectEnd)
                  || (t.state == Environments && e == ArrayBegin && t.key == Some("databases")))
            && (u.key != t.key ==> t.state != Top && e.Key? && u.key == Some(e.name))
            && (u.globals != t.globals ==> t.state == Global && IsValue(e))
            && (u.envs != t.envs ==>
                  || (t.state == Environments && (e == ObjectBegin || (t.key.Some? && EnvSetting(t.key.value, e))))
                  || (t.state == Databases && (e == ObjectBegin || (t.key.Some? && DbSetting(t.key.value, e)))))
  {
  }

  predicate EnvSetting(k: string, e: Event) {
    (k in ["url", "path", "flags"] && e.Text?) || (k == "open-exclusive" && (e.True? || e.False?))
  }

  predicate DbSetting(k: string, e: Event) { (k == "flags" && e.Text?) || (k == "name" && e.Integer?) }

  /** After the first database every token is accepted, to the end of the text. */
  lemma {:induction false} AllAccepted(t: Table, es: seq<Event>)
    requires Inv(t) && Ready(t) && t.state == Databases
    ensures var o := Run(t, es); o.Accept? && Ready(o.table) && o.table.state == Databases && |o.table.envs| == |t.envs|
    decreases es
  {
    if es != [] {
      InvKept(t, es[0]);
      ReadyDefined(t, es[0]);
      AllAccepted(Callback(t, es[0]).table, es[1..]);
    }
  }

  /** Once the databases of an environment are read there is no way back: nothing
      is refused and no environment is added any more. */
  lemma {:induction false} Stuck(t: Table, es: seq<Event>)
    requires t.state == Databases
    ensures var o := Run(t, es);
            o.Undefined? ||
            (o.Accept? && o.table.state == Databases && |o.table.envs| == |t.envs| && o.table.globals == t.globals)
    decreases es
  {
    if es != [] {
      var o := Callback(t, es[0]);
      if o.Accept? {
        Stuck(o.table, es[1..]);
      }
    }
  }

  /** From the environments on the reader never goes back and refuses nothing. */
  lemma {:induction false} NoWayBack(t: Table, es: seq<Event>)
    requires t.state == Environments || t.state == Databases
    ensures var o := Run(t, es);
            o.Undefined? || (o.Accept? && o.table.state != Top && o.table.state != Global &&
              o.table.globals == t.globals)
    decreases es
  {
    if es != [] {
      var o := Callback(t, es[0]);
      if o.Accept? {
        NoWayBack(o.table, es[1..]);
      }
    }
  }

  // ---- every object becomes an environment or a database ----

  function DbCount(envs: seq<EnvEntry>): nat {
    if envs == [] then 0 else DbCount(envs[..|envs|-1]) + |envs[|envs|-1].dbs|
  }

  function Entries(t: Table): nat { |t.envs| + DbCount(t.envs) }

  /** The objects that begin while environments or databases are read. */
  function Begins(t: Table, es: seq<Event>): nat
    decreases es
  {
    if es == [] then 0
    else
      var o := Callback(t, es[0]);
      (if es[0] == ObjectBegin && (t.state == Environments || t.state == Databases) then 1 else 0)
      + if o.Accept? then Begins(o.table, es[1..]) else 0
  }

  lemma SetLastDbs(envs: seq<EnvEntry>, e: EnvEntry)
    requires envs != []
    ensures DbCount(envs[|envs|-1 := e]) == DbCount(envs) - |envs[|envs|-1].dbs| + |e.dbs|
  {
    assert envs[|envs|-1 := e][..|envs|-1] == envs[..|envs|-1];
  }

  lemma AddEnv(envs: seq<EnvEntry>, e: EnvEntry)
    ensures DbCount(envs + [e]) == DbCount(envs) + |e.dbs|
  {
    assert (envs + [e])[..|envs|] == envs;
  }

  lemma EnvironmentsStep(t: Table, e: Event)
    requires Inv(t) && t.state == Environments && InEnvironments(t, e).Accept?
    ensures Entries(InEnvironments(t, e).table) == Entries(t) + if e == ObjectBegin then 1 else 0
  {
    if e == ObjectBegin {
      AddEnv(t.envs, EMPTY_ENV);
    } else if t.envs != [] {
      SetLastDbs(t.envs, InEnvironments(t, e).table.envs[|t.envs|-1]);
    }
  }

  lemma DatabasesStep(t: Table, e: Event)
    requires Inv(t) && t.state == Databases && InDatabases(t, e).Accept?
    ensures Entries(InDatabases(t, e).table) == Entries(t) + if e == ObjectBegin then 1 else 0
  {
    if t.envs != [] {
      SetLastDbs(t.envs, InDatabases(t, e).table.envs[|t.envs|-1]);
    }
  }

  lemma EntriesStep(t: Table, e: Event)
    requires Inv(t) && Callback(t, e).Accept?
    ensures Entries(Callback(t, e).table) ==
              Entries(t) + if e == ObjectBegin && (t.state == Environments || t.state == Databases) then 1 else 0
  {
    match t.state
    case Top =>
    case Global =>
    case Environments => EnvironmentsStep(t, e);
    case Databases => DatabasesStep(t, e);
  }

  /** Along every accepted run, environments and databases together are the
      objects that began in those two sections: an environment behind a list of
      databases has become a database. */
  lemma {:induction false} EntriesRun(t: Table, es: seq<Event>)
    requires Inv(t) && Run(t, es).Accept?
    ensures Entries(Run(t, es).table) == Entries(t) + Begins(t, es)
    decreases es
  {
    if es != [] {
      InvKept(t, es[0]);
      EntriesStep(t, es[0]);
      EntriesRun(Callback(t, es[0]).table, es[1..]);
    }
  }
}
