/** The callback of tools/config.c as it updates its table in place. */
module ConfigTables {
  import opened ConfigReader
  import opened ConfigRefusals
  import opened ConfigRoundTrip
  import opened Options

  datatype Verdict = Accepted | Refused | Unpredictable

  class ConfigTable {
    var state: Mode
    var curEnv: nat
    var curDb: nat
    var key: Option<string>
    var globals: Globals
    var envs: seq<EnvEntry>

    constructor ()
      ensures Now() == START
    {
      state, curEnv, curDb, key := Top, 0, 0, None;
      globals, envs := Globals(0, false, None, false, None), [];
    }

    ghost function Now(): Table
      reads this
    {
      Table(state, curEnv, curDb, key, globals, envs)
    }

    /** The verdict and the new table are those of the outcome. */
    ghost predicate Follows(o: Outcome, v: Verdict)
      reads this
    {
      match o
      case Accept(t) => v == Accepted && Now() == t
      case Refuse => v == Refused
      case Undefined => v == Unpredictable
    }

    method TopToken(e: Event) returns (v: Verdict)
      modifies this
      ensures Follows(InTop(old(Now()), e), v)
    {
      if e.ObjectBegin? {
        return Accepted;
      }
      if e.Key? {
        if e.name == "global" {
          state := Global;
          return Accepted;
        }
        if e.name == "environments" {
          state := Environments;
          return Accepted;
        }
      }
      v := Refused;
    }

    method GlobalToken(e: Event) returns (v: Verdict)
      modifies this
      ensures Follows(InGlobal(old(Now()), e), v)
    {
      v := Accepted;
      match e
      case ObjectBegin =>
      case ObjectEnd => state := Top;
      case Key(name) => key := Some(name);
      case Integer(n) =>
        if key.None? {
          v := Unpredictable;
        } else if key.value == "port" {
          globals := globals.(port := n);
        } else {
          v := Refused;
        }
      case Text(s) =>
        if key.None? {
          v := Unpredictable;
        } else if key.value == "error-log" {
          globals := globals.(errorLog := Some(s));
        } else if key.value == "access-log" {
          globals := globals.(accessLog := Some(s));
        } else {
          v := Refused;
        }
      case True => v := GlobalSwitch(true);
      case False => v := GlobalSwitch(false);
      case _ => v := Refused;
    }

    method GlobalSwitch(on: bool) returns (v: Verdict)
      modifies this`globals
      ensures Follows(InGlobal(old(Now()), if on then True else False), v)
    {
      v := Accepted;
      if key.None? {
        v := Unpredictable;
      } else if key.value == "enable-error-log" {
        globals := globals.(enableErrorLog := on);
      } else if key.value == "enable-access-log" {
        globals := globals.(enableAccessLog := on);
      } else {
        v := Refused;
      }
    }

    method EnvironmentToken(e: Event) returns (v: Verdict)
      modifies this
      ensures Follows(InEnvironments(old(Now()), e), v)
    {
      v := Accepted;
      match e
      case ObjectBegin =>
        envs := envs + [EMPTY_ENV];
        curEnv := |envs|;
      case Key(name) => key := Some(name);
      case Text(s) =>
        if key.None? {
          return Unpredictable;
        }
        if key.value == "url" || key.value == "path" || key.value == "flags" {
          if !(1 <= curEnv <= |envs|) {
            return Unpredictable;
          }
          var c := envs[curEnv - 1];
          envs := envs[curEnv - 1 :=
            if key.value == "url" then c.(url := Some(s))
            else if key.value == "path" then c.(path := Some(s))
            else c.(flags := Some(s))];
        }
      case True => v := Exclusive(true);
      case False => v := Exclusive(false);
      case ArrayBegin =>
        if key.None? {
          return Unpredictable;
        }
        if key.value == "databases" {
          state := Databases;
        }
      case _ =>
    }

    method Exclusive(on: bool) returns (v: Verdict)
      modifies this`envs
      ensures Follows(InEnvironments(old(Now()), if on then True else False), v)
    {
      v := Accepted;
      if key.None? {
        return Unpredictable;
      }
      if key.value == "open-exclusive" {
        if !(1 <= curEnv <= |envs|) {
          return Unpredictable;
        }
        envs := envs[curEnv - 1 := envs[curEnv - 1].(openExclusive := on)];
      }
    }

    method DatabaseToken(e: Event) returns (v: Verdict)
      modifies this
      ensures Follows(InDatabases(old(Now()), e), v)
    {
      v := Accepted;
      match e
      case ObjectBegin =>
        if !(1 <= curEnv <= |envs|) {
          return Unpredictable;
        }
        var c := envs[curEnv - 1];
        envs := envs[curEnv - 1 := c.(dbs := c.dbs + [EMPTY_DB])];
        curDb := |c.dbs| + 1;
      case Key(name) => key := Some(name);
      case Text(s) =>
        if key.None? {
          return Unpredictable;
        }
        if key.value == "flags" {
          v := DbField(e);
        }
      case Integer(n) =>
        if key.None? {
          return Unpredictable;
        }
        if key.value == "name" {
          v := DbField(e);
        }
      case _ =>
    }

    method DbField(e: Event) returns (v: Verdict)
      requires (e.Text? && key == Some("flags")) || (e.Integer? && key == Some("name"))
      modifies this`envs
      ensures Follows(InDatabases(old(Now()), e), v)
    {
      if !(1 <= curEnv <= |envs|) {
        return Unpredictable;
      }
      var c := envs[curEnv - 1];
      if !(1 <= curDb <= |c.dbs|) {
        return Unpredictable;
      }
      var d := c.dbs[curDb - 1];
      var d' := if e.Text? then d.(flags := Some(e.s)) else d.(name := e.n);
      envs := envs[curEnv - 1 := c.(dbs := c.dbs[curDb - 1 := d'])];
      v := Accepted;
    }

    /** The callback. Its indices stay those of the last environment and database,
        it never uses a key, an environment or a database that is not there once
        there is one of each, and it changes no environment but the last. */
    method ParserCallback(e: Event) returns (v: Verdict)
      modifies this
      ensures Follows(Callback(old(Now()), e), v)
      ensures old(Inv(Now())) && v == Accepted ==> Inv(Now())
      ensures old(Inv(Now()) && Ready(Now())) ==> v != Unpredictable
      ensures old(Inv(Now())) && v == Accepted ==>
                |old(envs)| <= |envs| && forall i :: 0 <= i < |old(envs)| - 1 ==> envs[i] == old(envs)[i]
    {
      ghost var t0 := Now();
      if Inv(t0) {
        InvKept(t0, e);
        ReadyDefined(t0, e);
      }
      match state
      case Top => v := TopToken(e);
      case Global => v := GlobalToken(e);
      case Environments => v := EnvironmentToken(e);
      case Databases => v := DatabaseToken(e);
    }

    /** The loop of config_parse_string, token by token: it ends with the table of
        the whole run, in which every object is an environment or a database. */
    method Parse(es: seq<Event>) returns (v: Verdict)
      requires Inv(Now())
      modifies this
      ensures Follows(Run(old(Now()), es), v)
      ensures v == Accepted ==> Inv(Now()) && Entries(Now()) == old(Entries(Now())) + Begins(old(Now()), es)
      ensures old(Now()) == START ==> (v == Refused <==> exists i :: 0 <= i < |es| && Refuses(es, i))
    {
      ghost var t0 := Now();
      RefusedExact(es);
      v := Accepted;
      for i := 0 to |es|
        invariant v == Accepted && Inv(Now()) && Run(t0, es) == Run(Now(), es[i..])
      {
        assert es[i..][1..] == es[i + 1..];
        v := ParserCallback(es[i]);
        if v != Accepted {
          return;
        }
      }
      EntriesRun(t0, es);
    }
  }

  /** A written configuration, read back by the callback: with a global setting
      the same globals and the environments of ReadEnvs; without one the result
      cannot be predicted. */
  method ReadBack(c: Config) returns (v: Verdict, globals: Globals, envs: seq<EnvEntry>)
    ensures v == if HasGlobal(c.globals) then Accepted else Unpredictable
    ensures v == Accepted ==> globals == ToGlobals(c.globals) && envs == ReadEnvs(c.envs)
  {
    var t := new ConfigTable();
    ConfigRead(c);
    v := t.Parse(Write(c));
    globals, envs := t.globals, t.envs;
  }
}
