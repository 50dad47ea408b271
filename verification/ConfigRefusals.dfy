/** Which texts the configuration reader refuses, over the tokens alone: where a
    token stands is said by the tokens before it, without the reader's table. */
module ConfigRefusals {
  import opened ConfigReader
  import opened ConfigRoundTrip
  import opened Options

  // ---- where a token stands ----

  /** After these tokens a global section has begun and not ended. */
  predicate InSection(p: seq<Event>) {
    exists j :: 0 <= j < |p| && p[j] == Key("global") && ObjectEnd !in p[j..]
  }

  /** The key of the environments was read outside of a global section. */
  predicate Past(p: seq<Event>) { exists j :: 0 <= j < |p| && p[j] == Key("environments") && !InSection(p[..j]) }

  /** The last key that was read inside of a global section. */
  function Field(p: seq<Event>): Option<string> {
    if p == [] then None
    else
      var n := |p| - 1;
      if p[n].Key? && InSection(p[..n]) then Some(p[n].name) else Field(p[..n])
  }

  /** A value has the type that belongs to a global setting. */
  predicate Suits(k: string, e: Event) {
    || (k == "port" && e.Integer?)
    || ((k == "error-log" || k == "access-log") && e.Text?)
    || ((k == "enable-error-log" || k == "enable-access-log") && (e.True? || e.False?))
  }

  /** What may follow before the environments: at the top an object, or the key of
      one of the two sections; in a global section an object, its end, a key, or a
      value that suits the key. */
  predicate Admitted(p: seq<Event>, e: Event) {
    if !InSection(p) then e in [ObjectBegin, Key("global"), Key("environments")]
    else
      || e == ObjectBegin || e == ObjectEnd || e.Key?
      || (IsValue(e) && Field(p).Some? && Suits(Field(p).value, e))
  }

  /** A value without any key before it, which the reader compares with a key that
      is not there. */
  predicate Keyless(p: seq<Event>, e: Event) { InSection(p) && IsValue(e) && Field(p).None? }

  /** The tokens up to i are admitted, and token i is not. */
  predicate Refuses(es: seq<Event>, i: nat)
    requires i < |es|
  {
    && !Past(es[..i]) && !Admitted(es[..i], es[i]) && !Keyless(es[..i], es[i])
    && forall j :: 0 <= j < i ==> Admitted(es[..j], es[j])
  }

  // ---- one token more ----

  lemma SectionSnoc(p: seq<Event>, e: Event)
    ensures InSection(p + [e]) <==> e == Key("global") || (InSection(p) && e != ObjectEnd)
  {
    var q := p + [e];
    if e == Key("global") {
      assert q[|p|] == e && q[|p|..] == [e];
    } else {
      forall j | 0 <= j < |p| ensures q[j..] == p[j..] + [e] {
      }
      if j :| 0 <= j < |p| && p[j] == Key("global") && ObjectEnd !in p[j..] {
        if e != ObjectEnd {
          assert q[j] == Key("global") && ObjectEnd !in q[j..];
        }
      }
      forall j | 0 <= j < |q| && q[j] == Key("global") && ObjectEnd !in q[j..] ensures InSection(p) && e != ObjectEnd {
        assert j < |p| && p[j] == Key("global");
        assert e in q[j..];
      }
    }
  }

  lemma PastSnoc(p: seq<Event>, e: Event)
    ensures Past(p + [e]) <==> Past(p) || (e == Key("environments") && !InSection(p))
  {
    var q := p + [e];
    forall j | 0 <= j < |p| ensures q[..j] == p[..j] {
    }
    assert q[..|p|] == p && q[|p|] == e;
    if j :| 0 <= j < |p| && p[j] == Key("environments") && !InSection(p[..j]) {
      assert q[j] == Key("environments") && !InSection(q[..j]);
    }
  }

  lemma FieldSnoc(p: seq<Event>, e: Event)
    ensures Field(p + [e]) == if e.Key? && InSection(p) then Some(e.name) else Field(p)
  {
    assert (p + [e])[..|p|] == p;
  }

  // ---- the reader and the tokens ----

  /** The reader's table says of the tokens that were read what they say. */
  predicate Reflects(t: Table, p: seq<Event>) {
    !Past(p) ==> t.state == (if InSection(p) then Global else Top) && t.key == Field(p)
  }

  lemma TopExact(t: Table, e: Event)
    requires t.state == Top
    ensures Callback(t, e).Accept? <==> e in [ObjectBegin, Key("global"), Key("environments")]
    ensures !Callback(t, e).Undefined?
    ensures Callback(t, e).Accept? ==>
            var u := Callback(t, e).table;
            && u.key == t.key
            && u.state == if e == ObjectBegin then Top else if e == Key("global") then Global else Environments
  {
  }

  lemma GlobalExact(t: Table, e: Event)
    requires t.state == Global
    ensures Callback(t, e).Accept? <==>
            e == ObjectBegin || e == ObjectEnd || e.Key? || (IsValue(e) && t.key.Some? && Suits(t.key.value, e))
    ensures Callback(t, e).Undefined? <==> IsValue(e) && t.key.None?
    ensures Callback(t, e).Accept? ==>
            var u := Callback(t, e).table;
            && u.key == (if e.Key? then Some(e.name) else t.key)
            && u.state == if e == ObjectEnd then Top else Global
  {
  }

  /** Before the environments, a token is accepted exactly if it is admitted, and
      refused exactly if it is neither admitted nor without a key. */
  lemma TokenExact(t: Table, p: seq<Event>, e: Event)
    requires Reflects(t, p) && !Past(p)
    ensures Callback(t, e).Accept? <==> Admitted(p, e)
    ensures Callback(t, e).Refuse? <==> !Admitted(p, e) && !Keyless(p, e)
    ensures Callback(t, e).Accept? ==> Reflects(Callback(t, e).table, p + [e])
    ensures Callback(t, e).Accept? && Past(p + [e]) ==> Callback(t, e).table.state == Environments
  {
    SectionSnoc(p, e);
    PastSnoc(p, e);
    FieldSnoc(p, e);
    if InSection(p) {
      GlobalExact(t, e);
    } else {
      TopExact(t, e);
    }
  }

  /** As long as all tokens are admitted, the text is read up to the environments. */
  lemma {:induction false} ReadSoFar(es: seq<Event>, n: nat)
    requires n <= |es| && !Past(es[..n]) && forall j :: 0 <= j < n ==> Admitted(es[..j], es[j])
    ensures Run(START, es[..n]).Accept? && Reflects(Run(START, es[..n]).table, es[..n])
    decreases n
  {
    if n == 0 {
      assert es[..0] == [];
    } else {
      var p, e := es[..n-1], es[n-1];
      assert es[..n] == p + [e];
      PastSnoc(p, e);
      ReadSoFar(es, n - 1);
      RunAppend(START, p, [e]);
      One(Run(START, p).table, e);
      TokenExact(Run(START, p).table, p, e);
    }
  }

  /** At the first token that is not admitted, the reader stops. */
  lemma StopsAt(es: seq<Event>, i: nat)
    requires i < |es| && !Past(es[..i]) && !Admitted(es[..i], es[i])
    requires forall j :: 0 <= j < i ==> Admitted(es[..j], es[j])
    ensures Run(START, es) == if Keyless(es[..i], es[i]) then Undefined else Refuse
  {
    var p := es[..i];
    ReadSoFar(es, i);
    assert es == p + es[i..];
    RunAppend(START, p, es[i..]);
    TokenExact(Run(START, p).table, p, es[i]);
  }

  lemma EnvironmentsFollow(p: seq<Event>, e: Event, tail: seq<Event>)
    requires Run(START, p).Accept?
    requires var o := Callback(Run(START, p).table, e); o.Accept? && o.table.state == Environments
    ensures !Run(START, p + [e] + tail).Refuse?
  {
    RunAppend(START, p, [e]);
    One(Run(START, p).table, e);
    RunAppend(START, p + [e], tail);
    NoWayBack(Callback(Run(START, p).table, e).table, tail);
  }

  /** Once the environments are reached, nothing is refused any more. */
  lemma ReachesEnvironments(es: seq<Event>, i: nat)
    requires i < |es| && !Past(es[..i]) && Past(es[..i + 1])
    requires forall j :: 0 <= j <= i ==> Admitted(es[..j], es[j])
    ensures !Run(START, es).Refuse?
  {
    var p, e, tail := es[..i], es[i], es[i + 1..];
    ReadSoFar(es, i);
    assert es[..i + 1] == p + [e];
    TokenExact(Run(START, p).table, p, e);
    EnvironmentsFollow(p, e, tail);
    assert es == p + [e] + tail;
  }

  /** The first token that is not admitted, or that reaches the environments. */
  lemma {:induction false} FirstStop(es: seq<Event>, n: nat) returns (i: nat)
    requires n <= |es|
    ensures i <= n && !Past(es[..i]) && (forall j :: 0 <= j < i ==> Admitted(es[..j], es[j]))
    ensures i < n ==> !Admitted(es[..i], es[i]) || Past(es[..i + 1])
    decreases n
  {
    if n == 0 {
      assert es[..0] == [];
      i := 0;
    } else {
      i := FirstStop(es, n - 1);
      if i == n - 1 && Admitted(es[..i], es[i]) && !Past(es[..i + 1]) {
        i := n;
      }
    }
  }

  /** A text is refused if and only if one of its tokens before the environments is
      not admitted where it stands, all tokens before are, and it is not a value
      that comes before any key. */
  lemma RefusedExact(es: seq<Event>)
    ensures Run(START, es) == Refuse <==> exists i :: 0 <= i < |es| && Refuses(es, i)
  {
    if i :| 0 <= i < |es| && Refuses(es, i) {
      StopsAt(es, i);
    } else {
      var i := FirstStop(es, |es|);
      if i == |es| {
        assert es[..i] == es;
        ReadSoFar(es, i);
      } else if !Admitted(es[..i], es[i]) {
        StopsAt(es, i);
        assert !Refuses(es, i);
      } else {
        ReachesEnvironments(es, i);
      }
    }
  }

  // ---- texts that are refused ----

  /** A configuration with a global section only is refused at its last token. */
  lemma OnlyGlobals(g: GlobalConfig)
    ensures Run(START, [ObjectBegin, Key("global"), ObjectBegin] + GlobalFields(g) + [ObjectEnd, ObjectEnd]) == Refuse
  {
    var head, fields := [ObjectBegin, Key("global"), ObjectBegin], GlobalFields(g);
    var t := START.(state := Global);
    assert Run(START, head) == Accept(t) by {
      Two(START, ObjectBegin, Key("global"));
      RunAppend(START, [ObjectBegin, Key("global")], [ObjectBegin]);
      One(t, ObjectBegin);
      assert head == [ObjectBegin, Key("global")] + [ObjectBegin];
    }
    GlobalsRead(t, g);
    RunAppend(START, head, fields);
    RunAppend(START, head + fields, [ObjectEnd, ObjectEnd]);
    Two(Run(t, fields).table, ObjectEnd, ObjectEnd);
  }

  /** A value under a global key that is unknown or of another type is refused. */
  lemma WrongSetting(k: string, e: Event)
    requires IsValue(e) && !Suits(k, e)
    ensures Run(START, [ObjectBegin, Key("global"), ObjectBegin] + [Key(k), e]) == Refuse
  {
    var head, t := [ObjectBegin, Key("global"), ObjectBegin], START.(state := Global);
    assert Run(START, head) == Accept(t) by {
      Two(START, ObjectBegin, Key("global"));
      RunAppend(START, [ObjectBegin, Key("global")], [ObjectBegin]);
      One(t, ObjectBegin);
      assert head == [ObjectBegin, Key("global")] + [ObjectBegin];
    }
    RunAppend(START, head, [Key(k), e]);
    Two(t, Key(k), e);
  }
}
