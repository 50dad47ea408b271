/** The command line parser of the tools (tools/getopts.cc). */
module GetOpts {
  import opened Options

  /** An entry of the option table; a name that is missing ends the search. */
  datatype Opt = Opt(code: int, short: Option<string>, long: Option<string>, needsArgument: bool)

  /** An entry of the table with its argument, a bare parameter, or an unknown
      name. The code for a missing argument is not among the results: the test
      for it compares a pointer that is never null. */
  datatype Parsed = Found(opt: nat, arg: string) | Parameter(s: string) | Unknown

  predicate StartsWith(p: string, needle: string) { needle <= p }

  /** The rest of p if the name is all of it or is followed by a separator. */
  function ConsumeByName(p: string, name: string): Option<string> {
    if p == name then Some("")
    else if StartsWith(p, name) then
      var q := p[|name|..];
      if StartsWith(q, ":") || StartsWith(q, "=") then Some(q[1..]) else None
    else None
  }

  function Name(o: Opt, long: bool): Option<string> { if long then o.long else o.short }

  /** The first matching entry before the end of the table. */
  function Search(p: string, opts: seq<Opt>, long: bool, i: nat): Option<(nat, string)>
    requires i <= |opts|
    decreases |opts| - i
  {
    if i == |opts| || Name(opts[i], long).None? then None
    else
      match ConsumeByName(p, Name(opts[i], long).value)
      case Some(rest) => Some((i, rest))
      case None => Search(p, opts, long, i + 1)
  }

  function Parse(p: string, opts: seq<Opt>): Parsed {
    if StartsWith(p, "-") then
      var long := StartsWith(p, "--");
      match Search(if long then p[2..] else p[1..], opts, long, 0)
      case None => Unknown
      case Some((i, rest)) => Found(i, rest)
    else Parameter(p)
  }

  // ---- the parser as it runs ----

  method SearchLoop(p: string, opts: seq<Opt>, long: bool) returns (r: Option<(nat, string)>)
    ensures r == Search(p, opts, long, 0)
  {
    var i := 0;
    while i < |opts| && Name(opts[i], long).Some?
      invariant i <= |opts| && Search(p, opts, long, 0) == Search(p, opts, long, i)
    {
      var rest := ConsumeByName(p, Name(opts[i], long).value);
      if rest.Some? {
        return Some((i, rest.value));
      }
      i := i + 1;
    }
    r := None;
  }

  class Reader {
    const argv: seq<string>
    var cur: nat

    constructor (args: seq<string>)
      ensures argv == args && cur == 0
    {
      argv, cur := args, 0;
    }

    /** getopts: the next argument, or None at the end and at an empty one. */
    method Next(opts: seq<Opt>) returns (r: Option<Parsed>)
      modifies this
      ensures if old(cur) < |argv| && argv[old(cur)] != "" then r == Some(Parse(argv[old(cur)], opts)) &&
              cur == old(cur) + 1
              else r == None && cur == old(cur)
    {
      if cur >= |argv| || argv[cur] == "" {
        return None;
      }
      var p := argv[cur];
      cur := cur + 1;
      var found: Option<(nat, string)>;
      if StartsWith(p, "--") {
        found := SearchLoop(p[2..], opts, true);
      } else if StartsWith(p, "-") {
        found := SearchLoop(p[1..], opts, false);
      } else {
        return Some(Parameter(p));
      }
      r := Some(if found.None? then Unknown else Found(found.value.0, found.value.1));
    }

    /** Calling getopts until it returns 0: the arguments before the first empty
        one, each parsed on its own, and from then on always 0. */
    method All(opts: seq<Opt>) returns (rs: seq<Parsed>)
      requires cur <= |argv|
      modifies this
      ensures cur == UntilEmpty(argv, old(cur)) && (cur == |argv| || argv[cur] == "")
      ensures rs == ParseAll(argv[old(cur)..cur], opts)
    {
      ghost var c0 := cur;
      rs := [];
      var r := Next(opts);
      while r.Some?
        invariant c0 <= cur <= |argv| && UntilEmpty(argv, c0) == UntilEmpty(argv, cur)
        invariant r.Some? ==> c0 < cur && r == Some(Parse(argv[cur-1], opts)) && rs == ParseAll(argv[c0..cur-1], opts)
        invariant r.None? ==> (cur == |argv| || argv[cur] == "") && rs == ParseAll(argv[c0..cur], opts)
        decreases r.Some?, |argv| - cur
      {
        assert argv[c0..cur] == argv[c0..cur-1] + [argv[cur-1]];
        rs := rs + [r.value];
        r := Next(opts);
      }
    }
  }

  /** The position of the next empty argument, or the end. */
  function UntilEmpty(argv: seq<string>, i: nat): (k: nat)
    ensures i <= k && (i <= |argv| ==> k <= |argv|)
    decreases |argv| - i
  {
    if i >= |argv| || argv[i] == "" then i else UntilEmpty(argv, i + 1)
  }

  function ParseAll(args: seq<string>, opts: seq<Opt>): seq<Parsed> {
    seq(|args|, i requires 0 <= i < |args| => Parse(args[i], opts))
  }

  // ---- every argument ----

  /** The text is this name without an argument, or the name, a separator and the
      argument. */
  predicate Spelt(p: string, name: string, arg: string) {
    (p == name && arg == "") || p == name + ":" + arg || p == name + "=" + arg
  }

  ghost predicate Matches(p: string, name: string) { exists arg :: Spelt(p, name, arg) }

  lemma ConsumeExact(p: string, name: string, arg: string)
    ensures ConsumeByName(p, name) == Some(arg) <==> Spelt(p, name, arg)
  {
    if p != name && StartsWith(p, name) {
      var q := p[|name|..];
      assert p == name + q;
      assert q != "" ==> q == [q[0]] + q[1..];
      assert (name + ":" + arg)[|name|..] == ":" + arg && (name + "=" + arg)[|name|..] == "=" + arg;
    }
  }

  lemma MatchExact(p: string, name: string)
    ensures ConsumeByName(p, name).Some? <==> Matches(p, name)
  {
    if ConsumeByName(p, name).Some? {
      ConsumeExact(p, name, ConsumeByName(p, name).value);
    } else {
      forall arg ensures !Spelt(p, name, arg) {
        ConsumeExact(p, name, arg);
      }
    }
  }

  /** The long or the short names of the entries. */
  function LongNames(opts: seq<Opt>): (r: seq<Option<string>>)
    ensures |r| == |opts| && forall i :: 0 <= i < |opts| ==> r[i] == opts[i].long
  {
    seq(|opts|, i requires 0 <= i < |opts| => opts[i].long)
  }

  function ShortNames(opts: seq<Opt>): (r: seq<Option<string>>)
    ensures |r| == |opts| && forall i :: 0 <= i < |opts| ==> r[i] == opts[i].short
  {
    seq(|opts|, i requires 0 <= i < |opts| => opts[i].short)
  }

  /** Name i is the one that is looked for, no name before it is, and none before it
      is missing. */
  ghost predicate FirstMatch(p: string, names: seq<Option<string>>, i: int) {
    && 0 <= i < |names| && (forall j :: 0 <= j <= i ==> names[j].Some?) && Matches(p, names[i].value)
    && forall j :: 0 <= j < i ==> !Matches(p, names[j].value)
  }

  lemma {:induction false} SearchExact(p: string, opts: seq<Opt>, long: bool, names: seq<Option<string>>, k: nat)
    requires k <= |opts| && names == if long then LongNames(opts) else ShortNames(opts)
    requires forall j :: 0 <= j < k ==> names[j].Some? && !Matches(p, names[j].value)
    ensures match Search(p, opts, long, k)
            case Some((i, arg)) => FirstMatch(p, names, i) && Spelt(p, names[i].value, arg)
            case None => forall i :: !FirstMatch(p, names, i)
    decreases |opts| - k
  {
    if k < |opts| && names[k].Some? {
      var name := names[k].value;
      MatchExact(p, name);
      var c := ConsumeByName(p, name);
      if c.Some? {
        ConsumeExact(p, name, c.value);
      } else {
        SearchExact(p, opts, long, names, k + 1);
      }
    }
  }

  /** An argument that does not begin with a dash is a parameter. Behind one dash a
      short name is looked for and behind two a long one; the result is the first
      entry of the table with this name and the argument behind the separator, and
      it is unknown exactly if no entry has the name. */
  lemma ParseExact(p: string, opts: seq<Opt>)
    ensures (p == "" || p[0] != '-') ==> Parse(p, opts) == Parameter(p)
    ensures p != "" && p[0] == '-' ==>
            var long := |p| > 1 && p[1] == '-'; var rest := p[if long then 2 else 1..];
            var names := if long then LongNames(opts) else ShortNames(opts);
            && (Parse(p, opts) == Unknown <==> forall i :: !FirstMatch(rest, names, i))
            && (forall i: nat, arg :: Parse(p, opts) == Found(i, arg) ==>
                  FirstMatch(rest, names, i) && Spelt(rest, names[i].value, arg))
  {
    if p != "" && p[0] == '-' {
      var long := |p| > 1 && p[1] == '-';
      assert p[..1] == "-" && (long <==> StartsWith(p, "--"));
      SearchExact(p[if long then 2 else 1..], opts, long, if long then LongNames(opts) else ShortNames(opts), 0);
    }
  }

  // ---- names are told apart ----

  predicate Plain(name: string) { name != "" && forall i :: 0 <= i < |name| ==> name[i] != ':' && name[i] != '=' }

  /** Every entry up to i has a name of this kind; the names are plain and
      distinct. */
  predicate Usable(opts: seq<Opt>, long: bool, i: nat)
    requires i < |opts|
  {
    && (forall j :: 0 <= j <= i ==> Name(opts[j], long).Some? && Plain(Name(opts[j], long).value))
    && (forall j :: 0 <= j < i ==> Name(opts[j], long) != Name(opts[i], long))
  }

  predicate Separator(c: char) { c == ':' || c == '=' }

  /** A different name does not match, even if one is the beginning of the other. */
  lemma OtherName(name: string, other: string, c: char, arg: string)
    requires Plain(name) && Plain(other) && name != other && Separator(c)
    ensures ConsumeByName(name + [c] + arg, other).None? && ConsumeByName(name, other).None?
  {
    var p := name + [c] + arg;
    assert p[|name|] == c;
    if StartsWith(p, other) && |other| <= |name| {
      assert other == p[..|other|] == name[..|other|];
      assert |other| < |name|;
      assert p[|other|..][0] == p[|other|] == name[|other|];
    }
    if StartsWith(name, other) {
      assert |other| < |name|;
      assert name[|other|..][0] == name[|other|];
    }
  }

  lemma OwnName(name: string, c: char, arg: string)
    requires Plain(name) && Separator(c)
    ensures ConsumeByName(name + [c] + arg, name) == Some(arg) && ConsumeByName(name, name) == Some("")
  {
  }

  lemma {:induction false} SearchFinds(opts: seq<Opt>, long: bool, i: nat, k: nat, c: char, arg: string)
    requires k <= i < |opts| && Usable(opts, long, i) && Separator(c)
    ensures var name := Name(opts[i], long).value;
            Search(name + [c] + arg, opts, long, k) == Some((i, arg)) && Search(name, opts, long, k) == Some((i, ""))
    decreases i - k
  {
    var name := Name(opts[i], long).value;
    if k == i {
      OwnName(name, c, arg);
    } else {
      OtherName(name, Name(opts[k], long).value, c, arg);
      SearchFinds(opts, long, i, k + 1, c, arg);
    }
  }

  lemma LongPrefix(s: string)
    ensures StartsWith("--" + s, "-") && StartsWith("--" + s, "--") && ("--" + s)[2..] == s
  {
  }

  lemma ShortPrefix(s: string)
    requires s != "" && s[0] != '-'
    ensures StartsWith("-" + s, "-") && !StartsWith("-" + s, "--") && ("-" + s)[1..] == s
  {
    var p := "-" + s;
    assert p[..1] == "-" && p[1] == s[0];
    assert "--"[1] == '-';
  }

  /** "--name=arg", "--name:arg", "-name=arg" and "-name:arg" give the option and
      its argument, and without an argument the option with an empty one, whether
      or not it needs an argument; options that are beginnings of one another are
      not confused. */
  lemma OptionFound(opts: seq<Opt>, long: bool, i: nat, c: char, arg: string)
    requires i < |opts| && Usable(opts, long, i) && Separator(c)
    requires !long ==> Name(opts[i], long).value[0] != '-'
    ensures var dashes := if long then "--" else "-"; var name := Name(opts[i], long).value;
            Parse(dashes + (name + [c] + arg), opts) == Found(i, arg) && Parse(dashes + name, opts) == Found(i, "")
  {
    var name := Name(opts[i], long).value;
    SearchFinds(opts, long, i, 0, c, arg);
    if long {
      LongPrefix(name + [c] + arg);
      LongPrefix(name);
    } else {
      assert (name + [c] + arg)[0] == name[0];
      ShortPrefix(name + [c] + arg);
      ShortPrefix(name);
    }
  }
}
