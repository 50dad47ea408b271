/** The messages of a dump (tools/export.proto) and their serialized form: tagged
    fields in ascending order, numbers as base-128 varints, and nested messages
    and byte strings after their length. */
module DumpCodec {
  import opened Options
  import opened TableBytes

  datatype Datum =
    | Environment(flags: bv32, pageSize: nat, maxDatabases: nat)
    | Database(name: nat, flags: bv32, keySize: nat, keyType: nat, recordSize: nat)
    | Item(key: Bytes, record: Bytes)

  // ---- numbers and byte strings ----

  function Varint(n: nat): (b: Bytes)
    ensures |b| > 0
  {
    if n < 128 then [n] else [n % 128 + 128] + Varint(n / 128)
  }

  /** A number and the bytes behind it. */
  function ReadVarint(b: Bytes): (r: Option<(nat, Bytes)>)
    ensures r.Some? ==> |r.value.1| < |b|
  {
    if b == [] then None
    else if b[0] < 128 then Some((b[0], b[1..]))
    else
      match ReadVarint(b[1..])
      case None => None
      case Some((n, rest)) => Some((b[0] - 128 + 128 * n, rest))
  }

  lemma {:induction false} VarintRoundTrip(n: nat, rest: Bytes)
    ensures ReadVarint(Varint(n) + rest) == Some((n, rest))
    decreases n
  {
    var b := Varint(n) + rest;
    if n < 128 {
      assert b[1..] == rest;
    } else {
      VarintRoundTrip(n / 128, rest);
      assert b[1..] == Varint(n / 128) + rest;
    }
  }

  function Digit128(n: nat, i: nat): nat { if i == 0 then n % 128 else Digit128(n / 128, i - 1) }

  /** The bytes of a number hold its base-128 digits, lowest first, and all but the
      last have their highest bit set. */
  lemma {:induction false} VarintDigits(n: nat, i: nat)
    requires i < |Varint(n)|
    ensures Varint(n)[i] == Digit128(n, i) + if i < |Varint(n)| - 1 then 128 else 0
    decreases n
  {
    if n >= 128 && i > 0 {
      VarintDigits(n / 128, i - 1);
    }
  }

  function Number(tag: Byte, n: nat): Bytes { [tag] + Varint(n) }

  function ReadNumber(tag: Byte, b: Bytes): Option<(nat, Bytes)> {
    if b == [] || b[0] != tag then None else ReadVarint(b[1..])
  }

  lemma NumberRoundTrip(tag: Byte, n: nat, rest: Bytes)
    ensures ReadNumber(tag, Number(tag, n) + rest) == Some((n, rest))
  {
    assert (Number(tag, n) + rest)[1..] == Varint(n) + rest;
    VarintRoundTrip(n, rest);
  }

  function Block(tag: Byte, s: Bytes): Bytes { [tag] + Varint(|s|) + s }

  function ReadBlock(tag: Byte, b: Bytes): Option<(Bytes, Bytes)> {
    match ReadNumber(tag, b)
    case None => None
    case Some((n, rest)) => if n <= |rest| then Some((rest[..n], rest[n..])) else None
  }

  lemma BlockRoundTrip(tag: Byte, s: Bytes, rest: Bytes)
    ensures ReadBlock(tag, Block(tag, s) + rest) == Some((s, rest))
  {
    assert Block(tag, s) + rest == Number(tag, |s|) + (s + rest);
    NumberRoundTrip(tag, |s|, s + rest);
  }

  // ---- messages ----

  function Numbers(tags: seq<Byte>, ns: seq<nat>): Bytes
    requires |tags| == |ns|
  {
    if ns == [] then [] else Number(tags[0], ns[0]) + Numbers(tags[1..], ns[1..])
  }

  function ReadNumbers(tags: seq<Byte>, b: Bytes): Option<seq<nat>> {
    if tags == [] then (if b == [] then Some([]) else None)
    else
      match ReadNumber(tags[0], b)
      case None => None
      case Some((n, rest)) =>
        match ReadNumbers(tags[1..], rest)
        case None => None
        case Some(ns) => Some([n] + ns)
  }

  lemma {:induction false} NumbersRoundTrip(tags: seq<Byte>, ns: seq<nat>)
    requires |tags| == |ns|
    ensures ReadNumbers(tags, Numbers(tags, ns)) == Some(ns)
  {
    if ns != [] {
      NumberRoundTrip(tags[0], ns[0], Numbers(tags[1..], ns[1..]));
      NumbersRoundTrip(tags[1..], ns[1..]);
      assert [ns[0]] + ns[1..] == ns;
    }
  }

  const ENVIRONMENT_TAGS: seq<Byte> := [8, 16, 24]
  const DATABASE_TAGS: seq<Byte> := [8, 16, 24, 32, 40]

  function Encode(d: Datum): Bytes {
    match d
    case Environment(f, p, m) => Number(8, 1) + Block(18, Numbers(ENVIRONMENT_TAGS, [f as nat, p, m]))
    case Database(n, f, k, t, r) => Number(8, 2) + Block(26, Numbers(DATABASE_TAGS, [n, f as nat, k, t, r]))
    case Item(k, r) => Number(8, 3) + Block(34, Block(10, k) + Block(18, r))
  }

  function DecodeEnvironment(b: Bytes): Option<Datum> {
    match ReadNumbers(ENVIRONMENT_TAGS, b)
    case None => None
    case Some(ns) => if |ns| == 3 && ns[0] < 0x1_0000_0000 then Some(Environment(ns[0] as bv32, ns[1], ns[2])) else None
  }

  function DecodeDatabase(b: Bytes): Option<Datum> {
    match ReadNumbers(DATABASE_TAGS, b)
    case None => None
    case Some(ns) =>
      if |ns| == 5 && ns[1] < 0x1_0000_0000
      then Some(Database(ns[0], ns[1] as bv32, ns[2], ns[3], ns[4]))
      else None
  }

  function DecodeItem(b: Bytes): Option<Datum> {
    match ReadBlock(10, b)
    case None => None
    case Some((k, rest)) =>
      match ReadBlock(18, rest)
      case None => None
      case Some((r, end)) => if end == [] then Some(Item(k, r)) else None
  }

  function Decode(b: Bytes): Option<Datum> {
    match ReadNumber(8, b)
    case None => None
    case Some((t, rest)) =>
      match ReadBlock(if t == 1 then 18 else if t == 2 then 26 else 34, rest)
      case None => None
      case Some((body, end)) =>
        if end != [] then None
        else if t == 1 then DecodeEnvironment(body)
        else if t == 2 then DecodeDatabase(body)
        else if t == 3 then DecodeItem(body)
        else None
  }

  lemma OuterRoundTrip(t: nat, tag: Byte, body: Bytes)
    ensures ReadNumber(8, Number(8, t) + Block(tag, body)) == Some((t, Block(tag, body)))
    ensures ReadBlock(tag, Block(tag, body)) == Some((body, []))
  {
    NumberRoundTrip(8, t, Block(tag, body));
    BlockRoundTrip(tag, body, []);
    assert Block(tag, body) + [] == Block(tag, body);
  }

  lemma Flags(f: bv32)
    ensures (f as nat) < 0x1_0000_0000 && ((f as nat) as bv32) == f
  {
  }

  lemma EnvironmentRoundTrip(f: bv32, p: nat, m: nat)
    ensures Decode(Encode(Environment(f, p, m))) == Some(Environment(f, p, m))
  {
    Flags(f);
    OuterRoundTrip(1, 18, Numbers(ENVIRONMENT_TAGS, [f as nat, p, m]));
    NumbersRoundTrip(ENVIRONMENT_TAGS, [f as nat, p, m]);
  }

  lemma DatabaseRoundTrip(n: nat, f: bv32, k: nat, t: nat, r: nat)
    ensures Decode(Encode(Database(n, f, k, t, r))) == Some(Database(n, f, k, t, r))
  {
    Flags(f);
    OuterRoundTrip(2, 26, Numbers(DATABASE_TAGS, [n, f as nat, k, t, r]));
    NumbersRoundTrip(DATABASE_TAGS, [n, f as nat, k, t, r]);
  }

  lemma ItemRoundTrip(k: Bytes, r: Bytes)
    ensures Decode(Encode(Item(k, r))) == Some(Item(k, r))
  {
    OuterRoundTrip(3, 34, Block(10, k) + Block(18, r));
    BlockRoundTrip(10, k, Block(18, r));
    BlockRoundTrip(18, r, []);
    assert Block(18, r) + [] == Block(18, r);
  }

  // ---- the format, without knowledge of the messages ----

  /** A field of any protocol buffer message: a number or a string. */
  datatype Field = Num(no: nat, value: nat) | Str(no: nat, data: Bytes)

  /** The first field and what follows it; field numbers are below 16. */
  function ReadField(b: Bytes): (r: Option<(Field, Bytes)>)
    ensures r.Some? ==> |r.value.1| < |b|
  {
    if b == [] || b[0] >= 128 then None
    else
      match ReadVarint(b[1..])
      case None => None
      case Some((n, rest)) =>
        if b[0] % 8 == 0 then Some((Num(b[0] / 8, n), rest))
        else if b[0] % 8 == 2 && n <= |rest| then Some((Str(b[0] / 8, rest[..n]), rest[n..]))
        else None
  }

  /** All fields of a message. */
  function ReadFields(b: Bytes): Option<seq<Field>>
    decreases |b|
  {
    if b == [] then Some([])
    else
      match ReadField(b)
      case None => None
      case Some((f, rest)) =>
        match ReadFields(rest)
        case None => None
        case Some(fs) => Some([f] + fs)
  }

  lemma NumField(no: nat, n: nat, rest: Bytes)
    requires no < 16
    ensures ReadField(Number(8 * no, n) + rest) == Some((Num(no, n), rest))
  {
    assert (Number(8 * no, n) + rest)[1..] == Varint(n) + rest;
    VarintRoundTrip(n, rest);
  }

  lemma StrField(no: nat, s: Bytes, rest: Bytes)
    requires no < 16
    ensures ReadField(Block(8 * no + 2, s) + rest) == Some((Str(no, s), rest))
  {
    assert (Block(8 * no + 2, s) + rest)[1..] == Varint(|s|) + (s + rest);
    VarintRoundTrip(|s|, s + rest);
    assert (s + rest)[..|s|] == s && (s + rest)[|s|..] == rest;
  }

  lemma TwoFields(b: Bytes, f: Field, c: Bytes, g: Field)
    requires ReadField(b) == Some((f, c)) && ReadField(c) == Some((g, []))
    ensures ReadFields(b) == Some([f, g])
  {
    assert ReadFields([]) == Some([]);
    assert ReadFields(c) == Some([g]) by {
      assert [g] + [] == [g];
    }
    assert [f] + [g] == [f, g];
  }

  /** The numbers of a message as its fields 1, 2, 3 and so on. */
  function Numbered(ns: seq<nat>, from: nat): seq<Field> {
    if ns == [] then [] else [Num(from, ns[0])] + Numbered(ns[1..], from + 1)
  }

  lemma {:induction false} NumberedFields(tags: seq<Byte>, ns: seq<nat>, from: nat)
    requires |tags| == |ns| && from + |ns| <= 16 && forall i :: 0 <= i < |tags| ==> tags[i] == 8 * (from + i)
    ensures ReadFields(Numbers(tags, ns)) == Some(Numbered(ns, from))
    decreases ns
  {
    if ns != [] {
      NumberedFields(tags[1..], ns[1..], from + 1);
      NumField(from, ns[0], Numbers(tags[1..], ns[1..]));
    }
  }

  /** The type of a message and its fields, as tools/export.proto numbers them. */
  function TypeOf(d: Datum): nat {
    match d
    case Environment(_, _, _) => 1
    case Database(_, _, _, _, _) => 2
    case Item(_, _) => 3
  }

  function FieldsOf(d: Datum): seq<Field> {
    match d
    case Environment(f, p, m) => [Num(1, f as nat), Num(2, p), Num(3, m)]
    case Database(n, f, k, t, r) => [Num(1, n), Num(2, f as nat), Num(3, k), Num(4, t), Num(5, r)]
    case Item(k, r) => [Str(1, k), Str(2, r)]
  }

  function Body(d: Datum): Bytes {
    match d
    case Environment(f, p, m) => Numbers(ENVIRONMENT_TAGS, [f as nat, p, m])
    case Database(n, f, k, t, r) => Numbers(DATABASE_TAGS, [n, f as nat, k, t, r])
    case Item(k, r) => Block(10, k) + Block(18, r)
  }

  lemma BodyFields(d: Datum)
    ensures ReadFields(Body(d)) == Some(FieldsOf(d))
  {
    match d
    case Environment(f, p, m) =>
      NumberedFields(ENVIRONMENT_TAGS, [f as nat, p, m], 1);
      NumberedThree(f as nat, p, m);
    case Database(n, f, k, t, r) =>
      NumberedFields(DATABASE_TAGS, [n, f as nat, k, t, r], 1);
      NumberedFive(n, f as nat, k, t, r);
    case Item(k, r) =>
      StrField(1, k, Block(18, r));
      StrField(2, r, []);
      assert Block(18, r) + [] == Block(18, r);
      TwoFields(Body(d), Str(1, k), Block(18, r), Str(2, r));
  }

  lemma {:induction false} NumberedAt(ns: seq<nat>, from: nat, i: nat)
    ensures |Numbered(ns, from)| == |ns| && (i < |ns| ==> Numbered(ns, from)[i] == Num(from + i, ns[i]))
    decreases ns
  {
    if ns != [] {
      NumberedAt(ns[1..], from + 1, if i == 0 then 0 else i - 1);
    }
  }

  lemma NumberedThree(a: nat, b: nat, c: nat)
    ensures Numbered([a, b, c], 1) == [Num(1, a), Num(2, b), Num(3, c)]
  {
    var ns, fs := [a, b, c], [Num(1, a), Num(2, b), Num(3, c)];
    NumberedAt(ns, 1, 0);
    forall i: nat | i < 3 ensures Numbered(ns, 1)[i] == fs[i] {
      NumberedAt(ns, 1, i);
    }
  }

  lemma NumberedFive(a: nat, b: nat, c: nat, d: nat, e: nat)
    ensures Numbered([a, b, c, d, e], 1) == [Num(1, a), Num(2, b), Num(3, c), Num(4, d), Num(5, e)]
  {
    var ns, fs := [a, b, c, d, e], [Num(1, a), Num(2, b), Num(3, c), Num(4, d), Num(5, e)];
    NumberedAt(ns, 1, 0);
    forall i: nat | i < 5 ensures Numbered(ns, 1)[i] == fs[i] {
      NumberedAt(ns, 1, i);
    }
  }

  lemma OuterFields(t: nat, no: nat, body: Bytes)
    requires no < 16
    ensures ReadFields(Number(8, t) + Block(8 * no + 2, body)) == Some([Num(1, t), Str(no, body)])
  {
    var c := Block(8 * no + 2, body);
    NumField(1, t, c);
    StrField(no, body, []);
    assert c + [] == c;
    TwoFields(Number(8, t) + c, Num(1, t), c, Str(no, body));
  }

  /** A reader that knows only the format finds the type in field 1 of a message and,
      in the field behind it that belongs to the type, the fields of the message. */
  lemma Format(d: Datum)
    ensures ReadFields(Encode(d)) == Some([Num(1, TypeOf(d)), Str(1 + TypeOf(d), Body(d))])
    ensures ReadFields(Body(d)) == Some(FieldsOf(d))
  {
    OuterFields(TypeOf(d), 1 + TypeOf(d), Body(d));
    BodyFields(d);
  }

  /** Every message is read back as it was written, and none is empty. */
  lemma DatumRoundTrip(d: Datum)
    ensures Decode(Encode(d)) == Some(d) && Encode(d) != []
  {
    match d
    case Environment(f, p, m) => EnvironmentRoundTrip(f, p, m);
    case Database(n, f, k, t, r) => DatabaseRoundTrip(n, f, k, t, r);
    case Item(k, r) => ItemRoundTrip(k, r);
  }
}
