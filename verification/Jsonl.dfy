/** The JSONL writer of prefixsim and the field scanner that reads its lines back. */
module Jsonl {
  import opened Decimals

  datatype Option<T> = None | Some(value: T)

  /** A request; times are in microseconds, -1 marks an absent number, 0 an absent session or user. */
  datatype Request = Request(chat: int, parentChat: int, complete: nat, start: nat, input: int, output: int,
                             kind: string, turn: int, session: nat, user: nat, blocks: seq<nat>)

  // ---------- the printed line ----------

  /** The text of a field: left out, as it is, or between quotes. */
  datatype Value = Absent | Bare(text: string) | Quoted(text: string)

  const CHAT := 0
  const PARENT := 1
  const COMPLETE := 2
  const START := 3
  const INPUT := 4
  const OUTPUT := 5
  const TYPE := 6
  const TURN := 7
  const SESSION := 8
  const USER := 9
  const BLOCKS := 10

  type Key = k: int | 0 <= k <= BLOCKS witness 0

  function Name(k: Key): (s: string)
    ensures s != []
  {
    if k == CHAT then "chat_id"
    else if k == PARENT then "parent_chat_id"
    else if k == COMPLETE then "timestamp"
    else if k == START then "timestamp_arrival"
    else if k == INPUT then "input_length"
    else if k == OUTPUT then "output_length"
    else if k == TYPE then "type"
    else if k == TURN then "turn"
    else if k == SESSION then "session_id"
    else if k == USER then "user_id"
    else "hash_ids"
  }

  function IntOrNull(n: int): (s: string)
    ensures s != []
  {
    if n < 0 then "null" else IntText(n)
  }

  function Ids(blocks: seq<nat>): string {
    if blocks == [] then []
    else if |blocks| == 1 then Decimal(blocks[0])
    else Decimal(blocks[0]) + "," + Ids(blocks[1..])
  }

  function FieldOf(r: Request, k: Key): Value {
    if k == CHAT then Bare(IntText(r.chat))
    else if k == PARENT then Bare(IntText(r.parentChat))
    else if k == COMPLETE then Bare(SecondsText(r.complete))
    else if k == START then Bare(SecondsText(r.start))
    else if k == INPUT then Bare(IntOrNull(r.input))
    else if k == OUTPUT then Bare(IntOrNull(r.output))
    else if k == TYPE then (if r.kind == [] then Absent else Quoted(r.kind))
    else if k == TURN then Bare(IntOrNull(r.turn))
    else if k == SESSION then (if r.session == 0 then Absent else Quoted(Decimal(r.session)))
    else if k == USER then (if r.user == 0 then Absent else Quoted(Decimal(r.user)))
    else Bare("[" + Ids(r.blocks) + "]")
  }

  function ValueText(v: Value): string {
    match v
    case Absent => []
    case Bare(t) => t
    case Quoted(t) => "\"" + t + "\""
  }

  function Quote(s: string): string {
    "\"" + s + "\""
  }

  function Field(k: Key, v: Value): string {
    Quote(Name(k)) + (":" + ValueText(v))
  }

  /** The fields from `k` on, with the closing brace. */
  function Body(r: Request, k: Key): string
    decreases BLOCKS - k
  {
    var v := FieldOf(r, k);
    if k == BLOCKS then Field(k, v) + "}"
    else if v.Absent? then Body(r, k + 1)
    else Field(k, v) + ("," + Body(r, k + 1))
  }

  /** The line that `append_jsonl` prints. */
  function Line(r: Request): string {
    "{" + Body(r, 0)
  }

  // ---------- finding a field ----------

  /** What follows the first occurrence of `pattern`, as `strstr` finds it. */
  function After(s: string, pattern: string): Option<string> {
    if |s| < |pattern| then None
    else if pattern <= s then Some(s[|pattern|..])
    else if s == [] then None
    else After(s[1..], pattern)
  }

  function SkipBlanks(s: string): string {
    if s != [] && (s[0] == ' ' || s[0] == '\t') then SkipBlanks(s[1..]) else s
  }

  /** `find_field`. */
  function FindField(line: string, name: string): Option<string> {
    match After(line, Quote(name))
    case None => None
    case Some(p) =>
      var q := SkipBlanks(p);
      if q == [] || q[0] != ':' then None else Some(SkipBlanks(q[1..]))
  }

  predicate Plain(s: string) {
    '"' !in s
  }

  /** A quoted name stands at the front only if it is the name that was quoted there. */
  lemma {:induction false} QuotedFront(a: string, b: string, rest: string)
    requires Plain(a) && Plain(b)
    ensures a + "\"" <= b + "\"" + rest <==> a == b
    decreases |a|
  {
    var s, t := a + "\"", b + "\"" + rest;
    if a == [] {
      assert t[0] == if b == [] then '"' else b[0];
    } else if b == [] {
      assert s[0] == a[0] && t[0] == '"';
    } else {
      QuotedFront(a[1..], b[1..], rest);
      assert s == [a[0]] + (a[1..] + "\"") && t == [b[0]] + (b[1..] + "\"" + rest);
      FrontSplits(a[0], a[1..] + "\"", b[0], b[1..] + "\"" + rest);
      assert a == [a[0]] + a[1..] && b == [b[0]] + b[1..];
    }
  }

  lemma FrontSplits(x: char, s: string, y: char, t: string)
    ensures [x] + s <= [y] + t <==> x == y && s <= t
  {
    if [x] + s <= [y] + t {
      assert ([y] + t)[..|s| + 1] == [x] + s;
      assert ([x] + s)[0] == x && ([x] + s)[1..] == s;
      assert ([y] + t)[..|s| + 1][1..] == t[..|s|];
    }
    if x == y && s <= t {
      assert ([y] + t)[..|s| + 1] == [y] + t[..|s|];
    }
  }

  lemma QuoteMatches(a: string, b: string, rest: string)
    requires Plain(a) && Plain(b)
    ensures Quote(a) <= Quote(b) + rest <==> a == b
    ensures a == b ==> (Quote(b) + rest)[|Quote(a)|..] == rest
  {
    QuotedFront(a, b, rest);
    assert Quote(a) == ['"'] + (a + "\"");
    assert Quote(b) + rest == ['"'] + (b + "\"" + rest);
    FrontSplits('"', a + "\"", '"', b + "\"" + rest);
  }

  /** Text without quotes holds no start of a quoted name. */
  lemma {:induction false} SkipPlain(a: string, b: string, name: string)
    requires Plain(a)
    ensures After(a + b, Quote(name)) == After(b, Quote(name))
    decreases |a|
  {
    if a == [] {
      assert a + b == b;
    } else {
      SkipPlain(a[1..], b, name);
      assert (a + b)[1..] == a[1..] + b;
      assert (a + b)[0] == a[0] && Quote(name)[0] == '"';
      ShortAfter(a[1..] + b, b, Quote(name));
    }
  }

  lemma ShortAfter(t: string, b: string, pattern: string)
    requires |b| <= |t| && After(t, pattern) == After(b, pattern)
    ensures |t| < |pattern| ==> After(b, pattern) == None
    ensures |t| + 1 < |pattern| + 1 ==> After(t, pattern) == None
  {
  }

  /** A quote that does not start the name is passed over. */
  lemma SkipQuote(s: string, name: string)
    requires !(Quote(name) <= ['"'] + s)
    ensures After(['"'] + s, Quote(name)) == After(s, Quote(name))
  {
    assert (['"'] + s)[1..] == s;
    ShortAfter(s, s, Quote(name));
  }

  // ---------- where a name is found in a line ----------

  lemma NamesDiffer(a: Key, b: Key)
    ensures Name(a) == Name(b) <==> a == b
  {
    if a != b && |Name(a)| == |Name(b)| {
      assert Name(a)[0] != Name(b)[0] || Name(a)[1] != Name(b)[1];
    }
  }

  predicate IsLetter(c: char) {
    'a' <= c <= 'z'
  }

  lemma NamesPlain(k: Key)
    ensures Plain(Name(k)) && IsLetter(Name(k)[0])
  {
  }

  /** The first name of the text is the one looked for. */
  lemma HitField(k: Key, v: Value, tail: string)
    ensures After(Field(k, v) + tail, Quote(Name(k))) == Some(":" + ValueText(v) + tail)
  {
    var name, rest := Name(k), ":" + ValueText(v) + tail;
    NamesPlain(k);
    assert Field(k, v) + tail == Quote(name) + rest;
    QuoteMatches(name, name, rest);
  }

  ghost predicate Ends(tail: string) {
    tail != [] && (tail[0] == ',' || tail[0] == '}')
  }

  /** A quote before a character that no name starts with. */
  lemma SkipClosing(s: string, name: string)
    requires name != [] && IsLetter(name[0]) && s != [] && !IsLetter(s[0])
    ensures After(['"'] + s, Quote(name)) == After(s, Quote(name))
  {
    assert Quote(name)[1] == name[0];
    assert (['"'] + s)[1] == s[0];
    SkipQuote(s, name);
  }

  lemma PassName(k: Key, rest: string, name: string)
    requires Plain(name) && name != [] && IsLetter(name[0]) && name != Name(k)
    ensures After(Quote(Name(k)) + (":" + rest), Quote(name)) == After(rest, Quote(name))
  {
    var colon := ":" + rest;
    NamesPlain(k);
    QuoteMatches(name, Name(k), colon);
    var s := Name(k) + (['"'] + colon);
    assert Quote(Name(k)) + colon == ['"'] + s;
    SkipQuote(s, name);
    SkipPlain(Name(k), ['"'] + colon, name);
    SkipClosing(colon, name);
    SkipPlain(":", rest, name);
  }

  lemma PassText(text: string, tail: string, name: string)
    requires Plain(name) && name != [] && IsLetter(name[0]) && Plain(text) && Ends(tail)
    ensures After(Quote(text) + tail, Quote(name)) == if text == name then Some(tail) else After(tail, Quote(name))
  {
    QuoteMatches(name, text, tail);
    if text != name {
      var s := text + (['"'] + tail);
      assert Quote(text) + tail == ['"'] + s;
      SkipQuote(s, name);
      SkipPlain(text, ['"'] + tail, name);
      SkipClosing(tail, name);
    }
  }

  /** Another field is passed over, unless its quoted text looks like the name. */
  lemma PassField(k: Key, v: Value, tail: string, name: string)
    requires Plain(name) && name != [] && IsLetter(name[0]) && name != Name(k)
    requires !v.Absent? && Plain(v.text) && Ends(tail)
    ensures After(Field(k, v) + tail, Quote(name))
         == if v.Quoted? && v.text == name then Some(tail) else After(tail, Quote(name))
  {
    var rest := ValueText(v) + tail;
    assert Field(k, v) + tail == Quote(Name(k)) + (":" + rest);
    PassName(k, rest, name);
    if v.Bare? {
      SkipPlain(v.text, tail, name);
    } else {
      PassText(v.text, tail, name);
    }
  }

  /** The value that the scanner finds for key `k` among the fields from `i` on. */
  function Lookup(r: Request, i: int, k: Key): Option<Value>
    requires 0 <= i <= BLOCKS + 1
    decreases BLOCKS + 1 - i
  {
    if i == BLOCKS + 1 then None
    else
      var v := FieldOf(r, i);
      if v.Absent? then Lookup(r, i + 1, k)
      else if i == k then Some(v)
      else if v.Quoted? && v.text == Name(k) then None
      else Lookup(r, i + 1, k)
  }

  ghost predicate PlainFields(r: Request) {
    forall k: Key :: !FieldOf(r, k).Absent? ==> Plain(FieldOf(r, k).text)
  }

  /** What follows the found name: a colon and the value, or something that is no value. */
  ghost predicate Points(p: Option<string>, v: Option<Value>) {
    match v
    case None => p == None || (p.Some? && Ends(p.value))
    case Some(x) => p.Some? && exists tail :: Ends(tail) && p.value == ":" + ValueText(x) + tail
  }

  lemma {:induction false} BodyFind(r: Request, i: Key, k: Key)
    requires PlainFields(r)
    ensures Points(After(Body(r, i), Quote(Name(k))), Lookup(r, i, k))
    decreases BLOCKS - i
  {
    hide FieldOf, Plain, Name, Field, Quote, ValueText;
    var v := FieldOf(r, i);
    var tail := if i == BLOCKS then "}" else "," + (if i < BLOCKS then Body(r, i + 1) else []);
    NamesPlain(k);
    NamesDiffer(i, k);
    if i < BLOCKS {
      BodyFind(r, i + 1, k);
    }
    if !v.Absent? {
      TailSkips(tail, k);
      if i == k {
        HitField(k, v, tail);
      } else {
        PassField(i, v, tail, Name(k));
      }
    } else {
      LastPresent(r, i);
    }
  }

  lemma LastPresent(r: Request, i: Key)
    ensures FieldOf(r, i).Absent? ==> i < BLOCKS
  {
  }

  lemma TailSkips(tail: string, k: Key)
    requires Ends(tail)
    ensures After(tail, Quote(Name(k))) == After(tail[1..], Quote(Name(k)))
    ensures After("", Quote(Name(k))) == None
  {
    assert tail == [tail[0]] + tail[1..];
    SkipPlain([tail[0]], tail[1..], Name(k));
  }

  // ---------- the value that is found ----------

  /** The type of the request is the name of a field that is printed after it. */
  predicate Shadows(r: Request, k: Key) {
    k > TYPE && r.kind == Name(k)
  }

  lemma DecimalIsNoName(n: nat, k: Key)
    ensures Decimal(n) != Name(k)
  {
    hide Decimal;
    NamesPlain(k);
    assert IsDigit(Decimal(n)[0]);
  }

  /** The scanner finds every field that was printed, unless the type shadows it. */
  lemma {:induction false} LookupFrom(r: Request, i: int, k: Key)
    requires 0 <= i <= BLOCKS + 1
    ensures Lookup(r, i, k) ==
            if i > k || (i <= TYPE && Shadows(r, k)) || FieldOf(r, k).Absent? then None else Some(FieldOf(r, k))
    decreases BLOCKS + 1 - i
  {
    hide Decimal, IntText, SecondsText, Ids;
    if i <= BLOCKS {
      LookupFrom(r, i + 1, k);
      DecimalIsNoName(r.session, k);
      DecimalIsNoName(r.user, k);
    }
  }

  ghost predicate NotBlank(s: string) {
    s != [] && s[0] != ' ' && s[0] != '\t'
  }

  lemma ValuesNotBlank(r: Request, k: Key)
    ensures !FieldOf(r, k).Absent? ==> NotBlank(ValueText(FieldOf(r, k)))
  {
    hide Decimal, Ids;
    assert IsDigit(Decimal(r.complete / MILLION)[0]) && IsDigit(Decimal(r.start / MILLION)[0]);
    var v := FieldOf(r, k);
    assert forall n: nat :: IsDigit(Decimal(n)[0]);
  }

  /** What `find_field` points to when the field is there. */
  ghost predicate StartsWith(p: Option<string>, v: Value) {
    p.Some? && exists tail :: Ends(tail) && p.value == ValueText(v) + tail
  }

  lemma AfterBrace(r: Request, k: Key)
    ensures After(Line(r), Quote(Name(k))) == After(Body(r, 0), Quote(Name(k)))
  {
    hide Body, Name;
    SkipPlain("{", Body(r, 0), Name(k));
  }

  lemma FieldFound(r: Request, k: Key)
    requires PlainFields(r)
    ensures var p := FindField(Line(r), Name(k));
            if Shadows(r, k) || FieldOf(r, k).Absent? then p == None else StartsWith(p, FieldOf(r, k))
  {
    hide FieldOf, Name, Quote, ValueText, Body, Line, After, Plain;
    BodyFind(r, 0, k);
    AfterBrace(r, k);
    LookupFrom(r, 0, k);
    ValuesNotBlank(r, k);
    var p, v := After(Line(r), Quote(Name(k))), Lookup(r, 0, k);
    if v.Some? {
      var tail :| Ends(tail) && p.value == ":" + ValueText(v.value) + tail;
      ColonThen(ValueText(v.value), tail);
    }
  }

  lemma ColonThen(t: string, tail: string)
    requires NotBlank(t)
    ensures var s := ":" + t + tail; SkipBlanks(s) == s && s[0] == ':' && s[1..] == t + tail && SkipBlanks(t + tail) == t + tail
  {
    var s := ":" + t + tail;
    assert s[1..] == t + tail;
    assert (t + tail)[0] == t[0];
  }

  // ---------- the scanner ----------

  /** `int_field`. */
  function IntField(line: string, name: string, absent: int): int {
    match FindField(line, name)
    case None => absent
    case Some(p) => if p == [] || !(p[0] == '-' || IsDigit(p[0])) then absent else IntAt(p)
  }

  /** `double_field`, for numbers without sign and exponent. */
  function RealField(line: string, name: string, absent: real): real {
    match FindField(line, name)
    case None => absent
    case Some(p) => if p == [] || !IsDigit(p[0]) then absent else RealAt(p)
  }

  function QuoteAt(s: string): (i: nat)
    ensures i <= |s|
  {
    if s == [] || s[0] == '"' then 0 else 1 + QuoteAt(s[1..])
  }

  /** `string_field`. */
  function StringField(line: string, name: string): Option<string> {
    match FindField(line, name)
    case None => None
    case Some(p) =>
      if p == [] || p[0] != '"' then None
      else if QuoteAt(p[1..]) == |p[1..]| then None
      else Some(p[1..][..QuoteAt(p[1..])])
  }

  function SkipSeparators(s: string): (t: string)
    ensures |t| <= |s|
  {
    if s != [] && (s[0] == ' ' || s[0] == ',') then SkipSeparators(s[1..]) else s
  }

  /** The loop over the elements of `hash_ids`. */
  function IdsAt(s: string): seq<nat>
    decreases |s|
  {
    if s == [] || s[0] == ']' then []
    else
      var t := SkipSeparators(s);
      if t == [] || !IsDigit(t[0]) then [] else [NatAt(t)] + IdsAt(t[Lead(t)..])
  }

  datatype Scanned = Scanned(chat: int, parentChat: int, complete: real, start: real, input: int, output: int,
                             kind: string, turn: int, session: Option<string>, user: Option<string>, raws: seq<nat>)

  function ScanFields(line: string, raws: seq<nat>): Scanned {
    var complete := RealField(line, Name(COMPLETE), 0.0);
    var kind := StringField(line, Name(TYPE));
    Scanned(IntField(line, Name(CHAT), -1), IntField(line, Name(PARENT), -1),
            complete, RealField(line, Name(START), complete),
            IntField(line, Name(INPUT), -1), IntField(line, Name(OUTPUT), -1),
            if kind.Some? then kind.value else [], IntField(line, Name(TURN), -1),
            StringField(line, Name(SESSION)), StringField(line, Name(USER)), raws)
  }

  /** `next` on one line, before the interning; none for a line that is passed over. */
  function ScanLine(line: string): Option<Scanned> {
    match FindField(line, Name(BLOCKS))
    case None => None
    case Some(p) =>
      if p == [] || p[0] != '[' then None
      else
        var raws := IdsAt(p[1..]);
        if raws == [] then None else Some(ScanFields(line, raws))
  }

  // ---------- reading back ----------

  /** One element of the list, followed by something that is not a digit. */
  lemma ElementRead(n: nat, rest: string)
    requires rest == [] || !IsDigit(rest[0])
    ensures IdsAt(Decimal(n) + rest) == [n] + IdsAt(rest)
  {
    hide Decimal, NatAt, Lead;
    var d := Decimal(n);
    var s := d + rest;
    assert s[0] == d[0] && IsDigit(d[0]);
    NatAtDecimal(n, rest);
    assert s[|d|..] == rest;
    assert SkipSeparators(s) == s;
  }

  lemma IdsSplit(blocks: seq<nat>, close: string)
    requires blocks != []
    ensures Ids(blocks) + close ==
            Decimal(blocks[0]) + (if |blocks| == 1 then close else "," + (Ids(blocks[1..]) + close))
    ensures IsDigit((Ids(blocks) + close)[0])
  {
    hide Decimal;
    var d := Decimal(blocks[0]);
    assert IsDigit(d[0]);
    if |blocks| > 1 {
      Regroup(d, ",", Ids(blocks[1..]), close);
    }
  }

  lemma Regroup(a: string, b: string, c: string, d: string)
    ensures (a + b + c) + d == a + (b + (c + d))
  {
  }

  lemma {:induction false} IdsRead(blocks: seq<nat>, tail: string)
    ensures IdsAt(Ids(blocks) + ("]" + tail)) == blocks
    decreases |blocks|
  {
    hide Decimal, IdsAt;
    var close := "]" + tail;
    EmptyList(tail);
    if blocks == [] {
      assert Ids(blocks) + close == close;
    } else {
      hide Ids;
      IdsSplit(blocks, close);
      if |blocks| == 1 {
        ElementRead(blocks[0], close);
      } else {
        IdsRead(blocks[1..], tail);
        IdsSplit(blocks[1..], close);
        SeparatorSkips(Ids(blocks[1..]) + close);
        ElementRead(blocks[0], "," + (Ids(blocks[1..]) + close));
      }
      assert blocks == [blocks[0]] + blocks[1..];
    }
  }

  lemma EmptyList(tail: string)
    ensures IdsAt("]" + tail) == []
  {
  }

  lemma SeparatorSkips(s: string)
    requires s != [] && s[0] != ',' && s[0] != ' '
    ensures IdsAt("," + s) == IdsAt(s)
  {
    hide NatAt, Lead;
    assert ("," + s)[1..] == s;
    assert SkipSeparators("," + s) == SkipSeparators(s) == s;
  }

  lemma IntRead(r: Request, k: Key, n: int, orNull: bool)
    requires PlainFields(r) && FieldOf(r, k) == Bare(if orNull then IntOrNull(n) else IntText(n)) && (orNull ==> n >= -1)
    ensures IntField(Line(r), Name(k), -1) == if Shadows(r, k) then -1 else n
  {
    hide FieldOf, Line, Name, FindField, IntAt, PlainFields, Decimal;
    FieldFound(r, k);
    if !Shadows(r, k) {
      var p, v := FindField(Line(r), Name(k)).value, FieldOf(r, k);
      var tail :| Ends(tail) && p == ValueText(v) + tail;
      if orNull && n < 0 {
        assert p[0] == 'n';
      } else {
        IntAtText(n, tail);
        assert p[0] == IntText(n)[0];
        assert n >= 0 ==> IsDigit(Decimal(n)[0]);
      }
    }
  }

  lemma RealRead(r: Request, k: Key, us: nat, absent: real)
    requires PlainFields(r) && FieldOf(r, k) == Bare(SecondsText(us)) && !Shadows(r, k)
    ensures RealField(Line(r), Name(k), absent) == us as real / MILLION as real
  {
    hide FieldOf, Line, Name, FindField, RealAt, PlainFields, Decimal, Padded;
    FieldFound(r, k);
    var p := FindField(Line(r), Name(k)).value;
    var tail :| Ends(tail) && p == SecondsText(us) + tail;
    SecondsRead(us, tail);
    assert p[0] == Decimal(us / MILLION)[0];
  }

  lemma {:induction false} QuoteAtIs(a: string, b: string)
    requires Plain(a)
    ensures QuoteAt(a + (['"'] + b)) == |a|
    decreases |a|
  {
    var s := a + (['"'] + b);
    if a != [] {
      assert s[1..] == a[1..] + (['"'] + b);
      QuoteAtIs(a[1..], b);
    }
  }

  lemma StringRead(r: Request, k: Key)
    requires PlainFields(r) && !FieldOf(r, k).Bare?
    ensures StringField(Line(r), Name(k)) ==
            if Shadows(r, k) || FieldOf(r, k).Absent? then None else Some(FieldOf(r, k).text)
  {
    hide FieldOf, Line, Name, FindField;
    FieldFound(r, k);
    var v := FieldOf(r, k);
    if !Shadows(r, k) && v.Quoted? {
      var p := FindField(Line(r), Name(k)).value;
      var tail :| Ends(tail) && p == ValueText(v) + tail;
      assert p == ['"'] + (v.text + (['"'] + tail));
      assert p[1..] == v.text + (['"'] + tail);
      QuoteAtIs(v.text, tail);
    }
  }

  /** The characters that matter to the scanner and to the splitting into lines. */
  predicate IsMark(c: char) {
    c == '"' || c == '\n'
  }

  lemma DigitsLack(s: string, c: char)
    requires AllDigits(s) && IsMark(c)
    ensures c !in s
  {
  }

  lemma {:induction false} IdsLack(blocks: seq<nat>, c: char)
    requires IsMark(c)
    ensures c !in Ids(blocks)
  {
    hide Decimal;
    if blocks != [] {
      DigitsLack(Decimal(blocks[0]), c);
      IdsLack(blocks[1..], c);
    }
  }

  lemma NumbersLack(n: int, us: nat, c: char)
    requires IsMark(c)
    ensures c !in IntText(n) && c !in IntOrNull(n) && c !in SecondsText(us)
  {
    hide Decimal, Padded;
    DigitsLack(Decimal(if n < 0 then -n else n), c);
    DigitsLack(Decimal(us / MILLION), c);
    DigitsLack(Padded(us % MILLION, 6), c);
  }

  /** Only the type can hold a quote or a line break. */
  lemma FieldsLack(r: Request, c: char)
    requires IsMark(c) && c !in r.kind
    ensures forall k: Key :: !FieldOf(r, k).Absent? ==> c !in FieldOf(r, k).text
  {
    hide Decimal, Padded, IntText, IntOrNull, SecondsText, Ids;
    NumbersLack(r.chat, r.complete, c);
    NumbersLack(r.parentChat, r.start, c);
    NumbersLack(r.input, 0, c);
    NumbersLack(r.output, 0, c);
    NumbersLack(r.turn, 0, c);
    DigitsLack(Decimal(r.session), c);
    DigitsLack(Decimal(r.user), c);
    ListLacks(r.blocks, c);
  }

  lemma ListLacks(blocks: seq<nat>, c: char)
    requires IsMark(c)
    ensures c !in "[" + Ids(blocks) + "]"
  {
    IdsLack(blocks, c);
  }

  lemma AllPlain(r: Request)
    requires Plain(r.kind)
    ensures PlainFields(r)
  {
    hide FieldOf;
    FieldsLack(r, '"');
  }

  lemma NamesLackBreak(k: Key)
    ensures '\n' !in Name(k)
  {
  }

  lemma FieldLacksBreak(k: Key, v: Value)
    ensures '\n' in Field(k, v) <==> !v.Absent? && '\n' in v.text
  {
    NamesLackBreak(k);
    InConcat(Quote(Name(k)), ":" + ValueText(v), '\n');
    InConcat(":", ValueText(v), '\n');
    if v.Quoted? {
      InConcat("\"" + v.text, "\"", '\n');
      InConcat("\"", v.text, '\n');
    }
  }

  lemma InConcat(a: string, b: string, c: char)
    ensures c in a + b <==> c in a || c in b
  {
    var s := a + b;
    assert forall i :: 0 <= i < |a| ==> s[i] == a[i];
    assert forall i :: 0 <= i < |b| ==> s[|a| + i] == b[i];
  }

  /** Whether the rest of a line holds a line break, from that of one field and of what follows. */
  lemma BodyStep(r: Request, i: Key)
    ensures i == BLOCKS ==> ('\n' in Body(r, i) <==> '\n' in FieldOf(r, i).text)
    ensures i < BLOCKS && FieldOf(r, i).Absent? ==> Body(r, i) == Body(r, i + 1)
    ensures i < BLOCKS && !FieldOf(r, i).Absent? ==>
              ('\n' in Body(r, i) <==> '\n' in FieldOf(r, i).text || '\n' in Body(r, i + 1))
  {
    hide Name, Field, FieldOf;
    LastPresent(r, i);
    var v := FieldOf(r, i);
    FieldLacksBreak(i, v);
    if i == BLOCKS {
      InConcat(Field(i, v), "}", '\n');
    } else {
      InConcat(Field(i, v), "," + Body(r, i + 1), '\n');
      InConcat(",", Body(r, i + 1), '\n');
    }
  }

  lemma {:induction false} BodyBreaks(r: Request, i: Key)
    ensures '\n' !in r.kind ==> '\n' !in Body(r, i)
    ensures '\n' in r.kind && i <= TYPE ==> '\n' in Body(r, i)
    decreases BLOCKS - i
  {
    hide Body, FieldOf;
    if '\n' !in r.kind { FieldsLack(r, '\n'); }
    BodyStep(r, i);
    KindStands(r, i);
    LastPresent(r, i);
    if i < BLOCKS {
      BodyBreaks(r, i + 1);
    }
  }

  lemma KindStands(r: Request, i: Key)
    ensures i == TYPE && r.kind != [] ==> FieldOf(r, i) == Quoted(r.kind)
  {
  }

  /** A printed request is one line if and only if its type holds no line break. */
  lemma OneLine(r: Request)
    ensures '\n' !in Line(r) <==> '\n' !in r.kind
  {
    hide Body;
    BodyBreaks(r, 0);
    InConcat("{", Body(r, 0), '\n');
  }

  lemma BlocksRead(r: Request)
    requires PlainFields(r) && r.blocks != []
    ensures ScanLine(Line(r)) == if r.kind == Name(BLOCKS) then None else Some(ScanFields(Line(r), r.blocks))
  {
    hide Line, FindField, IdsAt, ScanFields, PlainFields, Ids;
    FieldFound(r, BLOCKS);
    if r.kind != Name(BLOCKS) {
      var p := FindField(Line(r), Name(BLOCKS)).value;
      var tail :| Ends(tail) && p == ("[" + Ids(r.blocks) + "]") + tail;
      ListOpens(Ids(r.blocks), tail);
      IdsRead(r.blocks, tail);
    }
  }

  lemma ListOpens(ids: string, tail: string)
    ensures var p := ("[" + ids + "]") + tail; p[0] == '[' && p[1..] == ids + ("]" + tail)
  {
    Regroup("[", ids, "]", tail);
  }

  /** The contents of a request, as the scanner reports them. */
  function Contents(r: Request): Scanned {
    Scanned(r.chat, r.parentChat, r.complete as real / MILLION as real, r.start as real / MILLION as real,
            r.input, r.output, r.kind, r.turn,
            if r.session == 0 then None else Some(Decimal(r.session)),
            if r.user == 0 then None else Some(Decimal(r.user)), r.blocks)
  }

  /** A request as the scanner produces it: the type holds no quote and no line break, and -1 is the only negative count. */
  ghost predicate Printable(r: Request) {
    Plain(r.kind) && '\n' !in r.kind && r.input >= -1 && r.output >= -1 && r.turn >= -1 && r.blocks != []
  }

  /** The type hides no field that was printed after it. */
  predicate Unambiguous(r: Request) {
    && r.kind != "hash_ids"
    && (r.kind == "turn" ==> r.turn == -1)
    && (r.kind == "session_id" ==> r.session == 0)
    && (r.kind == "user_id" ==> r.user == 0)
  }

  /** What the scanner reports for every printed request, shadowed fields included. */
  lemma FieldsRead(r: Request)
    requires Printable(r)
    ensures ScanFields(Line(r), r.blocks) ==
            Contents(r).(turn := if r.kind == "turn" then -1 else r.turn,
                         session := if r.kind == "session_id" then None else Contents(r).session,
                         user := if r.kind == "user_id" then None else Contents(r).user)
  {
    hide Line, IntField, RealField, StringField, Decimal, IntText, IntOrNull, SecondsText, Ids, PlainFields;
    AllPlain(r);
    IntRead(r, CHAT, r.chat, false);
    IntRead(r, PARENT, r.parentChat, false);
    RealRead(r, COMPLETE, r.complete, 0.0);
    RealRead(r, START, r.start, RealField(Line(r), Name(COMPLETE), 0.0));
    IntRead(r, INPUT, r.input, true);
    IntRead(r, OUTPUT, r.output, true);
    IntRead(r, TURN, r.turn, true);
    StringRead(r, TYPE);
    StringRead(r, SESSION);
    StringRead(r, USER);
  }

  /** Scanning a printed line recovers the whole request if and only if the type hides no field. */
  lemma ReadBack(r: Request)
    requires Printable(r)
    ensures ScanLine(Line(r)) == Some(Contents(r)) <==> Unambiguous(r)
  {
    hide Line, ScanLine, ScanFields, Decimal;
    AllPlain(r);
    BlocksRead(r);
    FieldsRead(r);
  }

  /** A type that is lost: the turn number of a request of type "turn" is read as absent. */
  lemma TurnIsHidden()
    ensures var r := Request(1, -1, 0, 0, 5, 5, "turn", 3, 0, 0, [1]);
            Printable(r) && ScanLine(Line(r)) != Some(Contents(r))
  {
    var r := Request(1, -1, 0, 0, 5, 5, "turn", 3, 0, 0, [1]);
    ReadBack(r);
  }

  // ---------- the printer ----------

  /** `append_seconds`, from the number of microseconds: the six digits are filled in from the last one. */
  method AppendSeconds(us: nat, out: string) returns (s: string)
    ensures s == out + SecondsText(us)
  {
    hide Decimal;
    var frac := new char[7](i => '.');
    var rest := us % MILLION;
    var i := 6;
    while i >= 1
      invariant 0 <= i <= 6 && 0 <= rest && frac[0] == '.'
      invariant Padded(us % MILLION, 6) == Padded(rest, i) + frac[i + 1..]
    {
      ghost var done := frac[i + 1..];
      frac[i] := Digit(rest % 10);
      assert frac[i..] == [Digit(rest % 10)] + done;
      rest := rest / 10;
      i := i - 1;
    }
    assert frac[..] == ['.'] + frac[1..];
    s := out + Decimal(us / MILLION) + frac[..];
  }

  /** The loop that prints `hash_ids`. */
  method AppendIds(blocks: seq<nat>, out: string) returns (s: string)
    ensures s == out + Ids(blocks)
  {
    hide Decimal;
    s := out;
    var i := 0;
    while i < |blocks|
      invariant 0 <= i <= |blocks|
      invariant out + Ids(blocks) == s + (if i == 0 then Ids(blocks) else if i < |blocks| then "," + Ids(blocks[i..]) else [])
    {
      IdsStep(blocks, i, s);
      if i != 0 {
        s := s + ",";
      }
      s := s + Decimal(blocks[i]);
      i := i + 1;
    }
  }

  lemma IdsStep(blocks: seq<nat>, i: nat, s: string)
    requires i < |blocks|
    ensures var sep := if i == 0 then "" else ",";
            var rest := if i + 1 < |blocks| then "," + Ids(blocks[i + 1..]) else [];
            s + (sep + Ids(blocks[i..])) == ((s + sep) + Decimal(blocks[i])) + rest
    ensures blocks[0..] == blocks
  {
    hide Decimal;
    assert blocks[i..][1..] == blocks[i + 1..];
  }

  /** What is left to print when the fields before `k` are out. */
  function Rest(r: Request, k: Key): string {
    "," + Body(r, k)
  }

  /** Printing field `k` behind a comma. */
  lemma Step(r: Request, k: Key, s: string)
    requires k < BLOCKS
    ensures s + Rest(r, k) ==
            (if FieldOf(r, k).Absent? then s else s + "," + Quote(Name(k)) + ":" + ValueText(FieldOf(r, k))) + Rest(r, k + 1)
  {
    hide Name, FieldOf, ValueText;
    var v := FieldOf(r, k);
    if !v.Absent? {
      Chain(s, ",", Quote(Name(k)), ":", ValueText(v), Rest(r, k + 1));
    }
  }

  lemma Chain(a: string, b: string, c: string, d: string, e: string, f: string)
    ensures a + (b + ((c + (d + e)) + f)) == (a + b + c + d + e) + f
  {
    assert a + (b + ((c + (d + e)) + f)) == (a + b) + ((c + (d + e)) + f);
    assert c + (d + e) == c + d + e;
    assert (a + b) + ((c + d + e) + f) == ((a + b) + (c + d + e)) + f;
    assert (a + b) + (c + d + e) == a + b + c + d + e;
  }

  lemma First(r: Request, out: string)
    ensures out + Line(r) == (out + "{" + Quote(Name(CHAT)) + ":" + IntText(r.chat)) + Rest(r, PARENT)
  {
    hide Name, IntText;
    var f := FieldOf(r, CHAT);
    assert ValueText(f) == IntText(r.chat);
    Chain(out, "{", Quote(Name(CHAT)), ":", IntText(r.chat), Rest(r, PARENT));
  }

  lemma Last(r: Request, s: string)
    ensures s + Rest(r, BLOCKS) == s + "," + Quote(Name(BLOCKS)) + ":" + "[" + Ids(r.blocks) + "]" + "}"
  {
    hide Name, Ids;
    var ids := Ids(r.blocks);
    Chain(s, ",", Quote(Name(BLOCKS)), ":", "[" + ids + "]", "}");
    assert s + "," + Quote(Name(BLOCKS)) + ":" + ("[" + ids + "]") == s + "," + Quote(Name(BLOCKS)) + ":" + "[" + ids + "]";
  }

  /** `append_jsonl`, up to the fields that may be left out. */
  method AppendNumbers(r: Request, out: string) returns (s: string)
    ensures s + Rest(r, TYPE) == out + Line(r)
  {
    hide Name, Rest, Line, Decimal, IntText, IntOrNull, SecondsText, Quote;
    First(r, out);
    s := out + "{" + Quote(Name(CHAT)) + ":" + IntText(r.chat);
    Step(r, PARENT, s);
    s := s + "," + Quote(Name(PARENT)) + ":" + IntText(r.parentChat);
    Step(r, COMPLETE, s);
    s := AppendSeconds(r.complete, s + "," + Quote(Name(COMPLETE)) + ":");
    Step(r, START, s);
    s := AppendSeconds(r.start, s + "," + Quote(Name(START)) + ":");
    Step(r, INPUT, s);
    s := s + "," + Quote(Name(INPUT)) + ":" + IntOrNull(r.input);
    Step(r, OUTPUT, s);
    s := s + "," + Quote(Name(OUTPUT)) + ":" + IntOrNull(r.output);
  }

  /** `append_jsonl`. */
  method AppendJsonl(r: Request, out: string) returns (s: string)
    ensures s == out + Line(r)
  {
    hide Name, Rest, Line, Decimal, IntText, IntOrNull, Quote, Ids;
    s := AppendNumbers(r, out);
    Step(r, TYPE, s);
    if r.kind != [] {
      s := s + "," + Quote(Name(TYPE)) + ":" + ("\"" + r.kind + "\"");
    }
    Step(r, TURN, s);
    s := s + "," + Quote(Name(TURN)) + ":" + IntOrNull(r.turn);
    Step(r, SESSION, s);
    if r.session != 0 {
      s := s + "," + Quote(Name(SESSION)) + ":" + ("\"" + Decimal(r.session) + "\"");
    }
    Step(r, USER, s);
    if r.user != 0 {
      s := s + "," + Quote(Name(USER)) + ":" + ("\"" + Decimal(r.user) + "\"");
    }
    Last(r, s);
    s := AppendIds(r.blocks, s + "," + Quote(Name(BLOCKS)) + ":" + "[");
    s := s + "]" + "}";
  }

  /** Printing and scanning one request. */
  method RoundTrip(r: Request) returns (scanned: Option<Scanned>)
    requires Printable(r)
    ensures scanned == Some(Contents(r)) <==> Unambiguous(r)
  {
    hide Line, ScanLine, Contents;
    var line := AppendJsonl(r, "");
    assert line == Line(r);
    ReadBack(r);
    scanned := ScanLine(line);
  }
}
