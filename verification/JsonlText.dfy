/** The JSONL line and its scanner in literal terms: which key carries which field, and what counts as a match. */
module JsonlText {
  import opened Decimals
  import opened Jsonl

  // ---------- the printed line ----------

  function IntLiteral(n: int): string {
    if n < 0 then "-" + Decimal(-n) else Decimal(n)
  }

  function CountLiteral(n: int): string {
    if n < 0 then "null" else Decimal(n)
  }

  /** Whole seconds, a point and six digits. */
  function SecondsLiteral(us: nat): string {
    Decimal(us / 1000000) + "." + Padded(us % 1000000, 6)
  }

  /** A key between quotes, a colon and the value. */
  function Pair(key: string, value: string): string {
    "\"" + key + "\":" + value
  }

  function Optional(present: bool, key: string, text: string): string {
    if present then "," + Pair(key, "\"" + text + "\"") else ""
  }

  /** The line of a request, key by key. */
  function LineLiteral(r: Request): string {
    "{" + Pair("chat_id", IntLiteral(r.chat))
    + "," + Pair("parent_chat_id", IntLiteral(r.parentChat))
    + "," + Pair("timestamp", SecondsLiteral(r.complete))
    + "," + Pair("timestamp_arrival", SecondsLiteral(r.start))
    + "," + Pair("input_length", CountLiteral(r.input))
    + "," + Pair("output_length", CountLiteral(r.output))
    + Optional(r.kind != "", "type", r.kind)
    + "," + Pair("turn", CountLiteral(r.turn))
    + Optional(r.session != 0, "session_id", Decimal(r.session))
    + Optional(r.user != 0, "user_id", Decimal(r.user))
    + "," + Pair("hash_ids", "[" + Ids(r.blocks) + "]") + "}"
  }

  lemma PairIs(s: string, key: string, value: string)
    ensures s + "," + Quote(key) + ":" + value == s + "," + Pair(key, value)
    ensures s + "{" + Quote(key) + ":" + value == s + "{" + Pair(key, value)
  {
    assert Quote(key) + ":" + value == Pair(key, value);
    assert s + "," + Quote(key) + ":" + value == s + "," + (Quote(key) + ":" + value);
    assert s + "{" + Quote(key) + ":" + value == s + "{" + (Quote(key) + ":" + value);
  }

  /** One more field behind a comma. */
  lemma FieldPrinted(r: Request, k: Key, s: string, key: string, value: string)
    requires k < BLOCKS && Name(k) == key && !FieldOf(r, k).Absent? && ValueText(FieldOf(r, k)) == value
    ensures s + Rest(r, k) == (s + "," + Pair(key, value)) + Rest(r, k + 1)
  {
    hide Name, FieldOf, ValueText, Rest, Pair;
    Step(r, k, s);
    PairIs(s, key, value);
  }

  lemma OptionalPrinted(r: Request, k: Key, s: string, key: string, present: bool, text: string)
    requires k < BLOCKS && Name(k) == key && FieldOf(r, k) == if present then Quoted(text) else Absent
    ensures s + Rest(r, k) == (s + Optional(present, key, text)) + Rest(r, k + 1)
  {
    hide Name, FieldOf, Rest, Pair;
    Step(r, k, s);
    PairIs(s, key, "\"" + text + "\"");
    if present {
      assert s + ("," + Pair(key, "\"" + text + "\"")) == s + "," + Pair(key, "\"" + text + "\"");
    } else {
      assert s + "" == s;
    }
  }

  /** The fields of a request under the keys that the writer gives them. */
  lemma FieldsAre(r: Request)
    ensures FieldOf(r, CHAT) == Bare(IntLiteral(r.chat)) && FieldOf(r, PARENT) == Bare(IntLiteral(r.parentChat))
    ensures FieldOf(r, COMPLETE) == Bare(SecondsLiteral(r.complete)) && FieldOf(r, START) == Bare(SecondsLiteral(r.start))
    ensures FieldOf(r, INPUT) == Bare(CountLiteral(r.input)) && FieldOf(r, OUTPUT) == Bare(CountLiteral(r.output))
    ensures FieldOf(r, TYPE) == (if r.kind != "" then Quoted(r.kind) else Absent) && FieldOf(r, TURN) == Bare(CountLiteral(r.turn))
    ensures FieldOf(r, SESSION) == if r.session != 0 then Quoted(Decimal(r.session)) else Absent
    ensures FieldOf(r, USER) == if r.user != 0 then Quoted(Decimal(r.user)) else Absent
  {
    hide Decimal, Padded;
  }

  lemma NumbersPrinted(r: Request)
    ensures Line(r) ==
            ("{" + Pair("chat_id", IntLiteral(r.chat))
             + "," + Pair("parent_chat_id", IntLiteral(r.parentChat))
             + "," + Pair("timestamp", SecondsLiteral(r.complete))
             + "," + Pair("timestamp_arrival", SecondsLiteral(r.start))
             + "," + Pair("input_length", CountLiteral(r.input))
             + "," + Pair("output_length", CountLiteral(r.output))) + Rest(r, TYPE)
  {
    hide Line, Rest, FieldOf, IntLiteral, CountLiteral, SecondsLiteral, Pair, IntText, Quote;
    FieldsAre(r);
    First(r, "");
    assert "" + Line(r) == Line(r);
    var s := "" + "{" + Quote("chat_id") + ":" + IntLiteral(r.chat);
    ChatText(r);
    PairIs("", "chat_id", IntLiteral(r.chat));
    var a := "{" + Pair("chat_id", IntLiteral(r.chat));
    assert "" + "{" + Pair("chat_id", IntLiteral(r.chat)) == a;
    FieldPrinted(r, PARENT, a, "parent_chat_id", IntLiteral(r.parentChat));
    var b := a + "," + Pair("parent_chat_id", IntLiteral(r.parentChat));
    FieldPrinted(r, COMPLETE, b, "timestamp", SecondsLiteral(r.complete));
    var c := b + "," + Pair("timestamp", SecondsLiteral(r.complete));
    FieldPrinted(r, START, c, "timestamp_arrival", SecondsLiteral(r.start));
    var d := c + "," + Pair("timestamp_arrival", SecondsLiteral(r.start));
    FieldPrinted(r, INPUT, d, "input_length", CountLiteral(r.input));
    var e := d + "," + Pair("input_length", CountLiteral(r.input));
    FieldPrinted(r, OUTPUT, e, "output_length", CountLiteral(r.output));
  }

  lemma ChatText(r: Request)
    ensures IntText(r.chat) == IntLiteral(r.chat)
  {
  }

  /** The printed line, key by key, with the fields that are absent left out. */
  lemma LineIs(r: Request)
    ensures Line(r) == LineLiteral(r)
  {
    hide Line, Rest, FieldOf, IntLiteral, CountLiteral, SecondsLiteral, Pair, Optional, Quote, Decimal, Ids;
    FieldsAre(r);
    NumbersPrinted(r);
    var s := "{" + Pair("chat_id", IntLiteral(r.chat))
             + "," + Pair("parent_chat_id", IntLiteral(r.parentChat))
             + "," + Pair("timestamp", SecondsLiteral(r.complete))
             + "," + Pair("timestamp_arrival", SecondsLiteral(r.start))
             + "," + Pair("input_length", CountLiteral(r.input))
             + "," + Pair("output_length", CountLiteral(r.output));
    OptionalPrinted(r, TYPE, s, "type", r.kind != "", r.kind);
    var a := s + Optional(r.kind != "", "type", r.kind);
    FieldPrinted(r, TURN, a, "turn", CountLiteral(r.turn));
    var b := a + "," + Pair("turn", CountLiteral(r.turn));
    OptionalPrinted(r, SESSION, b, "session_id", r.session != 0, Decimal(r.session));
    var c := b + Optional(r.session != 0, "session_id", Decimal(r.session));
    OptionalPrinted(r, USER, c, "user_id", r.user != 0, Decimal(r.user));
    var d := c + Optional(r.user != 0, "user_id", Decimal(r.user));
    Last(r, d);
    BlocksPrinted(d, Ids(r.blocks));
  }

  lemma BlocksPrinted(s: string, ids: string)
    ensures s + "," + Quote("hash_ids") + ":" + "[" + ids + "]" + "}" == s + "," + Pair("hash_ids", "[" + ids + "]") + "}"
  {
    hide Quote, Pair;
    PairIs(s, "hash_ids", "[" + ids + "]");
    var t := s + "," + Quote("hash_ids") + ":";
    assert t + "[" + ids + "]" == t + ("[" + ids + "]");
  }

  /** The ids are separated by single commas. */
  lemma {:induction false} IdsPrinted(blocks: seq<nat>, id: nat)
    ensures Ids([]) == "" && Ids([id]) == Decimal(id)
    ensures blocks != [] ==> Ids(blocks + [id]) == Ids(blocks) + "," + Decimal(id)
    decreases |blocks|
  {
    hide Decimal;
    if |blocks| == 1 {
      assert blocks + [id] == [blocks[0], id];
      assert [blocks[0], id][1..] == [id];
    } else if blocks != [] {
      IdsPrinted(blocks[1..], id);
      assert (blocks + [id])[1..] == blocks[1..] + [id];
      var d := Decimal(blocks[0]) + ",";
      assert d + (Ids(blocks[1..]) + "," + Decimal(id)) == (d + Ids(blocks[1..])) + "," + Decimal(id);
    }
  }

  // ---------- the scanner ----------

  /** `i` is the first place where `pattern` occurs in `s`. */
  ghost predicate FirstAt(s: string, pattern: string, i: nat) {
    i <= |s| && pattern <= s[i..] && forall j :: 0 <= j < i ==> !(pattern <= s[j..])
  }

  /** The search finds the first occurrence, if there is one. */
  lemma {:induction false} AfterIs(s: string, pattern: string, i: nat)
    requires FirstAt(s, pattern, i)
    ensures After(s, pattern) == Some(s[i + |pattern|..])
    decreases |s|
  {
    assert s[0..] == s;
    assert |pattern| <= |s[i..]|;
    if i > 0 {
      forall j | 0 <= j < i - 1 ensures !(pattern <= s[1..][j..]) {
        assert s[1..][j..] == s[j + 1..];
      }
      assert s[1..][i - 1..] == s[i..];
      AfterIs(s[1..], pattern, i - 1);
      assert s[1..][i - 1 + |pattern|..] == s[i + |pattern|..];
    }
  }

  predicate Blank(s: string) {
    forall i :: 0 <= i < |s| ==> s[i] == ' ' || s[i] == '\t'
  }

  lemma {:induction false} BlanksSkipped(blanks: string, rest: string)
    requires Blank(blanks) && (rest == [] || !Blank(rest[..1]))
    ensures SkipBlanks(blanks + rest) == rest
    decreases |blanks|
  {
    if blanks == [] {
      assert blanks + rest == rest;
      assert rest != [] ==> rest[..1][0] == rest[0];
    } else {
      BlanksSkipped(blanks[1..], rest);
      assert (blanks + rest)[1..] == blanks[1..] + rest;
    }
  }

  /**
   A field is found under its quoted name at the first occurrence of that name, whatever stands
   before it, with any blanks around the colon.
   */
  lemma FieldAt(before: string, name: string, blanks: string, more: string, value: string)
    requires Blank(blanks) && Blank(more) && (value == [] || !Blank(value[..1]))
    requires FirstAt(before + Quote(name) + (blanks + (":" + (more + value))), Quote(name), |before|)
    ensures FindField(before + Quote(name) + (blanks + (":" + (more + value))), name) == Some(value)
  {
    hide SkipBlanks, After;
    var tail := ":" + (more + value);
    var rest := blanks + tail;
    var s := before + Quote(name) + rest;
    AfterIs(s, Quote(name), |before|);
    assert s[|before| + |Quote(name)|..] == rest;
    assert tail[..1][0] == ':';
    BlanksSkipped(blanks, tail);
    assert tail[1..] == more + value;
    BlanksSkipped(more, value);
  }

  /** A quoted name that no colon follows is no field, even if the name occurs again. */
  lemma NoColon(before: string, name: string, blanks: string, rest: string)
    requires Blank(blanks) && (rest == [] || (!Blank(rest[..1]) && rest[0] != ':'))
    requires FirstAt(before + Quote(name) + (blanks + rest), Quote(name), |before|)
    ensures FindField(before + Quote(name) + (blanks + rest), name) == None
  {
    hide SkipBlanks, After;
    var s := before + Quote(name) + (blanks + rest);
    AfterIs(s, Quote(name), |before|);
    assert s[|before| + |Quote(name)|..] == blanks + rest;
    BlanksSkipped(blanks, rest);
  }

  /** Without the quoted name there is no field. */
  lemma NoField(line: string, name: string)
    ensures (forall j :: 0 <= j <= |line| ==> !(Quote(name) <= line[j..])) ==> FindField(line, name) == None
  {
    SomeOccurs(line, Quote(name));
  }

  lemma {:induction false} SomeOccurs(s: string, pattern: string)
    ensures After(s, pattern).Some? ==> exists j :: 0 <= j <= |s| && pattern <= s[j..]
    decreases |s|
  {
    assert s[0..] == s;
    if |s| >= |pattern| && !(pattern <= s) && s != [] {
      SomeOccurs(s[1..], pattern);
      if After(s, pattern).Some? {
        var j :| 0 <= j <= |s[1..]| && pattern <= s[1..][j..];
        assert s[1..][j..] == s[j + 1..];
      }
    }
  }

  /** Numbers in a list may be separated by any commas and blanks. */
  lemma {:induction false} SeparatorsSkipped(gap: string, rest: string)
    requires forall i :: 0 <= i < |gap| ==> gap[i] == ' ' || gap[i] == ','
    requires rest != [] && IsDigit(rest[0])
    ensures IdsAt(gap + rest) == IdsAt(rest)
    decreases |gap|
  {
    hide NatAt, Lead;
    if gap == [] {
      assert gap + rest == rest;
    } else {
      SeparatorsSkipped(gap[1..], rest);
      assert (gap + rest)[1..] == gap[1..] + rest;
      var s, t := gap + rest, gap[1..] + rest;
      assert SkipSeparators(s) == SkipSeparators(t);
      assert t != [] && t[0] != ']';
    }
  }

  /**
   What a line yields: a request if it holds a nonempty list of ids, with every field under its own
   name, -1 for a number that is missing, and the timestamp where the arrival time is missing.
   */
  lemma ScanIs(line: string)
    ensures var p := FindField(line, "hash_ids");
            var usable := p.Some? && p.value != [] && p.value[0] == '[' && IdsAt(p.value[1..]) != [];
            && (ScanLine(line).Some? <==> usable)
            && (usable ==>
                  ScanLine(line).value == Scanned(
                    IntField(line, "chat_id", -1), IntField(line, "parent_chat_id", -1),
                    RealField(line, "timestamp", 0.0),
                    RealField(line, "timestamp_arrival", RealField(line, "timestamp", 0.0)),
                    IntField(line, "input_length", -1), IntField(line, "output_length", -1),
                    (match StringField(line, "type") case None => "" case Some(t) => t),
                    IntField(line, "turn", -1),
                    StringField(line, "session_id"), StringField(line, "user_id"), IdsAt(p.value[1..])))
  {
    hide FindField, IntField, RealField, StringField, IdsAt;
  }

  /** A line without an arrival time takes the time of its completion, one without any time 0. */
  lemma ArrivalFallsBack(line: string)
    requires ScanLine(line).Some? && FindField(line, "timestamp_arrival") == None
    ensures ScanLine(line).value.start == ScanLine(line).value.complete
    ensures FindField(line, "timestamp") == None ==> ScanLine(line).value.start == 0.0
  {
    hide FindField, IntField, StringField, IdsAt;
    ScanIs(line);
  }

  /** Numbers that are missing or null read as -1. */
  lemma MissingNumber(line: string, name: string)
    ensures FindField(line, name) == None ==> IntField(line, name, -1) == -1
    ensures FindField(line, name).Some? && "null" <= FindField(line, name).value ==> IntField(line, name, -1) == -1
  {
    hide FindField;
  }

  /** A time that is missing or null takes the default. */
  lemma MissingTime(line: string, name: string, absent: real)
    ensures FindField(line, name) == None ==> RealField(line, name, absent) == absent
    ensures FindField(line, name).Some? && "null" <= FindField(line, name).value ==> RealField(line, name, absent) == absent
  {
    hide FindField;
  }

  /** A text is what stands between two quotes; without both there is none. */
  lemma TextIs(line: string, name: string, text: string, rest: string)
    requires '"' !in text
    ensures FindField(line, name) == Some("\"" + (text + ("\"" + rest))) ==> StringField(line, name) == Some(text)
    ensures FindField(line, name) == Some("\"" + text) ==> StringField(line, name) == None
    ensures FindField(line, name) == None ==> StringField(line, name) == None
    ensures FindField(line, name).Some? && !("\"" <= FindField(line, name).value) ==> StringField(line, name) == None
  {
    hide FindField;
    QuoteAtIs(text, rest);
    NoQuote(text);
    assert ("\"" + text)[1..] == text;
    assert ("\"" + (text + ("\"" + rest)))[1..] == text + ("\"" + rest);
    assert (text + ("\"" + rest))[..|text|] == text;
  }

  lemma {:induction false} NoQuote(text: string)
    requires '"' !in text
    ensures QuoteAt(text) == |text|
    decreases |text|
  {
    if text != [] {
      NoQuote(text[1..]);
    }
  }

  /** Every number of a printed request is found under its own name. */
  lemma NumbersFound(r: Request)
    requires Printable(r)
    ensures IntField(Line(r), "chat_id", -1) == r.chat && IntField(Line(r), "parent_chat_id", -1) == r.parentChat
    ensures IntField(Line(r), "input_length", -1) == r.input && IntField(Line(r), "output_length", -1) == r.output
    ensures RealField(Line(r), "timestamp", 0.0) == r.complete as real / 1000000.0
    ensures RealField(Line(r), "timestamp_arrival", 0.0) == r.start as real / 1000000.0
    ensures r.kind != "turn" ==> IntField(Line(r), "turn", -1) == r.turn
  {
    hide Line, IntField, RealField, Decimal, IntText, IntOrNull, SecondsText, Ids, PlainFields;
    AllPlain(r);
    IntRead(r, CHAT, r.chat, false);
    IntRead(r, PARENT, r.parentChat, false);
    RealRead(r, COMPLETE, r.complete, 0.0);
    RealRead(r, START, r.start, 0.0);
    IntRead(r, INPUT, r.input, true);
    IntRead(r, OUTPUT, r.output, true);
    IntRead(r, TURN, r.turn, true);
  }
}
