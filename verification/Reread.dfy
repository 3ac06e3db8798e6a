/** Reading back a whole trace that was written as JSONL: the fields, and the ids that are interned anew. */
module Reread {
  import opened Interning
  import opened Seqs
  import opened Jsonl
  import opened Decimals

  // ---------- sessions and users ----------

  datatype Numbering = Numbering(order: seq<string>, ids: seq<nat>)

  /** The ids of the session or user texts of a trace, 0 for a request that has none. */
  function Numbered(keys: seq<Option<string>>): (n: Numbering)
    ensures |n.ids| == |keys|
  {
    if keys == [] then Numbering([], [])
    else
      var n, key := Numbered(keys[..|keys| - 1]), keys[|keys| - 1];
      if key.None? then Numbering(n.order, n.ids + [0])
      else
        var e := Extended(n.order, key.value);
        Numbering(e, n.ids + [IndexOf(e, key.value) + 1])
  }

  /** The number of ids in use, if they are 1, 2, 3, ... in order of first appearance; 0 does not count. */
  function InUse(ids: seq<nat>): Option<nat> {
    if ids == [] then Some(0)
    else
      var n, id := InUse(ids[..|ids| - 1]), ids[|ids| - 1];
      if n.None? || id > n.value + 1 then None else Some(if id > n.value then id else n.value)
  }

  /** Numbering always uses the ids in order of first appearance. */
  lemma {:induction false} NumberedInOrder(keys: seq<Option<string>>)
    ensures var n := Numbered(keys); NoRepeat(n.order) && InUse(n.ids) == Some(|n.order|)
  {
    hide IndexOf, NoRepeat;
    NothingNumbered();
    if keys != [] {
      var f, key := keys[..|keys| - 1], keys[|keys| - 1];
      NumberedInOrder(f);
      var n := Numbered(f);
      assert Numbered(keys).ids[..|f|] == n.ids;
      if key.Some? {
        IndexOfExtended(n.order, key.value);
        IndexOfMember(n.order, key.value);
      }
    }
  }

  lemma NothingNumbered()
    ensures NoRepeat<string>([]) && InUse([]) == Some(0)
  {
  }

  /** How the writer prints the ids. */
  function Texts(ids: seq<nat>): (ts: seq<Option<string>>)
    ensures |ts| == |ids|
  {
    seq(|ids|, i requires 0 <= i < |ids| => if ids[i] == 0 then None else Some(Decimal(ids[i])))
  }

  /** The texts of the ids 1 to `n`. */
  function FirstTexts(n: nat): (s: seq<string>)
    ensures |s| == n
  {
    seq(n, i requires 0 <= i < n => Decimal(i + 1))
  }

  lemma FirstTextsDiffer(n: nat)
    ensures NoRepeat(FirstTexts(n))
  {
    forall i, j | 0 <= i < j < n ensures FirstTexts(n)[i] != FirstTexts(n)[j] {
      if Decimal(i + 1) == Decimal(j + 1) {
        DecimalInjective(i + 1, j + 1);
      }
    }
  }

  lemma TextPlace(n: nat, id: nat)
    requires 1 <= id <= n
    ensures IndexOf(FirstTexts(n), Decimal(id)) + 1 == id && Decimal(id) in FirstTexts(n)
  {
    hide Decimal;
    FirstTextsDiffer(n);
    assert FirstTexts(n)[id - 1] == Decimal(id);
    IndexOfAt(FirstTexts(n), id - 1);
  }

  lemma NextText(n: nat)
    ensures FirstTexts(n + 1) == FirstTexts(n) + [Decimal(n + 1)] && Decimal(n + 1) !in FirstTexts(n)
  {
    FirstTextsDiffer(n + 1);
    assert FirstTexts(n + 1) == FirstTexts(n) + [Decimal(n + 1)];
    assert FirstTexts(n + 1)[n] == Decimal(n + 1);
    assert forall i :: 0 <= i < n ==> FirstTexts(n + 1)[i] == FirstTexts(n)[i];
  }

  lemma DecimalPlace(n: nat, id: nat)
    requires 1 <= id <= n + 1
    ensures var e := Extended(FirstTexts(n), Decimal(id));
            e == FirstTexts(if id > n then id else n) && IndexOf(e, Decimal(id)) + 1 == id
  {
    hide Decimal, FirstTexts, IndexOf;
    TextPlace(if id > n then id else n, id);
    NextText(n);
  }

  /** Ids in order of first appearance number themselves when they are read back. */
  lemma {:induction false} NumbersItself(ids: seq<nat>)
    requires InUse(ids).Some?
    ensures Numbered(Texts(ids)) == Numbering(FirstTexts(InUse(ids).value), ids)
  {
    hide Decimal, Extended, IndexOf;
    if ids == [] {
      assert FirstTexts(0) == [];
    } else {
      var f, id := ids[..|ids| - 1], ids[|ids| - 1];
      NumbersItself(f);
      assert Texts(ids)[..|f|] == Texts(f);
      assert f + [id] == ids;
      if id > 0 {
        DecimalPlace(InUse(f).value, id);
      }
    }
  }

  // ---------- whole traces ----------

  /** The lines of a written trace. */
  function Lines(rs: seq<Request>): (ls: seq<string>)
    ensures |ls| == |rs|
  {
    seq(|rs|, i requires 0 <= i < |rs| => Line(rs[i]))
  }

  /** The file that `write_jsonl` writes. */
  function FileText(rs: seq<Request>): string {
    if rs == [] then [] else Line(rs[0]) + ("\n" + FileText(rs[1..]))
  }

  function BreakAt(s: string): (i: nat)
    ensures i <= |s| && '\n' !in s[..i] && (i < |s| ==> s[i] == '\n')
  {
    if s == [] || s[0] == '\n' then 0 else 1 + BreakAt(s[1..])
  }

  /** The lines that `std::getline` reads one after the other. */
  function SplitLines(s: string): seq<string>
    decreases |s|
  {
    if s == [] then []
    else
      var i := BreakAt(s);
      [s[..i]] + (if i == |s| then [] else SplitLines(s[i + 1..]))
  }

  lemma {:induction false} BreakAfter(a: string, b: string)
    requires '\n' !in a
    ensures BreakAt(a + ("\n" + b)) == |a|
  {
    var s := a + ("\n" + b);
    if a != [] {
      assert s[1..] == a[1..] + ("\n" + b);
      BreakAfter(a[1..], b);
    }
  }

  lemma AroundBreak(a: string, b: string)
    ensures var s := a + ("\n" + b); s[..|a|] == a && s[|a| + 1..] == b
  {
  }

  lemma {:induction false} SplitsClean(s: string)
    ensures forall i :: 0 <= i < |SplitLines(s)| ==> '\n' !in SplitLines(s)[i]
    decreases |s|
  {
    if s != [] && BreakAt(s) < |s| {
      SplitsClean(s[BreakAt(s) + 1..]);
    }
  }

  lemma {:induction false} SplitsBack(rs: seq<Request>)
    requires forall r <- rs :: '\n' !in r.kind
    ensures SplitLines(FileText(rs)) == Lines(rs)
  {
    hide Line;
    if rs != [] {
      var l, rest := Line(rs[0]), FileText(rs[1..]);
      assert rs[0] in rs;
      OneLine(rs[0]);
      SplitsBack(rs[1..]);
      BreakAfter(l, rest);
      AroundBreak(l, rest);
      assert Lines(rs) == [l] + Lines(rs[1..]);
    }
  }

  /** The file splits back into the printed lines if and only if no type holds a line break. */
  lemma FileSplits(rs: seq<Request>)
    ensures SplitLines(FileText(rs)) == Lines(rs) <==> forall r <- rs :: '\n' !in r.kind
  {
    hide Line, SplitLines, FileText;
    if forall r <- rs :: '\n' !in r.kind {
      SplitsBack(rs);
    } else {
      var r :| r in rs && '\n' in r.kind;
      var i :| 0 <= i < |rs| && rs[i] == r;
      OneLine(r);
      assert Lines(rs)[i] == Line(r);
      SplitsClean(FileText(rs));
    }
  }

  /** `write_jsonl`. */
  method WriteJsonl(rs: seq<Request>) returns (text: string)
    ensures text == FileText(rs)
  {
    hide Line;
    text := [];
    var i := 0;
    while i < |rs|
      invariant 0 <= i <= |rs| && text + FileText(rs[i..]) == FileText(rs)
    {
      FileStep(rs, i);
      text := AppendJsonl(rs[i], text);
      text := text + "\n";
      i := i + 1;
    }
    assert rs[|rs|..] == [];
  }

  lemma FileStep(rs: seq<Request>, i: nat)
    requires i < |rs|
    ensures forall text: string :: text + FileText(rs[i..]) == ((text + Line(rs[i])) + "\n") + FileText(rs[i + 1..])
    ensures rs[0..] == rs
  {
    hide Line;
    assert rs[i..][1..] == rs[i + 1..];
    forall text: string
      ensures text + FileText(rs[i..]) == ((text + Line(rs[i])) + "\n") + FileText(rs[i + 1..])
    {
      Jsonl.Regroup(text, Line(rs[i]), "\n", FileText(rs[i + 1..]));
    }
  }

  /** What the reader scans from the lines, without those that it passes over. */
  function ScanAll(lines: seq<string>): seq<Scanned> {
    if lines == [] then []
    else
      var s := Jsonl.ScanLine(lines[|lines| - 1]);
      ScanAll(lines[..|lines| - 1]) + (if s.None? then [] else [s.value])
  }

  function AllContents(rs: seq<Request>): (cs: seq<Scanned>)
    ensures |cs| == |rs|
  {
    seq(|rs|, i requires 0 <= i < |rs| => Contents(rs[i]))
  }

  lemma {:induction false} ScansAll(rs: seq<Request>)
    requires forall r <- rs :: Printable(r) && Unambiguous(r)
    ensures ScanAll(Lines(rs)) == AllContents(rs)
  {
    hide Jsonl.ScanLine, Line, Contents, Printable, Unambiguous;
    if rs != [] {
      var f, r := rs[..|rs| - 1], rs[|rs| - 1];
      ScansAll(f);
      assert Lines(rs)[..|f|] == Lines(f);
      assert r in rs;
      ReadBack(r);
      assert AllContents(rs) == AllContents(f) + [Contents(r)];
    }
  }

  function Raws(cs: seq<Scanned>): (b: seq<seq<nat>>)
    ensures |b| == |cs|
  {
    seq(|cs|, i requires 0 <= i < |cs| => cs[i].raws)
  }

  function SessionTexts(cs: seq<Scanned>): seq<Option<string>> {
    seq(|cs|, i requires 0 <= i < |cs| => cs[i].session)
  }

  function UserTexts(cs: seq<Scanned>): seq<Option<string>> {
    seq(|cs|, i requires 0 <= i < |cs| => cs[i].user)
  }

  function BlocksOf(rs: seq<Request>): (b: seq<seq<nat>>)
    ensures |b| == |rs|
  {
    seq(|rs|, i requires 0 <= i < |rs| => rs[i].blocks)
  }

  function Sessions(rs: seq<Request>): (s: seq<nat>)
    ensures |s| == |rs|
  {
    seq<nat>(|rs|, i requires 0 <= i < |rs| => rs[i].session)
  }

  function Users(rs: seq<Request>): (s: seq<nat>)
    ensures |s| == |rs|
  {
    seq<nat>(|rs|, i requires 0 <= i < |rs| => rs[i].user)
  }

  /**
   The trace as a reader produces it: blocks interned by prefix, sessions and users numbered in
   order of first appearance, and no type that hides a field.
   */
  ghost predicate FromReader(rs: seq<Request>, raws: seq<seq<nat>>) {
    && (forall r <- rs :: Printable(r) && Unambiguous(r))
    && BlocksOf(rs) == InternTrace(raws).requests
    && InUse(Sessions(rs)).Some? && InUse(Users(rs)).Some?
  }

  /** Writing a trace to a file and reading it back gives the same fields, and every id maps to itself. */
  lemma TraceReadsBack(rs: seq<Request>, raws: seq<seq<nat>>)
    requires FromReader(rs, raws)
    ensures var cs := ScanAll(SplitLines(FileText(rs)));
            && cs == AllContents(rs)
            && InternTrace(Raws(cs)).requests == BlocksOf(rs)
            && Numbered(SessionTexts(cs)).ids == Sessions(rs)
            && Numbered(UserTexts(cs)).ids == Users(rs)
  {
    hide ScanAll, Lines, InternTrace, Numbered, InUse, Decimal, Line;
    var cs := AllContents(rs);
    FileSplits(rs);
    ScansAll(rs);
    assert Raws(cs) == BlocksOf(rs);
    InternIdempotent(raws);
    assert SessionTexts(cs) == Texts(Sessions(rs));
    NumbersItself(Sessions(rs));
    assert UserTexts(cs) == Texts(Users(rs));
    NumbersItself(Users(rs));
  }
}
