/**
 Exact interning in the prefixsim trace reader: every distinct key gets the next of the ids
 1, 2, 3, ..., and a block is known by the whole path of raw ids that leads to it.
 */
module Interning {
  import opened Seqs

  // ---------- the interner ----------

  function Extended<Key(==)>(order: seq<Key>, key: Key): seq<Key> {
    if key in order then order else order + [key]
  }

  /** A key that is taken in gets the next place, one that is known keeps its own. */
  lemma IndexOfExtended<Key>(order: seq<Key>, key: Key)
    requires NoRepeat(order)
    ensures var e := Extended(order, key);
            NoRepeat(e) && IndexOf(e, key) < |e| && (key !in order ==> IndexOf(e, key) == |order|)
  {
    IndexOfMember(order, key);
    if key !in order {
      IndexOfAt(order + [key], |order|);
    }
  }

  class Interner<Key(==)> {
    var ids: map<Key, nat>
    ghost var order: seq<Key>

    /** The ids are the places of the keys in order of first appearance, counted from 1. */
    ghost predicate Valid()
      reads this
    {
      && NoRepeat(order) && |ids| == |order|
      && (forall i :: 0 <= i < |order| ==> order[i] in ids && ids[order[i]] == i + 1)
      && (forall key <- ids :: key in order)
    }

    constructor ()
      ensures Valid() && order == []
    {
      ids, order := map[], [];
    }

    /** `intern`. */
    method Intern(key: Key) returns (id: nat)
      requires Valid()
      modifies this
      ensures Valid() && order == Extended(old(order), key)
      ensures id == IndexOf(order, key) + 1 && id <= |order|
    {
      IndexOfExtended(order, key);
      if key !in ids {
        ids := ids[key := |ids| + 1];
        order := order + [key];
      }
      id := ids[key];
      assert order[IndexOf(order, key)] == key;
    }
  }

  // ---------- prefixes ----------

  /** A raw block id below an interned parent, or below the root 0. */
  datatype PathKey = PathKey(parent: nat, raw: nat)

  /** Parents come before their children. */
  ghost predicate Rooted(order: seq<PathKey>) {
    forall i :: 0 <= i < |order| ==> order[i].parent <= i
  }

  /** The raw ids that an interned id stands for, from the root down. */
  function Path(order: seq<PathKey>, id: nat): (p: seq<nat>)
    ensures id > 0 && id <= |order| ==> p != []
    decreases id
  {
    if id == 0 || id > |order| || order[id - 1].parent >= id then (if id == 0 then [] else [0])
    else Path(order, order[id - 1].parent) + [order[id - 1].raw]
  }

  /** Two ids stand for the same path only if they are the same. */
  lemma {:induction false} PathInjective(order: seq<PathKey>, a: nat, b: nat)
    requires NoRepeat(order) && Rooted(order) && a <= |order| && b <= |order| && Path(order, a) == Path(order, b)
    ensures a == b
    decreases a
  {
    if a > 0 && b > 0 {
      var x, y := order[a - 1], order[b - 1];
      var p, q := Path(order, x.parent), Path(order, y.parent);
      assert Path(order, a) == p + [x.raw] && Path(order, b) == q + [y.raw];
      assert p == (p + [x.raw])[..|p|] && q == (q + [y.raw])[..|q|];
      assert (p + [x.raw])[|p|] == x.raw && (q + [y.raw])[|q|] == y.raw;
      PathInjective(order, x.parent, y.parent);
    }
  }

  /** Later keys do not change the path of an id. */
  lemma {:induction false} PathStable(order: seq<PathKey>, more: seq<PathKey>, id: nat)
    requires Rooted(order) && id <= |order|
    ensures Path(order + more, id) == Path(order, id)
    decreases id
  {
    if id > 0 {
      assert (order + more)[id - 1] == order[id - 1];
      PathStable(order, more, order[id - 1].parent);
    }
  }

  datatype Interned = Interned(order: seq<PathKey>, ids: seq<nat>)

  /** Interning the blocks of a request one below the other, from `parent` down. */
  function InternLine(order: seq<PathKey>, parent: nat, raws: seq<nat>): (r: Interned)
    ensures |r.ids| == |raws|
    decreases |raws|
  {
    if raws == [] then Interned(order, [])
    else
      var key := PathKey(parent, raws[0]);
      var id := IndexOf(Extended(order, key), key) + 1;
      var rest := InternLine(Extended(order, key), id, raws[1..]);
      Interned(rest.order, [id] + rest.ids)
  }

  ghost predicate Sound(order: seq<PathKey>) {
    NoRepeat(order) && Rooted(order)
  }

  lemma ExtendedSound(order: seq<PathKey>, key: PathKey)
    requires Sound(order) && key.parent <= |order|
    ensures Sound(Extended(order, key)) && order <= Extended(order, key)
    ensures var id := IndexOf(Extended(order, key), key) + 1;
            id <= |Extended(order, key)| && Path(Extended(order, key), id) == Path(order, key.parent) + [key.raw]
  {
    hide IndexOf;
    var e := Extended(order, key);
    var id := IndexOf(e, key) + 1;
    IndexOfExtended(order, key);
    assert e[id - 1] == key;
    assert e == order + e[|order|..];
    PathStable(order, e[|order|..], key.parent);
  }

  /** Every position of a request gets an id that stands for its full prefix. */
  lemma {:induction false} LineSound(order: seq<PathKey>, parent: nat, raws: seq<nat>)
    requires Sound(order) && parent <= |order|
    ensures var r := InternLine(order, parent, raws);
            && Sound(r.order) && order <= r.order
            && forall i :: 0 <= i < |raws| ==>
                 0 < r.ids[i] <= |r.order| && Path(r.order, r.ids[i]) == Path(order, parent) + raws[..i + 1]
    decreases |raws|
  {
    hide NoRepeat, Rooted, IndexOf, Path, Extended;
    if raws != [] {
      var key := PathKey(parent, raws[0]);
      var e := Extended(order, key);
      var id := IndexOf(e, key) + 1;
      ExtendedSound(order, key);
      LineSound(e, id, raws[1..]);
      var rest := InternLine(e, id, raws[1..]);
      forall i | 0 <= i < |raws|
        ensures var x := ([id] + rest.ids)[i];
                0 < x <= |rest.order| && Path(rest.order, x) == Path(order, parent) + raws[..i + 1]
      {
        if i == 0 {
          assert rest.order == e + rest.order[|e|..];
          PathStable(e, rest.order[|e|..], id);
          assert raws[..1] == [raws[0]];
        } else {
          Reassociate(Path(order, parent), raws, i);
        }
      }
    }
  }

  lemma Reassociate(base: seq<nat>, raws: seq<nat>, i: nat)
    requires 0 < i < |raws|
    ensures (base + [raws[0]]) + raws[1..][..i] == base + raws[..i + 1]
  {
  }

  // ---------- whole traces ----------

  /** The lines with at least one block; the others yield no request. */
  function Usable(lines: seq<seq<nat>>): seq<seq<nat>> {
    if lines == [] then []
    else Usable(lines[..|lines| - 1]) + (if lines[|lines| - 1] == [] then [] else [lines[|lines| - 1]])
  }

  /** Lines without blocks are passed over, each other line stays, and all keep their order. */
  lemma {:induction false} UsableIs(lines: seq<seq<nat>>, more: seq<seq<nat>>, line: seq<nat>)
    ensures Usable(lines + more) == Usable(lines) + Usable(more) && Usable([line]) == if line == [] then [] else [line]
    ensures [] !in Usable(lines)
    decreases |more|
  {
    hide Usable;
    UsableFilled(lines);
    UsableNothing();
    UsableAppend([], line);
    assert [] + [line] == [line];
    if more == [] {
      assert lines + more == lines;
    } else {
      var f, l := more[..|more| - 1], more[|more| - 1];
      UsableIs(lines, f, line);
      UsableAppend(lines + f, l);
      UsableAppend(f, l);
      assert f + [l] == more && (lines + f) + [l] == lines + more;
    }
  }

  lemma UsableNothing()
    ensures Usable([]) == []
  {
  }

  lemma UsableAppend(lines: seq<seq<nat>>, line: seq<nat>)
    ensures Usable(lines + [line]) == Usable(lines) + (if line == [] then [] else [line])
  {
    assert (lines + [line])[..|lines|] == lines;
  }

  lemma {:induction false} UsableFilled(lines: seq<seq<nat>>)
    ensures [] !in Usable(lines)
  {
    if lines != [] {
      UsableFilled(lines[..|lines| - 1]);
    }
  }

  datatype Trace = Trace(order: seq<PathKey>, requests: seq<seq<nat>>)

  /** The requests that a trace of usable lines becomes. */
  function InternTrace(lines: seq<seq<nat>>): (t: Trace)
    ensures |t.requests| == |lines|
  {
    if lines == [] then Trace([], [])
    else
      var t := InternTrace(lines[..|lines| - 1]);
      var r := InternLine(t.order, 0, lines[|lines| - 1]);
      Trace(r.order, t.requests + [r.ids])
  }

  /** Position `i` of request `r` exists. */
  predicate Position(lines: seq<seq<nat>>, r: nat, i: nat) {
    r < |lines| && i < |lines[r]|
  }

  /** Every position stands for its prefix. */
  ghost predicate Faithful(order: seq<PathKey>, requests: seq<seq<nat>>, lines: seq<seq<nat>>) {
    && |requests| == |lines|
    && (forall r :: 0 <= r < |lines| ==> |requests[r]| == |lines[r]|)
    && (forall r: nat, i: nat :: Position(lines, r, i) ==>
          0 < requests[r][i] <= |order| && Path(order, requests[r][i]) == lines[r][..i + 1])
  }

  lemma PathRoot(order: seq<PathKey>)
    ensures Path(order, 0) == []
  {
  }

  lemma FaithfulStep(t: Trace, lines: seq<seq<nat>>, line: seq<nat>)
    requires Sound(t.order) && Faithful(t.order, t.requests, lines)
    ensures var r := InternLine(t.order, 0, line);
            Sound(r.order) && t.order <= r.order && Faithful(r.order, t.requests + [r.ids], lines + [line])
  {
    hide InternLine, NoRepeat, Path;
    var u := InternLine(t.order, 0, line);
    assert Path(t.order, 0) == [] by { PathRoot(t.order); }
    LineSound(t.order, 0, line);
    assert u.order == t.order + u.order[|t.order|..];
    var all, ids := lines + [line], t.requests + [u.ids];
    forall r: nat, i: nat | Position(all, r, i)
      ensures 0 < ids[r][i] <= |u.order| && Path(u.order, ids[r][i]) == all[r][..i + 1]
    {
      if r < |lines| {
        assert Position(lines, r, i);
        PathStable(t.order, u.order[|t.order|..], ids[r][i]);
      } else {
        assert [] + line[..i + 1] == line[..i + 1];
      }
    }
  }

  lemma {:induction false} TraceFaithful(lines: seq<seq<nat>>)
    ensures var t := InternTrace(lines); Sound(t.order) && Faithful(t.order, t.requests, lines)
  {
    hide InternLine, Path;
    if lines != [] {
      var f, line := lines[..|lines| - 1], lines[|lines| - 1];
      TraceFaithful(f);
      FaithfulStep(InternTrace(f), f, line);
      assert f + [line] == lines;
    }
  }

  /** Two positions of a trace get the same id if and only if their full raw prefixes are equal. */
  lemma SameIdIffSamePrefix(lines: seq<seq<nat>>, r: nat, i: nat, s: nat, j: nat)
    requires Position(lines, r, i) && Position(lines, s, j)
    ensures var ids := InternTrace(lines).requests;
            |ids[r]| == |lines[r]| && |ids[s]| == |lines[s]|
            && (ids[r][i] == ids[s][j] <==> lines[r][..i + 1] == lines[s][..j + 1])
  {
    var t := InternTrace(lines);
    TraceFaithful(lines);
    if lines[r][..i + 1] == lines[s][..j + 1] {
      PathInjective(t.order, t.requests[r][i], t.requests[s][j]);
    }
  }

  // ---------- numbering ----------

  datatype Scan = Gap | Upto(max: nat)

  /** All ids of the requests, in order. */
  function Flat(requests: seq<seq<nat>>): seq<nat> {
    if requests == [] then [] else Flat(requests[..|requests| - 1]) + requests[|requests| - 1]
  }

  /** The largest id, 0 if there is none. */
  function Largest(ids: seq<nat>): nat {
    if ids == [] then 0
    else
      var m := Largest(ids[..|ids| - 1]);
      if ids[|ids| - 1] > m then ids[|ids| - 1] else m
  }

  /** Every id is at least 1 and at most one more than the largest id before it. */
  ghost predicate Gapless(ids: seq<nat>) {
    forall n :: 0 <= n < |ids| ==> 1 <= ids[n] <= Largest(ids[..n]) + 1
  }

  lemma GaplessAppend(ids: seq<nat>, id: nat)
    ensures Gapless(ids + [id]) <==> Gapless(ids) && 1 <= id <= Largest(ids) + 1
    ensures Largest(ids + [id]) == if id > Largest(ids) then id else Largest(ids)
  {
    var all := ids + [id];
    assert all[..|ids|] == ids && all[|ids|] == id;
    assert forall n :: 0 <= n < |ids| ==> all[n] == ids[n] && all[..n] == ids[..n];
  }

  lemma GaplessPrefix(ids: seq<nat>, more: seq<nat>)
    requires Gapless(ids + more)
    ensures Gapless(ids)
  {
    var all := ids + more;
    assert forall n :: 0 <= n < |ids| ==> all[n] == ids[n] && all[..n] == ids[..n];
  }

  /** Without a gap, the ids in use are exactly 1 to the largest. */
  lemma {:induction false} GaplessUses(ids: seq<nat>, id: nat)
    requires Gapless(ids)
    ensures id in ids <==> 1 <= id <= Largest(ids)
  {
    hide Gapless, Largest;
    NoGapYet();
    if ids != [] {
      var f, last := ids[..|ids| - 1], ids[|ids| - 1];
      assert f + [last] == ids;
      GaplessAppend(f, last);
      GaplessUses(f, id);
    }
  }

  /** The gap check of `build_stat` over the blocks of one request. */
  function ScanLine(max: nat, ids: seq<nat>): Scan
    decreases |ids|
  {
    if ids == [] then Upto(max)
    else if ids[0] == 0 || ids[0] > max + 1 then Gap
    else ScanLine(if ids[0] > max then ids[0] else max, ids[1..])
  }

  function ScanTrace(requests: seq<seq<nat>>): Scan {
    if requests == [] then Upto(0)
    else
      var s := ScanTrace(requests[..|requests| - 1]);
      if s.Gap? then Gap else ScanLine(s.max, requests[|requests| - 1])
  }

  lemma {:induction false} ScanLineIs(before: seq<nat>, ids: seq<nat>)
    requires Gapless(before)
    ensures ScanLine(Largest(before), ids) == if Gapless(before + ids) then Upto(Largest(before + ids)) else Gap
    decreases |ids|
  {
    hide Gapless, Largest;
    if ids == [] {
      assert before + ids == before;
    } else {
      GaplessAppend(before, ids[0]);
      assert before + ids == (before + [ids[0]]) + ids[1..];
      if 1 <= ids[0] <= Largest(before) + 1 {
        ScanLineIs(before + [ids[0]], ids[1..]);
      } else if Gapless(before + ids) {
        GaplessPrefix(before + [ids[0]], ids[1..]);
      }
    }
  }

  /** The check accepts a trace if and only if its ids have no gap, and then yields the largest id. */
  lemma {:induction false} ScanIs(requests: seq<seq<nat>>)
    ensures ScanTrace(requests) == if Gapless(Flat(requests)) then Upto(Largest(Flat(requests))) else Gap
  {
    hide Gapless, Largest, ScanLine;
    if requests == [] {
      NoGapYet();
    } else {
      var f, ids := requests[..|requests| - 1], requests[|requests| - 1];
      ScanIs(f);
      if Gapless(Flat(f)) {
        ScanLineIs(Flat(f), ids);
      } else if Gapless(Flat(f) + ids) {
        GaplessPrefix(Flat(f), ids);
      }
    }
  }

  lemma NoGapYet()
    ensures Gapless([]) && Largest([]) == 0
  {
  }

  lemma {:induction false} LineGapless(order: seq<PathKey>, parent: nat, raws: seq<nat>)
    requires NoRepeat(order)
    ensures var r := InternLine(order, parent, raws); ScanLine(|order|, r.ids) == Upto(|r.order|)
    decreases |raws|
  {
    hide NoRepeat, IndexOf;
    if raws != [] {
      var key := PathKey(parent, raws[0]);
      IndexOfExtended(order, key);
      IndexOfBound(order, key);
      var e := Extended(order, key);
      var id := IndexOf(e, key) + 1;
      LineGapless(e, id, raws[1..]);
      assert ([id] + InternLine(e, id, raws[1..]).ids)[1..] == InternLine(e, id, raws[1..]).ids;
    }
  }

  lemma IndexOfBound(order: seq<PathKey>, key: PathKey)
    ensures key in order ==> |Extended(order, key)| == |order| && IndexOf(Extended(order, key), key) < |order|
    ensures key !in order ==> |Extended(order, key)| == |order| + 1
  {
    assert order[..|order|] == order;
  }

  /** Interned ids are 1, 2, 3, ... in order of first appearance: the gap check never rejects them. */
  lemma {:induction false} TraceGapless(lines: seq<seq<nat>>)
    ensures ScanTrace(InternTrace(lines).requests) == Upto(|InternTrace(lines).order|)
  {
    if lines != [] {
      var f, line := lines[..|lines| - 1], lines[|lines| - 1];
      TraceGapless(f);
      TraceFaithful(f);
      LineGapless(InternTrace(f).order, 0, line);
      var t := InternTrace(lines);
      assert t.requests[..|lines| - 1] == InternTrace(f).requests;
    }
  }

  // ---------- the number of ids ----------

  /** The paths from `base` down along `raws`, one for each of its elements. */
  function PathsAlong(base: seq<nat>, raws: seq<nat>): set<seq<nat>>
    decreases |raws|
  {
    if raws == [] then {} else {base + [raws[0]]} + PathsAlong(base + [raws[0]], raws[1..])
  }

  /** All prefixes that occur in a trace. */
  function Prefixes(lines: seq<seq<nat>>): set<seq<nat>> {
    if lines == [] then {} else Prefixes(lines[..|lines| - 1]) + PathsAlong([], lines[|lines| - 1])
  }

  lemma {:induction false} PathsAlongAre(base: seq<nat>, raws: seq<nat>, p: seq<nat>)
    ensures p in PathsAlong(base, raws) <==> |base| < |p| && base <= p <= base + raws
    decreases |raws|
  {
    if raws != [] {
      var next := base + [raws[0]];
      PathsAlongAre(next, raws[1..], p);
      assert next + raws[1..] == base + raws;
      if base <= p <= base + raws && |base| < |p| {
        assert p == (base + raws)[..|p|];
        assert next == (base + raws)[..|next|];
        assert |p| > |next| || p == next;
      }
    }
  }

  /** The prefixes of a trace are the nonempty prefixes of its lines. */
  lemma {:induction false} PrefixesAre(lines: seq<seq<nat>>, p: seq<nat>)
    ensures p in Prefixes(lines) <==> p != [] && exists r :: 0 <= r < |lines| && p <= lines[r]
  {
    if lines != [] {
      var f, line := lines[..|lines| - 1], lines[|lines| - 1];
      PrefixesAre(f, p);
      PathsAlongAre([], line, p);
      assert [] + line == line;
      assert forall r :: 0 <= r < |f| ==> f[r] == lines[r];
      if r :| 0 <= r < |lines| && p <= lines[r] {
        assert r < |f| ==> p <= f[r];
      }
    }
  }

  function PathSet(order: seq<PathKey>, n: nat): set<seq<nat>> {
    set id | 1 <= id <= n :: Path(order, id)
  }

  lemma PathSetStep(order: seq<PathKey>, n: nat)
    ensures PathSet(order, n + 1) == PathSet(order, n) + {Path(order, n + 1)}
  {
    var a, b := PathSet(order, n + 1), PathSet(order, n) + {Path(order, n + 1)};
    assert forall p :: p in a <==> p in b;
  }

  lemma {:induction false} PathSetCard(order: seq<PathKey>, n: nat)
    requires Sound(order) && n <= |order|
    ensures |PathSet(order, n)| == n
  {
    if n == 0 {
      assert PathSet(order, 0) == {};
    } else {
      PathSetCard(order, n - 1);
      PathSetStep(order, n - 1);
      if Path(order, n) in PathSet(order, n - 1) {
        var id :| 1 <= id <= n - 1 && Path(order, id) == Path(order, n);
        PathInjective(order, id, n);
      }
    }
  }

  lemma {:induction false} PathSetStable(order: seq<PathKey>, more: seq<PathKey>, n: nat)
    requires Rooted(order) && n <= |order|
    ensures PathSet(order + more, n) == PathSet(order, n)
  {
    if n == 0 {
      assert PathSet(order + more, 0) == {} == PathSet(order, 0);
    } else {
      PathSetStable(order, more, n - 1);
      PathSetStep(order, n - 1);
      PathSetStep(order + more, n - 1);
      PathStable(order, more, n);
    }
  }

  /** The paths of all ids are those there were and the one just entered. */
  lemma ExtendedPaths(order: seq<PathKey>, key: PathKey)
    requires Sound(order) && key.parent <= |order|
    ensures var e := Extended(order, key);
            PathSet(e, |e|) == PathSet(order, |order|) + {Path(order, key.parent) + [key.raw]}
  {
    var e := Extended(order, key);
    var id := IndexOf(e, key) + 1;
    ExtendedSound(order, key);
    if key in order {
      assert Path(order, id) in PathSet(order, |order|);
    } else {
      PathSetStable(order, [key], |order|);
      PathSetStep(e, |order|);
      IndexOfExtended(order, key);
    }
  }

  lemma {:induction false} LinePaths(order: seq<PathKey>, parent: nat, raws: seq<nat>)
    requires Sound(order) && parent <= |order|
    ensures var r := InternLine(order, parent, raws);
            PathSet(r.order, |r.order|) == PathSet(order, |order|) + PathsAlong(Path(order, parent), raws)
    decreases |raws|
  {
    if raws != [] {
      var key := PathKey(parent, raws[0]);
      var e := Extended(order, key);
      ExtendedSound(order, key);
      ExtendedPaths(order, key);
      LinePaths(e, IndexOf(e, key) + 1, raws[1..]);
    }
  }

  lemma {:induction false} TracePaths(lines: seq<seq<nat>>)
    ensures var t := InternTrace(lines); PathSet(t.order, |t.order|) == Prefixes(lines)
  {
    if lines == [] {
      assert PathSet([], 0) == {};
    } else {
      var f, line := lines[..|lines| - 1], lines[|lines| - 1];
      TracePaths(f);
      TraceFaithful(f);
      LinePaths(InternTrace(f).order, 0, line);
    }
  }

  /** The largest id is the number of different prefixes in the trace. */
  lemma UniqueBlocks(lines: seq<seq<nat>>)
    ensures ScanTrace(InternTrace(lines).requests) == Upto(|Prefixes(lines)|)
  {
    TraceGapless(lines);
    TraceFaithful(lines);
    TracePaths(lines);
    PathSetCard(InternTrace(lines).order, |InternTrace(lines).order|);
  }

  // ---------- interning interned ids ----------

  /** The keys that arise when the ids themselves are interned: the same parents, each id as its own raw id. */
  function Mirror(order: seq<PathKey>): (m: seq<PathKey>)
    ensures |m| == |order|
  {
    seq(|order|, i requires 0 <= i < |order| => PathKey(order[i].parent, i + 1))
  }

  lemma MirrorPlace(order: seq<PathKey>, i: nat)
    requires i < |order|
    ensures NoRepeat(Mirror(order)) && Mirror(order)[i] == PathKey(order[i].parent, i + 1)
    ensures IndexOf(Mirror(order), PathKey(order[i].parent, i + 1)) == i
  {
    IndexOfAt(Mirror(order), i);
  }

  lemma MirrorAppend(order: seq<PathKey>, key: PathKey)
    ensures Mirror(order + [key]) == Mirror(order) + [PathKey(key.parent, |order| + 1)]
    ensures PathKey(key.parent, |order| + 1) !in Mirror(order)
  {
    assert forall j :: 0 <= j < |order| ==> Mirror(order)[j].raw == j + 1;
  }

  /** Interning an id below its parent mirrors interning its key. */
  lemma MirrorStep(order: seq<PathKey>, key: PathKey)
    requires NoRepeat(order)
    ensures var e := Extended(order, key);
            var id := IndexOf(e, key) + 1;
            var key' := PathKey(key.parent, id);
            Extended(Mirror(order), key') == Mirror(e) && IndexOf(Mirror(e), key') + 1 == id
  {
    hide IndexOf, NoRepeat, Mirror;
    var e := Extended(order, key);
    IndexOfExtended(order, key);
    IndexOfMember(order, key);
    MirrorPlace(e, IndexOf(e, key));
    MirrorAppend(order, key);
  }

  lemma {:induction false} MirrorLine(order: seq<PathKey>, parent: nat, raws: seq<nat>)
    requires NoRepeat(order)
    ensures var r := InternLine(order, parent, raws);
            InternLine(Mirror(order), parent, r.ids) == Interned(Mirror(r.order), r.ids)
    decreases |raws|
  {
    hide NoRepeat, IndexOf, Extended, Mirror;
    if raws != [] {
      var key := PathKey(parent, raws[0]);
      var e := Extended(order, key);
      var id := IndexOf(e, key) + 1;
      IndexOfExtended(order, key);
      MirrorStep(order, key);
      MirrorLine(e, id, raws[1..]);
      var rest := InternLine(e, id, raws[1..]);
      assert ([id] + rest.ids)[1..] == rest.ids;
    }
  }

  /** Ids that came out of interning map to themselves when they are interned again. */
  lemma {:induction false} InternIdempotent(lines: seq<seq<nat>>)
    ensures var t := InternTrace(lines);
            InternTrace(t.requests) == Trace(Mirror(t.order), t.requests)
  {
    hide Mirror, InternLine;
    if lines == [] {
      MirrorNothing();
    } else {
      var f, line := lines[..|lines| - 1], lines[|lines| - 1];
      var t := InternTrace(f);
      InternIdempotent(f);
      TraceFaithful(f);
      MirrorLine(t.order, 0, line);
      assert InternTrace(lines).requests[..|f|] == t.requests;
    }
  }

  lemma MirrorNothing()
    ensures Mirror([]) == []
  {
  }

  // ---------- the reader and the gap check ----------

  /** The block loop of `next` in prefix mode: each block is interned below the one before it. */
  method ReadLine(table: Interner<PathKey>, raws: seq<nat>) returns (blocks: seq<nat>)
    requires table.Valid()
    modifies table
    ensures table.Valid() && Interned(table.order, blocks) == InternLine(old(table.order), 0, raws)
  {
    hide NoRepeat, Extended, IndexOf, Interner.Valid;
    blocks := [];
    var parent, i := 0, 0;
    while i < |raws|
      invariant 0 <= i <= |raws| && table.Valid()
      invariant var rest := InternLine(table.order, parent, raws[i..]);
                InternLine(old(table.order), 0, raws) == Interned(rest.order, blocks + rest.ids)
    {
      assert raws[i..][1..] == raws[i + 1..];
      parent := table.Intern(PathKey(parent, raws[i]));
      blocks := blocks + [parent];
      i := i + 1;
    }
  }

  /** What one more line adds to the trace. */
  lemma UsableStep(lines: seq<seq<nat>>, i: nat)
    ensures Usable([]) == [] && InternTrace([]) == Trace([], [])
    ensures i < |lines| ==>
              var t := InternTrace(Usable(lines[..i]));
              var r := InternLine(t.order, 0, lines[i]);
              InternTrace(Usable(lines[..i + 1])) ==
              (if lines[i] == [] then t else Trace(r.order, t.requests + [r.ids]))
    ensures i < |lines| && lines[i] == [] ==> forall order :: InternLine(order, 0, lines[i]) == Interned(order, [])
  {
    if i < |lines| {
      var u := Usable(lines[..i]);
      assert lines[..i + 1][..i] == lines[..i];
      assert (u + [lines[i]])[..|u|] == u;
      if lines[i] == [] {
        assert u + [] == u;
      }
    }
  }

  /** `next` until the end of the trace; lines without blocks are passed over. */
  method ReadTrace(lines: seq<seq<nat>>) returns (requests: seq<seq<nat>>)
    ensures requests == InternTrace(Usable(lines)).requests
  {
    hide InternLine, InternTrace, Usable;
    var table := new Interner<PathKey>();
    requests := [];
    var i := 0;
    assert Usable([]) == [] && InternTrace([]) == Trace([], []) by { UsableStep([], 0); }
    while i < |lines|
      invariant 0 <= i <= |lines| && fresh(table) && table.Valid()
      invariant Trace(table.order, requests) == InternTrace(Usable(lines[..i]))
    {
      UsableStep(lines, i);
      var blocks := ReadLine(table, lines[i]);
      if blocks != [] {
        requests := requests + [blocks];
      }
      i := i + 1;
    }
    assert lines[..|lines|] == lines;
  }

  /** The gap check of `build_stat` and the number of unique blocks that it records. */
  method CheckBlocks(requests: seq<seq<nat>>) returns (ok: bool, unique: nat)
    ensures ok <==> Gapless(Flat(requests))
    ensures ok ==> unique == Largest(Flat(requests)) && forall id: nat :: id in Flat(requests) <==> 1 <= id <= unique
  {
    hide Gapless, Largest, Flat;
    ScanIs(requests);
    unique := 0;
    var r := 0;
    while r < |requests|
      invariant 0 <= r <= |requests| && ScanTrace(requests[..r]) == Upto(unique)
    {
      assert requests[..r + 1][..r] == requests[..r];
      var ids, i := requests[r], 0;
      while i < |ids|
        invariant 0 <= i <= |ids| && ScanTrace(requests[..r + 1]) == ScanLine(unique, ids[i..])
      {
        assert ids[i..][1..] == ids[i + 1..];
        if ids[i] == 0 || ids[i] > unique + 1 {
          GapStays(requests, r + 1);
          return false, unique;
        }
        if ids[i] > unique {
          unique := ids[i];
        }
        i := i + 1;
      }
      r := r + 1;
    }
    assert requests[..|requests|] == requests;
    ok := true;
    forall id: nat ensures id in Flat(requests) <==> 1 <= id <= unique {
      GaplessUses(Flat(requests), id);
    }
  }

  lemma {:induction false} GapStays(requests: seq<seq<nat>>, r: nat)
    requires r <= |requests| && ScanTrace(requests[..r]) == Gap
    ensures ScanTrace(requests) == Gap
  {
    if r == |requests| {
      assert requests[..r] == requests;
    } else {
      var f := requests[..|requests| - 1];
      assert f[..r] == requests[..r];
      GapStays(f, r);
    }
  }

  /** Reading a trace and checking it: every position is accepted, and the prefixes are counted exactly. */
  method Convert(lines: seq<seq<nat>>) returns (requests: seq<seq<nat>>, unique: nat)
    ensures requests == InternTrace(Usable(lines)).requests
    ensures unique == |Prefixes(Usable(lines))|
  {
    requests := ReadTrace(lines);
    var ok;
    ok, unique := CheckBlocks(requests);
    UniqueBlocks(Usable(lines));
    ScanIs(requests);
  }
}
