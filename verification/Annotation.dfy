/**
 Next-access annotation in prefixsim: one reverse pass tells every block when its id is accessed
 next, counting only the requests that the cache can serve.
 */
module Annotation {
  import opened StackDistance
  import opened Seqs

  const INT64_MAX := 0x7FFF_FFFF_FFFF_FFFF
  const MAX_REUSE_DISTANCE := INT64_MAX

  datatype Request = Request(blocks: seq<int>, next: seq<int>, session: int, sessionNext: int)

  // ---------- which requests are served ----------

  /** The request has more different blocks than the cache can hold. */
  predicate Exceeds(r: Request, cache: int) {
    |Elems(r.blocks)| > cache
  }

  lemma {:induction false} IdsAtMost(s: Trace)
    ensures |Elems(s)| <= |s|
  {
    if s != [] {
      var f, x := s[..|s| - 1], s[|s| - 1];
      IdsAtMost(f);
      ElemsAppend(f, x);
      assert f + [x] == s;
    }
  }

  /** `exceeds_cache`: short requests are let through without counting their different blocks. */
  method ExceedsCache(r: Request, cache: int) returns (b: bool)
    ensures b <==> Exceeds(r, cache)
  {
    IdsAtMost(r.blocks);
    if |r.blocks| <= cache {
      return false;
    }
    var distinct := set x <- r.blocks;
    assert distinct == Elems(r.blocks) by {
      assert forall x :: x in distinct <==> x in Elems(r.blocks);
    }
    b := |distinct| > cache;
  }

  // ---------- the forward definition ----------

  /** All block accesses of the served requests, in forward order. */
  function Flat(rs: seq<Request>, cache: int): Trace {
    if rs == [] then []
    else Flat(rs[..|rs| - 1], cache) + (if Exceeds(rs[|rs| - 1], cache) then [] else rs[|rs| - 1].blocks)
  }

  /** The 1-based position of the next access after position `p`, or the value for "never". */
  function NextAccess(flat: Trace, p: nat): int
    requires p < |flat|
  {
    if Next(flat, p) < 0 then MAX_REUSE_DISTANCE else Next(flat, p) + 1
  }

  function Never(n: nat): seq<int> {
    seq(n, i => MAX_REUSE_DISTANCE)
  }

  /** The times of `n` successive accesses from position `start`. */
  function NextAccesses(flat: Trace, start: nat, n: nat): (a: seq<int>)
    requires start + n <= |flat|
    ensures |a| == n
  {
    seq(n, i requires 0 <= i < n => NextAccess(flat, start + i))
  }

  /** Where the blocks of request `k` start among the served accesses. */
  function Start(rs: seq<Request>, cache: int, k: nat): nat
    requires k <= |rs|
  {
    |Flat(rs[..k], cache)|
  }

  lemma {:induction false} FlatPrefix(rs: seq<Request>, cache: int, k: nat)
    requires k <= |rs|
    ensures Flat(rs[..k], cache) <= Flat(rs, cache)
  {
    if k == |rs| {
      assert rs[..k] == rs;
    } else {
      FlatPrefix(rs[..|rs| - 1], cache, k);
      assert rs[..|rs| - 1][..k] == rs[..k];
    }
  }

  /** Request `k` occupies its stretch of the served accesses. */
  lemma FlatAt(rs: seq<Request>, cache: int, k: nat)
    requires k < |rs|
    ensures var n := if Exceeds(rs[k], cache) then 0 else |rs[k].blocks|;
            Start(rs, cache, k + 1) == Start(rs, cache, k) + n <= |Flat(rs, cache)|
    ensures !Exceeds(rs[k], cache) ==>
              Flat(rs, cache)[Start(rs, cache, k)..Start(rs, cache, k) + |rs[k].blocks|] == rs[k].blocks
  {
    hide Exceeds;
    assert rs[..k + 1][..k] == rs[..k];
    FlatPrefix(rs, cache, k + 1);
    FlatPrefix(rs, cache, k);
    var f, g := Flat(rs, cache), Flat(rs[..k + 1], cache);
    assert f[..|g|] == g;
  }

  /** What the annotation of request `k` should be. */
  function Expected(rs: seq<Request>, cache: int, k: nat): seq<int>
    requires k < |rs|
  {
    if Exceeds(rs[k], cache) then Never(|rs[k].blocks|)
    else
      FlatAt(rs, cache, k);
      NextAccesses(Flat(rs, cache), Start(rs, cache, k), |rs[k].blocks|)
  }

  // ---------- what the times mean ----------

  /**
   `time` tells when the id at position `p` is accessed next: the first position after `p` that holds
   it, counted from 1, or the largest 64-bit integer, past every position, if there is none.
   */
  ghost predicate RightTime(flat: Trace, p: nat, time: int)
    requires p < |flat|
  {
    && p + 1 < time
    && (forall j :: p < j < |flat| && j < time - 1 ==> flat[j] != flat[p])
    && (if time <= |flat| then flat[time - 1] == flat[p] else time == 0x7FFF_FFFF_FFFF_FFFF)
  }

  lemma {:induction false} NextFromIs(flat: Trace, p: nat, m: nat)
    requires p < m <= |flat| && forall j :: p < j < m ==> flat[j] != flat[p]
    ensures var n := NextFrom(flat, p, m);
            if n < 0 then forall j :: p < j < |flat| ==> flat[j] != flat[p]
            else flat[n] == flat[p] && forall j :: p < j < n ==> flat[j] != flat[p]
    decreases |flat| - m
  {
    if m < |flat| && flat[m] != flat[p] {
      NextFromIs(flat, p, m + 1);
    }
  }

  lemma NextIsRight(flat: Trace, p: nat)
    requires p < |flat| < 0x7FFF_FFFF_FFFF_FFFF
    ensures RightTime(flat, p, NextAccess(flat, p))
  {
    NextFromIs(flat, p, p + 1);
  }

  /** An id that never recurs has a later time than every one that does, and only such an id has a time past the trace. */
  lemma NeverIsLast(flat: Trace, p: nat, time: int, q: nat, other: int)
    requires p < |flat| && q < |flat| && RightTime(flat, p, time) && RightTime(flat, q, other)
    ensures time <= |flat| <==> exists j :: p < j < |flat| && flat[j] == flat[p]
    ensures (exists j :: p < j < |flat| && flat[j] == flat[p]) && !(exists j :: q < j < |flat| && flat[j] == flat[q])
            ==> time < other
  {
  }

  /** Every block of a served request holds the right time, every block of a skipped one the largest. */
  ghost predicate Timely(rs: seq<Request>, cache: int, after: seq<Request>) {
    && |after| == |rs|
    && forall k :: 0 <= k < |rs| ==> |after[k].next| == |rs[k].blocks| && TimelyAt(rs, cache, k, after[k].next)
  }

  ghost predicate TimelyAt(rs: seq<Request>, cache: int, k: nat, next: seq<int>)
    requires k < |rs|
  {
    if Exceeds(rs[k], cache) then forall j :: 0 <= j < |next| ==> next[j] == 0x7FFF_FFFF_FFFF_FFFF
    else
      && Start(rs, cache, k) + |next| <= |Flat(rs, cache)|
      && forall j :: 0 <= j < |next| ==> RightTime(Flat(rs, cache), Start(rs, cache, k) + j, next[j])
  }

  lemma TimelyExpected(rs: seq<Request>, cache: int, after: seq<Request>)
    requires |after| == |rs| && |Flat(rs, cache)| < 0x7FFF_FFFF_FFFF_FFFF
    requires forall k :: 0 <= k < |rs| ==> after[k].next == Expected(rs, cache, k)
    ensures Timely(rs, cache, after)
  {
    hide Exceeds, Flat, NextAccess, RightTime;
    forall k | 0 <= k < |rs| ensures |after[k].next| == |rs[k].blocks| && TimelyAt(rs, cache, k, after[k].next) {
      if !Exceeds(rs[k], cache) {
        FlatAt(rs, cache, k);
        forall j | 0 <= j < |rs[k].blocks| ensures RightTime(Flat(rs, cache), Start(rs, cache, k) + j, after[k].next[j]) {
          NextIsRight(Flat(rs, cache), Start(rs, cache, k) + j);
        }
      }
    }
  }

  // ---------- the reverse pass ----------

  /** The table of the reverse pass once it has reached position `p`. */
  function FirstUses(flat: Trace, p: nat): map<int, int>
    requires p <= |flat|
    decreases |flat| - p
  {
    if p == |flat| then map[] else FirstUses(flat, p + 1)[flat[p] := p + 1]
  }

  /** The table entry of an id is its next access. */
  lemma {:induction false} FirstUsesAre(flat: Trace, t: nat, m: nat)
    requires t < m <= |flat| && forall j :: t < j < m ==> flat[j] != flat[t]
    ensures var u := FirstUses(flat, m);
            NextFrom(flat, t, m) == (if flat[t] in u then u[flat[t]] - 1 else -1)
            && (flat[t] in u ==> u[flat[t]] > m)
    decreases |flat| - m
  {
    if m < |flat| && flat[m] != flat[t] {
      FirstUsesAre(flat, t, m + 1);
    }
  }

  lemma LookupIsNext(flat: Trace, p: nat)
    requires p < |flat|
    ensures var u := FirstUses(flat, p + 1);
            NextAccess(flat, p) == if flat[p] in u then u[flat[p]] else MAX_REUSE_DISTANCE
  {
    FirstUsesAre(flat, p, p + 1);
  }

  /** The inner loop: the blocks of one request, last to first. */
  method AnnotateBlocks(blocks: seq<int>, never: seq<int>, seen: map<int, int>, vtime: int, ghost flat: Trace, ghost start: nat)
    returns (next: seq<int>, seen': map<int, int>, vtime': int)
    requires start + |blocks| <= |flat| && flat[start..start + |blocks|] == blocks && never == Never(|blocks|)
    requires seen == FirstUses(flat, start + |blocks|) && vtime == start + |blocks|
    ensures next == NextAccesses(flat, start, |blocks|) && seen' == FirstUses(flat, start) && vtime' == start
  {
    hide NextAccess;
    next, seen', vtime' := never, seen, vtime;
    var i := |blocks| - 1;
    while i >= 0
      invariant -1 <= i < |blocks| && |next| == |blocks|
      invariant forall j :: 0 <= j <= i ==> next[j] == MAX_REUSE_DISTANCE
      invariant forall j :: i < j < |blocks| ==> next[j] == NextAccess(flat, start + j)
      invariant seen' == FirstUses(flat, start + i + 1) && vtime' == start + i + 1
    {
      var id := blocks[i];
      assert id == flat[start..start + |blocks|][i] == flat[start + i];
      LookupIsNext(flat, start + i);
      if id in seen' {
        next := next[i := seen'[id]];
      }
      seen' := seen'[id := vtime'];
      vtime' := vtime' - 1;
      i := i - 1;
    }
  }

  /** The first loop: clear every annotation and count the served accesses. */
  method ClearAnnotations(requests: array<Request>, cache: int) returns (total: int)
    modifies requests
    ensures total == |Flat(old(requests[..]), cache)|
    ensures forall k :: 0 <= k < requests.Length ==>
              requests[k] == old(requests[k]).(next := Never(|old(requests[k]).blocks|))
  {
    total := 0;
    ghost var rs := requests[..];
    for k := 0 to requests.Length
      invariant total == |Flat(rs[..k], cache)|
      invariant forall j :: 0 <= j < k ==> requests[j] == rs[j].(next := Never(|rs[j].blocks|))
      invariant forall j :: k <= j < requests.Length ==> requests[j] == rs[j]
    {
      assert rs[..k + 1][..k] == rs[..k];
      requests[k] := requests[k].(next := Never(|requests[k].blocks|));
      var skipped := ExceedsCache(requests[k], cache);
      if !skipped {
        total := total + |requests[k].blocks|;
      }
    }
    assert rs[..requests.Length] == rs;
  }

  /** The requests with their annotation. */
  function Annotated(rs: seq<Request>, cache: int): (a: seq<Request>)
    ensures |a| == |rs|
  {
    seq(|rs|, k requires 0 <= k < |rs| => rs[k].(next := Expected(rs, cache, k)))
  }

  /**
   `annotate_next_access`: each block of a served request gets the position of the next access to
   its id among the served accesses, and a skipped request gets "never" throughout.
   */
  method AnnotateNextAccess(requests: array<Request>, cache: int)
    modifies requests
    ensures requests[..] == Annotated(old(requests[..]), cache)
    ensures |Flat(old(requests[..]), cache)| < 0x7FFF_FFFF_FFFF_FFFF ==> Timely(old(requests[..]), cache, requests[..])
  {
    hide Flat, Never, NextAccess, Elems, Timely;
    ghost var rs := requests[..];
    ghost var flat := Flat(rs, cache);
    var vtime := ClearAnnotations(requests, cache);
    var seen: map<int, int> := map[];
    var n := requests.Length;
    assert rs[..n] == rs;
    while n > 0
      invariant 0 <= n <= requests.Length && vtime == Start(rs, cache, n) && vtime <= |flat|
      invariant seen == FirstUses(flat, vtime)
      invariant forall k :: 0 <= k < n ==> requests[k] == rs[k].(next := Never(|rs[k].blocks|))
      invariant forall k :: n <= k < requests.Length ==> requests[k] == rs[k].(next := Expected(rs, cache, k))
    {
      n := n - 1;
      FlatAt(rs, cache, n);
      var skipped := ExceedsCache(requests[n], cache);
      if !skipped {
        var next;
        next, seen, vtime :=
          AnnotateBlocks(requests[n].blocks, requests[n].next, seen, vtime, flat, Start(rs, cache, n));
        requests[n] := requests[n].(next := next);
      }
    }
    if |flat| < 0x7FFF_FFFF_FFFF_FFFF {
      TimelyExpected(rs, cache, requests[..]);
    }
  }

  // ---------- sessions ----------

  /** The first request from `m` on that is served and belongs to the session, or -1. */
  function NextOfSession(rs: seq<Request>, cache: int, session: int, m: nat): (n: int)
    requires m <= |rs|
    ensures n == -1 || (m <= n < |rs| && !Exceeds(rs[n], cache) && rs[n].session == session)
    ensures forall j :: m <= j < |rs| && (j < n || n == -1) ==> Exceeds(rs[j], cache) || rs[j].session != session
    decreases |rs| - m
  {
    if m == |rs| then -1
    else if !Exceeds(rs[m], cache) && rs[m].session == session then m
    else NextOfSession(rs, cache, session, m + 1)
  }

  function SessionNext(rs: seq<Request>, cache: int, session: int, m: nat): int
    requires m <= |rs|
  {
    if NextOfSession(rs, cache, session, m) < 0 then INT64_MAX else NextOfSession(rs, cache, session, m)
  }

  function ExpectedSession(rs: seq<Request>, cache: int, k: nat): int
    requires k < |rs|
  {
    if Exceeds(rs[k], cache) then INT64_MAX else SessionNext(rs, cache, rs[k].session, k + 1)
  }

  /**
   `time` tells when the session of request `k` is served next: the first later request that is
   served and belongs to it, or the largest 64-bit integer if there is none.
   */
  ghost predicate RightSessionTime(rs: seq<Request>, cache: int, k: nat, time: int)
    requires k < |rs|
  {
    if Exceeds(rs[k], cache) then time == 0x7FFF_FFFF_FFFF_FFFF
    else
      && k < time
      && (forall j :: k < j < |rs| && j < time ==> Exceeds(rs[j], cache) || rs[j].session != rs[k].session)
      && (if time < |rs| then !Exceeds(rs[time], cache) && rs[time].session == rs[k].session
          else time == 0x7FFF_FFFF_FFFF_FFFF)
  }

  lemma SessionIsRight(rs: seq<Request>, cache: int, k: nat)
    requires k < |rs| < 0x7FFF_FFFF_FFFF_FFFF
    ensures RightSessionTime(rs, cache, k, ExpectedSession(rs, cache, k))
  {
    hide Exceeds;
  }

  /** What the table of the reverse pass holds at request `m`. */
  ghost predicate Remembers(seen: map<int, int>, rs: seq<Request>, cache: int, m: nat)
    requires m <= |rs|
  {
    forall s :: SessionNext(rs, cache, s, m) == if s in seen then seen[s] else INT64_MAX
  }

  lemma RemembersStep(seen: map<int, int>, rs: seq<Request>, cache: int, m: nat)
    requires m < |rs| && Remembers(seen, rs, cache, m + 1)
    ensures Remembers(if Exceeds(rs[m], cache) then seen else seen[rs[m].session := m], rs, cache, m)
  {
  }

  /** `annotate_session_next_access`. */
  method AnnotateSessions(requests: array<Request>, cache: int)
    modifies requests
    ensures forall k :: 0 <= k < requests.Length ==>
              requests[k] == old(requests[k]).(sessionNext := ExpectedSession(old(requests[..]), cache, k))
    ensures requests.Length < 0x7FFF_FFFF_FFFF_FFFF ==>
              forall k :: 0 <= k < requests.Length ==>
                RightSessionTime(old(requests[..]), cache, k, requests[k].sessionNext)
  {
    hide Exceeds, SessionNext, RightSessionTime;
    ghost var rs := requests[..];
    var seen: map<int, int> := map[];
    var n := requests.Length;
    RemembersNothing(rs, cache);
    while n > 0
      invariant 0 <= n <= requests.Length && Remembers(seen, rs, cache, n)
      invariant forall k :: 0 <= k < n ==> requests[k] == rs[k]
      invariant forall k :: n <= k < requests.Length ==>
                  requests[k] == rs[k].(sessionNext := ExpectedSession(rs, cache, k))
    {
      n := n - 1;
      RemembersStep(seen, rs, cache, n);
      var r := requests[n];
      var skipped := ExceedsCache(r, cache);
      if skipped {
        requests[n] := r.(sessionNext := INT64_MAX);
      } else {
        requests[n] := r.(sessionNext := if r.session in seen then seen[r.session] else INT64_MAX);
        seen := seen[r.session := n];
      }
    }
    if requests.Length < 0x7FFF_FFFF_FFFF_FFFF {
      forall k | 0 <= k < |rs| ensures RightSessionTime(rs, cache, k, requests[k].sessionNext) {
        SessionIsRight(rs, cache, k);
      }
    }
  }

  lemma RemembersNothing(rs: seq<Request>, cache: int)
    ensures Remembers(map[], rs, cache, |rs|)
  {
  }

  // ---------- loading a trace ----------

  /** The requests with both annotations for a cache of the given size. */
  function FullyAnnotated(rs: seq<Request>, cache: int): (a: seq<Request>)
    ensures |a| == |rs|
  {
    seq(|rs|, k requires 0 <= k < |rs| =>
      rs[k].(next := Expected(rs, cache, k), sessionNext := ExpectedSession(rs, cache, k)))
  }

  ghost predicate NoneExceeds(rs: seq<Request>, cache: int) {
    forall k :: 0 <= k < |rs| ==> !Exceeds(rs[k], cache)
  }

  /** The two traces differ in their annotations only. */
  ghost predicate SameAccesses(rs: seq<Request>, qs: seq<Request>) {
    |rs| == |qs| && forall k :: 0 <= k < |rs| ==> rs[k].blocks == qs[k].blocks && rs[k].session == qs[k].session
  }

  /** The two sizes skip the same requests. */
  ghost predicate SameServed(rs: seq<Request>, c: int, qs: seq<Request>, d: int) {
    SameAccesses(rs, qs) && forall k :: 0 <= k < |rs| ==> (Exceeds(rs[k], c) <==> Exceeds(qs[k], d))
  }

  lemma {:induction false} SameFlat(rs: seq<Request>, c: int, qs: seq<Request>, d: int)
    requires SameServed(rs, c, qs, d)
    ensures Flat(rs, c) == Flat(qs, d)
  {
    if rs != [] {
      SameFlat(rs[..|rs| - 1], c, qs[..|qs| - 1], d);
    }
  }

  lemma {:induction false} SameSessions(rs: seq<Request>, c: int, qs: seq<Request>, d: int, s: int, m: nat)
    requires SameServed(rs, c, qs, d) && m <= |rs|
    ensures SessionNext(rs, c, s, m) == SessionNext(qs, d, s, m)
    decreases |rs| - m
  {
    if m < |rs| {
      SameSessions(rs, c, qs, d, s, m + 1);
    }
  }

  /** Annotations depend on the accesses and on which requests are skipped, on nothing else. */
  lemma SameExpected(rs: seq<Request>, c: int, qs: seq<Request>, d: int, k: nat)
    requires SameServed(rs, c, qs, d) && k < |rs|
    ensures Expected(rs, c, k) == Expected(qs, d, k) && ExpectedSession(rs, c, k) == ExpectedSession(qs, d, k)
  {
    SameFlat(rs, c, qs, d);
    SameFlat(rs[..k], c, qs[..k], d);
    SameSessions(rs, c, qs, d, rs[k].session, k + 1);
  }

  /**
   When no request exceeds either cache, the annotation does not depend on the cache size: the
   times stored for the whole trace may be used as they are.
   */
  lemma SizeIndependent(rs: seq<Request>, c: int, d: int)
    requires NoneExceeds(rs, c) && NoneExceeds(rs, d)
    ensures FullyAnnotated(rs, c) == FullyAnnotated(rs, d)
  {
    forall k | 0 <= k < |rs|
      ensures Expected(rs, c, k) == Expected(rs, d, k) && ExpectedSession(rs, c, k) == ExpectedSession(rs, d, k)
    {
      SameExpected(rs, c, rs, d, k);
    }
  }

  lemma ShortNeverExceeds(rs: seq<Request>, cache: int)
    requires forall k :: 0 <= k < |rs| ==> |rs[k].blocks| <= cache
    ensures NoneExceeds(rs, cache)
  {
    forall k | 0 <= k < |rs| ensures !Exceeds(rs[k], cache) {
      IdsAtMost(rs[k].blocks);
    }
  }

  /**
   The streaming condition of the simulator: when no request is longer than the cache, the times
   that a file stores for the whole trace are the times for this cache.
   */
  lemma StreamingSound(rs: seq<Request>, cache: int)
    requires cache <= INT64_MAX && forall k :: 0 <= k < |rs| ==> |rs[k].blocks| <= cache
    ensures NoneExceeds(rs, cache) && FullyAnnotated(rs, cache) == FullyAnnotated(rs, INT64_MAX)
  {
    ShortNeverExceeds(rs, cache);
    ShortNeverExceeds(rs, INT64_MAX);
    SizeIndependent(rs, cache, INT64_MAX);
  }

  /** Both passes one after the other. */
  method AnnotateAll(requests: array<Request>, cache: int)
    modifies requests
    ensures requests[..] == FullyAnnotated(old(requests[..]), cache)
  {
    hide Expected, ExpectedSession;
    ghost var rs := requests[..];
    AnnotateNextAccess(requests, cache);
    ghost var qs := requests[..];
    assert SameServed(rs, cache, qs, cache);
    AnnotateSessions(requests, cache);
    forall k | 0 <= k < |rs| ensures requests[k] == FullyAnnotated(rs, cache)[k] {
      SameExpected(rs, cache, qs, cache, k);
    }
  }

  /**
   `load_trace` once the requests are read: stored annotations, which count every request, are kept
   if no request exceeds the cache, and recomputed otherwise. Either way the result is the
   annotation for this cache.
   */
  method LoadTrace(requests: array<Request>, stored: bool, cache: int) returns (ok: bool)
    requires stored ==> requests[..] == FullyAnnotated(requests[..], INT64_MAX) && NoneExceeds(requests[..], INT64_MAX)
    modifies requests
    ensures ok <==> requests.Length > 0
    ensures ok ==> requests[..] == FullyAnnotated(old(requests[..]), cache)
    ensures ok && |Flat(old(requests[..]), cache)| < 0x7FFF_FFFF_FFFF_FFFF ==>
              Timely(old(requests[..]), cache, requests[..])
    ensures ok && requests.Length < 0x7FFF_FFFF_FFFF_FFFF ==>
              forall k :: 0 <= k < requests.Length ==>
                RightSessionTime(old(requests[..]), cache, k, requests[k].sessionNext)
  {
    hide Expected, ExpectedSession, Exceeds, Flat, Timely, RightSessionTime;
    ghost var rs := requests[..];
    var any := false;
    for k := 0 to requests.Length
      invariant requests[..] == old(requests[..])
      invariant any <==> exists j :: 0 <= j < k && Exceeds(requests[j], cache)
    {
      var e := ExceedsCache(requests[k], cache);
      any := any || e;
    }
    if requests.Length == 0 {
      return false;
    }
    ok := true;
    if !stored || any {
      AnnotateAll(requests, cache);
    } else {
      assert forall k :: 0 <= k < |requests[..]| ==> requests[..][k] == requests[k];
      SizeIndependent(requests[..], cache, INT64_MAX);
    }
    LoadedTimes(rs, cache);
  }

  /** What the two annotations of a trace tell. */
  lemma LoadedTimes(rs: seq<Request>, cache: int)
    ensures |Flat(rs, cache)| < 0x7FFF_FFFF_FFFF_FFFF ==> Timely(rs, cache, FullyAnnotated(rs, cache))
    ensures |rs| < 0x7FFF_FFFF_FFFF_FFFF ==>
              forall k :: 0 <= k < |rs| ==> RightSessionTime(rs, cache, k, FullyAnnotated(rs, cache)[k].sessionNext)
  {
    hide Expected, ExpectedSession, Flat, Timely, RightSessionTime;
    if |Flat(rs, cache)| < 0x7FFF_FFFF_FFFF_FFFF {
      TimelyExpected(rs, cache, FullyAnnotated(rs, cache));
    }
    if |rs| < 0x7FFF_FFFF_FFFF_FFFF {
      forall k | 0 <= k < |rs| ensures RightSessionTime(rs, cache, k, FullyAnnotated(rs, cache)[k].sessionNext) {
        SessionIsRight(rs, cache, k);
      }
    }
  }
}
