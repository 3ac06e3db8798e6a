/** Elements and places in sequences: notions that several modules share. */
module Seqs {

  ghost predicate NoRepeat<T>(s: seq<T>) {
    forall i, j :: 0 <= i < j < |s| ==> s[i] != s[j]
  }

  /** The elements of a sequence. */
  function Elems<T(==)>(s: seq<T>): set<T> {
    set i | 0 <= i < |s| :: s[i]
  }

  /** The first place of an element, or `|s|` if it is not there. */
  function IndexOf<T(==)>(s: seq<T>, x: T): (i: nat)
    ensures i <= |s| && (i < |s| ==> s[i] == x) && x !in s[..i]
  {
    if s == [] then 0 else if s[0] == x then 0 else 1 + IndexOf(s[1..], x)
  }

  lemma IndexOfAt<T>(s: seq<T>, i: nat)
    requires NoRepeat(s) && i < |s|
    ensures IndexOf(s, s[i]) == i
  {
    var j := IndexOf(s, s[i]);
    assert forall k :: 0 <= k < j ==> s[..j][k] == s[k];
  }

  lemma IndexOfMember<T>(s: seq<T>, x: T)
    ensures x in s <==> IndexOf(s, x) < |s|
    ensures x in s <==> x in Elems(s)
  {
    assert s[..|s|] == s;
  }

  lemma ElemsAppend<T>(s: seq<T>, x: T)
    ensures Elems(s + [x]) == Elems(s) + {x}
  {
    var t := s + [x];
    assert forall i :: 0 <= i < |s| ==> t[i] == s[i];
    assert t[|s|] == x;
  }

  lemma ElemsPrefix<T>(s: seq<T>, n: nat)
    requires n <= |s|
    ensures Elems(s[..n]) <= Elems(s)
  {
    var t := s[..n];
    assert forall i :: 0 <= i < n ==> t[i] == s[i];
  }

  lemma ElemsCons<T>(x: T, s: seq<T>)
    ensures Elems([x] + s) == {x} + Elems(s)
  {
    var t := [x] + s;
    assert t[0] == x && forall i :: 0 <= i < |s| ==> t[i + 1] == s[i];
  }
}
