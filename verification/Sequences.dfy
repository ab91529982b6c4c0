/** Selecting from a sequence what has a property: everything of it, and the first. */
module Sequences {
  import opened Base

  /** The elements with a property, in their order. */
  function Selected<T(!new)>(s: seq<T>, p: T -> bool): (r: seq<T>)
    ensures forall x :: x in r <==> x in s && p(x)
  {
    if s == [] then [] else
      var rest := Selected(s[..|s| - 1], p);
      var last := s[|s| - 1];
      if p(last) then rest + [last] else rest
  }

  /** Where the elements with a property are, from left to right. */
  ghost function Positions<T>(s: seq<T>, p: T -> bool): (r: seq<nat>)
    ensures forall i :: 0 <= i < |r| ==> r[i] < |s|
    ensures forall i, j :: 0 <= i < j < |r| ==> r[i] < r[j]
    ensures forall k: nat :: k in r <==> k < |s| && p(s[k])
  {
    if s == [] then [] else
      var n := |s| - 1;
      var r := Positions(s[..n], p);
      assert forall i :: 0 <= i < |r| ==> r[i] in r;
      if p(s[n]) then r + [n] else r
  }

  /** The selection has every element with the property, each once, in order, and nothing else. */
  lemma {:induction false} SelectedIsPositions<T(!new)>(s: seq<T>, p: T -> bool)
    ensures var r, at := Selected(s, p), Positions(s, p);
            |r| == |at| && forall i :: 0 <= i < |r| ==> r[i] == s[at[i]]
  {
    if s == [] {
    } else {
      SelectedIsPositions(s[..|s| - 1], p);
    }
  }

  lemma SelectedStep<T(!new)>(s: seq<T>, p: T -> bool, i: nat)
    requires i < |s|
    ensures Selected(s[..i + 1], p) == if p(s[i]) then Selected(s[..i], p) + [s[i]] else Selected(s[..i], p)
  {
    assert s[..i + 1][..i] == s[..i];
  }

  lemma {:induction false} SelectedCounts<T(!new)>(s: seq<T>, p: T -> bool, x: T)
    ensures multiset(Selected(s, p))[x] == if p(x) then multiset(s)[x] else 0
  {
    if s == [] {
    } else {
      var n := |s| - 1;
      SelectedCounts(s[..n], p, x);
      assert s == s[..n] + [s[n]];
    }
  }

  /** The first element with a property. */
  function FirstWith<T>(s: seq<T>, p: T -> bool): Option<T> {
    if s == [] then None
    else if p(s[0]) then Some(s[0])
    else FirstWith(s[1..], p)
  }

  /** FirstWith told by positions. */
  lemma {:induction false} FirstWithMeaning<T>(s: seq<T>, p: T -> bool)
    ensures FirstWith(s, p).None? <==> forall k :: 0 <= k < |s| ==> !p(s[k])
    ensures forall k :: 0 <= k < |s| && p(s[k]) && (forall j :: 0 <= j < k ==> !p(s[j])) ==> FirstWith(s, p) == Some(s[k])
  {
    if s == [] || p(s[0]) {
    } else {
      var rest := s[1..];
      FirstWithMeaning(rest, p);
      assert forall k :: 0 < k < |s| ==> s[k] == rest[k - 1];
      if FirstWith(rest, p).None? {
        forall k | 0 <= k < |s| ensures !p(s[k]) {
          assert k > 0 ==> !p(rest[k - 1]);
        }
      }
      forall k | 0 <= k < |s| && p(s[k]) && (forall j :: 0 <= j < k ==> !p(s[j])) ensures FirstWith(s, p) == Some(s[k]) {
        assert p(rest[k - 1]);
        forall j | 0 <= j < k - 1 ensures !p(rest[j]) {
          assert !p(s[j + 1]);
        }
      }
    }
  }
}
