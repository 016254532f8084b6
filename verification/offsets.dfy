/** Removal of the elements at a set of offsets from an ordered collection,
    the operation a swipe-to-delete performs on the task list. */
module Offsets {

  /** Every offset names a position of a collection of length `n`; the
      collection traps on any other offset. */
  predicate InRange(offsets: set<nat>, n: nat)
  {
    forall o :: o in offsets ==> o < n
  }

  /** The offsets below `n`. */
  function Below(offsets: set<nat>, n: nat): set<nat>
  {
    set o | o in offsets && o < n
  }

  /** The positions below `n` that are not removed, in ascending order: the
      reference description of which elements survive and where they land. */
  function Survivors(offsets: set<nat>, n: nat): (ks: seq<nat>)
    ensures forall j :: 0 <= j < |ks| ==> ks[j] < n && ks[j] !in offsets
    ensures forall j, k :: 0 <= j < k < |ks| ==> ks[j] < ks[k]
    ensures forall i :: 0 <= i < n && i !in offsets ==> i in ks
  {
    if n == 0 then []
    else Survivors(offsets, n - 1) + (if n - 1 in offsets then [] else [n - 1])
  }

  /** Exactly `n` minus the number of removed offsets below `n` survive. */
  lemma {:induction false} SurvivorsCount(offsets: set<nat>, n: nat)
    ensures |Survivors(offsets, n)| + |Below(offsets, n)| == n
  {
    if n == 0 {
      assert Below(offsets, 0) == {};
    } else {
      SurvivorsCount(offsets, n - 1);
      if n - 1 in offsets {
        assert Below(offsets, n) == Below(offsets, n - 1) + {n - 1};
      } else {
        assert Below(offsets, n) == Below(offsets, n - 1);
      }
    }
  }

  /** The elements of `xs` whose positions are not in `offsets`, in order. */
  function Kept<T>(xs: seq<T>, offsets: set<nat>): seq<T>
  {
    if |xs| == 0 then []
    else Kept(xs[..|xs| - 1], offsets) + (if |xs| - 1 in offsets then [] else [xs[|xs| - 1]])
  }

  /** The survivors, read off in order, are what `Kept` keeps. */
  lemma {:induction false} KeptIsSurvivors<T>(xs: seq<T>, offsets: set<nat>)
    ensures |Kept(xs, offsets)| == |Survivors(offsets, |xs|)|
    ensures forall j :: 0 <= j < |Kept(xs, offsets)| ==>
      Kept(xs, offsets)[j] == xs[Survivors(offsets, |xs|)[j]]
  {
    if |xs| > 0 {
      var n := |xs|;
      var p := xs[..n - 1];
      KeptIsSurvivors(p, offsets);
      assert |p| == n - 1;
      forall j | 0 <= j < |Kept(p, offsets)|
        ensures Kept(p, offsets)[j] == xs[Survivors(offsets, n - 1)[j]]
      {
        assert p[Survivors(offsets, n - 1)[j]] == xs[Survivors(offsets, n - 1)[j]];
      }
    }
  }

  /** The collection with the elements at `offsets` removed, as
      `remove(atOffsets:)` leaves it: the survivors keep their relative order,
      and exactly `|offsets|` elements go. */
  function RemoveAtOffsets<T>(xs: seq<T>, offsets: set<nat>): (r: seq<T>)
    requires InRange(offsets, |xs|)
    ensures |r| == |xs| - |offsets|
    ensures |r| == |Survivors(offsets, |xs|)|
    ensures forall j :: 0 <= j < |r| ==> r[j] == xs[Survivors(offsets, |xs|)[j]]
  {
    KeptIsSurvivors(xs, offsets);
    SurvivorsCount(offsets, |xs|);
    assert Below(offsets, |xs|) == offsets;
    Kept(xs, offsets)
  }

  /** Every element left behind was an element of the collection, at a position
      that was not removed, and every position that was not removed is still
      represented. */
  lemma RemovedExactly<T>(xs: seq<T>, offsets: set<nat>)
    requires InRange(offsets, |xs|)
    ensures forall j :: 0 <= j < |RemoveAtOffsets(xs, offsets)| ==>
      exists i :: 0 <= i < |xs| && i !in offsets && RemoveAtOffsets(xs, offsets)[j] == xs[i]
    ensures forall i :: 0 <= i < |xs| && i !in offsets ==> xs[i] in RemoveAtOffsets(xs, offsets)
  {
    var r := RemoveAtOffsets(xs, offsets);
    var ks := Survivors(offsets, |xs|);
    forall j | 0 <= j < |r|
      ensures exists i :: 0 <= i < |xs| && i !in offsets && r[j] == xs[i]
    {
      assert r[j] == xs[ks[j]];
    }
    forall i | 0 <= i < |xs| && i !in offsets
      ensures xs[i] in r
    {
      var j :| 0 <= j < |ks| && ks[j] == i;
      assert r[j] == xs[i];
    }
  }

  /** Removing a single offset `i` splices the element at `i` out. */
  lemma {:induction false} RemoveSingle<T>(xs: seq<T>, i: nat)
    requires i < |xs|
    ensures RemoveAtOffsets(xs, {i}) == xs[..i] + xs[i + 1..]
  {
    KeptSingle(xs, i);
  }

  /** `Kept` with one offset `i`: the element at `i` goes, if there is one. */
  lemma {:induction false} KeptSingle<T>(xs: seq<T>, i: nat)
    requires i <= |xs|
    ensures Kept(xs, {i}) == if i < |xs| then xs[..i] + xs[i + 1..] else xs
  {
    if |xs| > 0 {
      var n := |xs|;
      var p := xs[..n - 1];
      if i == n {
        KeptNone(xs, {i});
      } else if i == n - 1 {
        KeptNone(p, {i});
        assert xs[..i] == p;
      } else {
        KeptSingle(p, i);
        assert p[..i] + p[i + 1..] + [xs[n - 1]] == xs[..i] + xs[i + 1..];
      }
    }
  }

  /** Offsets all at or beyond the end remove nothing. */
  lemma {:induction false} KeptNone<T>(xs: seq<T>, offsets: set<nat>)
    requires forall o :: o in offsets ==> o >= |xs|
    ensures Kept(xs, offsets) == xs
  {
    if |xs| > 0 {
      KeptNone(xs[..|xs| - 1], offsets);
      assert xs[..|xs| - 1] + [xs[|xs| - 1]] == xs;
    }
  }
}
