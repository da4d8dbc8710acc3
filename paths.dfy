/** Turning a path of cells into the headings that walk it, and back. */
module Paths {
  import opened Utils
  import opened Search

  /** The heading for the move from `a` to `b`, or nothing when `b` is not
      a 4-neighbour of `a` (the inverse table has no such delta). */
  function StepHeading(a: Pos, b: Pos): seq<char> {
    var v := Diff(a, b);
    if v in DeltaToDir then [DeltaToDir[v]] else []
  }

  /** The headings of the consecutive pairs of `path`, skipping the pairs
      whose step has no heading. */
  function Translated(path: seq<Pos>): seq<char> {
    if |path| < 2 then []
    else Translated(path[..|path| - 1]) + StepHeading(path[|path| - 2], path[|path| - 1])
  }

  /** Every step of `path` goes to a 4-neighbour. */
  predicate AdjacentPath(path: seq<Pos>) {
    forall k :: 0 < k < |path| ==> Adjacent(path[k - 1], path[k])
  }

  predicate AllHeadings(hs: seq<char>) {
    forall k :: 0 <= k < |hs| ==> hs[k] in Directions
  }

  /** The cells visited when walking the headings `hs` from `s`, `s` included. */
  function Follow(s: Pos, hs: seq<char>): (w: seq<Pos>)
    requires AllHeadings(hs)
    ensures |w| == |hs| + 1 && w[0] == s
  {
    if hs == [] then [s]
    else
      var w := Follow(s, hs[..|hs| - 1]);
      w + [Step(Last(w), Directions[Last(hs)])]
  }

  /** The heading of one step, when there is one, is a compass letter whose
      delta is the step; there is exactly one for a step to a 4-neighbour. */
  lemma StepHeadingFacts(a: Pos, b: Pos)
    ensures |StepHeading(a, b)| <= 1
    ensures |StepHeading(a, b)| == 1 ==>
      StepHeading(a, b)[0] in Directions && Directions[StepHeading(a, b)[0]] == Diff(a, b)
    ensures Adjacent(a, b) ==> |StepHeading(a, b)| == 1
  {
    DeltaToDirKeys();
    DeltaToDirInverse();
  }

  /** Each heading emitted is a compass letter, and there are at most as
      many headings as steps, exactly as many when every step is to a
      4-neighbour. */
  lemma {:induction false} TranslatedShape(path: seq<Pos>)
    ensures AllHeadings(Translated(path))
    ensures |path| >= 1 ==> |Translated(path)| <= |path| - 1
    ensures |path| >= 1 && AdjacentPath(path) ==> |Translated(path)| == |path| - 1
  {
    if |path| >= 2 {
      var init := path[..|path| - 1];
      TranslatedShape(init);
      StepHeadingFacts(path[|path| - 2], path[|path| - 1]);
      assert AdjacentPath(path) ==> AdjacentPath(init);
    }
  }

  /** For a path of 4-neighbour steps, the k-th heading's delta is the k-th step. */
  lemma {:induction false} TranslatedDeltas(path: seq<Pos>)
    requires AdjacentPath(path)
    ensures |path| >= 1 ==> |Translated(path)| == |path| - 1
    ensures forall k :: 0 <= k < |Translated(path)| ==>
      Translated(path)[k] in Directions && Directions[Translated(path)[k]] == Diff(path[k], path[k + 1])
  {
    if |path| >= 2 {
      var n := |path|;
      var init := path[..n - 1];
      assert AdjacentPath(init);
      TranslatedDeltas(init);
      StepHeadingFacts(path[n - 2], path[n - 1]);
      var hs := Translated(path);
      assert hs == Translated(init) + StepHeading(path[n - 2], path[n - 1]);
      forall k | 0 <= k < |hs|
        ensures hs[k] in Directions && Directions[hs[k]] == Diff(path[k], path[k + 1])
      {
        if k < n - 2 {
          assert hs[k] == Translated(init)[k];
          assert init[k] == path[k] && init[k + 1] == path[k + 1];
        } else {
          assert hs[k] == StepHeading(path[n - 2], path[n - 1])[0];
        }
      }
    }
  }

  /** Walking the translated headings from the first cell retraces the path. */
  lemma {:induction false} FollowTranslated(path: seq<Pos>)
    requires |path| >= 1 && AdjacentPath(path)
    ensures AllHeadings(Translated(path))
    ensures Follow(path[0], Translated(path)) == path
  {
    TranslatedShape(path);
    if |path| >= 2 {
      var n := |path|;
      var init := path[..n - 1];
      assert AdjacentPath(init);
      FollowTranslated(init);
      TranslatedShape(init);
      StepHeadingFacts(path[n - 2], path[n - 1]);
      var h := StepHeading(path[n - 2], path[n - 1]);
      var hs := Translated(path);
      assert hs == Translated(init) + h;
      assert hs[..|hs| - 1] == Translated(init);
      assert Last(hs) == h[0];
      var w := Follow(path[0], Translated(init));
      assert w == init && Last(w) == path[n - 2];
      assert Directions[h[0]] == Diff(path[n - 2], path[n - 1]);
      StepDiff(path[n - 2], path[n - 1]);
      assert Follow(path[0], hs) == init + [path[n - 1]];
      assert init + [path[n - 1]] == path;
    }
  }

  /** Translating the cells of a walk of headings gives the headings back. */
  lemma {:induction false} TranslatedFollow(s: Pos, hs: seq<char>)
    requires AllHeadings(hs)
    ensures Translated(Follow(s, hs)) == hs
  {
    if hs != [] {
      var init := hs[..|hs| - 1];
      var h := Last(hs);
      TranslatedFollow(s, init);
      var w := Follow(s, hs);
      var w0 := Follow(s, init);
      assert w == w0 + [Step(Last(w0), Directions[h])];
      assert w[..|w| - 1] == w0;
      assert w[|w| - 2] == Last(w0);
      DiffStep(Last(w0), Directions[h]);
      assert Diff(w[|w| - 2], w[|w| - 1]) == Directions[h];
      HeadingOfDelta(h);
      assert StepHeading(w[|w| - 2], w[|w| - 1]) == [h];
      assert hs == init + [h];
    }
  }

  /** The heading recovered from a compass letter's delta is that letter. */
  lemma HeadingOfDelta(h: char)
    requires h in Directions
    ensures Directions[h] in DeltaToDir && DeltaToDir[Directions[h]] == h
  {
    DeltaToDirInverse();
  }

  /** Every walk of the search graph moves between 4-neighbours. */
  lemma WalkIsAdjacentPath(mem: Belief.Memory, p: seq<Pos>)
    requires IsWalk(mem, p)
    ensures AdjacentPath(p)
  {
  }
}
