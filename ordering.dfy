/** The anti-bounce ordering of candidate headings that the agent's fallback
    moves try in turn. A candidate is a heading whose destination is not a
    wall; candidates are ordered first by whether they lead back to the
    previous position (those that do go last), then by ascending visit
    count of the destination, ties keeping the table order N, S, E, W. */
module Ordering {
  import opened Utils
  import opened Belief
  import Sorting

  /** A candidate heading with its score: `bounce` is 1 exactly when the
      destination is the previous position, `visits` the destination's
      visit count. */
  datatype Candidate = Candidate(bounce: nat, visits: nat, heading: char, target: Pos)

  function CandidateFor(cur: Pos, last: Option<Pos>, visits: map<Pos, nat>, d: char): (c: Candidate)
    requires d in Directions
    ensures c.heading == d && c.target == Step(cur, Directions[d])
    ensures c.bounce == 1 <==> last == Some(c.target)
    ensures c.bounce <= 1 && c.visits == Count(visits, c.target)
  {
    var q := Step(cur, Directions[d]);
    Candidate(if last.None? || q != last.value then 0 else 1, Count(visits, q), d, q)
  }

  /** Python's tuple order on the score (bounce, visits). */
  function ByScore(): (Candidate, Candidate) -> bool {
    (a: Candidate, b: Candidate) => a.bounce < b.bounce || (a.bounce == b.bounce && a.visits <= b.visits)
  }

  lemma ByScorePreorder()
    ensures Sorting.TotalPreorder(ByScore())
  {
  }

  /** Position of a heading in the table order N, S, E, W. */
  function HeadingRank(d: char): int {
    if d == 'N' then 0 else if d == 'S' then 1 else if d == 'E' then 2 else 3
  }

  function CandidateRank(c: Candidate): int { HeadingRank(c.heading) }

  /** The candidates for the headings `ds`, in the order of `ds`, leaving
      out the headings in `blocked` (those whose destination is a wall). */
  function CandidatesAlong(cur: Pos, last: Option<Pos>, visits: map<Pos, nat>, blocked: set<char>, ds: seq<char>): seq<Candidate>
    requires forall d :: d in ds ==> d in Directions
  {
    if ds == [] then []
    else
      var d := ds[|ds| - 1];
      CandidatesAlong(cur, last, visits, blocked, ds[..|ds| - 1])
        + (if d in blocked then [] else [CandidateFor(cur, last, visits, d)])
  }

  /** The candidates of all four headings, stably sorted by score. */
  function SortedCandidates(cur: Pos, last: Option<Pos>, visits: map<Pos, nat>, blocked: set<char>): seq<Candidate> {
    DirectionsKeys();
    Sorting.SortBy(CandidatesAlong(cur, last, visits, blocked, Order), ByScore())
  }

  /** The headings tried by the fallback moves, best first. */
  function Ordered(cur: Pos, last: Option<Pos>, visits: map<Pos, nat>, blocked: set<char>): (hs: seq<char>)
    ensures forall k :: 0 <= k < |hs| ==> hs[k] in Directions
  {
    var sorted := SortedCandidates(cur, last, visits, blocked);
    SortedCandidatesMembers(cur, last, visits, blocked);
    seq(|sorted|, k requires 0 <= k < |sorted| => sorted[k].heading)
  }

  /** The sorted candidates are exactly the candidates of the headings that
      are not blocked. */
  lemma SortedCandidatesMembers(cur: Pos, last: Option<Pos>, visits: map<Pos, nat>, blocked: set<char>)
    ensures var sorted := SortedCandidates(cur, last, visits, blocked);
      && (forall k :: 0 <= k < |sorted| ==>
            sorted[k].heading in Directions && sorted[k].heading !in blocked &&
            sorted[k] == CandidateFor(cur, last, visits, sorted[k].heading))
      && (forall d :: d in Directions && d !in blocked ==> CandidateFor(cur, last, visits, d) in sorted)
  {
    DirectionsKeys();
    var cs := CandidatesAlong(cur, last, visits, blocked, Order);
    CandidatesAlongMembers(cur, last, visits, blocked, Order);
    Sorting.SortByMembers(cs, ByScore());
    var sorted := SortedCandidates(cur, last, visits, blocked);
    assert forall k :: 0 <= k < |sorted| ==> sorted[k] in cs;
  }

  /** The sorted candidates are in score order, and equal scores keep the
      rank order N, S, E, W. */
  lemma SortedCandidatesOrder(cur: Pos, last: Option<Pos>, visits: map<Pos, nat>, blocked: set<char>)
    ensures Sorting.Sorted(SortedCandidates(cur, last, visits, blocked), ByScore())
    ensures Sorting.TiesRanked(SortedCandidates(cur, last, visits, blocked), ByScore(), CandidateRank)
  {
    DirectionsKeys();
    var cs := CandidatesAlong(cur, last, visits, blocked, Order);
    CandidatesAlongRanked(cur, last, visits, blocked, Order);
    ByScorePreorder();
    Sorting.SortBySorted(cs, ByScore());
    Sorting.SortByTiesRanked(cs, ByScore(), CandidateRank);
  }

  /** The fallback order lists each heading whose destination is not a wall,
      and nothing else. */
  lemma OrderedMembers(cur: Pos, last: Option<Pos>, visits: map<Pos, nat>, blocked: set<char>)
    ensures forall d :: d in Ordered(cur, last, visits, blocked) <==> d in Directions && d !in blocked
  {
    var sorted := SortedCandidates(cur, last, visits, blocked);
    var hs := Ordered(cur, last, visits, blocked);
    SortedCandidatesMembers(cur, last, visits, blocked);
    forall d | d in Directions && d !in blocked ensures d in hs {
      var k :| 0 <= k < |sorted| && sorted[k] == CandidateFor(cur, last, visits, d);
      assert hs[k] == d;
    }
  }

  /** The fallback order is sorted by score, so headings that do not lead
      back to the previous position come first and visit counts ascend
      within each group; headings with equal scores keep the order
      N, S, E, W; and no heading is listed twice. */
  lemma OrderedExact(cur: Pos, last: Option<Pos>, visits: map<Pos, nat>, blocked: set<char>)
    ensures var hs := Ordered(cur, last, visits, blocked);
      && (forall a, b :: 0 <= a < b < |hs| ==>
            ByScore()(CandidateFor(cur, last, visits, hs[a]), CandidateFor(cur, last, visits, hs[b])))
      && (forall a, b :: 0 <= a < b < |hs| ==>
            (CandidateFor(cur, last, visits, hs[a]).bounce == CandidateFor(cur, last, visits, hs[b]).bounce &&
             CandidateFor(cur, last, visits, hs[a]).visits == CandidateFor(cur, last, visits, hs[b]).visits) ==>
            HeadingRank(hs[a]) < HeadingRank(hs[b]))
      && (forall a, b :: 0 <= a < b < |hs| ==> hs[a] != hs[b])
  {
    var sorted := SortedCandidates(cur, last, visits, blocked);
    var hs := Ordered(cur, last, visits, blocked);
    SortedCandidatesMembers(cur, last, visits, blocked);
    SortedCandidatesOrder(cur, last, visits, blocked);
    assert forall k :: 0 <= k < |hs| ==> sorted[k] == CandidateFor(cur, last, visits, hs[k]);
  }

  lemma {:induction false} CandidatesAlongMembers(cur: Pos, last: Option<Pos>, visits: map<Pos, nat>, blocked: set<char>, ds: seq<char>)
    requires forall d :: d in ds ==> d in Directions
    ensures forall c :: c in CandidatesAlong(cur, last, visits, blocked, ds) <==>
      c.heading in ds && c.heading !in blocked && c.heading in Directions && c == CandidateFor(cur, last, visits, c.heading)
  {
    if ds != [] {
      var init := ds[..|ds| - 1];
      CandidatesAlongMembers(cur, last, visits, blocked, init);
      assert ds == init + [ds[|ds| - 1]];
    }
  }

  predicate RankIncreasing(cs: seq<Candidate>) {
    forall a, b :: 0 <= a < b < |cs| ==> CandidateRank(cs[a]) < CandidateRank(cs[b])
  }

  /** Along headings of strictly increasing rank, the candidates too have
      strictly increasing rank. */
  lemma {:induction false} CandidatesAlongRanked(cur: Pos, last: Option<Pos>, visits: map<Pos, nat>, blocked: set<char>, ds: seq<char>)
    requires forall d :: d in ds ==> d in Directions
    requires forall a, b :: 0 <= a < b < |ds| ==> HeadingRank(ds[a]) < HeadingRank(ds[b])
    ensures RankIncreasing(CandidatesAlong(cur, last, visits, blocked, ds))
  {
    if ds != [] {
      var init := ds[..|ds| - 1];
      var d := ds[|ds| - 1];
      CandidatesAlongRanked(cur, last, visits, blocked, init);
      CandidatesAlongMembers(cur, last, visits, blocked, init);
      var cs0 := CandidatesAlong(cur, last, visits, blocked, init);
      forall k | 0 <= k < |cs0| ensures CandidateRank(cs0[k]) < HeadingRank(d) {
        assert cs0[k] in cs0;
        var m :| 0 <= m < |init| && init[m] == cs0[k].heading;
        assert ds[m] == init[m];
      }
      var tail := if d in blocked then [] else [CandidateFor(cur, last, visits, d)];
      var cs := CandidatesAlong(cur, last, visits, blocked, ds);
      assert cs == cs0 + tail;
      forall a, b | 0 <= a < b < |cs| ensures CandidateRank(cs[a]) < CandidateRank(cs[b]) {
        if b < |cs0| {
          assert cs[a] == cs0[a] && cs[b] == cs0[b];
          assert CandidateRank(cs0[a]) < CandidateRank(cs0[b]);
        } else {
          assert cs[a] == cs0[a] && cs[b] == tail[0];
          assert CandidateRank(cs0[a]) < HeadingRank(d);
          assert CandidateRank(tail[0]) == HeadingRank(d);
        }
      }
    }
  }

  /** The first heading of `hs` whose destination from `cur` is unknown in
      `mem` and is not blocked. */
  function FirstUnknown(hs: seq<char>, cur: Pos, mem: Memory, blocked: set<char>): (r: Option<char>)
    requires forall k :: 0 <= k < |hs| ==> hs[k] in Directions
    ensures r.Some? ==> r.value in hs && Step(cur, Directions[r.value]) !in mem && r.value !in blocked
    ensures r.None? ==> forall k :: 0 <= k < |hs| ==> Step(cur, Directions[hs[k]]) in mem || hs[k] in blocked
    ensures r.Some? ==> exists k :: 0 <= k < |hs| && hs[k] == r.value &&
                         forall m :: 0 <= m < k ==> Step(cur, Directions[hs[m]]) in mem || hs[m] in blocked
  {
    if hs == [] then None
    else if Step(cur, Directions[hs[0]]) !in mem && hs[0] !in blocked then Some(hs[0])
    else FirstUnknown(hs[1..], cur, mem, blocked)
  }

  /** The first heading of `hs` whose destination from `cur` is known and is
      not a wall. */
  function FirstKnownFree(hs: seq<char>, cur: Pos, mem: Memory): (r: Option<char>)
    requires forall k :: 0 <= k < |hs| ==> hs[k] in Directions
    ensures r.Some? ==> r.value in hs && Traversable(mem, Step(cur, Directions[r.value]))
    ensures r.None? ==> forall k :: 0 <= k < |hs| ==> !Traversable(mem, Step(cur, Directions[hs[k]]))
    ensures r.Some? ==> exists k :: 0 <= k < |hs| && hs[k] == r.value &&
                         forall m :: 0 <= m < k ==> !Traversable(mem, Step(cur, Directions[hs[m]]))
  {
    if hs == [] then None
    else if Traversable(mem, Step(cur, Directions[hs[0]])) then Some(hs[0])
    else FirstKnownFree(hs[1..], cur, mem)
  }

  /** The fallback heading among `hs`: the first toward an unknown cell that
      is not blocked, else the first toward a known non-wall cell. */
  function Choice(hs: seq<char>, cur: Pos, mem: Memory, blocked: set<char>): Option<char>
    requires forall k :: 0 <= k < |hs| ==> hs[k] in Directions
  {
    var f1 := FirstUnknown(hs, cur, mem, blocked);
    if f1.Some? then f1 else FirstKnownFree(hs, cur, mem)
  }
}
