/**
 * `select_best_from_group`: the representative of a group of duplicate
 * articles is the most recent one, then the one with the longest summary,
 * then the one with the longest title; among equals the first one wins.
 */
module Selector {
  import opened Wrappers

  /**
   * What the selector reads of an item: its publication time as a timestamp
   * (None when the date cannot be parsed), its summary and its title.
   */
  datatype Candidate = Candidate(timestamp: Option<real>, summary: string, title: string)

  /** The date score: the timestamp, or 0 when the date cannot be parsed. */
  function DateScore(c: Candidate): real {
    c.timestamp.GetOr(0.0)
  }

  /** x ranks strictly above y: by date score, then summary length, then title length. */
  predicate Better(x: Candidate, y: Candidate) {
    || DateScore(x) > DateScore(y)
    || (DateScore(x) == DateScore(y) && |x.summary| > |y.summary|)
    || (DateScore(x) == DateScore(y) && |x.summary| == |y.summary| && |x.title| > |y.title|)
  }

  /** Two candidates neither of which ranks above the other have the same three scores. */
  lemma Tied(x: Candidate, y: Candidate)
    requires !Better(x, y) && !Better(y, x)
    ensures DateScore(x) == DateScore(y) && |x.summary| == |y.summary| && |x.title| == |y.title|
  {
  }

  /** The ranking is transitive. */
  lemma BetterTransitive(x: Candidate, y: Candidate, z: Candidate)
    requires Better(x, y) && Better(y, z)
    ensures Better(x, z)
  {
  }

  /**
   * `select_best_from_group`: the index of a candidate no other candidate
   * ranks above, and the first such one. An empty group makes Python raise
   * `IndexError`; callers pass non-empty groups.
   */
  method SelectBestFromGroup(group: seq<Candidate>) returns (best: nat)
    requires |group| > 0
    ensures best < |group|
    ensures forall i :: 0 <= i < |group| ==> !Better(group[i], group[best])
    ensures forall i :: 0 <= i < best ==> Better(group[best], group[i])
  {
    best := 0;
    var bestDate := DateScore(group[0]);
    var bestSummary := |group[0].summary|;
    var bestTitle := |group[0].title|;
    for i := 1 to |group|
      invariant best < i
      invariant bestDate == DateScore(group[best]) && bestSummary == |group[best].summary| && bestTitle == |group[best].title|
      invariant forall j :: 0 <= j < i ==> !Better(group[j], group[best])
      invariant forall j :: 0 <= j < best ==> Better(group[best], group[j])
    {
      var date := DateScore(group[i]);
      var summary := |group[i].summary|;
      var title := |group[i].title|;
      if date > bestDate
        || (date == bestDate && summary > bestSummary)
        || (date == bestDate && summary == bestSummary && title > bestTitle)
      {
        best := i;
        bestDate, bestSummary, bestTitle := date, summary, title;
      }
    }
  }

  /** The two properties SelectBestFromGroup ensures pin the index down: at most one index has both. */
  lemma FirstBestUnique(group: seq<Candidate>, b1: nat, b2: nat)
    requires b1 < |group| && b2 < |group|
    requires forall i :: 0 <= i < |group| ==> !Better(group[i], group[b1])
    requires forall i :: 0 <= i < b1 ==> Better(group[b1], group[i])
    requires forall i :: 0 <= i < |group| ==> !Better(group[i], group[b2])
    requires forall i :: 0 <= i < b2 ==> Better(group[b2], group[i])
    ensures b1 == b2
  {
    var x, y := group[b1], group[b2];
    assert !Better(x, y) && !Better(y, x);
    assert b1 < b2 ==> Better(y, x);
    assert b2 < b1 ==> Better(x, y);
  }
}
