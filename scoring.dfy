/**
 * The score store and the selection rule of flash.rb: a score per name,
 * moved by one after every answer, and the choice of the next name among the
 * lowest-scoring names that the recency window does not hold.
 */
module Scoring {
  import opened Common

  /** The score store (`@score`): a signed score per name. */
  type Scores = map<Name, int>

  /** The fresh store built when no score file exists: every known name at 0. */
  function FreshScores(names: seq<Name>): (score: Scores)
    ensures score.Keys == Elems(names)
    ensures forall n :: n in score ==> score[n] == 0
  {
    map n | n in names :: 0
  }

  /**
   * The update of `update_score`: the named entry goes up by one for a
   * correct answer and down by one otherwise, and no other entry changes.
   */
  function Adjusted(score: Scores, name: Name, correct: bool): (r: Scores)
    requires name in score
    ensures r.Keys == score.Keys
    ensures r[name] - score[name] == (if correct then 1 else -1)
    ensures forall n :: n in score && n != name ==> r[n] == score[n]
  {
    score[name := score[name] + if correct then 1 else -1]
  }

  /**
   * The names the selection may pick (the `select` of
   * `names_by_score_without_most_recent`): scored, and not in the recency
   * window. The window's contents are read directly; `Recency.LRU.Has` is
   * proved to be membership in them.
   */
  function Eligible(score: Scores, recent: seq<Name>): set<Name>
  {
    set n | n in score && IsEligible(score, recent, n)
  }

  /** Name `n` is scored and not in the window. */
  predicate IsEligible(score: Scores, recent: seq<Name>, n: Name)
  {
    n in score && n !in recent
  }

  /** The scores that eligible names have. */
  function EligibleScores(score: Scores, recent: seq<Name>): set<int>
  {
    set n | n in Eligible(score, recent) :: score[n]
  }

  /**
   * `names_by_score_without_most_recent`: the eligible names grouped by
   * score. Every group is non-empty and holds eligible names of its score.
   */
  function NamesByScore(score: Scores, recent: seq<Name>): (groups: map<int, set<Name>>)
    ensures forall v :: v in groups ==> groups[v] != {}
    ensures forall v, n :: v in groups && n in groups[v] ==> n in Eligible(score, recent) && score[n] == v
  {
    var groups := map v | v in EligibleScores(score, recent) :: set n | n in Eligible(score, recent) && score[n] == v;
    assert forall v :: v in groups ==> groups[v] != {} by {
      forall v | v in groups ensures groups[v] != {} {
        var n :| n in Eligible(score, recent) && score[n] == v;
        assert n in groups[v];
      }
    }
    groups
  }

  /** `n` is eligible and no eligible name scores lower. */
  ghost predicate LowestEligible(score: Scores, recent: seq<Name>, n: Name)
  {
    IsEligible(score, recent, n) && forall m :: IsEligible(score, recent, m) ==> score[n] <= score[m]
  }

  /** Every non-empty finite set of scores has a least element. */
  lemma {:induction false} HasLeast(keys: set<int>)
    requires keys != {}
    ensures exists m :: m in keys && forall k :: k in keys ==> m <= k
  {
    assert exists x :: x in keys by {
      if forall x :: x !in keys {
        assert false;
      }
    }
    var x :| x in keys;
    var rest := keys - {x};
    if rest == {} {
      forall k | k in keys ensures x <= k {
        assert k !in rest;
      }
    } else {
      HasLeast(rest);
      var m :| m in rest && forall k :: k in rest ==> m <= k;
      var low := if x < m then x else m;
      forall k | k in keys ensures low <= k {
        if k != x {
          assert k in rest;
        }
      }
      assert low in keys;
    }
  }

  /** The least of a non-empty set of scores: the key `min_by` finds. */
  function Least(keys: set<int>): (m: int)
    requires keys != {}
    ensures m in keys
    ensures forall k :: k in keys ==> m <= k
  {
    HasLeast(keys);
    var m :| m in keys && forall k :: k in keys ==> m <= k;
    m
  }

  /**
   * The group `random_name_among_lowest_scoring` samples from: the names of
   * the lowest score among the eligible ones; empty when nothing is eligible
   * (where the source's `min_by` gives nil and it raises).
   */
  function LowestScoring(score: Scores, recent: seq<Name>): (group: set<Name>)
    ensures group <= Eligible(score, recent)
  {
    var groups := NamesByScore(score, recent);
    if groups == map[] then {} else groups[Least(groups.Keys)]
  }

  /**
   * Grouping by score loses no name: every eligible name is in the group of
   * its own score (with the contract of NamesByScore, the groups partition
   * the eligible names by score).
   */
  lemma GroupsPartitionEligible(score: Scores, recent: seq<Name>)
    ensures forall n :: n in Eligible(score, recent) ==>
              score[n] in NamesByScore(score, recent) && n in NamesByScore(score, recent)[score[n]]
  {
    var groups := NamesByScore(score, recent);
    forall n | n in Eligible(score, recent)
      ensures score[n] in groups && n in groups[score[n]]
    {
      assert score[n] in EligibleScores(score, recent);
    }
  }

  /**
   * The selection rule: a name is in the sampled group exactly when it is
   * eligible and no eligible name has a lower score; the group is empty
   * exactly when no name is eligible.
   */
  lemma LowestScoringIsLowestEligible(score: Scores, recent: seq<Name>)
    ensures forall n :: n in LowestScoring(score, recent) <==> LowestEligible(score, recent, n)
    ensures LowestScoring(score, recent) == {} <==> Eligible(score, recent) == {}
  {
    var groups := NamesByScore(score, recent);
    GroupsPartitionEligible(score, recent);
    if groups != map[] {
      var low := Least(groups.Keys);
      forall n ensures n in groups[low] <==> LowestEligible(score, recent, n) {
        if n in groups[low] {
          forall m | m in score && m !in recent ensures score[n] <= score[m] {
            assert score[m] in groups.Keys;
          }
        }
        if LowestEligible(score, recent, n) {
          var w :| w in groups[low];
          assert score[n] <= score[w] == low;
          assert low <= score[n];
        }
      }
      var w :| w in groups[low];
      assert w in Eligible(score, recent);
    }
  }

  /** With a fresh store and an empty window every known name may come first. */
  lemma FreshStoreAllLowest(names: seq<Name>)
    ensures LowestScoring(FreshScores(names), []) == Elems(names)
  {
    var score := FreshScores(names);
    LowestScoringIsLowestEligible(score, []);
    forall n | n in Elems(names) ensures LowestEligible(score, [], n) {
    }
  }

  /** With scores A:0, B:0, C:5 and nobody recent the pick is A or B, never C. */
  lemma SelectionExample(a: Name, b: Name, c: Name, score: Scores)
    requires a == "A" && b == "B" && c == "C" && score == map[a := 0, b := 0, c := 5]
    ensures LowestScoring(score, []) == {a, b}
  {
    LowestScoringIsLowestEligible(score, []);
    LowestOfExample(a, b, c, score);
  }

  /** The lowest eligible names of SelectionExample. */
  lemma LowestOfExample(a: Name, b: Name, c: Name, score: Scores)
    requires a == "A" && b == "B" && c == "C" && score == map[a := 0, b := 0, c := 5]
    ensures forall n :: LowestEligible(score, [], n) <==> n == a || n == b
  {
    assert a != c && b != c;
    assert a in Eligible(score, []);
  }

  /** With the same scores and A and B recent the pick is C, although C scores higher. */
  lemma SelectionSkipsRecentExample(a: Name, b: Name, c: Name, score: Scores)
    requires a == "A" && b == "B" && c == "C" && score == map[a := 0, b := 0, c := 5]
    ensures LowestScoring(score, [b, a]) == {c}
  {
    assert Eligible(score, [b, a]) == {c};
    LowestScoringIsLowestEligible(score, [b, a]);
    assert LowestEligible(score, [b, a], c);
  }
}
