/**
 * The badge qualification engine: evaluates a learner's history against the badge
 * catalogue and merges the newly earned badges into the learner's badge list.
 */
module BadgeService {
  import opened Wrappers
  import opened BadgeModel

  type UserId = string

  /** One graded assessment in a learner's history; `totalPoints` may be absent. */
  datatype AssessmentResult = AssessmentResult(course: CourseId, score: int, totalPoints: Option<int>, passed: bool)

  /** The part of a user record the engine reads and writes. */
  datatype Learner = Learner(completedCourses: seq<CourseId>, badges: seq<BadgeId>, assessmentResults: seq<AssessmentResult>)

  // ---------------------------------------------------------------------------
  // Per-result filter of the assessment rule
  // ---------------------------------------------------------------------------

  /**
   * `(score / totalPoints) * 100 >= minScore` without division: both sides are multiplied by
   * `totalPoints`, which flips the comparison when `totalPoints` is negative.
   */
  predicate PercentageAtLeast(score: int, totalPoints: int, minScore: int)
    requires totalPoints != 0
  {
    if totalPoints > 0 then score * 100 >= minScore * totalPoints
    else score * 100 <= minScore * totalPoints
  }

  /** A zero or absent `minScore` imposes no score bar. */
  predicate HasScoreBar(b: Badge)
  {
    b.minScore.Some? && b.minScore.value != 0
  }

  /** Whether one assessment result counts towards an assessment badge. */
  predicate Counts(b: Badge, r: AssessmentResult)
    ensures Counts(b, r) <==>
              && r.totalPoints.Some? && r.totalPoints.value != 0
              && r.passed
              && (HasScoreBar(b) ==>
                    (r.score as real / r.totalPoints.value as real) * 100.0 >= b.minScore.value as real)
              && (b.course.Some? ==> r.course == b.course.value)
  {
    && r.totalPoints.Some? && r.totalPoints.value != 0
    && r.passed
    && (HasScoreBar(b) ==> PercentageAtLeast(r.score, r.totalPoints.value, b.minScore.value))
    && (b.course.Some? ==> r.course == b.course.value)
  }

  /** The indices of the results that count towards badge `b`. */
  ghost function CountingIndices(b: Badge, results: seq<AssessmentResult>): set<int>
  {
    set i | 0 <= i < |results| && Counts(b, results[i])
  }

  /** The length of the filtered result list. */
  function CountPassing(b: Badge, results: seq<AssessmentResult>): (n: nat)
    ensures n <= |results|
  {
    if results == [] then 0
    else CountPassing(b, results[..|results| - 1]) + (if Counts(b, results[|results| - 1]) then 1 else 0)
  }

  // ---------------------------------------------------------------------------
  // Per-badge decision
  // ---------------------------------------------------------------------------

  /**
   * Whether a learner with these completed courses and results earns badge `b`.
   * An absent threshold never qualifies (a comparison with `undefined` is false);
   * `streak`, `community` and `custom` never qualify.
   */
  predicate Qualifies(b: Badge, completed: seq<CourseId>, results: seq<AssessmentResult>)
    ensures Qualifies(b, completed, results) ==> b.criteria == CourseCompletion || b.criteria == AssessmentScore
    ensures Qualifies(b, completed, results) && b.criteria == AssessmentScore ==>
              b.threshold.Some? && b.threshold.value <= |results|
  {
    match b.criteria
    case CourseCompletion =>
      if b.course.Some? then b.course.value in completed
      else b.threshold.Some? && |completed| >= b.threshold.value
    case AssessmentScore =>
      b.threshold.Some? && CountPassing(b, results) >= b.threshold.value
    case _ => false
  }

  /** The ids, in catalogue order, of the badges not yet earned that the learner now qualifies for. */
  function NewlyEarned(catalogue: seq<Badge>, earned: seq<BadgeId>, completed: seq<CourseId>,
                       results: seq<AssessmentResult>): (ids: seq<BadgeId>)
    ensures |ids| <= |catalogue|
    ensures forall x :: x in ids ==> x !in earned
  {
    if catalogue == [] then []
    else
      var b := catalogue[|catalogue| - 1];
      NewlyEarned(catalogue[..|catalogue| - 1], earned, completed, results)
      + (if b.id !in earned && Qualifies(b, completed, results) then [b.id] else [])
  }

  /**
   * `$addToSet` with `$each`: every id of `ys` not already present is appended, in order.
   */
  function AddToSet(xs: seq<BadgeId>, ys: seq<BadgeId>): (r: seq<BadgeId>)
    ensures |xs| <= |r| && r[..|xs|] == xs
    ensures forall x :: x in r <==> x in xs || x in ys
    ensures NoDuplicates(xs) ==> NoDuplicates(r)
    decreases ys
  {
    if ys == [] then xs
    else
      var next := if ys[0] in xs then xs else xs + [ys[0]];
      assert NoDuplicates(xs) ==> NoDuplicates(next);
      var r := AddToSet(next, ys[1..]);
      assert r[..|xs|] == next[..|next|][..|xs|];
      assert forall x :: x in ys <==> x == ys[0] || x in ys[1..];
      r
  }

  predicate NoDuplicates(s: seq<BadgeId>)
  {
    forall i, j :: 0 <= i < j < |s| ==> s[i] != s[j]
  }

  // ---------------------------------------------------------------------------
  // The evaluation loop and the write
  // ---------------------------------------------------------------------------

  /** The loop over the catalogue: skip earned badges, decide the rest, collect the qualifying ids. */
  method EvaluateCatalogue(catalogue: seq<Badge>, earned: seq<BadgeId>, completed: seq<CourseId>,
                           results: seq<AssessmentResult>) returns (newly: seq<BadgeId>)
    ensures newly == NewlyEarned(catalogue, earned, completed, results)
  {
    newly := [];
    var i := 0;
    while i < |catalogue|
      invariant 0 <= i <= |catalogue|
      invariant newly == NewlyEarned(catalogue[..i], earned, completed, results)
    {
      var badge := catalogue[i];
      assert catalogue[..i + 1][..i] == catalogue[..i];
      if badge.id in earned {
        i := i + 1;
        continue;
      }
      var qualifies := false;
      if badge.criteria == CourseCompletion {
        if badge.course.Some? {
          if badge.course.value in completed {
            qualifies := true;
          }
        } else {
          if badge.threshold.Some? && |completed| >= badge.threshold.value {
            qualifies := true;
          }
        }
      } else if badge.criteria == AssessmentScore {
        var passedCount := CountPassing(badge, results);
        if badge.threshold.Some? && passedCount >= badge.threshold.value {
          qualifies := true;
        }
      }
      if qualifies {
        newly := newly + [badge.id];
      }
      i := i + 1;
    }
    assert catalogue[..|catalogue|] == catalogue;
  }

  /** The user collection as far as badge evaluation is concerned. */
  class UserDirectory {
    var users: map<UserId, Learner>

    constructor (users: map<UserId, Learner>)
      ensures this.users == users
    {
      this.users := users;
    }

    /**
     * Evaluates the catalogue for one user and adds the newly earned badges to the user's list.
     * An unknown user returns early with nothing changed; no write happens when nothing is new.
     * The newly earned ids are returned so that callers can observe the delta.
     */
    method CheckAndAssignBadges(userId: UserId, catalogue: seq<Badge>) returns (awarded: seq<BadgeId>)
      modifies this
      ensures userId !in old(users) ==> awarded == [] && users == old(users)
      ensures userId in old(users) ==>
        var u := old(users)[userId];
        && awarded == NewlyEarned(catalogue, u.badges, u.completedCourses, u.assessmentResults)
        && users == (if awarded == [] then old(users)
                     else old(users)[userId := u.(badges := AddToSet(u.badges, awarded))])
      ensures old(users).Keys == users.Keys
      ensures forall id, x :: id in old(users) && x in old(users)[id].badges ==> x in users[id].badges
    {
      awarded := [];
      if userId !in users {
        return;
      }
      var user := users[userId];
      awarded := EvaluateCatalogue(catalogue, user.badges, user.completedCourses, user.assessmentResults);
      if |awarded| > 0 {
        users := users[userId := user.(badges := AddToSet(user.badges, awarded))];
      }
    }
  }

  // ---------------------------------------------------------------------------
  // Properties
  // ---------------------------------------------------------------------------

  /** The integer comparison agrees with the percentage computed as a quotient. */
  lemma PercentageMatchesQuotient(score: int, totalPoints: int, minScore: int)
    requires totalPoints != 0
    ensures PercentageAtLeast(score, totalPoints, minScore)
            <==> (score as real / totalPoints as real) * 100.0 >= minScore as real
  {
  }

  /** The filtered count is the number of results that pass the filter. */
  lemma {:induction false} CountPassingIsCardinality(b: Badge, results: seq<AssessmentResult>)
    ensures CountPassing(b, results) == |CountingIndices(b, results)|
  {
    if results != [] {
      var n := |results| - 1;
      var front := results[..n];
      CountPassingIsCardinality(b, front);
      assert CountingIndices(b, results) ==
        CountingIndices(b, front) + (if Counts(b, results[n]) then {n} else {});
      assert n !in CountingIndices(b, front);
    }
  }

  lemma {:induction false} CountPassingAppend(b: Badge, xs: seq<AssessmentResult>, ys: seq<AssessmentResult>)
    ensures CountPassing(b, xs + ys) == CountPassing(b, xs) + CountPassing(b, ys)
    decreases |ys|
  {
    if ys == [] {
      assert xs + ys == xs;
    } else {
      var m := |ys| - 1;
      CountPassingAppend(b, xs, ys[..m]);
      assert (xs + ys)[..|xs + ys| - 1] == xs + ys[..m];
      assert (xs + ys)[|xs + ys| - 1] == ys[m];
    }
  }

  /** An assessment badge qualifies iff at least `threshold` results pass the filter. */
  lemma AssessmentRule(b: Badge, completed: seq<CourseId>, results: seq<AssessmentResult>)
    requires b.criteria == AssessmentScore
    ensures Qualifies(b, completed, results)
            <==> b.threshold.Some? && |CountingIndices(b, results)| >= b.threshold.value
  {
    CountPassingIsCardinality(b, results);
  }

  /**
   * A course-scoped completion badge qualifies iff its course is completed, whatever the threshold;
   * an unscoped one iff a threshold is set and the number of completed courses reaches it.
   */
  lemma CourseCompletionRule(b: Badge, completed: seq<CourseId>, results: seq<AssessmentResult>)
    requires b.criteria == CourseCompletion
    ensures b.course.Some? ==>
              forall t :: Qualifies(b.(threshold := t), completed, results) <==> b.course.value in completed
    ensures b.course.None? ==>
              (Qualifies(b, completed, results) <==> b.threshold.Some? && |completed| >= b.threshold.value)
  {
  }

  /** The reserved rule kinds never qualify, whatever the history. */
  lemma ReservedCriteriaNeverQualify(b: Badge, completed: seq<CourseId>, results: seq<AssessmentResult>)
    requires b.criteria in {Streak, Community, Custom}
    ensures !Qualifies(b, completed, results)
  {
  }

  /** `isSecret` plays no part in qualification. */
  lemma SecrecyIrrelevant(b: Badge, secret: bool, completed: seq<CourseId>, results: seq<AssessmentResult>)
    ensures Qualifies(b.(isSecret := secret), completed, results) == Qualifies(b, completed, results)
  {
    assert forall r :: Counts(b.(isSecret := secret), r) == Counts(b, r);
    CountPassingSameFilter(b, b.(isSecret := secret), results);
  }

  lemma {:induction false} CountPassingSameFilter(b1: Badge, b2: Badge, results: seq<AssessmentResult>)
    requires forall r :: Counts(b1, r) == Counts(b2, r)
    ensures CountPassing(b1, results) == CountPassing(b2, results)
  {
    if results != [] {
      CountPassingSameFilter(b1, b2, results[..|results| - 1]);
    }
  }

  /** Growing history never withdraws qualification. */
  lemma QualificationMonotone(b: Badge, completed: seq<CourseId>, moreCourses: seq<CourseId>,
                              results: seq<AssessmentResult>, moreResults: seq<AssessmentResult>)
    requires Qualifies(b, completed, results)
    ensures Qualifies(b, completed + moreCourses, results + moreResults)
  {
    CountPassingAppend(b, results, moreResults);
  }

  /** An id is newly earned iff some catalogue badge with that id is unearned and qualifies. */
  lemma {:induction false} NewlyEarnedMembers(catalogue: seq<Badge>, earned: seq<BadgeId>,
                                              completed: seq<CourseId>, results: seq<AssessmentResult>, x: BadgeId)
    ensures x in NewlyEarned(catalogue, earned, completed, results)
            <==> x !in earned && exists k :: 0 <= k < |catalogue| && catalogue[k].id == x
                                             && Qualifies(catalogue[k], completed, results)
  {
    if catalogue != [] {
      var n := |catalogue| - 1;
      var front := catalogue[..n];
      NewlyEarnedMembers(front, earned, completed, results, x);
      if x in NewlyEarned(catalogue, earned, completed, results) {
        if x !in NewlyEarned(front, earned, completed, results) {
          assert catalogue[n].id == x;
        } else {
          var k :| 0 <= k < n && front[k].id == x && Qualifies(front[k], completed, results);
          assert catalogue[k] == front[k];
        }
      } else if x !in earned {
        forall k | 0 <= k < |catalogue| && catalogue[k].id == x
          ensures !Qualifies(catalogue[k], completed, results)
        {
          if k < n {
            assert front[k] == catalogue[k];
          }
        }
      }
    }
  }

  /** Already earned badges are never awarded again. */
  lemma NewlyEarnedDisjoint(catalogue: seq<Badge>, earned: seq<BadgeId>, completed: seq<CourseId>,
                            results: seq<AssessmentResult>)
    ensures forall x :: x in NewlyEarned(catalogue, earned, completed, results) ==> x !in earned
  {
    forall x | x in NewlyEarned(catalogue, earned, completed, results) {
      NewlyEarnedMembers(catalogue, earned, completed, results, x);
    }
  }

  /** Re-evaluating right after the award, with unchanged history, awards nothing. */
  lemma EvaluationIdempotent(catalogue: seq<Badge>, earned: seq<BadgeId>, completed: seq<CourseId>,
                             results: seq<AssessmentResult>)
    ensures var awarded := NewlyEarned(catalogue, earned, completed, results);
            NewlyEarned(catalogue, AddToSet(earned, awarded), completed, results) == []
  {
    var awarded := NewlyEarned(catalogue, earned, completed, results);
    var again := NewlyEarned(catalogue, AddToSet(earned, awarded), completed, results);
    if again != [] {
      var x := again[0];
      NewlyEarnedMembers(catalogue, AddToSet(earned, awarded), completed, results, x);
      NewlyEarnedMembers(catalogue, earned, completed, results, x);
      assert false;
    }
  }

  /** The set of awarded ids does not depend on the catalogue's order. */
  lemma CatalogueOrderIrrelevant(cat1: seq<Badge>, cat2: seq<Badge>, earned: seq<BadgeId>,
                                 completed: seq<CourseId>, results: seq<AssessmentResult>)
    requires forall b :: b in cat1 <==> b in cat2
    ensures forall x :: x in NewlyEarned(cat1, earned, completed, results)
                        <==> x in NewlyEarned(cat2, earned, completed, results)
  {
    forall x
      ensures x in NewlyEarned(cat1, earned, completed, results)
              <==> x in NewlyEarned(cat2, earned, completed, results)
    {
      NewlyEarnedMembers(cat1, earned, completed, results, x);
      NewlyEarnedMembers(cat2, earned, completed, results, x);
      if exists k :: 0 <= k < |cat1| && cat1[k].id == x && Qualifies(cat1[k], completed, results) {
        var k :| 0 <= k < |cat1| && cat1[k].id == x && Qualifies(cat1[k], completed, results);
        assert cat1[k] in cat2;
      }
      if exists k :: 0 <= k < |cat2| && cat2[k].id == x && Qualifies(cat2[k], completed, results) {
        var k :| 0 <= k < |cat2| && cat2[k].id == x && Qualifies(cat2[k], completed, results);
        assert cat2[k] in cat1;
      }
    }
  }

  /** Threshold 2, minimum 70%, course C: results of 80% and 75% qualify, 80% and 60% alone do not. */
  lemma AssessmentScoreExample()
    ensures var b := Badge("b1", "Sharp", None, "icon.png", AssessmentScore, Some(2), Some("C"), Some(70), false);
            var r1 := AssessmentResult("C", 80, Some(100), true);
            var r2 := AssessmentResult("C", 60, Some(100), true);
            var r3 := AssessmentResult("C", 75, Some(100), true);
            Qualifies(b, [], [r1, r2, r3]) && !Qualifies(b, [], [r1, r2])
  {
    var b := Badge("b1", "Sharp", None, "icon.png", AssessmentScore, Some(2), Some("C"), Some(70), false);
    var r1 := AssessmentResult("C", 80, Some(100), true);
    var r2 := AssessmentResult("C", 60, Some(100), true);
    var r3 := AssessmentResult("C", 75, Some(100), true);
    assert [r1, r2, r3][..2] == [r1, r2];
    assert [r1, r2][..1] == [r1];
    assert [r1][..0] == [];
    assert CountPassing(b, [r1]) == 1;
    assert CountPassing(b, [r1, r2]) == 1;
    assert CountPassing(b, [r1, r2, r3]) == 2;
  }

  /**
   * The same badge as read through the strict schema, which declares no `minScore` path: the
   * bar reads as absent, so the 80% and 60% results both count and the badge is awarded.
   */
  lemma AssessmentScoreWithoutBar()
    ensures var b := Badge("b1", "Sharp", None, "icon.png", AssessmentScore, Some(2), Some("C"), None, false);
            var r1 := AssessmentResult("C", 80, Some(100), true);
            var r2 := AssessmentResult("C", 60, Some(100), true);
            Qualifies(b, [], [r1, r2]) && !Qualifies(b, [], [r2])
  {
    var b := Badge("b1", "Sharp", None, "icon.png", AssessmentScore, Some(2), Some("C"), None, false);
    var r1 := AssessmentResult("C", 80, Some(100), true);
    var r2 := AssessmentResult("C", 60, Some(100), true);
    assert [r1, r2][..1] == [r1];
    assert [r1][..0] == [];
    assert [r2][..0] == [];
    assert CountPassing(b, [r1]) == 1;
    assert CountPassing(b, [r1, r2]) == 2;
    assert CountPassing(b, [r2]) == 1;
  }

  /** Threshold 3 without a course: three completed courses qualify, two do not. */
  lemma CourseCountExample()
    ensures var b := Badge("b2", "Finisher", None, "icon.png", CourseCompletion, Some(3), None, None, false);
            Qualifies(b, ["c1", "c2", "c3"], []) && !Qualifies(b, ["c1", "c2"], [])
  {
  }
}
