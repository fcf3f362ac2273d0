/**
 * The game of flash.rb (class `Flashcards`): each turn picks a student among
 * the lowest-scoring ones not shown recently, shows their picture, reads a
 * line and either runs one of the commands `show score`, `save`, `quit` or
 * grades the line as a guess of the student's name.
 *
 * Terminal output, the picture and the score file are recorded as events;
 * the line read and the set of students that have a picture are parameters.
 */
module Game {
  import opened Common
  import opened Recency
  import opened Names
  import opened Scoring

  /** `IGNORE_MOST_RECENT`: how many of the latest students the pick skips. */
  const IgnoreMostRecent: nat := 5

  /** What the line typed at the prompt asks for. */
  datatype Command = ShowScore | Save | Quit | Answer(guess: string)

  /**
   * The `case` of `game_loop`: the three command words, matched exactly, and
   * anything else taken as a guess, exactly as typed.
   */
  function Dispatch(input: string): (c: Command)
    ensures c == ShowScore <==> input == "show score"
    ensures c == Save <==> input == "save"
    ensures c == Quit <==> input == "quit"
    ensures c.Answer? ==> c.guess == input
  {
    if input == "show score" then ShowScore
    else if input == "save" then Save
    else if input == "quit" then Quit
    else Answer(input)
  }

  /**
   * The message printed after a guess: one from the praise pool, given the
   * guess (`random_success`), or one from the correction pool, given the
   * normalised first name and the guess (`random_failure`).
   */
  datatype Feedback = Praise(name: string) | Correction(actual: string, guess: string)

  /** What a turn shows the player or writes out. */
  datatype Event =
    | ShowImage(student: Name)
    | Prompt
    | Said(feedback: Feedback)
    | PrintedScores(shown: Scores)
    | SavedScores(saved: Scores)
    | Exited

  /** How a turn ends: ready for the next one, quit, or an uncaught exception. */
  datatype Outcome = Continues | Stops | Crashes

  /**
   * `initialize_score`: the stored scores when the score file exists,
   * otherwise every known name at 0.
   */
  function InitialScores(names: seq<Name>, stored: Option<Scores>): (score: Scores)
    ensures stored.Some? ==> score == stored.value
    ensures stored.None? ==> score.Keys == Elems(names) && forall n :: n in score ==> score[n] == 0
  {
    match stored
    case Some(s) => s
    case None => FreshScores(names)
  }

  /**
   * The feedback for a guess: praise exactly when the guess counts, and then
   * it quotes the guess as typed; otherwise a correction naming the
   * normalised first name and the guess.
   */
  function Graded(guess: string, fullName: Name): (f: Feedback)
    requires FirstName(fullName).Some?
    ensures f.Praise? <==> GotIt(guess, fullName)
    ensures f.Praise? ==> f.name == guess
    ensures f.Correction? ==> f.actual == Normalize(FirstName(fullName).value) && f.guess == guess
  {
    if GotIt(guess, fullName) then Praise(guess) else Correction(Normalize(FirstName(fullName).value), guess)
  }

  /**
   * A name shown in one of the last `IgnoreMostRecent` turns is not shown
   * again: the names of `shown`, in the order they were shown, differ within
   * every stretch of that many turns.
   */
  ghost predicate NoRepeatWithinWindow(shown: seq<Name>)
  {
    forall i, j :: 0 <= i < j < |shown| && j - i <= IgnoreMostRecent ==> shown[i] != shown[j]
  }

  /**
   * The window after the names `shown` (oldest first) were pushed, none of
   * them held at the time it was pushed, onto a window that held `start`.
   */
  function WindowAfter(start: seq<Name>, shown: seq<Name>): seq<Name>
  {
    Truncate(Reversed(shown) + start, IgnoreMostRecent)
  }

  /** Pushing a name the window does not hold extends `WindowAfter` by that name. */
  lemma WindowAfterPush(start: seq<Name>, shown: seq<Name>, x: Name)
    requires x !in WindowAfter(start, shown)
    ensures Pushed(WindowAfter(start, shown), x, IgnoreMostRecent) == WindowAfter(start, shown + [x])
  {
    var r := Reversed(shown) + start;
    PushAsWrittenAgreesOnNewNames(WindowAfter(start, shown), x, IgnoreMostRecent);
    TruncateCons(x, Truncate(r, IgnoreMostRecent), IgnoreMostRecent);
    TruncateTruncate(r, IgnoreMostRecent, IgnoreMostRecent - 1);
    TruncateCons(x, r, IgnoreMostRecent);
    assert (shown + [x])[..|shown|] == shown;
    assert Reversed(shown + [x]) + start == [x] + r;
  }

  /** The last `IgnoreMostRecent` names shown are all in the window. */
  lemma RecentInWindow(start: seq<Name>, shown: seq<Name>, i: nat)
    requires i < |shown| && |shown| - i <= IgnoreMostRecent
    ensures shown[i] in WindowAfter(start, shown)
  {
    var k := |shown| - 1 - i;
    ReversedAt(shown, k);
    assert (Reversed(shown) + start)[k] == shown[i];
    assert WindowAfter(start, shown)[k] == shown[i];
  }

  /**
   * Showing a name the window does not hold keeps the turns free of
   * repeats within the window's length.
   */
  lemma NoRepeatAfterPush(start: seq<Name>, shown: seq<Name>, x: Name)
    requires NoRepeatWithinWindow(shown)
    requires x !in WindowAfter(start, shown)
    ensures NoRepeatWithinWindow(shown + [x])
  {
    var s := shown + [x];
    forall i, j | 0 <= i < j < |s| && j - i <= IgnoreMostRecent ensures s[i] != s[j] {
      if j == |shown| {
        RecentInWindow(start, shown, i);
      } else {
        assert s[i] == shown[i] && s[j] == shown[j];
      }
    }
  }

  /**
   * With more names than the window holds, some name is always eligible, so
   * the pick never finds an empty group.
   */
  lemma AlwaysEligibleWithManyNames(score: Scores, window: seq<Name>)
    requires |window| <= IgnoreMostRecent
    requires |score.Keys| > IgnoreMostRecent
    ensures Eligible(score, window) != {}
  {
    if Eligible(score, window) == {} {
      assert score.Keys <= Elems(window) by {
        forall n | n in score.Keys ensures n in Elems(window) {
          assert n !in Eligible(score, window);
        }
      }
      SubsetSize(score.Keys, Elems(window));
      ElemsSize(window);
    }
  }

  /** Every name in `shown` has a score in `score`. */
  ghost predicate AllScored(score: Scores, shown: seq<Name>)
  {
    forall i :: 0 <= i < |shown| ==> shown[i] in score
  }

  /** Showing a scored name keeps `AllScored`. */
  lemma AllScoredStep(score: Scores, shown: seq<Name>, x: Name)
    requires AllScored(score, shown)
    requires x in score
    ensures AllScored(score, shown + [x])
  {
  }

  /**
   * With at most as many names as the window holds, a game without repeats
   * inside the window shows at most one turn per name: the pick after every
   * name has been shown finds nobody eligible, and `game_loop` raises.
   */
  lemma FewNamesRunOut(score: Scores, shown: seq<Name>)
    requires NoRepeatWithinWindow(shown)
    requires AllScored(score, shown)
    ensures |score.Keys| <= IgnoreMostRecent ==> |shown| <= |score.Keys|
  {
    var names := score.Keys;
    if |names| <= IgnoreMostRecent && |shown| > |names| {
      var p := shown[..|names| + 1];
      assert Distinct(p) by {
        forall i, j | 0 <= i < j < |p| ensures p[i] != p[j] {
          assert p[i] == shown[i] && p[j] == shown[j];
        }
      }
      DistinctElemsSize(p);
      assert Elems(p) <= names by {
        forall y | y in Elems(p) ensures y in names {
          var i :| 0 <= i < |p| && p[i] == y;
          assert shown[i] == y;
        }
      }
      SubsetSize(Elems(p), names);
    }
  }

  /**
   * Once every name has been pushed into the window (at most a window's
   * worth of distinct names, newest first), nobody is eligible.
   */
  lemma NobodyEligibleOnceAllShown(score: Scores, start: seq<Name>, recent: seq<Name>)
    requires WindowOk(start, IgnoreMostRecent)
    requires Distinct(recent) && |recent| <= IgnoreMostRecent
    requires score.Keys <= Elems(recent)
    ensures Eligible(score, PushAll(start, recent, IgnoreMostRecent)) == {}
  {
    var w := PushAll(start, recent, IgnoreMostRecent);
    PushAllWindow(start, recent, IgnoreMostRecent);
    assert w[..|recent|] == recent;
    forall n | n in score ensures n in w {
      assert n in Elems(recent);
      var i :| 0 <= i < |recent| && recent[i] == n;
      assert w[i] == n;
    }
  }

  /** The grading steps of the two-student game below. */
  lemma TwoStudentGrades(alice: Name, bob: Name, right: string, wrong: string)
    requires alice == "alice_jones" && bob == "bob_lee" && right == "alice" && wrong == "wrong"
    ensures FirstName(alice).Some? && GotIt(right, alice)
    ensures FirstName(bob).Some? && !GotIt(wrong, bob)
  {
    assert !IsSeparator(alice[0]);
    FirstNameEndsAt(alice, 5);
    assert alice[..5] == right;
    assert !IsSeparator(bob[0]);
    FirstNameEndsAt(bob, 3);
    NormalFormCharacterized(bob[..3]);
    NormalFormCharacterized(wrong);
    NormalFormCharacterized(bob);
    assert wrong[0] != bob[0];
  }

  /** The first pick of the two-student game: either student. */
  lemma TwoStudentFirstPick(alice: Name, bob: Name)
    requires alice != bob
    ensures LowestScoring(FreshScores([alice, bob]), []) == {alice, bob}
  {
    FreshStoreAllLowest([alice, bob]);
    assert Elems([alice, bob]) == {alice, bob};
  }

  /** The second pick of the two-student game: the student not in the window. */
  lemma TwoStudentSecondPick(alice: Name, bob: Name)
    requires alice != bob
    ensures LowestScoring(map[alice := 1, bob := 0], Pushed([], alice, IgnoreMostRecent)) == {bob}
  {
    var s1 := map[alice := 1, bob := 0];
    var w := Pushed([], alice, IgnoreMostRecent);
    assert w == [alice];
    LowestScoringIsLowestEligible(s1, w);
    assert LowestEligible(s1, w, bob);
  }

  /** The two score updates of the two-student game. */
  lemma TwoStudentUpdates(alice: Name, bob: Name)
    requires alice != bob
    ensures Adjusted(FreshScores([alice, bob]), alice, true) == map[alice := 1, bob := 0]
    ensures Adjusted(map[alice := 1, bob := 0], bob, false) == map[alice := 1, bob := -1]
  {
    var s0 := FreshScores([alice, bob]);
    assert s0.Keys == {alice, bob};
    assert Adjusted(s0, alice, true).Keys == (map[alice := 1, bob := 0]).Keys;
  }

  /**
   * A game over two students from a fresh store: either may come first; say
   * alice is shown and answered "alice" (`right`), which counts; alice is then in the
   * window, so bob is picked next, and "wrong" costs bob a point.
   */
  lemma TwoStudentGame(alice: Name, bob: Name, right: string, wrong: string)
    requires alice == "alice_jones" && bob == "bob_lee" && right == "alice" && wrong == "wrong"
    ensures LowestScoring(FreshScores([alice, bob]), []) == {alice, bob}
    ensures FirstName(alice).Some? && FirstName(bob).Some?
    ensures Adjusted(FreshScores([alice, bob]), alice, GotIt(right, alice)) == map[alice := 1, bob := 0]
    ensures LowestScoring(map[alice := 1, bob := 0], Pushed([], alice, IgnoreMostRecent)) == {bob}
    ensures Adjusted(map[alice := 1, bob := 0], bob, GotIt(wrong, bob)) == map[alice := 1, bob := -1]
  {
    assert alice[0] != bob[0];
    TwoStudentGrades(alice, bob, right, wrong);
    TwoStudentFirstPick(alice, bob);
    TwoStudentSecondPick(alice, bob);
    TwoStudentUpdates(alice, bob);
  }

  /** Every name of `before` that is not in `shown` has the same score in `after`. */
  ghost predicate ScoresKept(before: Scores, after: Scores, shown: seq<Name>)
  {
    forall n :: n in before && n !in shown ==> n in after && after[n] == before[n]
  }

  /** A turn that changes at most the picked student's score keeps `ScoresKept`. */
  lemma ScoresKeptStep(start: Scores, before: Scores, after: Scores, shown: seq<Name>, student: Option<Name>)
    requires ScoresKept(start, before, shown)
    requires before.Keys == after.Keys
    requires forall n :: n in before && (student.None? || n != student.value) ==> after[n] == before[n]
    ensures ScoresKept(start, after, if student.Some? then shown + [student.value] else shown)
  {
  }

  /** `Flashcards`: the scores and the recency window of one game. */
  class Flashcards {
    /** `@lru`: the students shown most recently. */
    const lru: LRU
    /** `@score`: the score of every student. */
    var score: Scores

    ghost predicate Valid()
      reads this, lru
    {
      lru.Valid() && lru.size == IgnoreMostRecent
    }

    /**
     * `Flashcards.new`: an empty window and the initial scores, from the
     * score file's contents when it exists (`stored`), otherwise a 0 for each
     * of `names`, the students that have a picture.
     */
    constructor (names: seq<Name>, stored: Option<Scores>)
      ensures Valid() && fresh(lru) && lru.data == []
      ensures score == InitialScores(names, stored)
    {
      lru := new LRU(IgnoreMostRecent);
      score := InitialScores(names, stored);
    }

    /**
     * `update_score`: grades `guess` against the student `fullName`, moves
     * their score by one up or down accordingly and says so. The source
     * raises when the student has no first name (a name made of separators
     * only), which callers must rule out.
     */
    method UpdateScore(guess: string, fullName: Name) returns (said: Feedback)
      requires fullName in score && FirstName(fullName).Some?
      modifies this
      ensures score == Adjusted(old(score), fullName, GotIt(guess, fullName))
      ensures said == Graded(guess, fullName)
    {
      var nguess := Normalize(guess);
      var nfullName := Normalize(fullName);
      var nfirst := Normalize(FirstName(fullName).value);
      var gotIt := nguess == nfirst || guess == nfullName;
      said := if gotIt then Praise(guess) else Correction(nfirst, guess);
      score := score[fullName := score[fullName] + if gotIt then 1 else -1];
    }

    /**
     * `random_name_among_lowest_scoring`: any student of the lowest score
     * among those not in the window. When every student is in the window
     * `min_by` gives nil and the source raises; that is None here.
     */
    method RandomNameAmongLowestScoring() returns (r: Option<Name>)
      ensures r.None? <==> Eligible(score, lru.data) == {}
      ensures r.Some? ==> LowestEligible(score, lru.data, r.value)
    {
      var groups := NamesByScore(score, lru.data);
      LowestScoringIsLowestEligible(score, lru.data);
      if groups == map[] {
        r := None;
      } else {
        var lowest := groups[Least(groups.Keys)];
        GroupsPartitionEligible(score, lru.data);
        var n :| n in lowest;
        r := Some(n);
      }
    }

    /**
     * `game_loop`: one turn. The student picked is pushed into the window
     * (never raising, since the pick is never in it), their picture shown and
     * the answer read; then the command runs or the guess is graded.
     * `pictured` holds the students that have a picture; showing anyone
     * else raises. The returned student is the one picked, if any.
     */
    method GameLoop(input: string, pictured: set<Name>) returns (student: Option<Name>, outcome: Outcome, events: seq<Event>)
      requires Valid()
      modifies this, lru
      ensures Valid()
      ensures score.Keys == old(score).Keys
      ensures forall n :: n in old(score) && (student.None? || n != student.value) ==> score[n] == old(score)[n]
      ensures outcome == Stops ==> student.Some? && input == "quit"
      ensures student.None? <==> Eligible(old(score), old(lru.data)) == {}
      ensures student.None? ==> outcome == Crashes && events == [] && score == old(score) && lru.data == old(lru.data)
      ensures student.Some? ==> LowestEligible(old(score), old(lru.data), student.value)
      ensures student.Some? ==> lru.data == Pushed(old(lru.data), student.value, IgnoreMostRecent)
      ensures student.Some? ==> PushAsWritten(old(lru.data), student.value, IgnoreMostRecent) == Some(lru.data)
      ensures student.Some? && student.value !in pictured ==>
                outcome == Crashes && events == [] && score == old(score)
      ensures student.Some? && student.value in pictured ==>
                var shown := [ShowImage(student.value), Prompt];
                match Dispatch(input)
                case ShowScore => outcome == Continues && score == old(score) && events == shown + [PrintedScores(score)]
                case Save => outcome == Continues && score == old(score) && events == shown + [SavedScores(score)]
                case Quit => outcome == Stops && score == old(score) && events == shown + [SavedScores(score), Exited]
                case Answer(guess) =>
                  if FirstName(student.value).None? then
                    outcome == Crashes && score == old(score) && events == shown
                  else
                    outcome == Continues && score == Adjusted(old(score), student.value, GotIt(guess, student.value))
                    && events == shown + [Said(Graded(guess, student.value))]
    {
      student := RandomNameAmongLowestScoring();
      if student.None? {
        return student, Crashes, [];
      }
      var name := student.value;
      PushAsWrittenAgreesOnNewNames(lru.data, name, IgnoreMostRecent);
      lru.Push(name);
      if name !in pictured {
        return student, Crashes, [];
      }
      events := [ShowImage(name), Prompt];
      match Dispatch(input)
      case ShowScore =>
        events := events + [PrintedScores(score)];
        outcome := Continues;
      case Save =>
        events := events + [SavedScores(score)];
        outcome := Continues;
      case Quit =>
        events := events + [SavedScores(score), Exited];
        outcome := Stops;
      case Answer(guess) =>
        if FirstName(name).None? {
          outcome := Crashes;
        } else {
          var said := UpdateScore(guess, name);
          events := events + [Said(said)];
          outcome := Continues;
        }
    }

    /**
     * `run`: turns one after another, one line of `inputs` each, until a
     * turn quits or raises or the lines run out. `shown` lists the students
     * picked, in order. Afterwards the window holds the latest of them,
     * newest first, and every student not shown keeps their score. No
     * student is shown twice within `IgnoreMostRecent` turns, and with no
     * more students than that the game has raised by the turn after each of
     * them was shown once.
     */
    method Run(inputs: seq<string>, pictured: set<Name>) returns (outcome: Outcome, shown: seq<Name>)
      requires Valid()
      modifies this, lru
      ensures Valid()
      ensures score.Keys == old(score).Keys
      ensures |shown| <= |inputs|
      ensures outcome == Continues ==> |shown| == |inputs|
      ensures outcome == Stops ==> 0 < |shown| && inputs[|shown| - 1] == "quit"
      ensures forall i :: 0 <= i < |shown| ==> shown[i] in old(score)
      ensures lru.data == WindowAfter(old(lru.data), shown)
      ensures forall n :: n in old(score) && n !in shown ==> score[n] == old(score)[n]
      ensures NoRepeatWithinWindow(shown)
      ensures |old(score).Keys| <= IgnoreMostRecent ==> |shown| <= |old(score).Keys|
    {
      ghost var start, initial := lru.data, score;
      assert WindowAfter(start, []) == start by {
        assert Reversed<Name>([]) + start == start;
      }
      outcome := Continues;
      shown := [];
      var k := 0;
      while k < |inputs| && outcome == Continues
        invariant Valid()
        invariant 0 <= k <= |inputs|
        invariant score.Keys == initial.Keys
        invariant |shown| <= k
        invariant outcome == Continues ==> |shown| == k
        invariant outcome == Stops ==> |shown| == k && 0 < k && inputs[k - 1] == "quit"
        invariant lru.data == WindowAfter(start, shown)
        invariant AllScored(initial, shown)
        invariant ScoresKept(initial, score, shown)
        invariant NoRepeatWithinWindow(shown)
      {
        ghost var before := score;
        var student, turn, events := GameLoop(inputs[k], pictured);
        ScoresKeptStep(initial, before, score, shown, student);
        if student.Some? {
          var x := student.value;
          WindowAfterPush(start, shown, x);
          NoRepeatAfterPush(start, shown, x);
          AllScoredStep(initial, shown, x);
          shown := shown + [x];
        }
        outcome := turn;
        k := k + 1;
      }
      FewNamesRunOut(initial, shown);
    }
  }
}
