# Flash-card trainer for students' names (flash.rb), modelled in Dafny

flash.rb is a terminal game for learning students' names from their
pictures. Each turn it picks a student and shows their picture. It then
reads a line, which is either a command (`show score`, `save`, `quit`) or a
guess of the student's name. A guess counts when its normalised form equals
the normalised first name of the student, or when the guess exactly as typed
equals the normalised full name. The student's score then goes up by one
for a correct guess and down by one otherwise. The next student is picked
at random from the lowest-scoring students, skipping the five shown most
recently.

The model has five modules:

- `Common` (common.dfy): an `Option` type and sequence helpers (`Truncate`,
  `Exclude`, `Reversed`, `Distinct`, `Subsequence`) with their lemmas.
- `Recency` (recency.dfy): the class `LRU`, which is the recency window.
  `Pushed` is the intended `push` as a function on sequences.
  `PushAsWritten` is `push` as the source writes it.
- `Names` (names.dfy): `downcase`, `strip`, `normalize_name`, `first_name`
  and the correctness check `GotIt`.
- `Scoring` (scoring.dfy): the fresh score store, the ±1 update, the
  grouping of eligible names by score, and the lowest group.
- `Game` (flashcards.dfy): the class `Flashcards`. It has `UpdateScore`,
  `RandomNameAmongLowestScoring`, `GameLoop`, and `Run`, which is the
  `run` loop over a finite list of input lines. The module also holds the
  lemmas about whole games.

The model records terminal output and file writes as `Event`s: the picture
shown, the prompt, the feedback, the printed scores, the saved scores, and
the exit. The line typed is a parameter, and so is the set of students that
have a picture. The random choice of `sample` is a nondeterministic choice
(`:|`) of any member of the lowest group.

## Behaviour as written

Three behaviours of the code are easy to miss. The model follows the code
in each of them.

- **Empty eligible set.** When every scored student is in the recency
  window, `min_by` returns nil and `game_loop` raises. The code has no
  fallback. This happens whenever the class has five students or fewer.
  `Game.FewNamesRunOut` and `Game.Flashcards.Run` prove that such a game
  raises by the turn after every student has been shown once.
  `Game.AlwaysEligibleWithManyNames` proves that with six or more students
  it never happens.
- **Full name with capitals.** Typing the full name exactly as stored is
  graded wrong unless the stored name is already in normal form, or it
  normalises to its own first name (a one-field name such as "Alice"). So
  typing "Alice Smith" for "Alice Smith" is graded wrong. The code compares
  the raw guess with the lower-cased full name. See `Names.TypedFullName`
  and `Names.GotItRejectsExamples`.
- **Praise message.** The praise message is given the guess, not the
  student's name.

## Model

| member | source | states |
|---|---|---|
| Recency.Pushed | flash.rb:15-25 | the intended `push` on the window's contents: the result holds at most `size` names and, when `size` is positive, starts with the pushed name |
| Recency.PushAsWritten | flash.rb:15-25 | `push` as written: it raises (None) exactly when the window already holds the name; otherwise the result holds at most `size` names and starts with the pushed name |
| Recency.LRU.constructor | flash.rb:10-13 | a new window is empty, and its size is the one given |
| Recency.LRU.Push | flash.rb:15-25 | afterwards the window equals `Pushed(old window, item, size)`; it stays within its size and free of duplicates |
| Recency.LRU.Has | flash.rb:27-29 | the result is true exactly when the window holds the item |
| Recency.PushKeepsWindow | flash.rb:15-25 | a push keeps the window within its size and free of duplicates; a name already held is moved rather than copied; the pushed name comes first |
| Recency.PushMembership | flash.rb:15-25 | after a push, the window holds exactly the pushed name and every earlier name, except the oldest one, which is evicted when the window was full and the name was new |
| Recency.PushKeepsOrder | flash.rb:15-25 | the names that survive a push keep their relative order |
| Recency.PushAllWindow | flash.rb:15-25 | after pushing distinct names, the window is those names (newest first) followed by the older names not pushed again, cut to size |
| Recency.WindowHoldsMostRecent | flash.rb:15-25 | after `size` or more distinct pushes, the window is exactly the `size` most recent names |
| Recency.PushAsWrittenAgreesOnNewNames | flash.rb:15-25 | for a name the window does not hold, the push as written equals the intended push |
| Recency.DeleteValueRaises | flash.rb:16-19 | pushing a name the window already holds raises in the code as written, while the intended push keeps a single copy of the name |
| Names.Downcase | flash.rb:108 | `downcase` keeps the length (and, by `Names.DowncaseAt`, lower-cases each character in place) |
| Names.DowncaseAt | flash.rb:108 | `downcase` keeps the length and maps each character to its lower-case form, in place; only `A`-`Z` change |
| Names.Strip | flash.rb:108 | `strip` never lengthens its input and leaves no whitespace at either end |
| Names.Normalize | flash.rb:107-109 | `normalize_name` never lengthens its input and leaves no whitespace at either end |
| Names.FirstName | flash.rb:80-82 | `first_name` is nil exactly when the name consists of separators only (or is empty); otherwise it is a prefix of the name |
| Names.GotIt | flash.rb:111-115 | the correctness check of `update_score`: a guess that counts normalises to the normalised first name or to the normalised full name |
| Names.StripSlice | flash.rb:108 | `strip` returns a contiguous slice of its input, removes only whitespace, and leaves none at either end |
| Names.NormalizeIdempotent | flash.rb:107-109 | a normalised name has no capitals and no outer whitespace, and normalising it again changes nothing |
| Names.NormalFormCharacterized | flash.rb:107-109 | `normalize_name` leaves a string unchanged exactly when the string has no capitals and no outer whitespace |
| Names.NormalizePaddedExample | flash.rb:107-109 | "  ALICE " normalises to "alice" |
| Names.LeadingFieldIsLongestPrefix | flash.rb:80-82 | the first field is the longest prefix without a space, underscore or hyphen |
| Names.FirstNameEndsAt | flash.rb:80-82 | when the first separator is at position k and the name has a non-separator character, `first_name` is the first k characters |
| Names.FirstNameExamples | flash.rb:80-82 | "Alice Smith" gives "Alice", "alice_jones" gives "alice", and "mary-jo_lee" gives "mary" |
| Names.FirstNameEdgeExamples | flash.rb:80-82 | "-bob" gives an empty first name; "_ -" and "" give nil |
| Names.GotItCharacterized | flash.rb:111-115 | a guess counts exactly when its normal form is the normalised first name, or when the guess is already in normal form and equals the normalised full name |
| Names.TypedFullName | flash.rb:111-115 | the full name typed as stored counts only when it is already in normal form, or when it normalises to its own first name |
| Names.GotItAcceptsExamples | flash.rb:111-115 | for "Alice Smith", the guesses "alice", "  ALICE " and "alice smith" count |
| Names.GotItRejectsExamples | flash.rb:111-115 | for "Alice Smith", the guesses "Alice Smith" and "bob" do not count |
| Scoring.FreshScores | flash.rb:51 | the fresh store scores every known name, and nothing else, at 0 |
| Scoring.Adjusted | flash.rb:117 | the student's score moves by +1 for a correct answer and by -1 otherwise; no other entry changes and no key is added |
| Scoring.NamesByScore | flash.rb:120-126 | `names_by_score_without_most_recent`: every group is non-empty and holds only eligible names whose score is the group's key |
| Scoring.GroupsPartitionEligible | flash.rb:120-126 | every eligible name is in the group of its own score, so with the contract of `Scoring.NamesByScore` the groups partition the eligible names by score |
| Scoring.LowestScoring | flash.rb:129 | the group `sample` draws from holds only eligible names |
| Scoring.Least | flash.rb:129 | the key `min_by` finds is in the set and no key is lower |
| Scoring.LowestScoringIsLowestEligible | flash.rb:120-130 | a name is in the sampled group exactly when it is eligible and no eligible name scores lower; the group is empty exactly when no name is eligible |
| Scoring.FreshStoreAllLowest | flash.rb:120-130 | with a fresh store and an empty window, any known name can be picked first |
| Scoring.SelectionExample | flash.rb:120-130 | with A:0, B:0, C:5 and nobody recent, the group is exactly {A, B} |
| Scoring.SelectionSkipsRecentExample | flash.rb:120-130 | with A:0, B:0, C:5 and A and B recent, the group is exactly {C}, although C scores higher |
| Game.Dispatch | flash.rb:151-160 | "show score", "save" and "quit" select their commands exactly; any other line is a guess, kept as typed |
| Game.InitialScores | flash.rb:45-53 | the stored scores when a score file exists, otherwise every known name at 0 |
| Game.Graded | flash.rb:116 | praise, quoting the guess, exactly when the guess counts; otherwise a correction giving the normalised first name and the guess |
| Game.WindowAfterPush | flash.rb:147-148 | pushing each picked student (never one the window holds) leaves the window as the latest picks, newest first, cut to five |
| Game.NoRepeatAfterPush | flash.rb:147-148 | picking a student the window does not hold keeps every stretch of five turns free of repeats |
| Game.AlwaysEligibleWithManyNames | flash.rb:128-130 | with more than five students, some student is always eligible |
| Game.NobodyEligibleOnceAllShown | flash.rb:128-130 | once every student has been pushed into the window, nobody is eligible |
| Game.FewNamesRunOut | flash.rb:163-167 | with at most five students, a game without repeats inside the window has at most one turn per student |
| Game.TwoStudentGame | flash.rb:146-160 | fresh store {alice_jones, bob_lee}: either student comes first; "alice" for alice_jones gives {alice_jones: 1, bob_lee: 0}; bob_lee is picked next; "wrong" gives {alice_jones: 1, bob_lee: -1} |
| Game.Flashcards.constructor | flash.rb:37-43 | the game starts with an empty window of size five and the initial scores |
| Game.Flashcards.UpdateScore | flash.rb:111-118 | the new scores are `Adjusted(old scores, student, GotIt(guess, student))`, and the feedback is `Graded(guess, student)` |
| Game.Flashcards.RandomNameAmongLowestScoring | flash.rb:128-130 | the result is None (the source raises) exactly when nobody is eligible; otherwise it is an eligible student with the lowest score |
| Game.Flashcards.GameLoop | flash.rb:146-161 | one turn: raises with nothing changed when nobody is eligible; otherwise pushes a lowest-scoring eligible student (never raising in the push); raises if the student has no picture; then runs show score, save or quit with the scores unchanged, or grades the guess with `Adjusted` and `Graded` (raising when the student has no first name); the set of scored students never changes |
| Game.Flashcards.Run | flash.rb:163-167 | one line per turn until a quit or a raise; every student shown is scored; the final window is the latest students shown, newest first, on top of the starting window, cut to five; every student not shown keeps their score; no student is shown twice within five turns; with at most five students, at most one turn per student |

## Left out

- Score file: reading and parsing it is not modelled. Its contents are the
  `stored` parameter of `Game.Flashcards.constructor`. A parse failure and
  non-integer values are not modelled.
- Saving: `persist_score` writing the file is recorded as a `SavedScores`
  event. The file format and the "Saving..."/"done!" text are not modelled.
- Interrupts: the Ctrl-C trap (`initialize_signal_trap`, lines 56-61) is not
  modelled, because signals are asynchronous.
- Pictures: `show_image` reading, base64-encoding and printing the picture
  is recorded as a `ShowImage` event.
- Finding students: `files`, `names_to_files`, `all_names` and
  `student_name` (path splitting) are not modelled. The known names are the
  `names` parameter, and the names with a picture are the `pictured`
  parameter.
- Prompt: `prompt_for_answer` is recorded as a `Prompt` event, and the line
  is a parameter with its newline already removed. The raise when `gets`
  returns nil at end of input is not modelled.
- Message pools: the texts of `random_success` and `random_failure` and the
  random choice among them are not modelled. `Feedback` records which pool
  is used and the arguments it is given.
- `show score` output: the JSON pretty-printing and Ruby's hash order are not
  modelled. The event carries the score map.
- Game.Flashcards.RandomNameAmongLowestScoring: it states which students can
  be picked, not that `sample` picks among them uniformly.
- Game.Flashcards.Run: it models `run`'s endless loop over a finite list of
  lines. Process exit on `quit` is the `Stops` outcome.
- Game.Flashcards.UpdateScore: it requires the student to be scored and to
  have a first name. The source raises otherwise. `GameLoop` only passes a
  scored student, and it models the no-first-name raise itself.
- Names.Normalize: `downcase` is modelled for ASCII `A`-`Z` only, and
  `strip` for ASCII whitespace and NUL. Ruby's Unicode case mapping is not
  modelled.

## Findings

| source | as written | input that shows it | evidently intended | confidence | as-written member | corrected member |
|---|---|---|---|---|---|---|
| flash.rb:18 | `push` deletes an existing copy with `delete_value`, which Ruby arrays do not have, so it raises NoMethodError | push "ann" onto a window that already holds "ann" | `Array#delete`: remove the old copy and put the name at the front | high; not executed | Recency.DeleteValueRaises | Recency.LRU.Push |

`Game.Flashcards.GameLoop` never reaches this path. The picked student is
never in the window, which `Recency.PushAsWrittenAgreesOnNewNames` and
`GameLoop`'s contract show. The model uses the corrected push throughout.
