# Tashih platform: publication logic and the crossword composable, in Dafny

This project models the parts of the tashih platform that hold decisions rather than plumbing:

- **Blog posts** (`BlogPosts`): the `is_published`/`is_draft` flags and the `published_at`/`scheduled_at` times of a post. Its query scopes. `markAsDraft` and `markAsPublished`. The unique-slug generator, which appends `-1`, `-2`, … until no other post owns the slug.
- **The scheduled-publication command** (`PublishScheduledBlogPosts`): `blog:publish-scheduled`. It selects the drafts whose schedule time has been reached and publishes each one dated at its schedule time. A save that throws an exception skips only that post, and the command returns 0 whenever it returns.
- **Correction requests** (`CorrectionRequests`): the status column (`pending`, `in-progress`, `completed`), the paid flag, the completion time, the three `markAs*` updates, the `is*` predicates and the three scopes.
- **Posts** (`Posts`): `publish`, `unpublish` and the published scope.
- **The crossword composable**:
  - `CrosswordClues`: clue validation, word geometry, upper-casing, Tab order and its index arithmetic.
  - `CrosswordGrid`: the grid `initializeGrid` builds, cell by cell.
  - `CrosswordCheck`: what checking, revealing and clearing do to the grid, and the status messages.
  - `Crossword`: a class `CrosswordState` holding the grid, cursor and status, with one method per operation, plus the loops those methods run.
  - `CrosswordFixtures`: the second bundled puzzle.

Modelling choices:

- The PHP models and the composable update their state in place. They are modelled as classes whose methods name what they modify.
- Each crossword loop is a method with invariants, proved equal to a specification function on the grid (`InitGrid`, `CheckedGrid`, `RevealedGrid`, `MapGrid`, `CheckTally`). Lemmas then prove what those functions mean.
- The grid is a `seq<seq<Cell>>` field that the methods reassign.
- Several inputs are parameters instead of being read from the environment:
  - the current time (`now`)
  - the results of `Str::slug` and `Str::random(8)`
  - the set of post ids whose `save()` throws
  - the puzzle data passed to the composable

Where the code and the documented behaviour differ, the model follows the code:

- The scheduled-publication command leaves `scheduled_at` unchanged. The line that would clear it is commented out (PublishScheduledBlogPosts.php:47).
- The command selects on the `status` column. The blog post model works on `is_published`/`is_draft`. The two vocabularies are modelled separately, as in the code.

## Model

| member | source | states |
|---|---|---|
| BlogPosts.BlogPost.constructor | app/Models/BlogPost.php:44-56 | a new post carries the attribute defaults: an unpublished draft with no publication or schedule time |
| BlogPosts.BlogPost.Load | app/Models/BlogPost.php:205-217 | a post read from storage remembers its stored `is_published` as the original value `getOriginal` returns |
| BlogPosts.BlogPost.Published | app/Models/BlogPost.php:148-153 | the published scope: the flag is set and the publication time is present and not after now |
| BlogPosts.PublishedLater | app/Models/BlogPost.php:148-153 | a post in the published scope stays in it as time passes |
| BlogPosts.BlogPost.Draft | app/Models/BlogPost.php:159-164 | the draft scope: the draft flag is set, whatever the published flag says |
| BlogPosts.BlogPost.ScheduledAndDue | app/Models/BlogPost.php:178-184 | a scheduled-and-due post is not in the published scope and has a schedule time not after now |
| BlogPosts.BlogPost.MarkAsDraft | app/Models/BlogPost.php:191-198 | the post becomes an unpublished draft without publication time, keeps its schedule, is in the draft scope, and is outside the published scope at every time |
| BlogPosts.BlogPost.MarkAsPublished | app/Models/BlogPost.php:205-218 | the post is published, not a draft (so outside the draft scope), unscheduled; its publication time is kept only if it had one and was published in storage, otherwise it is now; it is never scheduled-and-due afterwards; it is in the published scope at now when it was just stamped |
| BlogPosts.GenerateUniqueSlug | app/Models/BlogPost.php:122-142 | the result is owned by no other post, and it is the first of the candidates (the base slug, or `post-` and the random string for an empty slug, then `base-1`, `base-2`, …) with every earlier candidate owned by another post, so the least free `k` is chosen |
| BlogPosts.SearchProgress | app/Models/BlogPost.php:137-140 | each candidate owned by another post shrinks a finite measure (the rows still owning a later candidate), so the search loop terminates |
| BlogPosts.AllTakenStep | app/Models/BlogPost.php:137-140 | a taken candidate extends the run of taken candidates by one |
| BlogPosts.CounterOfSuffixed | app/Models/BlogPost.php:139 | the counter can be read back from `base-k` |
| BlogPosts.SuffixedInjective | app/Models/BlogPost.php:139 | different counters give different candidate slugs, so the search never revisits one |
| Decimal.NatToString | app/Models/BlogPost.php:139 | an integer renders as a non-empty string of digits without a leading zero |
| Decimal.ParseNatToString | app/Models/BlogPost.php:139 | parsing a rendered counter gives the counter back |
| Decimal.NatToStringInjective | app/Models/BlogPost.php:139 | distinct counters render differently |
| PublishScheduledBlogPosts.Publish | app/Console/Commands/PublishScheduledBlogPosts.php:45-47 | a published row has status `published`, publication time equal to its schedule time, keeps its schedule, and is never selected again |
| PublishScheduledBlogPosts.Selected | app/Console/Commands/PublishScheduledBlogPosts.php:33-35 | the query's condition: status `draft` and a schedule time present and not after now |
| PublishScheduledBlogPosts.DueIndices | app/Console/Commands/PublishScheduledBlogPosts.php:33-36 | the query returns exactly the drafts whose schedule time has been reached, each once, in increasing position |
| PublishScheduledBlogPosts.Handle | app/Console/Commands/PublishScheduledBlogPosts.php:29-59 | returns 0 whenever it returns; the table afterwards is the one-run effect of the selection, with failing saves left as they were; the report lists each selected post as published or failed, in query order |
| PublishScheduledBlogPosts.NothingDue | app/Console/Commands/PublishScheduledBlogPosts.php:38-41 | an empty selection changes nothing and reports nothing |
| PublishScheduledBlogPosts.RunOnceAt | app/Console/Commands/PublishScheduledBlogPosts.php:43-55 | an unselected or failing post is untouched; a selected post saved successfully is published, dated at its schedule time, which is not after now |
| PublishScheduledBlogPosts.RunOnceIdempotent | app/Console/Commands/PublishScheduledBlogPosts.php:33-55 | a second run at the same time with the same failures changes nothing |
| PublishScheduledBlogPosts.ReselectedOnlyAfterFailure | app/Console/Commands/PublishScheduledBlogPosts.php:33-55 | a post selected by a later run was either not due or failed in the earlier run, and is stored unchanged |
| PublishScheduledBlogPosts.PublishedExactlyOnce | app/Console/Commands/PublishScheduledBlogPosts.php:33-55 | across two runs a post is published at most once, and a post due by the second run is published unless each run that selected it failed to save it |
| PublishScheduledBlogPosts.FailureIsolated | app/Console/Commands/PublishScheduledBlogPosts.php:44-54 | whether one post's save fails does not affect what happens to any other post |
| PublishScheduledBlogPosts.NothingLeftAfterCleanRun | app/Console/Commands/PublishScheduledBlogPosts.php:33-55 | after a run without failures nothing is due, and a repeat run changes nothing |
| PublishScheduledBlogPosts.AllDue | app/Console/Commands/PublishScheduledBlogPosts.php:33-36 | when every post is due the query returns every position, in increasing order |
| PublishScheduledBlogPosts.ThreeDueOneFails | app/Console/Commands/PublishScheduledBlogPosts.php:43-55 | with the second save failing, the report is published, failed, published, and only the first and third rows change |
| PublishScheduledBlogPosts.ScheduledScenario | app/Console/Commands/PublishScheduledBlogPosts.php:33-47 | a post is left alone before its schedule time and published, dated at that time, after it |
| CorrectionRequests.CorrectionRequest.constructor | database/migrations/2024_11_23_220532_create_correction_requests_table.php:19-22 | a new request is pending, unpaid and not completed |
| CorrectionRequests.CorrectionRequest.MarkAsInProgress | app/Models/CorrectionRequest.php:52-55 | only the status changes, to in-progress, and only `isInProgress` holds |
| CorrectionRequests.CorrectionRequest.MarkAsCompleted | app/Models/CorrectionRequest.php:57-63 | status and completion time (now) change and nothing else; only `isCompleted` holds |
| CorrectionRequests.CorrectionRequest.MarkAsPaid | app/Models/CorrectionRequest.php:65-68 | only the paid flag changes, to true |
| CorrectionRequests.CorrectionRequest.IsPending | app/Models/CorrectionRequest.php:70-73 | the status is exactly `pending` |
| CorrectionRequests.CorrectionRequest.IsInProgress | app/Models/CorrectionRequest.php:75-78 | the status is exactly `in-progress` |
| CorrectionRequests.CorrectionRequest.IsCompleted | app/Models/CorrectionRequest.php:80-83 | the status is exactly `completed` |
| CorrectionRequests.StatusPredicatesPartition | app/Models/CorrectionRequest.php:70-83 | the three predicates exclude each other, and one holds exactly when the status is one the column admits |
| CorrectionRequests.WhereStatus | app/Models/CorrectionRequest.php:37-50 | the requests with the given status, all of them and no other |
| CorrectionRequests.ScopePending | app/Models/CorrectionRequest.php:37-40 | exactly the pending requests |
| CorrectionRequests.ScopeInProgress | app/Models/CorrectionRequest.php:42-45 | exactly the in-progress requests |
| CorrectionRequests.ScopeCompleted | app/Models/CorrectionRequest.php:47-50 | exactly the completed requests |
| CorrectionRequests.ScopesPartition | app/Models/CorrectionRequest.php:37-50 | with admissible statuses the three scopes together hold each request exactly once |
| Posts.Post.constructor | app/Models/Post.php:13-25 | a post holds the given flag and publication time |
| Posts.Post.InPublishedScope | app/Models/Post.php:28-32 | the published scope: the flag is set and a publication time is present, with no comparison with now |
| Posts.Post.Publish | app/Models/Post.php:34-40 | the post is published at now, replacing any earlier time, and is in the published scope |
| Posts.Post.Unpublish | app/Models/Post.php:42-48 | flag and time are cleared and the post leaves the published scope |
| CrosswordClues.Validate | resources/js/composables/useCrossword.js:48-57 | an accepted clue has numeric fields, an across or down direction, a positive length and a solution of exactly that length, and carries the same fields as the raw clue |
| CrosswordClues.ValidateToRaw | resources/js/composables/useCrossword.js:48-57 | every well-formed clue passes the format check unchanged |
| CrosswordClues.OnWordIffCellOf | resources/js/composables/useCrossword.js:467-475 | a cell is on a clue's word exactly when it is one of the cells the loops at 78-80 visit, at its offset |
| CrosswordClues.CellOfOnWord | resources/js/composables/useCrossword.js:78-80 | the `i`-th visited cell is on the word at offset `i` |
| CrosswordClues.UpperChar | resources/js/composables/useCrossword.js:389 | lower-case ASCII letters map to upper case, upper case is kept |
| CrosswordClues.Upper | resources/js/composables/useCrossword.js:389 | upper-casing keeps the length |
| CrosswordClues.UpperIdempotent | resources/js/composables/useCrossword.js:389 | upper-casing twice is upper-casing once, so comparing upper-cased values is stable |
| CrosswordClues.LexTotal | resources/js/composables/useCrossword.js:17-18 | the sort keys are totally ordered |
| CrosswordClues.LexTransitive | resources/js/composables/useCrossword.js:17-18 | the sort keys are ordered transitively |
| CrosswordClues.Insert | resources/js/composables/useCrossword.js:17-18 | insertion into a sorted list keeps it sorted and adds exactly the one clue |
| CrosswordClues.SortClues | resources/js/composables/useCrossword.js:17-18 | the sorted clues are ordered and a permutation of the input |
| CrosswordClues.WithDirection | resources/js/composables/useCrossword.js:17-18 | exactly the clues with the given direction |
| CrosswordClues.TabOrder | resources/js/composables/useCrossword.js:329-332 | the clues Tab walks through: the across clues and then the down clues, sorted; TabOrderProperties and TabOrderMembers state its order and members |
| CrosswordClues.SortedPairwise | resources/js/composables/useCrossword.js:329-332 | in a sorted list every earlier clue precedes every later one |
| CrosswordClues.LexHead3 | resources/js/composables/useCrossword.js:17-18 | ordered keys are ordered on their first three components |
| CrosswordClues.PrecedesByNumber | resources/js/composables/useCrossword.js:329-332 | an earlier clue has no larger number, and for equal numbers an across clue comes first |
| CrosswordClues.TabOrderProperties | resources/js/composables/useCrossword.js:329-332 | Tab order is by ascending clue number, across before down for equal numbers |
| CrosswordClues.TabOrderMembers | resources/js/composables/useCrossword.js:17-18 | Tab order holds exactly the across and down clues of the data |
| CrosswordClues.IndexFrom | resources/js/composables/useCrossword.js:337 | the first index holding the clue, or -1 when none does |
| CrosswordClues.CurrentIndex | resources/js/composables/useCrossword.js:335-338 | -1 without a current clue or when it is not in the list, otherwise its first index |
| CrosswordClues.JsRem | resources/js/composables/useCrossword.js:340 | JavaScript's truncated `%`: the dividend minus the result is a multiple of the divisor, and the result has the sign of the dividend and is smaller than the divisor in magnitude |
| CrosswordClues.JsRemUnique | resources/js/composables/useCrossword.js:340 | those three properties determine the remainder, so `JsRem` is the only function meeting them |
| CrosswordClues.NextClueIndex | resources/js/composables/useCrossword.js:340 | Tab steps forward and Shift-Tab back, wrapping at both ends; from -1, Tab picks 0 and Shift-Tab picks the second-last (the only one when there is one clue) |
| CrosswordClues.RemBelowTwice | resources/js/composables/useCrossword.js:340 | the remainders the index computation can produce |
| CrosswordClues.TabShiftTabInverse | resources/js/composables/useCrossword.js:340 | Shift-Tab undoes Tab and Tab undoes Shift-Tab |
| CrosswordGrid.SetCell | resources/js/composables/useCrossword.js:87 | replacing one cell keeps the shape and every other cell |
| CrosswordGrid.BlankGrid | resources/js/composables/useCrossword.js:37-41 | a height-by-width grid of empty, inactive, unnumbered cells that know their positions |
| CrosswordGrid.MinNumber | resources/js/composables/useCrossword.js:70-74 | the start cell's number is the smaller of its old number and the clue's |
| CrosswordGrid.InitGrid | resources/js/composables/useCrossword.js:36-95 | a height-by-width grid whose every cell is the result of processing the clues in order |
| CrosswordGrid.InvalidFormatCount | resources/js/composables/useCrossword.js:43-57 | no more than the clues, and zero exactly when every clue passes the format check |
| CrosswordGrid.OutOfBoundsCount | resources/js/composables/useCrossword.js:62-94 | no more than the clues, and zero exactly when no well-formed clue starts outside the grid or runs off it |
| CrosswordGrid.InitCellPlain | resources/js/composables/useCrossword.js:37-41 | a built cell is empty, unmarked and knows its position |
| CrosswordGrid.InitCellActive | resources/js/composables/useCrossword.js:76-91 | a cell is active exactly when some placed clue covers it |
| CrosswordGrid.InitCellNumber | resources/js/composables/useCrossword.js:69-74 | a cell is numbered exactly when some placed clue starts there, with the least such number |
| CrosswordGrid.AddRefProperties | resources/js/composables/useCrossword.js:88-90 | adding a reference keeps the earlier ones and adds none with a repeated number and direction |
| CrosswordGrid.InitCellRefsSound | resources/js/composables/useCrossword.js:88-90 | a cell's references point to well-formed clues covering it, and no two share a number and direction |
| CrosswordGrid.InitCellRefFrom | resources/js/composables/useCrossword.js:88-90 | a cell with a reference is covered by some placed clue |
| CrosswordGrid.InitCellRefsComplete | resources/js/composables/useCrossword.js:88-90 | every placed clue covering a cell has a reference there with its number and direction |
| CrosswordGrid.InitGridRefsOk | resources/js/composables/useCrossword.js:46-95 | every cell of a built grid has sound references |
| CrosswordGrid.SameRefsOk | resources/js/composables/useCrossword.js:357-463 | operations that keep the references keep them sound |
| CrosswordCheck.LoadStatus | resources/js/composables/useCrossword.js:99-108 | an error status exactly when a clue was skipped or no cell is active; the load-problems message carries both counts; otherwise no message |
| CrosswordCheck.ScanWordCorrect | resources/js/composables/useCrossword.js:381-397 | a word is correct exactly when every one of its cells is active, filled and matches the solution letter |
| CrosswordCheck.ScanWordEmpty | resources/js/composables/useCrossword.js:381-397 | a word has an empty cell exactly when the loop reaches an empty active cell before any inactive one |
| CrosswordCheck.ScanWordSameBoard | resources/js/composables/useCrossword.js:381-397 | a word's verdict does not depend on the error marks |
| CrosswordCheck.CheckTallyAllCorrect | resources/js/composables/useCrossword.js:400-410 | `allAnswersCorrect` holds exactly when every processed word is correct |
| CrosswordCheck.CheckTallyHasEmpty | resources/js/composables/useCrossword.js:398 | `hasEmptyCellsInActiveClues` holds exactly when some processed word has an empty cell |
| CrosswordCheck.CheckTallyIncorrect | resources/js/composables/useCrossword.js:400-402 | `incorrectCluesCount` is zero exactly when no processed word is wrong, and is zero whenever all answers are correct |
| CrosswordCheck.CheckTallyCount | resources/js/composables/useCrossword.js:400-402 | `incorrectCluesCount`, which the message at line 416 shows, is the number of processed clues whose word is wrong |
| CrosswordCheck.CheckTallyMeaning | resources/js/composables/useCrossword.js:398-411 | the tally says all words are correct exactly when they are, counts exactly the processed wrong words, and records an empty cell exactly when some word has one |
| CrosswordCheck.CheckStatus | resources/js/composables/useCrossword.js:413-423 | success exactly with the solved message, exactly when every active cell is filled and all words are correct; any wrong word gives the error message with the count |
| CrosswordCheck.CheckSolvedIff | resources/js/composables/useCrossword.js:357-424 | the check congratulates exactly when every active cell is filled and every checked word is correct |
| CrosswordCheck.CheckedGrid | resources/js/composables/useCrossword.js:403-407 | marking changes no value, activity or reference |
| CrosswordCheck.WrongCoverStep | resources/js/composables/useCrossword.js:400-407 | one more clue marks the cells of its word when it is wrong |
| CrosswordCheck.CheckTallySameBoard | resources/js/composables/useCrossword.js:374-411 | the tally does not depend on the error marks |
| CrosswordCheck.WrongCoverSameBoard | resources/js/composables/useCrossword.js:374-411 | which cells are marked does not depend on the earlier marks |
| CrosswordCheck.CheckedGridAfterReset | resources/js/composables/useCrossword.js:367-372 | resetting the marks of active cells before the check does not change its outcome |
| CrosswordCheck.Letter | resources/js/composables/useCrossword.js:437 | an upper-cased solution letter is one character |
| CrosswordCheck.RevealedValueUnwritten | resources/js/composables/useCrossword.js:429-441 | a cell no revealed clue writes keeps its value |
| CrosswordCheck.RevealedValueLast | resources/js/composables/useCrossword.js:429-441 | the last revealed clue writing a cell decides its letter |
| CrosswordCheck.LastWriter | resources/js/composables/useCrossword.js:429-441 | among the clues writing a cell there is a last one |
| CrosswordCheck.RevealedGrid | resources/js/composables/useCrossword.js:426-443 | revealing keeps every cell's references |
| CrosswordCheck.ApplyOp | resources/js/composables/useCrossword.js:367-461 | each per-cell update keeps activity, references, number and position; resetting unmarks active cells; unmarking clears every mark; emptying empties and unmarks active cells |
| CrosswordCheck.MapRow | resources/js/composables/useCrossword.js:448-452 | one row with the update applied to every cell |
| CrosswordCheck.MapGrid | resources/js/composables/useCrossword.js:448-452 | every cell updated; updates other than emptying keep values and activity; references are kept |
| CrosswordCheck.ClearIdempotent | resources/js/composables/useCrossword.js:445-455 | clearing twice is clearing once |
| CrosswordCheck.ClearUndoesReveal | resources/js/composables/useCrossword.js:426-455 | clearing after revealing leaves what clearing alone leaves |
| CrosswordCheck.ClearUndoesCheck | resources/js/composables/useCrossword.js:357-455 | clearing after checking leaves what clearing alone leaves |
| CrosswordCheck.ClearedNeverSolved | resources/js/composables/useCrossword.js:413-455 | a cleared grid with an active cell is never reported solved |
| CrosswordCheck.RevealedValueStep | resources/js/composables/useCrossword.js:433-440 | revealing one more clue overwrites exactly the active cells of its word |
| CrosswordCheck.RevealedGridAfterUnmark | resources/js/composables/useCrossword.js:428 | clearing the marks before revealing changes nothing |
| CrosswordCheck.WordInside | resources/js/composables/useCrossword.js:77-91 | a word that starts and ends inside the grid lies inside it |
| CrosswordCheck.RevealedShowsLetter | resources/js/composables/useCrossword.js:433-440 | after revealing consistent clues, a cell shows the letter of any clue that writes it |
| CrosswordCheck.RevealedFilled | resources/js/composables/useCrossword.js:429-441 | after revealing consistent clues on a grid whose active cells are the covered ones, every active cell is filled |
| CrosswordCheck.RevealedCellRight | resources/js/composables/useCrossword.js:433-440 | after revealing consistent clues, each cell of a processed word is active and shows its solution letter |
| CrosswordCheck.RevealedWordCorrect | resources/js/composables/useCrossword.js:379-397 | after revealing consistent clues, checking finds every processed word correct |
| CrosswordCheck.RevealThenCheckSolved | resources/js/composables/useCrossword.js:357-443 | revealing a grid built from consistent clues, then checking, reports it solved |
| CrosswordCheck.ProcessedStaysInSolution | resources/js/composables/useCrossword.js:433-437 | under the corrected guard every visited index lies inside the solution, at the cell the word geometry gives |
| CrosswordCheck.ProcessedNeverReadsPast | resources/js/composables/useCrossword.js:431-437 | under the corrected guard revealing never reads past the end of a solution |
| CrosswordFixtures.SecondPuzzleHasBadClue | resources/js/Pages/Crossword/crosswordData.js:66 | clue 17 of the second puzzle fails the format check, so loading reports an invalid clue |
| CrosswordFixtures.SecondPuzzleFirstCellInactive | resources/js/Pages/Crossword/crosswordData.js:50-81 | clue 1 passes the written guard, yet its first cell (0, 0) is not active, since both clues starting there fail the format check; so the loop as written breaks there and counts the word wrong |
| CrosswordFixtures.SecondPuzzleRevealReadsPastSolution | resources/js/Pages/Crossword/crosswordData.js:63-66 | as written, revealing the second puzzle reads letter 8 of the 7-letter HEYELAN at the active cell (7, 2) |
| CrosswordFixtures.SecondPuzzleRevealCorrected | resources/js/Pages/Crossword/crosswordData.js:45-85 | with the corrected guard, clue 17 is skipped and no revealed clue reads past its solution |
| Crossword.StraightWord | resources/js/composables/useCrossword.js:78-86 | once a word leaves the grid it stays outside |
| Crossword.ActivateWord | resources/js/composables/useCrossword.js:77-94 | each in-grid cell of the word becomes active and references the clue, the rest are unchanged, and the flag says whether the word runs off the grid |
| Crossword.PlaceClue | resources/js/composables/useCrossword.js:46-94 | one iteration of the clue loop applies the clue to every cell, and its two flags say exactly whether the clue was malformed or out of bounds |
| Crossword.ScanWordLoop | resources/js/composables/useCrossword.js:379-397 | the loop's two flags are the word's verdict |
| Crossword.MarkedWord | resources/js/composables/useCrossword.js:403-407 | marking keeps values, activity and references |
| Crossword.MarkWordLoop | resources/js/composables/useCrossword.js:403-407 | the loop marks exactly the active cells of the word |
| Crossword.RevealedWord | resources/js/composables/useCrossword.js:433-440 | revealing a word keeps every reference |
| Crossword.RevealWordLoop | resources/js/composables/useCrossword.js:433-440 | the loop writes exactly the active cells of the word |
| Crossword.ForEachCellInRow | resources/js/composables/useCrossword.js:367-372 | the row pass updates every cell and says whether every active cell is filled |
| Crossword.ForEachCell | resources/js/composables/useCrossword.js:367-461 | the grid pass updates every cell and says whether every active cell is filled |
| Crossword.BuildGrid | resources/js/composables/useCrossword.js:37-95 | the loop builds exactly the specified grid and both counts |
| Crossword.CheckWords | resources/js/composables/useCrossword.js:374-411 | the clue loop leaves exactly the checked grid and tally |
| Crossword.CheckBoard | resources/js/composables/useCrossword.js:367-422 | resetting the active cells and then checking every clue yields the checked grid of the original board and the status its tally and fill state determine; clue references stay sound |
| Crossword.RevealWords | resources/js/composables/useCrossword.js:429-441 | the clue loop leaves exactly the revealed grid |
| Crossword.FindRef | resources/js/composables/useCrossword.js:150-155 | the first reference with the direction (every earlier reference runs the other way), or none when there is none |
| Crossword.ChooseClue | resources/js/composables/useCrossword.js:150-162 | the first reference in the current direction wins; otherwise the first in the other direction is taken; no clue only for a cell without references |
| Crossword.ChooseClueSound | resources/js/composables/useCrossword.js:150-162 | with sound references, the chosen clue covers the cell and runs in the chosen direction |
| Crossword.NextInWordStays | resources/js/composables/useCrossword.js:299-304 | from a cell of the word, moving forward goes one cell further along it, or nowhere at the last cell |
| Crossword.PreviousInWordStays | resources/js/composables/useCrossword.js:316-321 | from a cell of the word, moving back goes one cell back along it, or nowhere at the first cell |
| Crossword.NextPreviousInverse | resources/js/composables/useCrossword.js:294-326 | moving back undoes moving forward, and the other way round |
| Crossword.CrosswordState.constructor | resources/js/composables/useCrossword.js:5-13 | an empty grid, no cursor, across, no status |
| Crossword.CrosswordState.InitializeGrid | resources/js/composables/useCrossword.js:21-118 | invalid data empties the grid with the invalid-data error; otherwise the grid is the built one, the status is the load status of the two counts and of whether a cell is active, and the cursor is reset; references stay sound |
| Crossword.CrosswordState.UpdateCurrentClue | resources/js/composables/useCrossword.js:144-163 | no clue without an active current cell; otherwise the clue and direction `ChooseClue` picks; with sound references the clue covers the cell |
| Crossword.CrosswordState.ClearStatus | resources/js/composables/useCrossword.js:457-463 | the message is cleared, the type is kept, and the marks are cleared when asked |
| Crossword.CrosswordState.SelectCell | resources/js/composables/useCrossword.js:190-201 | an inactive cell changes nothing; an active cell is unmarked, becomes current with its clue, and a non-load error message is cleared |
| Crossword.CrosswordState.MoveToNextCell | resources/js/composables/useCrossword.js:294-309 | without a clue nothing changes; otherwise the next active cell of the word is selected; from the current cell the cursor stays on the word |
| Crossword.CrosswordState.MoveToPreviousCell | resources/js/composables/useCrossword.js:311-326 | without a clue nothing changes; otherwise the previous active cell of the word is selected; from the current cell the cursor stays on the word |
| Crossword.CrosswordState.SelectClueStart | resources/js/composables/useCrossword.js:349-355 | a clue whose start is inactive changes nothing; otherwise its direction is taken and its start cell selected |
| Crossword.CrosswordState.MoveToNextClueStart | resources/js/composables/useCrossword.js:328-343 | with no clues nothing changes; otherwise the Tab-order clue after (or, with Shift, before) the current one is selected at its start |
| Crossword.CrosswordState.CheckPuzzle | resources/js/composables/useCrossword.js:357-424 | without a grid, an info message; otherwise the grid is the checked grid and the status is the check status of the tally; the cursor is untouched |
| Crossword.CrosswordState.RevealPuzzle | resources/js/composables/useCrossword.js:426-443 | without a grid nothing changes; otherwise the grid is the revealed grid and the status says all answers are shown |
| Crossword.CrosswordState.ClearPuzzle | resources/js/composables/useCrossword.js:445-455 | without a grid nothing changes; otherwise the grid is cleared and the status says so |
| Crossword.CrosswordState.IsPartOfCurrentWord | resources/js/composables/useCrossword.js:467-475 | true exactly when there is a current cell and clue and the cell is on the clue's word |
| Crossword.CrosswordState.IsCurrentCell | resources/js/composables/useCrossword.js:465 | true exactly at the current cell, which lies on the current word when the cursor is consistent |
| Crossword.CrosswordState.IsActiveClue | resources/js/composables/useCrossword.js:345-347 | true exactly for the clue with the current clue's number, direction and position |

## Left out

- Persistence, Eloquent query building, relations (`user`, `gallery`, `categories`, `byUser`), the `deleting` hook, attribute accessors and `$fillable`/`$casts`: these are framework plumbing. Each `update([...])` is modelled as writing exactly the named fields.
- BlogPosts.GenerateUniqueSlug: `Str::slug` and `Str::random` are parameters, not modelled. The unused query built at BlogPost.php:132-135 changes nothing and is not modelled.
- PublishScheduledBlogPosts.Handle: console output and logging are not modelled. A `save()` that throws an `\Exception` is modelled by the `failing` set of ids, and the save is assumed to write the row or nothing. Two ways the command can end without returning are not modelled: a failing query (PublishScheduledBlogPosts.php:33-36 lies outside the `try`), and a `\Error` thrown inside the loop, which is not an `\Exception` and escapes the `catch` at line 51.
- PublishScheduledBlogPosts.DueIndices and PublishScheduledBlogPosts.Report: `->get()` at PublishScheduledBlogPosts.php:36 has no `orderBy`, so the order of the selected rows is up to the database. The model takes table order.
- Timestamps are integers and "now" is a parameter. Time zones and Carbon arithmetic are not modelled.
- CrosswordClues.Upper: only ASCII, the Latin-1 letters (ÿ and µ included) and the Turkish ğ, ş and ı are upper-cased. Letters outside ASCII and Latin-1 other than ğ, ş and ı (such as ā, č, ł, ő, œ and ž, and other scripts) and length-changing mappings such as ß to SS are left as they are.
- CrosswordClues.TabOrderProperties: the Tab order is modelled as one insertion sort on the key (number, direction, then row/column). The source chains two JavaScript sorts, and the last comparator is inconsistent when two clues share a number and direction, so the order it gives those ties depends on the engine. When every clue has a number, the lemma states only what holds in the source whatever the tie order: ascending numbers, across before down for equal numbers, and the same members.
- CrosswordClues.TabOrder, CrosswordClues.TabOrderProperties and Crossword.CrosswordState.MoveToNextClueStart: a clue without a numeric `number` sorts first in the model; this is the model's choice. In the source, `a.number - b.number` (useCrossword.js:330) is NaN for such a clue, the sort treats NaN as 0, so the clue compares equal to every numbered clue and stays where the per-direction pre-sort (17-18) put it. There `NaN || a.row - b.row` falls through to row and column. Example: across clues numbered 3, none, 5 and 4 in rows 0 to 3 at column 0, each of length 1. The source keeps the order 3, none, 4, 5, so the numbers do not ascend and the numberless clue is not first. The model gives none, 3, 4, 5. From clue 3, Tab in the source goes to the numberless clue, whose start (1, 0) is inactive because it fails the format check (line 52) and no other clue covers that cell, so nothing happens (349-355). The model's `MoveToNextClueStart` moves to clue 4. The ordering lemma's number order holds in the source only when every clue has a number.
- Crossword.CrosswordState.InitializeGrid, CrosswordGrid.Loadable and CrosswordClues.Validate: puzzle numbers (width, height and the clue fields) are integers. JavaScript's `typeof x === 'number'` (useCrossword.js:26-27, 48-52) also accepts NaN, infinities and fractions, and these values are not modelled. With them `initializeGrid` throws or truncates:
  - A NaN width builds `height` rows with no cells (useCrossword.js:37-38), yet every clue passes the bounds test at line 63, so `newGrid[r][c]` at line 70 is undefined and reading its `number` throws a TypeError.
  - A clue row of 1.5 passes the same tests and also throws at line 70.
  - A width of 12.5 builds 12 columns.
- CrosswordClues.Validate and CrosswordCheck.ScanWordCorrect: JavaScript's `solution.length` and `solution[i]` count UTF-16 code units, while the model counts characters. The two differ only for characters outside the Basic Multilingual Plane, which are not modelled.
- CorrectionRequests.WhereStatus, CorrectionRequests.ScopePending, CorrectionRequests.ScopeInProgress and CorrectionRequests.ScopeCompleted: `CorrectionRequest` uses `SoftDeletes` (CorrectionRequest.php:7, 11), so every query skips soft-deleted rows. The sequence `rs` stands for the rows that are not soft-deleted.
- A clue field of the wrong type is modelled as missing (`None`). A truthy solution that is not a string is modelled as a missing solution. A truthy `clues` value that is not an array is modelled as missing too: `ClueList` gives no clues and Tab leaves the state unchanged, while in the source `(props.puzzleData?.clues || []).filter` (useCrossword.js:17-18) throws a TypeError on Tab.
- Crossword.CrosswordState.SelectClueStart: it requires an across or down direction. Tab order only contains such clues, and a clue object with another direction would set a direction the composable does not otherwise use.
- Crossword.CrosswordState.ClearPuzzle and Crossword.CrosswordState.InitializeGrid: the final `focusFirstClue` call is not modelled, because it runs after `await nextTick()` and asynchronous scheduling is outside this model. `InitializeGrid` ensures `currentCell == None` and `ClearPuzzle` keeps the cursor where it was. In the source, once the tick has passed, `focusFirstClue` (useCrossword.js:120-138) moves the cursor with modelled operations: `selectClueStart` on the first across clue, or else on the first down clue, when its start cell is active; otherwise `selectCell` on the first active cell, a direction choice and `updateCurrentClue`.
- `isLoading`, `cellSize`, `cellRefs`, `puzzleTitle` and `focusCell`: DOM focus, rendering and async state. `focusFirstClue` is covered by the line above.
- `handleCellClick`, `handleFocus`, `handleInput`, `handleKeyDown` and the `watch` on the puzzle data: event handlers, not modelled. They do more than call the modelled operations:
  - `handleInput` writes a letter into `cell.value` and clears the cell's `isError` (useCrossword.js:233-234, 242-243), and `handleKeyDown` does the same with an empty value for Backspace and Delete (276, 283). The model has no operation for typing or deleting a letter. The check and reveal lemmas hold for any grid values, so they cover every grid such typing can produce.
  - `handleCellClick` and `handleKeyDown` set `currentDirection` directly before they call the modelled operations (172, 180, 183, 257, 268). These direction changes are not modelled.
- Crossword.CrosswordState.CheckPuzzle, Crossword.CrosswordState.RevealPuzzle, Crossword.CheckBoard, Crossword.CheckWords and Crossword.RevealWords: they process the clues that pass the format check of `initializeGrid` (useCrossword.js:48-53). This follows the intent the comment at line 375 states: check only the clues the grid was built from. This is the corrected guard; the guard as written is modelled separately (see Findings).
- Crossword.CrosswordState.CheckPuzzle, Crossword.CrosswordState.RevealPuzzle, Crossword.CheckBoard, Crossword.CheckWords and Crossword.RevealWords: the corrected guard skips more clues than the ones that would throw. Some clues pass the written guard without crashing and are checked there, but the model skips them: a solution longer than its length, a missing number, or a direction other than across or down.
  - Example: a 2×1 grid, with clue 1 across at (0, 0) `AB` and clue 2 down at (0, 1) with length 1 and solution `XY`, filled `A`, `B`. As written, the code reports one wrong word and marks (0, 1). The model reports the puzzle solved.
  - In the second bundled puzzle, clue 1 (SEYAHATNAME, 11 letters for length 8, crosswordData.js:50) passes the written guard. Its first cell (0, 0) is not active, because clue 32 (SAFSATACI, crosswordData.js:81), the only other clue starting there, fails the format check too. So the loop as written breaks at once (useCrossword.js:393-395), compares no letter and counts the word wrong (400-402), and marks its active cells (403-407). As written, this puzzle is never reported solved. The model skips the clue, and reports the puzzle solved after a reveal.
  - The comment at lines 391-392 still holds for the clues the model processes. A word with a cell that is not active, such as a clue starting outside the grid, is counted wrong.
- Crossword.CheckWords: it requires active cells to be unmarked. `CheckPuzzle` establishes this with the reset pass at useCrossword.js:367-372 before calling it.
- Crossword.RevealWords: it requires no cell to be marked. `RevealPuzzle` establishes this with `clearStatus(true)` first.

## Findings

| source | as written | input that shows it | evidently intended | confidence | as-written member | corrected member |
|---|---|---|---|---|---|---|
| resources/js/composables/useCrossword.js:431-437 (same guard at 377) | `revealPuzzle` skips a clue only when row or column is not a number, the length is not positive, or the solution is empty. It does not require the solution to have `length` letters, so it reads `clue.solution[i].toUpperCase()` past the end of a short solution at any active cell, which throws a TypeError. | The second bundled puzzle (crosswordData.js:66): clue 17 down, HEYELAN, declares length 8 with 7 letters. Its 8th cell (7, 2) is active through clue 14 across, NAMZET (crosswordData.js:63). | The clue loops should process only the clues `initializeGrid` accepts by format, whose solution length equals `length` (useCrossword.js:48-57), as the comment at line 375 says. This also skips format-invalid clues that would not crash, which the code as written checks and counts wrong (see Left out). | not executed | CrosswordFixtures.SecondPuzzleRevealReadsPastSolution | CrosswordCheck.ProcessedNeverReadsPast |
