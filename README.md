# Wordle solver: the guess-constraint engine

This project models the core of a Wordle solver. The solver plays the five-letter word game in a browser, six rows at most. Each row comes back with a colour per tile: correct, present (in the word but elsewhere) or absent. The solver records these clues in three ledgers (`correct_letters`, `incorrect_letters`, `wrong_position_letters`), one list of letters per position 0..4. It narrows its word list with three ordered filters and guesses the word with the highest letter-frequency score. A small stats log keeps one row per valid game.

The repository holds three generations of the engine, each modelled in its own module:

- `Solver` (src/wordle_solver.py) is the current `WordleSolver` class. It narrows `word_list` in place, plays an automatic or a console-driven game, and reports the answer.
- `EarlySolver` (wordle_solver.py at the root) is the earlier class. It re-filters the full list on every solve, skips tiles already known at their position, and resets without reloading the list.
- `ScriptSolver` (wordle-solver.py) is the first, module-level script. Its globals are modelled as one object. Its rating counts a repeated letter once per occurrence, and its solved test answers True or nothing.
- `StatsManager` (src/stats_manager.py) is the result validator and the `;`-separated log it appends to.

The modules they share are:

- `Ledger` holds words, positions, the three ledgers, the append-if-absent rule, "solved" and the ingestion of one feedback row.
- `Filters` holds the three filters. Each has a set-theoretic meaning and an order-preserving selection, and the loops are proved against them.
- `Ranking` holds the frequency weights, the two scoring rules and the rating loop, proved against a loop-free statement of which word wins.
- `Play` holds the six-row bound, the end states of a loop, reading the guess out of a rating, the first valid console line, and the record of the rounds a loop played.
- `Wrappers` holds `Option` and `Result`.

The browser is a parameter throughout.

- The settled feedback of a row is a function `(row number, guess) -> five tiles`.
- The end-of-game notice is an `Option<string>`.
- What a user types at the prompt of a round is a finite list of lines.

Each play loop returns, as a ghost value, the rounds it played. A `Round` records the ledgers it began with, the page row it used, the guess it submitted, the row it read back and the ledgers it left. The loop promises `Played(rule, start, rounds, end)`: every round keeps the loop's rule, and each round begins with the ledgers the previous one left. The rules are:

- `auto_play` submits the rating winner of the list narrowed by the round's ledgers. Its rounds start unsolved.
- The current `manual_play` submits the first typed line that is in the list (the original list first, the narrowed one after). Its rounds after the first start unsolved.
- The script's `manual_play` submits the first typed line that is in the dictionary. Its rounds after the first start unsolved.
- Each rule also says that the ledgers a round leaves are its row ingested into the ledgers it began with.

Frequency weights are integers in hundredths: E = 1200, T = 910, and so on down to Z = 7.

Four rules of the code are easy to misread:

- **Zero-score rule.** The rating keeps replacing its running best while that best is 0. When every word scores 0, the last word wins, not the first. Once a positive score is held, only a strictly higher score replaces it, so the first word with the maximum wins.
- **Solved rule.** "Solved" means the correct ledger holds five letters in total over all positions, not one per position. `Ledger.SolvedWithAnEmptyPosition` shows a solved ledger with an empty position.
- **Absent letters are position-scoped.** The absence filter uses only the absent list of the letter's own position. The rating skips any letter found in the union of all absent lists.
- **No duplicate skip in the current version.** The guard at src/wordle_solver.py:327 tests a string for membership in a list of two lists, so it always holds. Every tile is dispatched, and repeated ingestion is harmless only because `action_*` appends a letter when it is new. The older two versions really do skip a tile whose raw letter is already correct or absent at that position.

## Model

| member | source | states |
|---|---|---|
| Ledger.Record | src/wordle_solver.py:51-63 | appending a letter to a position's list keeps what was there as a prefix and adds exactly that letter; the list is unchanged exactly when the letter was already there, and grows by at most one |
| Ledger.RecordKeepsNoDuplicates | src/wordle_solver.py:62-63 | a list that holds no letter twice still holds none twice after recording |
| Ledger.RecordClue | src/wordle_solver.py:51-91 | dispatching a clue records the letter in the ledger of its state at its position, only extends the ledgers, changes nothing exactly when the clue was already recorded, and leaves the other two ledgers untouched |
| Ledger.RecordClueIdempotent | src/wordle_solver.py:51-91 | recording the same (state, letter, position) twice equals recording it once; the copy at wordle-solver.py:11-51 does the same |
| Ledger.Flatten | src/wordle_solver.py:387 | `sum(values, [])` holds a letter exactly when some position's list holds it |
| Ledger.FlattenFive | src/wordle_solver.py:274 | the concatenation of a ledger is its five position lists in position order |
| Ledger.SolvedIffEveryPositionConfirmed | src/wordle_solver.py:387-390 | when no position has more than one correct letter, solved holds exactly when every position has one |
| Ledger.SolvedWithAnEmptyPosition | src/wordle_solver.py:387-390 | the total-count test accepts a ledger whose last position has no correct letter |
| Ledger.AnswerSpellsConfirmedLetters | src/wordle_solver.py:273-276 | with one correct letter per position the game is solved, and the joined answer has each position's confirmed letter at that position |
| Ledger.Ingest | src/wordle_solver.py:315-328 | ingesting a row of tiles only extends the three ledgers |
| Ledger.IngestPositionwise | src/wordle_solver.py:315-328 | a row adds nothing but its own letters, each at its own position: position `p` of the result is what tile `p` alone makes of the old ledgers there, and positions past the row are untouched |
| Ledger.IngestAbsorbsEveryTile | src/wordle_solver.py:315-328 | after a row is ingested, every tile of it is either skipped or recorded in the ledger of its state at its position |
| Ledger.IngestOfAbsorbedRow | wordle_solver.py:313-324 | a row whose every tile is already skipped or recorded changes nothing |
| Ledger.IngestIdempotent | src/wordle_solver.py:315-328 | ingesting the same row twice equals ingesting it once, with or without the duplicate skip |
| Filters.Select | src/wordle_solver.py:150 | the order-preserving filter keeps exactly the words of the list that pass every stage, and never lengthens the list |
| Filters.SelectKeepsEveryCopy | src/wordle_solver.py:150 | the filter keeps every copy of a word that passes and no copy of one that fails |
| Filters.SelectIsSubsequence | src/wordle_solver.py:150 | the filtered list is a subsequence of the input, so the survivors keep their order |
| Filters.SelectCompose | src/wordle_solver.py:130-132 | filtering by one list of stages and then by another equals filtering once by both in order |
| Filters.NoCluesKeepEveryWord | src/wordle_solver.py:498-505 | with the empty ledgers of a fresh game the pipeline keeps the whole list, in order |
| Filters.CandidatesMeaning | src/wordle_solver.py:130-132 | a word survives the pipeline exactly when it is in the list, has no absent letter at its own position, has every confirmed position's first letter, has no present letter at a position where it was seen misplaced, and contains every present letter |
| Filters.PipelineIsCandidates | src/wordle_solver.py:130-132 | the three stages applied one after another give the candidates of the current clues |
| Filters.StagesWeakenAsCluesGrow | src/wordle_solver.py:130-132 | a word that passes the stages of a larger ledger passes those of any earlier ledger it extends |
| Filters.NarrowingEqualsRefiltering | src/wordle_solver.py:130-132 | narrowing by earlier clues and then by later ones that extend them gives the same list as filtering the original once by the later clues, so the stored list never grows |
| Filters.ConfirmedPositionInOneRun | src/wordle_solver.py:103-116 | in a run decomposition each confirmed position lies in exactly one run |
| Filters.IndexCorrectLetters | src/wordle_solver.py:103-116 | the runs returned are the maximal blocks of consecutive confirmed positions in increasing order, each position paired with its first recorded letter; the copies at wordle_solver.py:97-110 and wordle-solver.py:73-86 do the same |
| Filters.RunMatchesIffLetters | src/wordle_solver.py:166-169 | a word's slice over a run equals the run's joined letters exactly when each run position holds its letter |
| Filters.RunsMatchIffConfirmed | src/wordle_solver.py:164-171 | every run of a decomposition matches exactly when the word has each confirmed position's first letter |
| Filters.EliminateIncorrectLetters | src/wordle_solver.py:150 | keeps exactly the words with no letter inside its own position's absent list, every copy of each, as a subsequence of the input; the copies at wordle_solver.py:154 and wordle-solver.py:126 do the same |
| Filters.AllSequencesMatch | src/wordle_solver.py:164-171 | the inner loop with its early break answers true exactly when the word's slice over every run spells that run's letters |
| Filters.EliminateWoCorrectLetters | src/wordle_solver.py:162-176 | the loop returns the order-preserving selection of the words whose confirmed positions all hold their first correct letter; the copies at wordle_solver.py:166-180 and wordle-solver.py:138-152 do the same |
| Filters.EliminateWrongPosLetters | src/wordle_solver.py:188-206 | the loop returns the order-preserving selection of the words with no present letter at a position where it was misplaced that also contain every present letter; the copies at wordle_solver.py:192-210 and wordle-solver.py:164-183 do the same |
| Ranking.Weight | src/wordle_solver.py:219-245 | an upper-case letter weighs between 1 and 1200 hundredths, and any other character weighs nothing (`.get(letter, 0)`) |
| Ranking.Dedup | src/wordle_solver.py:252 | `set(word)` holds each letter of the word once and nothing else |
| Ranking.BestOf | src/wordle_solver.py:248-259 | the running best stays the initial `(0,)` exactly when the list is empty, and a rated word is always a word of the list |
| Ranking.Best | src/wordle_solver.py:248-259 | the rating of a candidate list names one of its words, and none exactly when the list is empty |
| Ranking.ChoiceIsUnique | src/wordle_solver.py:248-259 | the loop-free statement of the winner (none for an empty list, the last word when all scores are 0, else the first word with the maximum) determines the rating |
| Ranking.BestOfIsChoice | src/wordle_solver.py:256-257 | the running-best rule `best == 0 or score > best` produces exactly that winner |
| Ranking.BestIsChoice | src/wordle_solver.py:248-259 | a rating meets the loop-free statement for the words' scores exactly when it is the rating of the list |
| Ranking.UnratedOnlyWhenEmpty | src/wordle_solver.py:248-259 | only an empty list leaves the rating at `(0,)`, which `solve_next_word` cannot index |
| Ranking.PositiveBestNeedsStrictlyHigher | wordle_solver.py:260-261 | once the running best is positive, a word replaces it exactly when it scores strictly higher |
| Ranking.DistinctNeverExceedsOccurrence | wordle-solver.py:229-231 | scoring distinct letters never gives more than scoring every occurrence |
| Ranking.ScoringsAgreeWithoutRepeats | wordle-solver.py:229-231 | for a word without a repeated letter the two scoring rules agree |
| Ranking.RepeatedLetterCountsOncePerOccurrence | wordle-solver.py:229-231 | "sheet" scores 4530 counting each occurrence and 3330 counting distinct letters |
| Ranking.ExcludedLettersWeighNothing | src/wordle_solver.py:253-254 | letters all found in the absent union add nothing to a score |
| Ranking.WordScore | src/wordle_solver.py:250-254 | the inner loop sums the weights of the word's letters (distinct or every occurrence) that are not in the absent union |
| Ranking.Rate | src/wordle_solver.py:248-259 | the rating loop returns the rating of the list, with distinct-letter scores as here and at wordle_solver.py:252-263, or per-occurrence scores as at wordle-solver.py:225-236 |
| Play.GuessOf | src/wordle_solver.py:134 | a guess is read out of a rating exactly when some word was rated, and it is the rated word |
| Play.FirstValid | src/wordle_solver.py:358-361 | the accepted line is a word of the list |
| Play.FirstValidIsFirst | src/wordle_solver.py:358-361 | the accepted line is the earliest typed line that is in the list, and none is accepted exactly when no typed line is in the list |
| Play.ReplayGrows | src/wordle_solver.py:448-477 | across the rounds of a replayed game every ledger extends the one the game started with and is extended by the final one |
| Solver.RandomFirstGuessAsWritten | src/wordle_solver.py:489 | an index drawn from `randint(0, len)` gives a word of the list when it is in range |
| Solver.RandomFirstGuessCanFail | src/wordle_solver.py:489 | the roll equal to the list's length yields no word |
| Solver.RandomFirstGuess | src/wordle_solver.py:489 | with the roll below the length the opening guess is a word of the list |
| Solver.RandomFirstGuessNeverFails | src/wordle_solver.py:489 | on every in-range roll the corrected and the written draws agree |
| Solver.WordleSolver.constructor | src/wordle_solver.py:16-30 | a new solver holds the loaded list, empty ledgers, no attempts, no answer and is not solved |
| Solver.WordleSolver.ActionCorrect | src/wordle_solver.py:51-63 | the new ledgers are the old ones with the correct clue recorded |
| Solver.WordleSolver.ActionAbsent | src/wordle_solver.py:65-77 | the new ledgers are the old ones with the absent clue recorded |
| Solver.WordleSolver.ActionPresent | src/wordle_solver.py:79-91 | the new ledgers are the old ones with the present clue recorded |
| Solver.WordleSolver.SolveNextWord | src/wordle_solver.py:130-136 | the stored list becomes the candidates of the old list under the current clues, the guess is the winner of the rating over it, and there is no guess exactly when no candidate is left |
| Solver.WordleSolver.LetterFrequencyRating | src/wordle_solver.py:248-259 | the rating of the stored list meets the loop-free statement of the winner |
| Solver.WordleSolver.IsWordleSolved | src/wordle_solver.py:387-390 | answers solved exactly when five correct letters are recorded, and sets the flag when it does |
| Solver.WordleSolver.ShowCorrectAnswer | src/wordle_solver.py:273-288 | when solved, the answer is the correct letters joined in position order; otherwise it is the notice's text, and without a notice it is an error that leaves the answer as it was |
| Solver.AutoPlayRounds | src/wordle_solver.py:463-477 | round `i` of a game played by `auto_play` used row `first + i + 1`, began unsolved and submitted the rating winner of the original list narrowed by the ledgers it began with; the ledgers chain from the start to the end with each row ingested |
| Solver.ManualExtend | src/wordle_solver.py:451-455 | a guess that is the first valid line typed, submitted on the next row and read back, extends a game played under a rule that admits `manual_play` rounds |
| Solver.ManualRoundFacts | src/wordle_solver.py:451-459 | a `manual_play` round leaves its row ingested into its ledgers, and after the first round it began unsolved with a guess among the candidates of its ledgers |
| Solver.ManualPlayRounds | src/wordle_solver.py:448-459 | the ledgers of a game played by `manual_play` chain from the start to the end with each row ingested, and every guess after the first began unsolved, is a word of the original list and agrees with every absent, correct and misplaced clue known when it was typed |
| Solver.WordleSolver.ValidWord | src/wordle_solver.py:363-375 | a guess is valid exactly when it is in the current list, so it has five letters |
| Solver.WordleSolver.UserGuess | src/wordle_solver.py:351-361 | the retry loop returns the first typed line that `valid_word` accepts, and nothing when the lines run out |
| Solver.WordleSolver.ValidGuessMeetsClues | src/wordle_solver.py:363-375 | once the list has been narrowed, a valid guess is a word of the original list and agrees with every clue that narrowed it |
| Solver.WordleSolver.SolveAndNarrow | src/wordle_solver.py:130-136 | the solve inside a loop leaves the stored list the candidates of the original list under the current ledgers, and its guess is their rating winner, none exactly when the list is empty |
| Solver.WordleSolver.ReadRow | src/wordle_solver.py:453-455 | reading a row ingests it into the ledgers and counts one attempt, and the list stays one filtering of the original |
| Solver.WordleSolver.UpdateLetterStatus | src/wordle_solver.py:315-328 | the ledgers become the old ones with every tile of the row dispatched in position order, none skipped |
| Solver.WordleSolver.ResetGame | src/wordle_solver.py:498-505 | the list is reloaded, and attempts, answer, flag and ledgers are emptied |
| Solver.WordleSolver.AutoTurn | src/wordle_solver.py:465-477 | a round that starts solved sets the `solved` flag and stops without playing; otherwise the flag is left as it was and the winner is submitted and its row read as one more round, or the solve raises on an empty list; the list is then narrowed by the ledgers the round began with |
| Solver.WordleSolver.SubmitWinner | src/wordle_solver.py:474-477 | the winner submitted on the next row and read back is one more `auto_play` round, with one more attempt counted |
| Solver.WordleSolver.AutoPlay | src/wordle_solver.py:463-477 | the rounds played are the `auto_play` rounds from the starting ledgers to the final ones, at most six; it stops before six only when a round starts solved, setting `attempts` to the rounds played and the `solved` flag, or when no candidate is left, which raises; otherwise the flag is left as it was; the stored list is the candidates of the original list under the ledgers the last round began with (those of its last solve, which the final ledgers extend), or under the final ledgers after a crash |
| Solver.WordleSolver.TypeAndRead | src/wordle_solver.py:451-455 | the first valid line is submitted and its row read as one more `manual_play` round, or the prompt waits for ever when no typed line is valid |
| Solver.WordleSolver.EnterGuess | src/wordle_solver.py:453-455 | a typed guess submitted on the next row and read back is one more `manual_play` round, with one more attempt counted |
| Solver.WordleSolver.SolveNext | src/wordle_solver.py:456-459 | after a round the loop stops when solved, raises when the solve finds no candidate, and otherwise goes on unsolved with the list narrowed by the current ledgers; the `solved` flag is set exactly when the check finds the game solved and is never cleared |
| Solver.WordleSolver.ManualTurn | src/wordle_solver.py:449-459 | one round of `manual_play`: it waits for a valid word with the ledgers and the `solved` flag unchanged, or plays one more round, sets the flag if that round solved the game, and then stops solved, crashes or goes on unsolved with the list narrowed |
| Solver.WordleSolver.ManualPlay | src/wordle_solver.py:448-459 | the rounds played are the `manual_play` rounds from the starting ledgers to the final ones, one attempt each and at most six in all; it ends solved or out of attempts, crashed with no candidate left, or waiting for a valid word; the `solved` flag ends set exactly when it was set before or some round was played and the final ledgers are solved |
| EarlySolver.WordleSolver.constructor | wordle_solver.py:14-24 | a new solver holds the loaded list, empty ledgers and no attempts |
| EarlySolver.WordleSolver.ActionCorrect | wordle_solver.py:45-57 | the new ledgers are the old ones with the correct clue recorded |
| EarlySolver.WordleSolver.ActionAbsent | wordle_solver.py:59-71 | the new ledgers are the old ones with the absent clue recorded |
| EarlySolver.WordleSolver.ActionPresent | wordle_solver.py:73-85 | the new ledgers are the old ones with the present clue recorded |
| EarlySolver.WordleSolver.SolveNextWord | wordle_solver.py:126-140 | the guess is the winner of the rating over the candidates of the full loaded list, lies among them, and the list itself is not changed |
| EarlySolver.WordleSolver.IsWordleSolved | wordle_solver.py:381-383 | solved exactly when the five position lists hold five letters in total |
| EarlySolver.WordleSolver.UpdateLetterStatus | wordle_solver.py:313-324 | the ledgers become the old ones with every tile dispatched in order, except tiles whose raw letter is already correct or absent at their position |
| EarlySolver.WordleSolver.ResetGame | wordle_solver.py:479-483 | attempts and all three ledgers are emptied, and the word list is left as it was |
| EarlySolver.RefilteringMatchesNarrowing | wordle_solver.py:126-128 | re-filtering the full list each round picks the same guess as narrowing the stored list round after round |
| EarlySolver.KnownRowChangesNothing | wordle_solver.py:317-321 | a row whose every tile is already correct or absent at its position leaves the ledgers unchanged |
| ScriptSolver.IsWordleSolved | wordle-solver.py:389-390 | answers True exactly when five correct letters are recorded, and never answers False |
| ScriptSolver.PySum | wordle-solver.py:257 | `sum` with a start list gives that list followed by the ledger's letters |
| ScriptSolver.PySumWithoutStartFails | wordle-solver.py:257 | `sum` of a ledger's five lists without a start list never yields a list |
| ScriptSolver.PySumWithEmptyStart | wordle-solver.py:249 | `sum(values, [])` is the five lists in position order |
| ScriptSolver.ShowCorrectAnswerAsWritten | wordle-solver.py:248-259 | when solved, the answer is the correct letters joined in position order, without consulting the page; unsolved, it is the notice's text; it raises exactly when the game is unsolved and the notice does not appear |
| ScriptSolver.FallbackAlwaysFails | wordle-solver.py:253-257 | an unsolved game without the end-of-game notice always raises in the fallback as written |
| ScriptSolver.ShowCorrectAnswer | wordle-solver.py:248-259 | solved or without a notice, the answer is the five lists joined in order; otherwise the notice's text |
| ScriptSolver.CorrectedAgreesWhereWrittenSucceeds | wordle-solver.py:248-259 | wherever the version as written returns an answer, the corrected one returns the same |
| ScriptSolver.ScriptExtend | wordle-solver.py:427-432 | a guess that is the first line typed at attempt `n` that is in the dictionary, submitted and read back with the skip, extends a game played under a rule that admits the script's rounds |
| ScriptSolver.ScriptRoundFacts | wordle-solver.py:427-432 | a round of the script's rule used row `i + 1`, submitted the first valid line typed at that attempt, left its row ingested with the skip, and after the first round began unsolved |
| ScriptSolver.ScriptPlayRounds | wordle-solver.py:421-435 | the ledgers of a script game chain from the start to the end with each row ingested under the skip; round `i` submitted the first dictionary word typed at attempt `i + 1` and read row `i + 1`; no round after the first began solved |
| ScriptSolver.Globals.constructor | wordle-solver.py:54-61 | the globals start as three empty ledgers over the loaded dictionary |
| ScriptSolver.Globals.ActionCorrect | wordle-solver.py:11-23 | the new ledgers are the old ones with the correct clue recorded |
| ScriptSolver.Globals.ActionAbsent | wordle-solver.py:25-37 | the new ledgers are the old ones with the absent clue recorded |
| ScriptSolver.Globals.ActionPresent | wordle-solver.py:39-51 | the new ledgers are the old ones with the present clue recorded |
| ScriptSolver.Globals.GetLetterStatus | wordle-solver.py:282-293 | the ledgers become the old ones with every tile dispatched, except tiles already correct or absent at their position |
| ScriptSolver.Globals.UserGuess | wordle-solver.py:336-364 | the retry loop returns the first typed line that is a word of the dictionary, and nothing when the lines run out |
| ScriptSolver.Globals.PlayRound | wordle-solver.py:427-429 | attempt `n` takes the first dictionary word typed and reads row `n` back as one more round, or waits, changing nothing, when no typed line is valid |
| ScriptSolver.Globals.PlayRounds | wordle-solver.py:422-435 | the rounds played are the script's rounds from the starting ledgers to the final ones, at most six; the loop breaks before six only when solved or when the prompt waits |
| ScriptSolver.Globals.ManualPlay | wordle-solver.py:421-438 | after those rounds the answer is `show_correct_answer` as written: the game finishes with it, or crashes when unsolved without the notice, or never gets there while the prompt waits |
| StatsManager.CheckValidStats | src/stats_manager.py:39-41 | a result is valid exactly when the answer is non-empty and the guess count is non-zero |
| StatsManager.StatsRow | src/stats_manager.py:21 | the row holds date, game mode and answer in its first three fields, then the solved flag as `True`/`False` and the guess count in decimal, five fields in all |
| StatsManager.DigitTextRoundTrip | src/stats_manager.py:22 | the written guess count reads back as the same number |
| StatsManager.FindAnswer | src/stats_manager.py:28-33 | an answer found is the third field of some row |
| StatsManager.FindAnswerByDate | src/stats_manager.py:28-31 | among well-formed rows, a date finds the answer of the first row with that date, and nothing when no row has it |
| StatsManager.FindAnswerWithoutDate | src/stats_manager.py:32-33 | without a date the first data row's answer is returned |
| StatsManager.WordleStats.constructor | src/stats_manager.py:6-9 | opening a log that does not exist creates it with the header; an existing one is left as it is |
| StatsManager.WordleStats.CreateHeaders | src/stats_manager.py:14-15 | the header is written only when the file does not exist |
| StatsManager.WordleStats.SaveStatsCsv | src/stats_manager.py:17-22 | a valid result appends exactly its row; an invalid one leaves the rows unchanged |
| StatsManager.WordleStats.GetAnswer | src/stats_manager.py:24-33 | the lookup loop returns what the row search over the rows below the header gives, with the failures for a missing or empty file |
| StatsManager.SavedAnswerIsFound | src/stats_manager.py:17-33 | a valid result saved under a new date in a well-formed log is what the lookup by that date returns |
| StatsManager.FirstRowOfHeaderlessFileIsSkipped | src/stats_manager.py:27 | a row written to a file that has no header is taken for the header and never found |

## Left out

- Browser driving is not modelled. This covers `submit_guess`, the DOM polling until a row settles, the toast lookup, and `startGame`'s Chrome setup, exception handler and quit. The settled row, the notice text and the console lines are parameters.
- `get_words_list` (file reading and `ast.literal_eval`) is not modelled. The dictionary is a given sequence of five-letter words.
- Words are five-letter strings by type. The source indexes positions 0..4 of every word, so a shorter word would raise there.
- Positions are 0..4 by type. The `setdefault` in `action_*` would create a new key for any other position, but every caller passes `enumerate` indices of a five-tile row.
- `print`, `time.sleep` and logging are not modelled.
- Console input is a finite list of lines per round. A prompt that never receives a valid word ends the loop as `Stalled` instead of blocking forever.
- `Ranking.Weight`: the weights are decimal floats in the source and integers in hundredths here, so float rounding and summation order are not modelled. The iteration order of `set(word)` does not matter, because an integer sum is order-independent.
- Lower- and upper-casing are modelled for ASCII letters only.
- `random_auto_play` in both class versions is modelled only through its opening draw (see Findings). The rest of its loop repeats `auto_play`.
- The root `user_guess` and `valid_word` (wordle_solver.py:345-369) are not modelled. They read and test the console line as `Solver.WordleSolver.UserGuess` and `Solver.WordleSolver.ValidWord` do.
- The root `auto_play` (wordle_solver.py:451-463) is not modelled. It differs from the current one in three ways. It calls `resetGame` first. It reads rows 1..6 through its `guesses` counter. It never increments `attempts`, which is set only when a round starts solved.
- The root `show_correct_answer` (wordle_solver.py:265-290) is not modelled. It never stores the answer in a field. Unsolved, it returns the notice's text or raises when the notice does not appear.
- The root `manual_play` is not modelled. It calls `resetGame` (wordle_solver.py:436), then reads the local `attempts` before any assignment (line 438) and raises `UnboundLocalError`.
- The script's `solve_next_word` only prints a suggestion and is not modelled. Its `startGame` is browser setup only.
- `Solver.WordleSolver.ResetGame`: `__solved` is reset to the empty string in the source. It is modelled as false, which is how every test of it reads the value.
- `StatsManager.StatsRow`: the `solved` field is written for booleans only. A `__solved` still holding `""` would be written as an empty field.
- The stats file is modelled as its rows after splitting on `;`. CSV quoting, line endings and directory creation are not modelled.
- `StatsManager.CheckValidStats`: the exception handler of `check_valid_stats` cannot be reached with a string and an integer and is not modelled.
- The dashboards, `print_win_rate`, `get_results`, `stats_to_csv.py`, the root `stats_manager.py` and the tests are presentation or raw I/O and are not part of this model.

## Findings

| source | as written | input that shows it | evidently intended | confidence | as-written member | corrected member |
|---|---|---|---|---|---|---|
| src/wordle_solver.py:489 | the opening guess indexes `word_list[randint(0, len(word_list))]`, and `randint` includes its upper bound | a roll equal to `len(word_list)`, e.g. roll 3 on a three-word list, indexes past the end and raises `IndexError` | draw from `0..len(word_list) - 1` | not executed; high | Solver.RandomFirstGuessAsWritten (Solver.RandomFirstGuessCanFail) | Solver.RandomFirstGuess (Solver.RandomFirstGuessNeverFails) |
| wordle-solver.py:257 | the fallback answer is `''.join(sum(correct_letters.values()))`, without the start list `[]` | any unsolved game whose end-of-game notice does not appear: `sum` starts from `0` and `0 + list` raises `TypeError` | `sum(correct_letters.values(), [])`, as in the solved branch at line 249 | not executed; high | ScriptSolver.ShowCorrectAnswerAsWritten (ScriptSolver.FallbackAlwaysFails) | ScriptSolver.ShowCorrectAnswer (ScriptSolver.CorrectedAgreesWhereWrittenSucceeds) |
