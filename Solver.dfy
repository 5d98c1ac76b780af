/**
 * `WordleSolver` of the current version (src/wordle_solver.py): the clue
 * ledger and the candidate list are fields that the solver narrows round
 * after round, and the two play loops drive at most six rounds against the
 * browser, which is abstracted as a function from (row number, guess) to
 * the settled feedback row.
 */
module Solver {
  import opened Wrappers
  import opened Ledger
  import opened Filters
  import opened Ranking
  import opened Play

  /**
   * The opening guess of `random_auto_play` as written: `randint` includes its upper
   * bound, so the roll ranges over 0..len(word_list) and the last roll indexes past the end.
   */
  function RandomFirstGuessAsWritten(words: seq<Word>, roll: nat): (r: Option<Word>)
    requires roll <= |words|
    ensures r.Some? ==> r.value in words
  {
    if roll < |words| then Some(words[roll]) else None
  }

  /** The inclusive bound makes the opening guess fail on one roll of every list. */
  lemma RandomFirstGuessCanFail(words: seq<Word>)
    ensures RandomFirstGuessAsWritten(words, |words|) == None
  {
  }

  /** The evidently intended opening guess: a roll over the valid indices 0..len(word_list)-1. */
  function RandomFirstGuess(words: seq<Word>, roll: nat): (r: Word)
    requires roll < |words|
    ensures r in words
  {
    words[roll]
  }

  /** With the bound corrected every roll gives a word of the list, the one the roll names. */
  lemma RandomFirstGuessNeverFails(words: seq<Word>, roll: nat)
    requires roll < |words|
    ensures RandomFirstGuessAsWritten(words, roll) == Some(RandomFirstGuess(words, roll))
  {
  }

  /**
   * Round `i` of `auto_play`, counted from attempt `first`: it began unsolved, submitted the
   * winner of the original list narrowed by the ledger it began with, and read that attempt's row.
   */
  ghost predicate AutoRound(original: seq<Word>, feedback: (nat, Word) -> FeedbackRow, first: nat, i: nat, r: Round)
  {
    && r.attempt == first + i + 1
    && r.row == RowFor(feedback, r.attempt, r.guess)
    && !Solved(r.before.correct)
    && Some(r.guess) == Winner(original, r.before)
    && r.after == After(r, false)
  }

  /**
   * Round `i` of `manual_play`, counted from attempt `first`: the guess is the first valid line
   * typed, against the original list in the first round and the narrowed list after it, so
   * every later guess agrees with the clues it was typed under; only the last round may end solved.
   */
  ghost predicate ManualRound(original: seq<Word>, console: nat -> seq<string>, feedback: (nat, Word) -> FeedbackRow,
                              first: nat, i: nat, r: Round)
  {
    && r.attempt == first + i + 1
    && r.row == RowFor(feedback, r.attempt, r.guess)
    && Some(r.guess) == FirstValid(LinesFor(console, first + i), if i == 0 then original else Candidates(original, r.before))
    && (i > 0 ==> !Solved(r.before.correct))
    && r.after == After(r, false)
  }

  /**
   * A round typed from the first valid line of its attempt, against the list the clues it
   * began with narrowed, extends a game played under any rule that admits such rounds.
   */
  lemma ManualExtend(ok: (nat, Round) -> bool, original: seq<Word>, console: nat -> seq<string>,
                     feedback: (nat, Word) -> FeedbackRow, first: nat, start: Clues, trace: seq<Round>,
                     clues: Clues, typed: nat, listed: seq<Word>, guess: Word, row: FeedbackRow, after: Clues)
    requires AdmitsManual(ok, original, console, feedback, first)
    requires Played(ok, start, trace, clues) && typed == first + |trace|
    requires row == RowFor(feedback, typed + 1, guess) && after == Ingest(clues, row, false)
    requires Some(guess) == FirstValid(LinesFor(console, typed), listed)
    requires listed == if trace == [] then original else Candidates(original, clues)
    requires trace != [] ==> !Solved(clues.correct)
    ensures Played(ok, start, trace + [Round(clues, typed + 1, guess, row, after)], after)
  {
    var r := Round(clues, typed + 1, guess, row, after);
    assert ManualRound(original, console, feedback, first, |trace|, r);
    PlayedExtend(ok, start, trace, r);
  }

  /** The rule every round of `auto_play` keeps, as a rule of `Played`. */
  ghost function AutoRule(original: seq<Word>, feedback: (nat, Word) -> FeedbackRow, first: nat): (nat, Round) -> bool
  {
    (i: nat, r: Round) => AutoRound(original, feedback, first, i, r)
  }

  /** The rule every round of `manual_play` keeps, as a rule of `Played`. */
  ghost function ManualRule(original: seq<Word>, console: nat -> seq<string>, feedback: (nat, Word) -> FeedbackRow,
                            first: nat): (nat, Round) -> bool
  {
    (i: nat, r: Round) => ManualRound(original, console, feedback, first, i, r)
  }

  /** The list of `auto_play` was last narrowed by the ledgers its last round began with, or not at all before a round. */
  ghost predicate NarrowedByLastRound(trace: seq<Round>, narrowedBy: Option<Clues>)
  {
    narrowedBy == if trace == [] then None else Some(trace[|trace| - 1].before)
  }

  /** `ok` admits every round `auto_play` may play; a turn of the loop needs no more of its rule. */
  ghost predicate AdmitsAuto(ok: (nat, Round) -> bool, original: seq<Word>, feedback: (nat, Word) -> FeedbackRow, first: nat)
  {
    forall i: nat, r: Round {:trigger AutoRound(original, feedback, first, i, r)} ::
      AutoRound(original, feedback, first, i, r) ==> ok(i, r)
  }

  /** `ok` admits every round `manual_play` may play. */
  ghost predicate AdmitsManual(ok: (nat, Round) -> bool, original: seq<Word>, console: nat -> seq<string>,
                               feedback: (nat, Word) -> FeedbackRow, first: nat)
  {
    forall i: nat, r: Round {:trigger ManualRound(original, console, feedback, first, i, r)} ::
      ManualRound(original, console, feedback, first, i, r) ==> ok(i, r)
  }

  /**
   * What a replayed `auto_play` says round by round: the ledgers chain from `start` to `end`,
   * and every round began unsolved and submitted the winner of the list its ledger narrowed.
   */
  lemma AutoPlayRounds(original: seq<Word>, feedback: (nat, Word) -> FeedbackRow, first: nat,
                       start: Clues, trace: seq<Round>, end: Clues)
    requires Played(AutoRule(original, feedback, first), start, trace, end)
    ensures Replays(trace, start, end, false)
    ensures forall i :: 0 <= i < |trace| ==>
      && trace[i].attempt == first + i + 1
      && !Solved(trace[i].before.correct)
      && Some(trace[i].guess) == Winner(original, trace[i].before)
  {
    PlayedRounds(AutoRule(original, feedback, first), start, trace, end);
    forall i | 0 <= i < |trace|
      ensures AutoRound(original, feedback, first, i, trace[i])
    {
      assert AutoRule(original, feedback, first)(i, trace[i]);
    }
  }

  /**
   * A `manual_play` round leaves its row ingested into the ledger it began with, and after the
   * first it starts unsolved and types a word of the narrowed list.
   */
  lemma ManualRoundFacts(original: seq<Word>, console: nat -> seq<string>, feedback: (nat, Word) -> FeedbackRow,
                         first: nat, i: nat, r: Round)
    requires ManualRule(original, console, feedback, first)(i, r)
    ensures r.after == After(r, false)
    ensures i > 0 ==> !Solved(r.before.correct) && r.guess in Candidates(original, r.before)
  {
    assert ManualRound(original, console, feedback, first, i, r);
  }

  /**
   * What a replayed `manual_play` says round by round: the ledgers chain from `start` to `end`,
   * and every round after the first began unsolved with a guess that agrees with every clue known.
   */
  lemma ManualPlayRounds(original: seq<Word>, console: nat -> seq<string>, feedback: (nat, Word) -> FeedbackRow,
                         first: nat, start: Clues, trace: seq<Round>, end: Clues)
    requires Played(ManualRule(original, console, feedback, first), start, trace, end)
    ensures Replays(trace, start, end, false)
    ensures forall i :: 1 <= i < |trace| ==>
      && !Solved(trace[i].before.correct)
      && trace[i].guess in original
      && AbsentOk(trace[i].guess, trace[i].before.absent)
      && ConfirmedOk(trace[i].guess, trace[i].before.correct)
      && WrongPositionOk(trace[i].guess, trace[i].before.present)
  {
    PlayedRounds(ManualRule(original, console, feedback, first), start, trace, end);
    forall i | 0 <= i < |trace|
      ensures trace[i].after == After(trace[i], false)
      ensures i > 0 ==> !Solved(trace[i].before.correct) && trace[i].guess in Candidates(original, trace[i].before)
    {
      ManualRoundFacts(original, console, feedback, first, i, trace[i]);
    }
    forall i | 1 <= i < |trace|
      ensures trace[i].guess in original
      ensures AbsentOk(trace[i].guess, trace[i].before.absent)
      ensures ConfirmedOk(trace[i].guess, trace[i].before.correct)
      ensures WrongPositionOk(trace[i].guess, trace[i].before.present)
    {
      CandidatesMeaning(original, trace[i].before, trace[i].guess);
    }
  }

  class WordleSolver {
    /** `correct_letters` */
    var correct: Ledger
    /** `incorrect_letters` */
    var absent: Ledger
    /** `wrong_position_letters` */
    var present: Ledger
    /** `word_list`: the candidates still possible. */
    var wordList: seq<Word>
    var attempts: nat
    var gameMode: string
    /** `__answer` */
    var answer: string
    /** `__solved`; its initial `""` is falsy and is modelled as false. */
    var solved: bool
    /** The list `get_words_list` loads from the dictionary file. */
    const dictionary: seq<Word>

    constructor (dictionary: seq<Word>)
      ensures this.dictionary == dictionary && wordList == dictionary
      ensures correct == EmptyLedger && absent == EmptyLedger && present == EmptyLedger
      ensures attempts == 0 && gameMode == "" && answer == "" && !solved
    {
      this.dictionary := dictionary;
      correct, absent, present := EmptyLedger, EmptyLedger, EmptyLedger;
      wordList := dictionary;
      attempts := 0;
      gameMode, answer, solved := "", "", false;
    }

    function CurrentClues(): Clues
      reads this
    {
      Clues(correct, absent, present)
    }

    method ActionCorrect(letter: char, position: Position)
      modifies this`correct
      ensures CurrentClues() == RecordClue(old(CurrentClues()), Correct, letter, position)
    {
      if letter !in correct[position] {
        correct := correct[position := correct[position] + [letter]];
      }
    }

    method ActionAbsent(letter: char, position: Position)
      modifies this`absent
      ensures CurrentClues() == RecordClue(old(CurrentClues()), Absent, letter, position)
    {
      if letter !in absent[position] {
        absent := absent[position := absent[position] + [letter]];
      }
    }

    method ActionPresent(letter: char, position: Position)
      modifies this`present
      ensures CurrentClues() == RecordClue(old(CurrentClues()), Present, letter, position)
    {
      if letter !in present[position] {
        present := present[position := present[position] + [letter]];
      }
    }

    /** The three stages, each overwriting `word_list`, then the rating of what is left. */
    method SolveNextWord() returns (possibleGuess: Option<Word>)
      modifies this`wordList
      ensures wordList == Candidates(old(wordList), CurrentClues())
      ensures possibleGuess == GuessOf(Best(wordList, Flatten(absent), PerDistinctLetter))
      ensures possibleGuess.None? <==> wordList == []
    {
      ghost var before := wordList;
      wordList := EliminateIncorrectLetters(wordList, absent);
      wordList := EliminateWoCorrectLetters(wordList, correct);
      wordList := EliminateWrongPosLetters(wordList, present);
      PipelineIsCandidates(before, CurrentClues());
      var highest := LetterFrequencyRating();
      possibleGuess := GuessOf(highest);
    }

    /** The rating of the current list, over distinct letters, skipping letters recorded as absent anywhere. */
    method LetterFrequencyRating() returns (highest: Rating)
      ensures highest == Best(wordList, Flatten(absent), PerDistinctLetter)
      ensures IsChoice(wordList, Flatten(absent), PerDistinctLetter, highest)
    {
      highest := Rate(wordList, Flatten(absent), PerDistinctLetter);
      BestIsChoice(wordList, Flatten(absent), PerDistinctLetter, highest);
    }

    /** Sets `__solved` when five correct letters are recorded. */
    method IsWordleSolved() returns (isSolved: bool)
      modifies this`solved
      ensures isSolved <==> Solved(correct)
      ensures solved == (old(solved) || isSolved)
    {
      if |Flatten(correct)| == 5 {
        solved := true;
        return true;
      }
      return false;
    }

    /**
     * The answer: the recorded correct letters when solved; otherwise the text of the
     * page's end-of-game notice (`toast`, None when it does not appear), whose absence is an error.
     */
    method ShowCorrectAnswer(toast: Option<string>) returns (r: Result<string, string>)
      modifies this`solved, this`answer
      ensures Solved(correct) ==> r == Ok(Flatten(correct)) && answer == Flatten(correct)
      ensures !Solved(correct) && toast.Some? ==> r == Ok(toast.value) && answer == toast.value
      ensures !Solved(correct) && toast.None? ==> r.Err? && answer == old(answer)
      ensures solved == (old(solved) || Solved(correct))
    {
      var isSolved := IsWordleSolved();
      if isSolved {
        answer := Flatten(correct);
        return Ok(answer);
      }
      if toast.None? {
        return Err("Failed to use all guesses.");
      }
      answer := toast.value;
      r := Ok(answer);
    }

    /** A guess is accepted exactly when it is in the current word list, so it has five letters. */
    function ValidWord(guess: string): (valid: bool)
      reads this
      ensures valid <==> guess in wordList
      ensures valid ==> |guess| == 5
    {
      guess in wordList
    }

    /** `user_guess`: the console lines are read until one is a valid word; None when they run out first. */
    method UserGuess(lines: seq<string>) returns (guess: Option<Word>)
      ensures guess == FirstValid(lines, wordList)
    {
      for i := 0 to |lines|
        invariant FirstValid(lines, wordList) == FirstValid(lines[i..], wordList)
      {
        assert lines[i..][1..] == lines[i + 1..];
        if ValidWord(lines[i]) {
          var w: Word := lines[i];
          return Some(w);
        }
      }
      return None;
    }

    /** Every tile of the row is dispatched on its state; the duplicate guard never holds, so none is skipped. */
    method UpdateLetterStatus(row: FeedbackRow)
      modifies this`correct, this`absent, this`present
      ensures CurrentClues() == Ingest(old(CurrentClues()), row, false)
    {
      for position := 0 to 5
        invariant CurrentClues() == Ingest(old(CurrentClues()), row[..position], false)
      {
        assert row[..position + 1][..position] == row[..position];
        var tile := row[position];
        match tile.state
        case Correct => ActionCorrect(Lower(tile.letter), position);
        case Absent => ActionAbsent(Lower(tile.letter), position);
        case Present => ActionPresent(Lower(tile.letter), position);
        case Other(_) =>
      }
      assert row[..5] == row;
    }

    /** What `startGame` resets before each game: a fresh dictionary, no attempts, no answer and empty ledgers. */
    method ResetGame()
      modifies this`wordList, this`attempts, this`answer, this`solved, this`correct, this`absent, this`present
      ensures wordList == dictionary && attempts == 0 && answer == "" && !solved
      ensures CurrentClues() == NoClues
    {
      wordList := dictionary;
      attempts := 0;
      answer := "";
      solved := false;
      correct, absent, present := EmptyLedger, EmptyLedger, EmptyLedger;
    }

    /** The list is narrowed by the clues known at the latest solve, which the current ledger extends. */
    ghost predicate NarrowedFrom(original: seq<Word>, start: Clues, narrowedBy: Option<Clues>)
      reads this
    {
      && Grows(start, CurrentClues())
      && match narrowedBy
         case None => wordList == original
         case Some(c) => Grows(start, c) && Grows(c, CurrentClues()) && wordList == Candidates(original, c)
    }

    /**
     * What a valid guess means once the list has been narrowed: the word comes from the
     * original list and agrees with every clue that narrowed it.
     */
    lemma ValidGuessMeetsClues(original: seq<Word>, start: Clues, c: Clues, guess: Word)
      requires NarrowedFrom(original, start, Some(c)) && ValidWord(guess)
      ensures guess in original
      ensures AbsentOk(guess, c.absent) && ConfirmedOk(guess, c.correct) && WrongPositionOk(guess, c.present)
    {
      CandidatesMeaning(original, c, guess);
    }

    /** One solve inside a play loop: the list stays one filtering of the original. */
    method SolveAndNarrow(ghost original: seq<Word>, ghost start: Clues, ghost narrowedBy: Option<Clues>)
      returns (guess: Option<Word>)
      requires NarrowedFrom(original, start, narrowedBy)
      modifies this`wordList
      ensures NarrowedFrom(original, start, Some(CurrentClues()))
      ensures guess == GuessOf(Best(wordList, Flatten(absent), PerDistinctLetter))
      ensures guess == Winner(original, CurrentClues())
      ensures guess.None? <==> wordList == []
    {
      guess := SolveNextWord();
      if narrowedBy.Some? {
        NarrowingEqualsRefiltering(original, narrowedBy.value, CurrentClues());
      }
    }

    /** One row read inside a play loop: the attempt is counted, the ledger grows, the list stays as it was. */
    method ReadRow(row: FeedbackRow, ghost original: seq<Word>, ghost start: Clues, ghost narrowedBy: Option<Clues>)
      requires NarrowedFrom(original, start, narrowedBy)
      modifies this`attempts, this`correct, this`absent, this`present
      ensures CurrentClues() == Ingest(old(CurrentClues()), row, false)
      ensures attempts == old(attempts) + 1
      ensures NarrowedFrom(original, start, narrowedBy)
    {
      attempts := attempts + 1;
      ghost var clues := CurrentClues();
      UpdateLetterStatus(row);
      GrowsTransitive(start, clues, CurrentClues());
      if narrowedBy.Some? {
        GrowsTransitive(narrowedBy.value, clues, CurrentClues());
      }
    }

    /**
     * One round of `auto_play` after the `guesses` counter is set: the solved check, then the
     * solve, the submission of the winner and the reading of its row.
     */
    method AutoTurn(feedback: (nat, Word) -> FeedbackRow, ghost original: seq<Word>, ghost start: Clues,
                    ghost first: nat, ghost ok: (nat, Round) -> bool, ghost trace: seq<Round>, ghost narrowedBy: Option<Clues>)
      returns (isSolved: bool, crashed: bool, ghost played: seq<Round>, ghost narrowed: Option<Clues>)
      requires NarrowedFrom(original, start, narrowedBy) && AdmitsAuto(ok, original, feedback, first)
      requires Played(ok, start, trace, CurrentClues()) && attempts == first + |trace|
      modifies this`wordList, this`attempts, this`solved, this`correct, this`absent, this`present
      ensures NarrowedFrom(original, start, narrowed)
      ensures Played(ok, start, played, CurrentClues())
      ensures isSolved ==> !crashed && Solved(correct) && played == trace && attempts == old(attempts)
      ensures crashed ==> played == trace && attempts == old(attempts)
      ensures crashed ==> !Solved(correct) && Winner(original, CurrentClues()) == None && wordList == []
      ensures !isSolved && !crashed ==> |played| == |trace| + 1 && attempts == old(attempts) + 1
      ensures solved == (old(solved) || isSolved)
      ensures isSolved ==> narrowed == narrowedBy
      ensures crashed ==> narrowed == Some(CurrentClues())
      ensures !isSolved && !crashed ==> NarrowedByLastRound(played, narrowed)
    {
      played, narrowed := trace, narrowedBy;
      isSolved := IsWordleSolved();
      crashed := false;
      if !isSolved {
        var guess := SolveAndNarrow(original, start, narrowedBy);
        narrowed := Some(CurrentClues());
        if guess.None? {
          crashed := true;
        } else {
          played := SubmitWinner(feedback, guess.value, original, start, first, ok, trace, narrowed);
        }
      }
    }

    /** The winner submitted on the next row and that row read back, as one more round of `auto_play`. */
    method SubmitWinner(feedback: (nat, Word) -> FeedbackRow, guess: Word, ghost original: seq<Word>, ghost start: Clues,
                        ghost first: nat, ghost ok: (nat, Round) -> bool, ghost trace: seq<Round>, ghost narrowedBy: Option<Clues>)
      returns (ghost played: seq<Round>)
      requires NarrowedFrom(original, start, narrowedBy) && AdmitsAuto(ok, original, feedback, first)
      requires Played(ok, start, trace, CurrentClues()) && attempts == first + |trace|
      requires !Solved(correct) && Some(guess) == Winner(original, CurrentClues())
      modifies this`attempts, this`correct, this`absent, this`present
      ensures NarrowedFrom(original, start, narrowedBy)
      ensures Played(ok, start, played, CurrentClues())
      ensures |played| == |trace| + 1 && attempts == old(attempts) + 1
      ensures played[|played| - 1].before == old(CurrentClues())
    {
      ghost var clues := CurrentClues();
      var attempt := attempts + 1;
      var row := RowFor(feedback, attempt, guess);
      ReadRow(row, original, start, narrowedBy);
      ghost var round := Round(clues, attempt, guess, row, CurrentClues());
      assert AutoRound(original, feedback, first, |trace|, round);
      PlayedExtend(ok, start, trace, round);
      played := trace + [round];
    }

    /**
     * `auto_play`: at most six rounds; a round that starts solved sets `attempts` to the
     * number of rounds played and stops; otherwise solve, submit the winner, read the row
     * and count. An empty candidate list makes the solve raise, which ends the loop.
     */
    method AutoPlay(feedback: (nat, Word) -> FeedbackRow)
      returns (crashed: bool, rounds: nat, ghost trace: seq<Round>, ghost narrowedBy: Option<Clues>)
      modifies this`wordList, this`attempts, this`solved, this`correct, this`absent, this`present
      ensures rounds <= MaxAttempts && |trace| == rounds
      ensures old(attempts) == 0 ==> attempts == rounds
      ensures Played(AutoRule(old(wordList), feedback, old(attempts)), old(CurrentClues()), trace, CurrentClues())
      ensures crashed ==> rounds < MaxAttempts && attempts == old(attempts) + rounds
      ensures crashed ==> !Solved(correct) && Winner(old(wordList), CurrentClues()) == None && wordList == []
      ensures !crashed && rounds < MaxAttempts ==> Solved(correct) && attempts == rounds
      ensures !crashed && rounds == MaxAttempts ==> attempts == old(attempts) + MaxAttempts
      ensures NarrowedFrom(old(wordList), old(CurrentClues()), narrowedBy)
      ensures solved == (old(solved) || (!crashed && rounds < MaxAttempts))
      ensures crashed ==> narrowedBy == Some(CurrentClues())
      ensures !crashed ==> NarrowedByLastRound(trace, narrowedBy)
    {
      ghost var original, start, first := wordList, CurrentClues(), attempts;
      ghost var ok := AutoRule(original, feedback, first);
      assert AdmitsAuto(ok, original, feedback, first);
      crashed, rounds, trace, narrowedBy := false, 0, [], None;
      for guesses := 0 to MaxAttempts
        invariant rounds == guesses == |trace| && attempts == first + guesses
        invariant solved == old(solved)
        invariant NarrowedByLastRound(trace, narrowedBy)
        invariant NarrowedFrom(original, start, narrowedBy)
        invariant Played(ok, start, trace, CurrentClues())
      {
        var isSolved;
        isSolved, crashed, trace, narrowedBy := AutoTurn(feedback, original, start, first, ok, trace, narrowedBy);
        if isSolved {
          attempts := guesses;
          return;
        }
        if crashed {
          return;
        }
        rounds := guesses + 1;
      }
    }

    /** The first half of a `manual_play` round: a valid guess from the console, submitted and its row read. */
    method TypeAndRead(console: nat -> seq<string>, feedback: (nat, Word) -> FeedbackRow, ghost original: seq<Word>,
                       ghost start: Clues, ghost first: nat, ghost ok: (nat, Round) -> bool, ghost trace: seq<Round>,
                       ghost narrowedBy: Option<Clues>)
      returns (stalled: bool, ghost played: seq<Round>)
      requires NarrowedFrom(original, start, narrowedBy) && AdmitsManual(ok, original, console, feedback, first)
      requires narrowedBy == if trace == [] then None else Some(CurrentClues())
      requires trace != [] ==> !Solved(correct)
      requires Played(ok, start, trace, CurrentClues()) && attempts == first + |trace|
      modifies this`attempts, this`correct, this`absent, this`present
      ensures NarrowedFrom(original, start, narrowedBy)
      ensures Played(ok, start, played, CurrentClues())
      ensures stalled ==> played == trace && attempts == old(attempts) && CurrentClues() == old(CurrentClues())
      ensures stalled ==> FirstValid(LinesFor(console, attempts), wordList) == None
      ensures !stalled ==> |played| == |trace| + 1 && attempts == old(attempts) + 1
    {
      var guess := UserGuess(LinesFor(console, attempts));
      if guess.None? {
        stalled, played := true, trace;
      } else {
        stalled := false;
        played := EnterGuess(console, feedback, guess.value, original, start, first, ok, trace, narrowedBy);
      }
    }

    /** A guess typed at the console submitted on the next row and that row read back, as one more round. */
    method EnterGuess(console: nat -> seq<string>, feedback: (nat, Word) -> FeedbackRow, guess: Word,
                      ghost original: seq<Word>, ghost start: Clues, ghost first: nat, ghost ok: (nat, Round) -> bool,
                      ghost trace: seq<Round>, ghost narrowedBy: Option<Clues>)
      returns (ghost played: seq<Round>)
      requires NarrowedFrom(original, start, narrowedBy) && AdmitsManual(ok, original, console, feedback, first)
      requires narrowedBy == if trace == [] then None else Some(CurrentClues())
      requires trace != [] ==> !Solved(correct)
      requires Played(ok, start, trace, CurrentClues()) && attempts == first + |trace|
      requires Some(guess) == FirstValid(LinesFor(console, attempts), wordList)
      modifies this`attempts, this`correct, this`absent, this`present
      ensures NarrowedFrom(original, start, narrowedBy)
      ensures Played(ok, start, played, CurrentClues())
      ensures |played| == |trace| + 1 && attempts == old(attempts) + 1
    {
      ghost var clues, listed := CurrentClues(), wordList;
      var typed := attempts;
      var row := RowFor(feedback, typed + 1, guess);
      ReadRow(row, original, start, narrowedBy);
      ManualExtend(ok, original, console, feedback, first, start, trace, clues, typed, listed, guess, row, CurrentClues());
      played := trace + [Round(clues, typed + 1, guess, row, CurrentClues())];
    }

    /** The second half of a `manual_play` round: the solved check, then the solve that narrows the list. */
    method SolveNext(ghost original: seq<Word>, ghost start: Clues, ghost narrowedBy: Option<Clues>)
      returns (stop: bool, ending: Ending, ghost narrowed: Option<Clues>)
      requires NarrowedFrom(original, start, narrowedBy)
      modifies this`wordList, this`solved
      ensures NarrowedFrom(original, start, narrowed)
      ensures ending != Stalled
      ensures ending == Crashed ==> stop && !Solved(correct) && Winner(original, CurrentClues()) == None && wordList == []
      ensures ending == Finished && stop ==> Solved(correct)
      ensures !stop ==> ending == Finished && !Solved(correct) && narrowed == Some(CurrentClues())
      ensures solved == (old(solved) || Solved(correct))
    {
      narrowed := narrowedBy;
      stop, ending := true, Finished;
      var isSolved := IsWordleSolved();
      if isSolved {
        return;
      }
      var next := SolveAndNarrow(original, start, narrowedBy);
      narrowed := Some(CurrentClues());
      if next.None? {
        ending := Crashed;
        return;
      }
      stop := false;
    }

    /**
     * One round of `manual_play`: a valid guess from the console and its row, the solved
     * check, then the solve that narrows the list for the next round.
     */
    method ManualTurn(console: nat -> seq<string>, feedback: (nat, Word) -> FeedbackRow, ghost original: seq<Word>,
                      ghost start: Clues, ghost first: nat, ghost ok: (nat, Round) -> bool, ghost trace: seq<Round>,
                      ghost narrowedBy: Option<Clues>)
      returns (stop: bool, ending: Ending, ghost played: seq<Round>, ghost narrowed: Option<Clues>)
      requires NarrowedFrom(original, start, narrowedBy) && AdmitsManual(ok, original, console, feedback, first)
      requires narrowedBy == if trace == [] then None else Some(CurrentClues())
      requires trace != [] ==> !Solved(correct)
      requires Played(ok, start, trace, CurrentClues()) && attempts == first + |trace|
      modifies this`wordList, this`attempts, this`solved, this`correct, this`absent, this`present
      ensures NarrowedFrom(original, start, narrowed)
      ensures Played(ok, start, played, CurrentClues())
      ensures ending == Stalled ==> stop && played == trace && attempts == old(attempts)
      ensures ending == Stalled ==> CurrentClues() == old(CurrentClues()) && solved == old(solved)
      ensures ending != Stalled ==> solved == (old(solved) || Solved(correct))
      ensures ending == Stalled ==> FirstValid(LinesFor(console, attempts), wordList) == None
      ensures ending != Stalled ==> |played| == |trace| + 1 && attempts == old(attempts) + 1
      ensures ending == Crashed ==> stop && !Solved(correct) && Winner(original, CurrentClues()) == None && wordList == []
      ensures ending == Finished && stop ==> Solved(correct)
      ensures !stop ==> ending == Finished && !Solved(correct) && narrowed == Some(CurrentClues())
    {
      narrowed := narrowedBy;
      var stalled;
      stalled, played := TypeAndRead(console, feedback, original, start, first, ok, trace, narrowedBy);
      if stalled {
        return true, Stalled, played, narrowed;
      }
      stop, ending, narrowed := SolveNext(original, start, narrowedBy);
    }

    /**
     * `manual_play`: while fewer than six attempts are used, take a valid guess from the
     * console, submit it, read the row and count it; stop when solved, else narrow the list,
     * which raises once it is empty.
     */
    method ManualPlay(console: nat -> seq<string>, feedback: (nat, Word) -> FeedbackRow)
      returns (ending: Ending, rounds: nat, ghost trace: seq<Round>, ghost narrowedBy: Option<Clues>)
      modifies this`wordList, this`attempts, this`solved, this`correct, this`absent, this`present
      ensures attempts == old(attempts) + rounds && |trace| == rounds
      ensures old(attempts) >= MaxAttempts ==> rounds == 0 && ending == Finished
      ensures old(attempts) <= MaxAttempts ==> attempts <= MaxAttempts
      ensures rounds <= MaxAttempts
      ensures Played(ManualRule(old(wordList), console, feedback, old(attempts)), old(CurrentClues()), trace, CurrentClues())
      ensures ending == Finished ==> Solved(correct) || attempts >= MaxAttempts
      ensures ending == Crashed ==> !Solved(correct) && Winner(old(wordList), CurrentClues()) == None && wordList == []
      ensures ending == Stalled ==> FirstValid(LinesFor(console, attempts), wordList) == None
      ensures NarrowedFrom(old(wordList), old(CurrentClues()), narrowedBy)
      ensures solved == (old(solved) || (rounds > 0 && Solved(correct)))
    {
      ghost var original, start, first := wordList, CurrentClues(), attempts;
      ghost var ok := ManualRule(original, console, feedback, first);
      assert AdmitsManual(ok, original, console, feedback, first);
      ending, rounds, trace, narrowedBy := Finished, 0, [], None;
      while attempts < MaxAttempts
        invariant attempts == first + rounds && |trace| == rounds
        invariant first <= MaxAttempts ==> attempts <= MaxAttempts
        invariant first >= MaxAttempts ==> rounds == 0
        invariant ending == Finished && solved == old(solved)
        invariant NarrowedFrom(original, start, narrowedBy)
        invariant narrowedBy == if trace == [] then None else Some(CurrentClues())
        invariant trace != [] ==> !Solved(correct)
        invariant Played(ok, start, trace, CurrentClues())
        decreases MaxAttempts - attempts
      {
        var stop;
        stop, ending, trace, narrowedBy := ManualTurn(console, feedback, original, start, first, ok, trace, narrowedBy);
        if ending != Stalled {
          rounds := rounds + 1;
        }
        if stop {
          break;
        }
      }
    }
  }
}
