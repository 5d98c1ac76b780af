/**
 * The earlier `WordleSolver` (wordle_solver.py at the repository root). It
 * keeps the same ledger, but chains the three stages through local lists and
 * never narrows `word_list`, skips a tile whose letter is already known at its
 * position, and resets a game without reloading the word list.
 */
module EarlySolver {
  import opened Wrappers
  import opened Ledger
  import opened Filters
  import opened Ranking
  import opened Play

  class WordleSolver {
    /** `correct_letters` */
    var correct: Ledger
    /** `incorrect_letters` */
    var absent: Ledger
    /** `wrong_position_letters` */
    var present: Ledger
    /** `word_list`: loaded once and never narrowed. */
    var wordList: seq<Word>
    var attempts: nat

    constructor (dictionary: seq<Word>)
      ensures wordList == dictionary && attempts == 0
      ensures correct == EmptyLedger && absent == EmptyLedger && present == EmptyLedger
    {
      correct, absent, present := EmptyLedger, EmptyLedger, EmptyLedger;
      wordList := dictionary;
      attempts := 0;
    }

    function CurrentClues(): Clues
      reads this
    {
      Clues(correct, absent, present)
    }

    method ActionCorrect(letter: char, position: Position)
      modifies this`correct
      ensures CurrentClues() == RecordClue(old(CurrentClues()), Correct, letter, position)
    {
      if letter !in correct[position] {
        correct := correct[position := correct[position] + [letter]];
      }
    }

    method ActionAbsent(letter: char, position: Position)
      modifies this`absent
      ensures CurrentClues() == RecordClue(old(CurrentClues()), Absent, letter, position)
    {
      if letter !in absent[position] {
        absent := absent[position := absent[position] + [letter]];
      }
    }

    method ActionPresent(letter: char, position: Position)
      modifies this`present
      ensures CurrentClues() == RecordClue(old(CurrentClues()), Present, letter, position)
    {
      if letter !in present[position] {
        present := present[position := present[position] + [letter]];
      }
    }

    /** Every solve filters the whole loaded list with the current clues; nothing is stored. */
    method SolveNextWord() returns (possibleGuess: Option<Word>)
      ensures possibleGuess == GuessOf(Best(Candidates(wordList, CurrentClues()), Flatten(absent), PerDistinctLetter))
      ensures possibleGuess.Some? ==> possibleGuess.value in Candidates(wordList, CurrentClues())
    {
      var validGuessWoWrongWords := EliminateIncorrectLetters(wordList, absent);
      var validGuessCorrectLetters := EliminateWoCorrectLetters(validGuessWoWrongWords, correct);
      var validGuessCorrectLettersWrongPos := EliminateWrongPosLetters(validGuessCorrectLetters, present);
      PipelineIsCandidates(wordList, CurrentClues());
      var highest := Rate(validGuessCorrectLettersWrongPos, Flatten(absent), PerDistinctLetter);
      BestIsChoice(validGuessCorrectLettersWrongPos, Flatten(absent), PerDistinctLetter, highest);
      possibleGuess := GuessOf(highest);
    }

    /** Solved when the recorded correct letters number five in total, over all positions. */
    function IsWordleSolved(): (isSolved: bool)
      reads this
      ensures isSolved <==> |correct[0]| + |correct[1]| + |correct[2]| + |correct[3]| + |correct[4]| == 5
    {
      FlattenFive(correct);
      |Flatten(correct)| == 5
    }

    /**
     * Tiles in one of the three clue states are dispatched with their lower-cased
     * letter, unless the raw letter is already correct or absent at that position.
     */
    method UpdateLetterStatus(row: FeedbackRow)
      modifies this`correct, this`absent, this`present
      ensures CurrentClues() == Ingest(old(CurrentClues()), row, true)
    {
      for position := 0 to 5
        invariant CurrentClues() == Ingest(old(CurrentClues()), row[..position], true)
      {
        assert row[..position + 1][..position] == row[..position];
        var tile := row[position];
        if !tile.state.Other? {
          if tile.letter in correct[position] {
          } else if tile.letter in absent[position] {
          } else {
            match tile.state
            case Correct => ActionCorrect(Lower(tile.letter), position);
            case Absent => ActionAbsent(Lower(tile.letter), position);
            case Present => ActionPresent(Lower(tile.letter), position);
          }
        }
      }
      assert row[..5] == row;
    }

    /** Empties the ledger and the attempt count; the loaded list stays as it is. */
    method ResetGame()
      modifies this`attempts, this`correct, this`absent, this`present
      ensures attempts == 0 && CurrentClues() == NoClues
    {
      attempts := 0;
      correct, absent, present := EmptyLedger, EmptyLedger, EmptyLedger;
    }
  }

  /**
   * Filtering the full list every round and narrowing the stored list every round
   * (the current version) leave the same candidates, so both versions guess alike.
   */
  lemma RefilteringMatchesNarrowing(dictionary: seq<Word>, earlier: Clues, now: Clues)
    requires Grows(earlier, now)
    ensures Best(Candidates(dictionary, now), Flatten(now.absent), PerDistinctLetter)
         == Best(Candidates(Candidates(dictionary, earlier), now), Flatten(now.absent), PerDistinctLetter)
  {
    NarrowingEqualsRefiltering(dictionary, earlier, now);
  }

  /** A row whose tiles are all already known at their positions changes nothing in this version. */
  lemma KnownRowChangesNothing(c: Clues, row: FeedbackRow)
    requires forall i :: 0 <= i < 5 ==> row[i].letter in c.correct[i] || row[i].letter in c.absent[i]
    ensures Ingest(c, row, true) == c
  {
    IngestOfAbsorbedRow(c, row, true);
  }
}
