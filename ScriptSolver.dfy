/**
 * The first, module-level version of the solver (wordle-solver.py): the
 * ledger is three global dictionaries, the play loop counts attempts from 1,
 * the rating counts a repeated letter once per occurrence, and the solved
 * test answers True or nothing at all.
 */
module ScriptSolver {
  import opened Wrappers
  import opened Ledger
  import opened Filters
  import opened Ranking
  import opened Play

  /** `is_wordle_solved`: True when five correct letters are recorded, otherwise it falls off the end and gives None. */
  function IsWordleSolved(correct: Ledger): (r: Option<bool>)
    ensures r.Some? <==> Solved(correct)
    ensures r != Some(false)
  {
    if |Flatten(correct)| == 5 then Some(true) else None
  }

  /**
   * Python's `sum(lists, start)` over the ledger's lists: `start` None stands for the
   * default start 0, and adding a list to the integer 0 is a type error (None).
   */
  function PySum(lists: seq<seq<char>>, start: Option<seq<char>>): (r: Option<seq<char>>)
    ensures start.Some? ==> r == Some(start.value + Flatten(lists))
    decreases |lists|
  {
    if lists == [] then
      assert start.Some? ==> start.value + Flatten(lists) == start.value;
      start
    else if start.None? then None
    else
      assert start.value + lists[0] + Flatten(lists[1..]) == start.value + Flatten(lists);
      PySum(lists[1..], Some(start.value + lists[0]))
  }

  /** Without a start list the sum of a ledger's five lists never produces a list. */
  lemma PySumWithoutStartFails(l: Ledger)
    ensures PySum(l, None) == None
  {
  }

  /** With the start `[]` the sum is the ledger's letters in position order. */
  lemma PySumWithEmptyStart(l: Ledger)
    ensures PySum(l, Some([])) == Some(l[0] + l[1] + l[2] + l[3] + l[4])
  {
    FlattenFive(l);
    assert [] + Flatten(l) == Flatten(l);
  }

  /**
   * `show_correct_answer` as written: the recorded letters when solved, else the text of
   * the end-of-game notice (`toast`), else a join over `sum` without a start list, which fails.
   */
  function ShowCorrectAnswerAsWritten(correct: Ledger, toast: Option<string>): (r: Result<string, string>)
    ensures IsWordleSolved(correct).Some? ==> r == Ok(Flatten(correct))
    ensures !Solved(correct) && toast.Some? ==> r == Ok(toast.value)
    ensures r.Err? <==> !Solved(correct) && toast.None?
  {
    PySumWithoutStartFails(correct);
    if IsWordleSolved(correct).Some? then Ok(Flatten(correct))
    else if toast.Some? then Ok(toast.value)
    else
      match PySum(correct, None)
      case Some(letters) => Ok(letters)
      case None => Err("TypeError: unsupported operand type(s) for +: 'int' and 'list'")
  }

  /** The fallback of the version as written fails on every unsolved game without the notice. */
  lemma FallbackAlwaysFails(correct: Ledger)
    requires !Solved(correct)
    ensures ShowCorrectAnswerAsWritten(correct, None).Err?
  {
    PySumWithoutStartFails(correct);
  }

  /** The evidently intended fallback: join the recorded correct letters, as the solved branch does. */
  function ShowCorrectAnswer(correct: Ledger, toast: Option<string>): (r: string)
    ensures Solved(correct) || toast.None? ==> r == correct[0] + correct[1] + correct[2] + correct[3] + correct[4]
    ensures !Solved(correct) && toast.Some? ==> r == toast.value
  {
    FlattenFive(correct);
    if IsWordleSolved(correct).Some? then Flatten(correct)
    else if toast.Some? then toast.value
    else
      var letters := PySum(correct, Some([]));
      assert [] + Flatten(correct) == Flatten(correct);
      letters.value
  }

  /** Wherever the version as written gives an answer, the corrected one gives the same. */
  lemma CorrectedAgreesWhereWrittenSucceeds(correct: Ledger, toast: Option<string>)
    ensures ShowCorrectAnswerAsWritten(correct, toast).Ok? ==>
      ShowCorrectAnswerAsWritten(correct, toast) == Ok(ShowCorrectAnswer(correct, toast))
  {
    FlattenFive(correct);
    PySumWithoutStartFails(correct);
  }

  /**
   * Round `i` of the script's `manual_play`: attempt `i + 1` takes the first line typed at the
   * console that is a word of the dictionary, reads that attempt's row with the skip of letters
   * already known, and only the last round may end solved.
   */
  ghost predicate ScriptRound(dictionary: seq<Word>, console: nat -> seq<string>, feedback: (nat, Word) -> FeedbackRow,
                              i: nat, r: Round)
  {
    && r.attempt == i + 1
    && r.row == RowFor(feedback, r.attempt, r.guess)
    && Some(r.guess) == FirstValid(LinesFor(console, r.attempt), dictionary)
    && (i > 0 ==> !Solved(r.before.correct))
    && r.after == After(r, true)
  }

  /** The rule every round of the script's `manual_play` keeps, as a rule of `Played`. */
  ghost function ScriptRule(dictionary: seq<Word>, console: nat -> seq<string>, feedback: (nat, Word) -> FeedbackRow)
    : (nat, Round) -> bool
  {
    (i: nat, r: Round) => ScriptRound(dictionary, console, feedback, i, r)
  }

  /** `ok` admits every round the script's `manual_play` may play. */
  ghost predicate AdmitsScript(ok: (nat, Round) -> bool, dictionary: seq<Word>, console: nat -> seq<string>,
                               feedback: (nat, Word) -> FeedbackRow)
  {
    forall i: nat, r: Round {:trigger ScriptRound(dictionary, console, feedback, i, r)} ::
      ScriptRound(dictionary, console, feedback, i, r) ==> ok(i, r)
  }

  /** A round typed at attempt `|trace| + 1` and read back with the skip extends a game played under such a rule. */
  lemma ScriptExtend(ok: (nat, Round) -> bool, dictionary: seq<Word>, console: nat -> seq<string>,
                     feedback: (nat, Word) -> FeedbackRow, start: Clues, trace: seq<Round>,
                     clues: Clues, attempt: nat, guess: Word, row: FeedbackRow, after: Clues)
    requires AdmitsScript(ok, dictionary, console, feedback)
    requires Played(ok, start, trace, clues) && attempt == |trace| + 1
    requires row == RowFor(feedback, attempt, guess) && after == Ingest(clues, row, true)
    requires Some(guess) == FirstValid(LinesFor(console, attempt), dictionary)
    requires trace != [] ==> !Solved(clues.correct)
    ensures Played(ok, start, trace + [Round(clues, attempt, guess, row, after)], after)
  {
    var r := Round(clues, attempt, guess, row, after);
    assert ScriptRound(dictionary, console, feedback, |trace|, r);
    PlayedExtend(ok, start, trace, r);
  }

  /** A round of the script's rule leaves its row ingested with the skip, and after the first it starts unsolved. */
  lemma ScriptRoundFacts(dictionary: seq<Word>, console: nat -> seq<string>, feedback: (nat, Word) -> FeedbackRow,
                         i: nat, r: Round)
    requires ScriptRule(dictionary, console, feedback)(i, r)
    ensures r.after == After(r, true) && r.attempt == i + 1 && r.guess in dictionary
    ensures r.row == RowFor(feedback, i + 1, r.guess)
    ensures Some(r.guess) == FirstValid(LinesFor(console, i + 1), dictionary)
    ensures i > 0 ==> !Solved(r.before.correct)
  {
    assert ScriptRound(dictionary, console, feedback, i, r);
  }

  /**
   * What a replayed script game says round by round: the ledgers chain from `start` to `end`
   * with every row ingested under the skip, round `i` submitted the first valid line typed
   * at attempt `i + 1`, and no round after the first began solved.
   */
  lemma ScriptPlayRounds(dictionary: seq<Word>, console: nat -> seq<string>, feedback: (nat, Word) -> FeedbackRow,
                         start: Clues, trace: seq<Round>, end: Clues)
    requires Played(ScriptRule(dictionary, console, feedback), start, trace, end)
    ensures Replays(trace, start, end, true)
    ensures forall i :: 0 <= i < |trace| ==>
      && trace[i].guess in dictionary
      && Some(trace[i].guess) == FirstValid(LinesFor(console, i + 1), dictionary)
      && trace[i].row == RowFor(feedback, i + 1, trace[i].guess)
    ensures forall i :: 1 <= i < |trace| ==> !Solved(trace[i].before.correct)
  {
    PlayedRounds(ScriptRule(dictionary, console, feedback), start, trace, end);
    forall i | 0 <= i < |trace|
      ensures trace[i].after == After(trace[i], true) && trace[i].guess in dictionary
      ensures Some(trace[i].guess) == FirstValid(LinesFor(console, i + 1), dictionary)
      ensures trace[i].row == RowFor(feedback, i + 1, trace[i].guess)
      ensures i > 0 ==> !Solved(trace[i].before.correct)
    {
      ScriptRoundFacts(dictionary, console, feedback, i, trace[i]);
    }
  }

  /** The script's globals: the three ledgers, and the dictionary `get_words_list` reads from disk. */
  class Globals {
    /** `correct_letters` */
    var correct: Ledger
    /** `incorrect_letters` */
    var absent: Ledger
    /** `wrong_position_letters` */
    var present: Ledger
    const dictionary: seq<Word>

    constructor (dictionary: seq<Word>)
      ensures this.dictionary == dictionary
      ensures correct == EmptyLedger && absent == EmptyLedger && present == EmptyLedger
    {
      this.dictionary := dictionary;
      correct, absent, present := EmptyLedger, EmptyLedger, EmptyLedger;
    }

    function CurrentClues(): Clues
      reads this
    {
      Clues(correct, absent, present)
    }

    method ActionCorrect(letter: char, position: Position)
      modifies this`correct
      ensures CurrentClues() == RecordClue(old(CurrentClues()), Correct, letter, position)
    {
      if letter !in correct[position] {
        correct := correct[position := correct[position] + [letter]];
      }
    }

    method ActionAbsent(letter: char, position: Position)
      modifies this`absent
      ensures CurrentClues() == RecordClue(old(CurrentClues()), Absent, letter, position)
    {
      if letter !in absent[position] {
        absent := absent[position := absent[position] + [letter]];
      }
    }

    method ActionPresent(letter: char, position: Position)
      modifies this`present
      ensures CurrentClues() == RecordClue(old(CurrentClues()), Present, letter, position)
    {
      if letter !in present[position] {
        present := present[position := present[position] + [letter]];
      }
    }

    /** `get_letter_status`: the tile dispatch with the skip of letters already known at their position. */
    method GetLetterStatus(row: FeedbackRow)
      modifies this`correct, this`absent, this`present
      ensures CurrentClues() == Ingest(old(CurrentClues()), row, true)
    {
      for position := 0 to 5
        invariant CurrentClues() == Ingest(old(CurrentClues()), row[..position], true)
      {
        assert row[..position + 1][..position] == row[..position];
        var tile := row[position];
        if !tile.state.Other? {
          if tile.letter in correct[position] {
          } else if tile.letter in absent[position] {
          } else {
            match tile.state
            case Correct => ActionCorrect(Lower(tile.letter), position);
            case Absent => ActionAbsent(Lower(tile.letter), position);
            case Present => ActionPresent(Lower(tile.letter), position);
          }
        }
      }
      assert row[..5] == row;
    }

    /** `user_guess` with `valid_word`: console lines are read until one is a word of the dictionary. */
    method UserGuess(lines: seq<string>) returns (guess: Option<Word>)
      ensures guess == FirstValid(lines, dictionary)
    {
      for i := 0 to |lines|
        invariant FirstValid(lines, dictionary) == FirstValid(lines[i..], dictionary)
      {
        assert lines[i..][1..] == lines[i + 1..];
        if lines[i] in dictionary {
          var w: Word := lines[i];
          return Some(w);
        }
      }
      return None;
    }

    /**
     * One round of `manual_play` at `attempt`: the guess typed, its row read back into the
     * ledgers; it stalls, changing nothing, when no typed line is a word of the dictionary.
     */
    method PlayRound(console: nat -> seq<string>, feedback: (nat, Word) -> FeedbackRow, attempt: nat,
                     ghost start: Clues, ghost ok: (nat, Round) -> bool, ghost trace: seq<Round>)
      returns (stalled: bool, ghost played: seq<Round>)
      requires AdmitsScript(ok, dictionary, console, feedback)
      requires Played(ok, start, trace, CurrentClues()) && attempt == |trace| + 1
      requires trace != [] ==> !Solved(correct)
      modifies this`correct, this`absent, this`present
      ensures Played(ok, start, played, CurrentClues())
      ensures stalled <==> FirstValid(LinesFor(console, attempt), dictionary).None?
      ensures stalled ==> played == trace
      ensures !stalled ==> |played| == |trace| + 1
    {
      var guess := UserGuess(LinesFor(console, attempt));
      if guess.None? {
        stalled, played := true, trace;
      } else {
        ghost var clues := CurrentClues();
        var row := RowFor(feedback, attempt, guess.value);
        GetLetterStatus(row);
        ScriptExtend(ok, dictionary, console, feedback, start, trace, clues, attempt, guess.value, row, CurrentClues());
        stalled, played := false, trace + [Round(clues, attempt, guess.value, row, CurrentClues())];
      }
    }

    /**
     * The loop of `manual_play`: attempts counted from 1 while at most 6, each a round of
     * `PlayRound`, breaking once solved (the call to `solve_next_word` only prints).
     */
    method PlayRounds(console: nat -> seq<string>, feedback: (nat, Word) -> FeedbackRow)
      returns (stalled: bool, rounds: nat, ghost trace: seq<Round>)
      modifies this`correct, this`absent, this`present
      ensures Played(ScriptRule(dictionary, console, feedback), old(CurrentClues()), trace, CurrentClues())
      ensures rounds == |trace| <= MaxAttempts
      ensures stalled ==> rounds < MaxAttempts && (rounds > 0 ==> !Solved(correct))
      ensures stalled ==> FirstValid(LinesFor(console, rounds + 1), dictionary).None?
      ensures !stalled ==> Solved(correct) || rounds == MaxAttempts
    {
      ghost var start := CurrentClues();
      ghost var ok := ScriptRule(dictionary, console, feedback);
      assert AdmitsScript(ok, dictionary, console, feedback);
      var stop := false;
      stalled, rounds, trace := false, 0, [];
      while rounds < MaxAttempts && !stop
        invariant rounds == |trace| <= MaxAttempts
        invariant Played(ok, start, trace, CurrentClues())
        invariant !stop ==> !stalled && (trace != [] ==> !Solved(correct))
        invariant stop && stalled ==> rounds < MaxAttempts && (rounds > 0 ==> !Solved(correct))
        invariant stop && stalled ==> FirstValid(LinesFor(console, rounds + 1), dictionary).None?
        invariant stop && !stalled ==> Solved(correct)
        decreases MaxAttempts - rounds, if stop then 0 else 1
      {
        stalled, trace := PlayRound(console, feedback, rounds + 1, start, ok, trace);
        if stalled {
          stop := true;
        } else {
          rounds := rounds + 1;
          stop := IsWordleSolved(correct) == Some(true);
        }
      }
    }

    /**
     * `manual_play`: the rounds of `PlayRounds`, then the answer shown by `show_correct_answer`
     * as written, which raises on an unsolved game without the end-of-game notice.
     */
    method ManualPlay(console: nat -> seq<string>, feedback: (nat, Word) -> FeedbackRow, toast: Option<string>)
      returns (ending: Ending, rounds: nat, answer: Option<string>, ghost trace: seq<Round>)
      modifies this`correct, this`absent, this`present
      ensures Played(ScriptRule(dictionary, console, feedback), old(CurrentClues()), trace, CurrentClues())
      ensures rounds == |trace| <= MaxAttempts
      ensures ending == Stalled ==> rounds < MaxAttempts && (rounds > 0 ==> !Solved(correct))
      ensures ending == Stalled ==> FirstValid(LinesFor(console, rounds + 1), dictionary).None?
      ensures ending != Stalled ==> Solved(correct) || rounds == MaxAttempts
      ensures ending == Finished <==> ending != Stalled && ShowCorrectAnswerAsWritten(correct, toast).Ok?
      ensures ending == Finished ==> answer == Some(ShowCorrectAnswerAsWritten(correct, toast).value)
      ensures ending == Crashed ==> !Solved(correct) && toast.None?
      ensures ending != Finished ==> answer == None
    {
      var stalled;
      stalled, rounds, trace := PlayRounds(console, feedback);
      if stalled {
        ending, answer := Stalled, None;
      } else {
        var shown := ShowCorrectAnswerAsWritten(correct, toast);
        if shown.Ok? {
          ending, answer := Finished, Some(shown.value);
        } else {
          ending, answer := Crashed, None;
        }
      }
    }
  }
}
