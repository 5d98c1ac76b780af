/**
 * What the play loops of every version share: the six-row bound, how a loop
 * ends, reading the guess out of a rating, which line of console input is
 * accepted, and the record of the rounds a loop has played.
 */
module Play {
  import opened Wrappers
  import opened Ledger
  import opened Filters
  import opened Ranking

  /** `__max_attempts`: a game has six rows. */
  const MaxAttempts: nat := 6

  /** How a play loop ended: normally, by an uncaught error, or waiting for input that never came. */
  datatype Ending = Finished | Crashed | Stalled

  /** `letter_frequency_rating()[1]`: the word of a rating; indexing the initial `(0,)` fails. */
  function GuessOf(r: Rating): (g: Option<Word>)
    ensures g.Some? <==> r.Rated?
    ensures r.Rated? ==> g == Some(r.word)
  {
    if r.Rated? then Some(r.word) else None
  }

  /** What `solve_next_word` submits when the list `ws` is narrowed by the clues `c`. */
  function Winner(ws: seq<Word>, c: Clues): Option<Word>
  {
    GuessOf(Best(Candidates(ws, c), Flatten(c.absent), PerDistinctLetter))
  }

  /** Line `i` is in the word list and no line before it is. */
  predicate FirstIn(lines: seq<string>, ws: seq<Word>, i: nat)
  {
    i < |lines| && lines[i] in ws && forall j :: 0 <= j < i ==> lines[j] !in ws
  }

  /**
   * The line the `input()` retry loop accepts: the first typed line that is in the
   * word list; None when the lines run out without one.
   */
  function FirstValid(lines: seq<string>, ws: seq<Word>): (r: Option<Word>)
    ensures r.Some? ==> r.value in ws
  {
    if lines == [] then None
    else if lines[0] in ws then var w: Word := lines[0]; Some(w)
    else FirstValid(lines[1..], ws)
  }

  /**
   * The accepted line is the earliest line in the list, and there is none exactly when
   * no typed line is in the list.
   */
  lemma {:induction false} FirstValidIsFirst(lines: seq<string>, ws: seq<Word>)
    ensures FirstValid(lines, ws).Some? ==> exists i: nat :: FirstIn(lines, ws, i) && lines[i] == FirstValid(lines, ws).value
    ensures FirstValid(lines, ws).None? <==> forall i :: 0 <= i < |lines| ==> lines[i] !in ws
    decreases |lines|
  {
    if lines == [] {
    } else if lines[0] in ws {
      assert FirstIn(lines, ws, 0);
    } else {
      var r := FirstValid(lines[1..], ws);
      FirstValidIsFirst(lines[1..], ws);
      assert forall i :: 1 <= i < |lines| ==> lines[i] == lines[1..][i - 1];
      if r.Some? {
        var k: nat :| FirstIn(lines[1..], ws, k) && lines[1..][k] == r.value;
        assert FirstIn(lines, ws, k + 1);
      }
    }
  }

  /** The row the page settles on for attempt `n` after `guess` is submitted. */
  function RowFor(feedback: (nat, Word) -> FeedbackRow, n: nat, guess: Word): FeedbackRow
  {
    feedback(n, guess)
  }

  /** The lines typed at the console during attempt `n`. */
  function LinesFor(console: nat -> seq<string>, n: nat): seq<string>
  {
    console(n)
  }

  /**
   * One round of a play loop: the ledger it began with, the page row it used (counted from 1),
   * the guess submitted, the row read back and the ledger it left.
   */
  datatype Round = Round(before: Clues, attempt: nat, guess: Word, row: FeedbackRow, after: Clues)

  /** The ledger a round leaves by the code: its row ingested into the ledger it began with. */
  function After(r: Round, skipKnown: bool): Clues
  {
    Ingest(r.before, r.row, skipKnown)
  }

  /** Each round begins with the ledger the previous one left; `end` is the ledger the last one left. */
  ghost predicate Chained(trace: seq<Round>, start: Clues, end: Clues)
  {
    && (forall i, j :: 0 <= i && j == i + 1 && j < |trace| ==> trace[j].before == trace[i].after)
    && (if trace == [] then end == start else trace[0].before == start && end == trace[|trace| - 1].after)
  }

  /**
   * The rounds follow on from `start` and each leaves its row ingested into the ledger it
   * began with, so `end` is the rows ingested one by one.
   */
  ghost predicate Replays(trace: seq<Round>, start: Clues, end: Clues, skipKnown: bool)
  {
    && Chained(trace, start, end)
    && forall i :: 0 <= i < |trace| ==> trace[i].after == After(trace[i], skipKnown)
  }

  /**
   * A play loop's rounds from `start`: round `i` satisfies the loop's rule `ok(i, _)` and begins
   * where the one before it ended, and `end` is the ledger the last round left.
   */
  ghost predicate Played(ok: (nat, Round) -> bool, start: Clues, trace: seq<Round>, end: Clues)
    decreases |trace|
  {
    if trace == [] then end == start
    else
      var n := |trace| - 1;
      && Played(ok, start, trace[..n], trace[n].before)
      && ok(n, trace[n])
      && end == trace[n].after
  }

  /** A round that keeps the rule and begins where the play ended extends it. */
  lemma PlayedExtend(ok: (nat, Round) -> bool, start: Clues, trace: seq<Round>, r: Round)
    requires Played(ok, start, trace, r.before) && ok(|trace|, r)
    ensures Played(ok, start, trace + [r], r.after)
  {
    assert (trace + [r])[..|trace|] == trace;
  }

  /** Round `i` of a play keeps the rule, begins where round `i - 1` ended, and the last ends at `end`. */
  lemma {:induction false} PlayedRound(ok: (nat, Round) -> bool, start: Clues, trace: seq<Round>, end: Clues, i: nat)
    requires Played(ok, start, trace, end) && i < |trace|
    ensures ok(i, trace[i])
    ensures trace[i].before == if i == 0 then start else trace[i - 1].after
    ensures i == |trace| - 1 ==> end == trace[i].after
    decreases |trace|
  {
    var n := |trace| - 1;
    if i < n {
      PlayedRound(ok, start, trace[..n], trace[n].before, i);
      assert trace[..n][i] == trace[i];
      if i > 0 {
        assert trace[..n][i - 1] == trace[i - 1];
      }
    } else if i > 0 {
      PlayedRound(ok, start, trace[..n], trace[n].before, i - 1);
      assert trace[..n][i - 1] == trace[i - 1];
    }
  }

  /** Read round by round: a play chains its ledgers from `start` to `end` and every round keeps the rule. */
  lemma PlayedRounds(ok: (nat, Round) -> bool, start: Clues, trace: seq<Round>, end: Clues)
    requires Played(ok, start, trace, end)
    ensures Chained(trace, start, end)
    ensures forall i :: 0 <= i < |trace| ==> ok(i, trace[i])
  {
    forall i | 0 <= i < |trace|
      ensures ok(i, trace[i])
      ensures i > 0 ==> trace[i].before == trace[i - 1].after
    {
      PlayedRound(ok, start, trace, end, i);
    }
    if trace != [] {
      PlayedRound(ok, start, trace, end, 0);
      PlayedRound(ok, start, trace, end, |trace| - 1);
    }
  }

  /** Every ledger of a replay extends the one it started from and is extended by the one it ends with. */
  lemma {:induction false} ReplayGrows(ok: (nat, Round) -> bool, start: Clues, trace: seq<Round>, end: Clues, skipKnown: bool)
    requires Played(ok, start, trace, end) && Replays(trace, start, end, skipKnown)
    ensures Grows(start, end)
    ensures forall i :: 0 <= i < |trace| ==> Grows(start, trace[i].before) && Grows(trace[i].before, end)
    decreases |trace|
  {
    if trace == [] {
      assert Grows(start, start);
    } else {
      var n := |trace| - 1;
      var last := trace[n];
      PlayedRounds(ok, start, trace[..n], last.before);
      assert Replays(trace[..n], start, last.before, skipKnown) by {
        forall i | 0 <= i < n
          ensures trace[..n][i].after == After(trace[..n][i], skipKnown)
        {
          assert trace[..n][i] == trace[i];
        }
      }
      ReplayGrows(ok, start, trace[..n], last.before, skipKnown);
      assert Grows(last.before, end) by {
        assert end == After(last, skipKnown);
      }
      forall i | 0 <= i < |trace|
        ensures Grows(start, trace[i].before) && Grows(trace[i].before, end)
      {
        if i < n {
          assert trace[..n][i] == trace[i];
          GrowsTransitive(trace[i].before, last.before, end);
        } else {
          assert Grows(last.before, last.before);
        }
      }
      GrowsTransitive(start, last.before, end);
    }
  }
}
