/**
 * The three elimination stages over a word list and the correct-letter runs
 * they are built on. Every stage keeps the surviving words in their original
 * order; `Select` is that order-preserving filter, and the stages are proved
 * against it.
 */
module Filters {
  import opened Ledger

  /** The condition checked by each elimination stage, carrying the ledger it reads. */
  datatype Constraint =
    | PositionAbsence(absent: Ledger)
    | CorrectRuns(correct: Ledger)
    | WrongPosition(present: Ledger)

  /** No letter of the word sits at a position where that letter was marked absent. */
  predicate AbsentOk(w: Word, absent: Ledger)
  {
    forall p :: 0 <= p < 5 ==> w[p] !in absent[p]
  }

  /** Every confirmed position holds its first recorded correct letter. */
  predicate ConfirmedOk(w: Word, correct: Ledger)
  {
    forall p :: 0 <= p < 5 && correct[p] != [] ==> w[p] == correct[p][0]
  }

  /** No letter sits where it was seen misplaced, and every misplaced letter occurs somewhere. */
  predicate WrongPositionOk(w: Word, present: Ledger)
  {
    && (forall p :: 0 <= p < 5 ==> w[p] !in present[p])
    && (forall x :: x in Flatten(present) ==> x in w)
  }

  predicate Passes(w: Word, k: Constraint)
  {
    match k
    case PositionAbsence(absent) => AbsentOk(w, absent)
    case CorrectRuns(correct) => ConfirmedOk(w, correct)
    case WrongPosition(present) => WrongPositionOk(w, present)
  }

  predicate PassesAll(w: Word, ks: seq<Constraint>)
  {
    forall i :: 0 <= i < |ks| ==> Passes(w, ks[i])
  }

  /** The words of `ws` that meet every constraint of `ks`, in their order in `ws`. */
  function Select(ws: seq<Word>, ks: seq<Constraint>): (r: seq<Word>)
    ensures |r| <= |ws|
    ensures forall w :: w in r <==> w in ws && PassesAll(w, ks)
    decreases |ws|
  {
    if ws == [] then []
    else
      var n := |ws| - 1;
      var init := Select(ws[..n], ks);
      assert forall w :: w in ws <==> w in ws[..n] || w == ws[n];
      init + (if PassesAll(ws[n], ks) then [ws[n]] else [])
  }

  /** Every copy of a word that meets the constraints survives, and no copy of any other word does. */
  lemma {:induction false} SelectKeepsEveryCopy(ws: seq<Word>, ks: seq<Constraint>, w: Word)
    ensures multiset(Select(ws, ks))[w] == if PassesAll(w, ks) then multiset(ws)[w] else 0
    decreases |ws|
  {
    if ws != [] {
      var n := |ws| - 1;
      SelectKeepsEveryCopy(ws[..n], ks, w);
      assert ws == ws[..n] + [ws[n]];
    }
  }

  /** `r` is `s` with some elements left out and the rest in the same order. */
  ghost predicate IsSubsequence(r: seq<Word>, s: seq<Word>)
    decreases |s|
  {
    if r == [] then true
    else if s == [] then false
    else
      || (r[|r| - 1] == s[|s| - 1] && IsSubsequence(r[..|r| - 1], s[..|s| - 1]))
      || IsSubsequence(r, s[..|s| - 1])
  }

  /** Every stage preserves the relative order of the words it keeps. */
  lemma {:induction false} SelectIsSubsequence(ws: seq<Word>, ks: seq<Constraint>)
    ensures IsSubsequence(Select(ws, ks), ws)
    decreases |ws|
  {
    if ws != [] {
      var n := |ws| - 1;
      var r := Select(ws, ks);
      SelectIsSubsequence(ws[..n], ks);
      if PassesAll(ws[n], ks) {
        assert r[..|r| - 1] == Select(ws[..n], ks);
      } else {
        assert r == Select(ws[..n], ks);
        if r != [] {
          assert IsSubsequence(r, ws[..n]);
        }
      }
    }
  }

  /** Selecting with `a` and then with `b` is selecting once with both. */
  lemma {:induction false} SelectCompose(ws: seq<Word>, a: seq<Constraint>, b: seq<Constraint>)
    ensures Select(Select(ws, a), b) == Select(ws, a + b)
    decreases |ws|
  {
    if ws != [] {
      var n := |ws| - 1;
      SelectCompose(ws[..n], a, b);
      assert PassesAll(ws[n], a + b) <==> PassesAll(ws[n], a) && PassesAll(ws[n], b) by {
        if PassesAll(ws[n], a) && PassesAll(ws[n], b) {
          forall i | 0 <= i < |a + b| ensures Passes(ws[n], (a + b)[i]) {
            if i < |a| {
              assert (a + b)[i] == a[i];
            } else {
              assert (a + b)[i] == b[i - |a|];
            }
          }
        }
        if PassesAll(ws[n], a + b) {
          forall i | 0 <= i < |a| ensures Passes(ws[n], a[i]) {
            assert (a + b)[i] == a[i];
          }
          forall i | 0 <= i < |b| ensures Passes(ws[n], b[i]) {
            assert (a + b)[|a| + i] == b[i];
          }
        }
      }
      var s := Select(ws[..n], a);
      if PassesAll(ws[n], a) {
        var t := s + [ws[n]];
        assert Select(ws, a) == t;
        assert t[..|t| - 1] == s;
      } else {
        assert Select(ws, a) == s;
      }
    }
  }

  /** Two constraint lists that agree on every word of `ws` select the same words. */
  lemma {:induction false} SelectAgrees(ws: seq<Word>, a: seq<Constraint>, b: seq<Constraint>)
    requires forall w :: w in ws ==> (PassesAll(w, a) <==> PassesAll(w, b))
    ensures Select(ws, a) == Select(ws, b)
    decreases |ws|
  {
    if ws != [] {
      var n := |ws| - 1;
      forall w | w in ws[..n] ensures PassesAll(w, a) <==> PassesAll(w, b) {
        assert w in ws;
      }
      SelectAgrees(ws[..n], a, b);
      assert PassesAll(ws[n], a) <==> PassesAll(ws[n], b) by {
        assert ws[n] in ws;
      }
    }
  }

  /** The three stages in the order the solver applies them. */
  function Stages(c: Clues): seq<Constraint>
  {
    [PositionAbsence(c.absent), CorrectRuns(c.correct), WrongPosition(c.present)]
  }

  /** The words that survive all three stages. */
  function Candidates(ws: seq<Word>, c: Clues): seq<Word>
  {
    Select(ws, Stages(c))
  }

  /** A selection that every word passes keeps the whole list. */
  lemma {:induction false} SelectKeepsAll(ws: seq<Word>, ks: seq<Constraint>)
    requires forall w :: w in ws ==> PassesAll(w, ks)
    ensures Select(ws, ks) == ws
    decreases |ws|
  {
    if ws != [] {
      var n := |ws| - 1;
      forall w | w in ws[..n] ensures PassesAll(w, ks) {
        assert w in ws;
      }
      SelectKeepsAll(ws[..n], ks);
      assert PassesAll(ws[n], ks) by {
        assert ws[n] in ws;
      }
      assert ws[..n] + [ws[n]] == ws;
    }
  }

  /** Before any clue is recorded every word is a candidate. */
  lemma NoCluesKeepEveryWord(ws: seq<Word>)
    ensures Candidates(ws, NoClues) == ws
  {
    forall w | w in ws ensures PassesAll(w, Stages(NoClues)) {
      assert Passes(w, Stages(NoClues)[0]) && Passes(w, Stages(NoClues)[1]);
      assert Flatten(EmptyLedger) == [] by {
        FlattenFive(EmptyLedger);
      }
      assert Passes(w, Stages(NoClues)[2]);
    }
    SelectKeepsAll(ws, Stages(NoClues));
  }

  /** A surviving word meets every clue recorded so far, and every word meeting them survives. */
  lemma CandidatesMeaning(ws: seq<Word>, c: Clues, w: Word)
    ensures w in Candidates(ws, c) <==>
      w in ws && AbsentOk(w, c.absent) && ConfirmedOk(w, c.correct) && WrongPositionOk(w, c.present)
  {
    var ks := Stages(c);
    if w in ws && AbsentOk(w, c.absent) && ConfirmedOk(w, c.correct) && WrongPositionOk(w, c.present) {
      assert Passes(w, ks[0]) && Passes(w, ks[1]) && Passes(w, ks[2]);
      assert PassesAll(w, ks);
    }
    if w in Candidates(ws, c) {
      assert Passes(w, ks[0]) && Passes(w, ks[1]) && Passes(w, ks[2]);
    }
  }

  /** Applying the three stages one after the other is selecting by all of them at once. */
  lemma PipelineIsCandidates(ws: seq<Word>, c: Clues)
    ensures Select(Select(Select(ws, [PositionAbsence(c.absent)]), [CorrectRuns(c.correct)]), [WrongPosition(c.present)])
         == Candidates(ws, c)
  {
    var a, b, d := [PositionAbsence(c.absent)], [CorrectRuns(c.correct)], [WrongPosition(c.present)];
    SelectCompose(ws, a, b);
    SelectCompose(ws, a + b, d);
    assert a + b + d == Stages(c);
  }

  /** A word meeting the clues of a grown ledger meets the clues of the older one. */
  lemma StagesWeakenAsCluesGrow(c1: Clues, c2: Clues, w: Word)
    requires Grows(c1, c2)
    requires PassesAll(w, Stages(c2))
    ensures PassesAll(w, Stages(c1))
  {
    assert Passes(w, Stages(c2)[0]) && Passes(w, Stages(c2)[1]) && Passes(w, Stages(c2)[2]);
    forall p | 0 <= p < 5 && c1.correct[p] != [] ensures w[p] == c1.correct[p][0] {
      assert c1.correct[p] <= c2.correct[p];
    }
    forall x | x in Flatten(c1.present) ensures x in w {
      var p :| 0 <= p < 5 && x in c1.present[p];
      assert c1.present[p] <= c2.present[p];
    }
    assert Passes(w, Stages(c1)[0]) && Passes(w, Stages(c1)[1]) && Passes(w, Stages(c1)[2]);
  }

  /**
   * Narrowing the stored list round after round (the newest version) gives the same
   * candidates as filtering the full list with the current clues (the older version),
   * because the ledger only grows.
   */
  lemma NarrowingEqualsRefiltering(ws: seq<Word>, c1: Clues, c2: Clues)
    requires Grows(c1, c2)
    ensures Candidates(Candidates(ws, c1), c2) == Candidates(ws, c2)
  {
    SelectCompose(ws, Stages(c1), Stages(c2));
    forall w | w in ws ensures PassesAll(w, Stages(c1) + Stages(c2)) <==> PassesAll(w, Stages(c2)) {
      var a, b := Stages(c1), Stages(c2);
      if PassesAll(w, b) {
        StagesWeakenAsCluesGrow(c1, c2, w);
        forall i | 0 <= i < |a + b| ensures Passes(w, (a + b)[i]) {
          if i < |a| {
            assert (a + b)[i] == a[i];
          } else {
            assert (a + b)[i] == b[i - |a|];
          }
        }
      }
      if PassesAll(w, a + b) {
        forall i | 0 <= i < |b| ensures Passes(w, b[i]) {
          assert (a + b)[|a| + i] == b[i];
        }
      }
    }
    SelectAgrees(ws, Stages(c1) + Stages(c2), Stages(c2));
  }

  // ---------------------------------------------------------------------------
  // Correct-letter runs

  /** A run: consecutive (position, letter) pairs. */
  type Run = seq<(nat, char)>

  function Start(run: Run): nat
  {
    if run == [] then 0 else run[0].0
  }

  /** One past the last position of the run. */
  function End(run: Run): nat
  {
    Start(run) + |run|
  }

  /** `''.join([letter for _, letter in seq])` */
  function RunLetters(run: Run): (s: string)
    ensures |s| == |run|
  {
    seq(|run|, j requires 0 <= j < |run| => run[j].1)
  }

  /** A non-empty run of consecutive confirmed positions, each paired with its first correct letter. */
  predicate WellFormedRun(correct: Ledger, run: Run)
  {
    && run != []
    && End(run) <= 5
    && forall j :: 0 <= j < |run| ==>
         run[j].0 == Start(run) + j && correct[run[j].0] != [] && run[j].1 == correct[run[j].0][0]
  }

  /** A well-formed run that cannot be extended to the left or to the right. */
  predicate MaximalRun(correct: Ledger, run: Run)
  {
    && WellFormedRun(correct, run)
    && (Start(run) == 0 || correct[Start(run) - 1] == [])
    && (End(run) == 5 || correct[End(run)] == [])
  }

  /** Every run is maximal, and each ends before the next begins. */
  predicate OrderedRuns(correct: Ledger, runs: seq<Run>)
  {
    && (forall k :: 0 <= k < |runs| ==> MaximalRun(correct, runs[k]))
    && (forall k1, k2 :: 0 <= k1 < k2 < |runs| ==> End(runs[k1]) < Start(runs[k2]))
  }

  /** Every confirmed position below `index` lies in one of `runs` or in the run `current`. */
  predicate CoveredBelow(correct: Ledger, runs: seq<Run>, current: Run, index: nat)
  {
    forall p :: 0 <= p < index && p < 5 && correct[p] != [] ==>
      (exists k :: 0 <= k < |runs| && Start(runs[k]) <= p < End(runs[k])) ||
      (current != [] && Start(current) <= p < End(current))
  }

  /**
   * What `get_index_correct_letters` returns: the maximal runs of confirmed positions,
   * in increasing order, covering every confirmed position.
   */
  predicate IsRunDecomposition(correct: Ledger, runs: seq<Run>)
  {
    OrderedRuns(correct, runs) && CoveredBelow(correct, runs, [], 5)
  }

  /** Every confirmed position lies in exactly one run. */
  lemma ConfirmedPositionInOneRun(correct: Ledger, runs: seq<Run>, p: nat)
    requires IsRunDecomposition(correct, runs)
    requires p < 5 && correct[p] != []
    ensures exists k ::
      && 0 <= k < |runs|
      && Start(runs[k]) <= p < End(runs[k])
      && (forall k' :: 0 <= k' < |runs| && Start(runs[k']) <= p < End(runs[k']) ==> k' == k)
  {
    var k :| 0 <= k < |runs| && Start(runs[k]) <= p < End(runs[k]);
    forall k' | 0 <= k' < |runs| && Start(runs[k']) <= p < End(runs[k']) ensures k' == k {
      assert MaximalRun(correct, runs[k]) && MaximalRun(correct, runs[k']);
    }
  }

  /**
   * The state of `get_index_correct_letters` before position `index`: closed runs in
   * `sequences`, and the run still growing in `current`.
   */
  predicate ScanState(correct: Ledger, sequences: seq<Run>, current: Run, index: nat)
  {
    && index <= 5
    && OrderedRuns(correct, sequences)
    && (forall k :: 0 <= k < |sequences| ==> End(sequences[k]) < index)
    && (current != [] ==>
          && WellFormedRun(correct, current)
          && (Start(current) == 0 || correct[Start(current) - 1] == [])
          && End(current) == index
          && (sequences != [] ==> End(sequences[|sequences| - 1]) < Start(current)))
    && (current == [] ==> index == 0 || correct[index - 1] == [])
    && CoveredBelow(correct, sequences, current, index)
  }

  lemma ScanExtends(correct: Ledger, sequences: seq<Run>, current: Run, index: nat)
    requires ScanState(correct, sequences, current, index)
    requires index < 5 && correct[index] != []
    ensures ScanState(correct, sequences, current + [(index, correct[index][0])], index + 1)
  {
    var next := current + [(index, correct[index][0])];
    assert Start(next) == if current == [] then index else Start(current);
    assert WellFormedRun(correct, next);
  }

  lemma ScanCloses(correct: Ledger, sequences: seq<Run>, current: Run, index: nat)
    requires ScanState(correct, sequences, current, index)
    requires index < 5 && correct[index] == [] && current != []
    ensures ScanState(correct, sequences + [current], [], index + 1)
  {
    var next := sequences + [current];
    assert MaximalRun(correct, current);
    AppendRunKeepsOrder(correct, sequences, current);
    AppendRunKeepsCover(correct, sequences, current, index);
    CoverPassesEmptyPosition(correct, next, index);
    forall k | 0 <= k < |next| ensures End(next[k]) < index + 1 {
      if k < |sequences| {
        assert next[k] == sequences[k];
      } else {
        assert next[k] == current;
      }
    }
  }

  lemma ScanSkips(correct: Ledger, sequences: seq<Run>, index: nat)
    requires ScanState(correct, sequences, [], index)
    requires index < 5 && correct[index] == []
    ensures ScanState(correct, sequences, [], index + 1)
  {
  }

  /** Appending a maximal run that starts after every closed run keeps the runs maximal and ordered. */
  lemma AppendRunKeepsOrder(correct: Ledger, sequences: seq<Run>, current: Run)
    requires OrderedRuns(correct, sequences)
    requires MaximalRun(correct, current)
    requires sequences != [] ==> End(sequences[|sequences| - 1]) < Start(current)
    ensures OrderedRuns(correct, sequences + [current])
  {
    var all := sequences + [current];
    forall k | 0 <= k < |all| ensures MaximalRun(correct, all[k]) {
      if k < |sequences| {
        assert all[k] == sequences[k];
      }
    }
    forall k1, k2 | 0 <= k1 < k2 < |all| ensures End(all[k1]) < Start(all[k2]) {
      assert all[k1] == sequences[k1];
      if k2 < |sequences| {
        assert all[k2] == sequences[k2];
      } else {
        assert all[k2] == current;
        assert End(sequences[k1]) <= End(sequences[|sequences| - 1]);
      }
    }
  }

  /** Positions covered by a closed run or by the current one stay covered once it is closed. */
  lemma AppendRunKeepsCover(correct: Ledger, sequences: seq<Run>, current: Run, index: nat)
    requires CoveredBelow(correct, sequences, current, index)
    requires current != []
    ensures CoveredBelow(correct, sequences + [current], [], index)
  {
    var all := sequences + [current];
    forall p | 0 <= p < index && p < 5 && correct[p] != []
      ensures exists k :: 0 <= k < |all| && Start(all[k]) <= p < End(all[k])
    {
      if k :| 0 <= k < |sequences| && Start(sequences[k]) <= p < End(sequences[k]) {
        assert all[k] == sequences[k];
      } else {
        assert all[|sequences|] == current;
      }
    }
  }

  /** A position with no correct letter needs no run, so the cover reaches past it. */
  lemma CoverPassesEmptyPosition(correct: Ledger, runs: seq<Run>, index: nat)
    requires CoveredBelow(correct, runs, [], index)
    requires index < 5 && correct[index] == []
    ensures CoveredBelow(correct, runs, [], index + 1)
  {
    forall p | 0 <= p < index + 1 && p < 5 && correct[p] != []
      ensures exists k :: 0 <= k < |runs| && Start(runs[k]) <= p < End(runs[k])
    {
      assert p < index;
    }
  }

  /** Closing any growing run at the end of the scan gives a run decomposition. */
  lemma ScanFinishes(correct: Ledger, sequences: seq<Run>, current: Run)
    requires ScanState(correct, sequences, current, 5)
    ensures IsRunDecomposition(correct, if current == [] then sequences else sequences + [current])
  {
    if current != [] {
      assert MaximalRun(correct, current);
      AppendRunKeepsOrder(correct, sequences, current);
      AppendRunKeepsCover(correct, sequences, current, 5);
    }
  }

  /** `get_index_correct_letters`: one pass over positions 0..4, closing a run at each unconfirmed position. */
  method IndexCorrectLetters(correct: Ledger) returns (sequences: seq<Run>)
    ensures IsRunDecomposition(correct, sequences)
  {
    sequences := [];
    var current: Run := [];
    for index := 0 to 5
      invariant ScanState(correct, sequences, current, index)
    {
      if correct[index] != [] {
        ScanExtends(correct, sequences, current, index);
        current := current + [(index, correct[index][0])];
      } else if current != [] {
        ScanCloses(correct, sequences, current, index);
        sequences := sequences + [current];
        current := [];
      } else {
        ScanSkips(correct, sequences, index);
      }
    }
    ScanFinishes(correct, sequences, current);
    if current != [] {
      sequences := sequences + [current];
    }
  }

  /** The word's slice over the run spells the run's letters. */
  predicate RunMatches(w: Word, run: Run)
  {
    End(run) <= 5 && w[Start(run)..End(run)] == RunLetters(run)
  }

  /** A well-formed run matches exactly when the word holds each of the run's letters at its position. */
  lemma RunMatchesIffLetters(w: Word, correct: Ledger, run: Run)
    requires WellFormedRun(correct, run)
    ensures RunMatches(w, run) <==> forall j :: 0 <= j < |run| ==> w[run[j].0] == run[j].1
  {
    var slice := w[Start(run)..End(run)];
    assert forall j :: 0 <= j < |run| ==> slice[j] == w[run[j].0];
    if forall j :: 0 <= j < |run| ==> w[run[j].0] == run[j].1 {
      assert forall j :: 0 <= j < |run| ==> slice[j] == RunLetters(run)[j];
    }
  }

  /** Comparing whole runs as substrings is comparing each confirmed position on its own. */
  lemma RunsMatchIffConfirmed(w: Word, correct: Ledger, runs: seq<Run>)
    requires IsRunDecomposition(correct, runs)
    ensures (forall k :: 0 <= k < |runs| ==> RunMatches(w, runs[k])) <==> ConfirmedOk(w, correct)
  {
    if ConfirmedOk(w, correct) {
      ConfirmedRunsMatch(w, correct, runs);
    }
    if forall k :: 0 <= k < |runs| ==> RunMatches(w, runs[k]) {
      MatchingRunsConfirm(w, correct, runs);
    }
  }

  /** A word with every confirmed letter in place matches every run. */
  lemma ConfirmedRunsMatch(w: Word, correct: Ledger, runs: seq<Run>)
    requires IsRunDecomposition(correct, runs) && ConfirmedOk(w, correct)
    ensures forall k :: 0 <= k < |runs| ==> RunMatches(w, runs[k])
  {
    forall k | 0 <= k < |runs| ensures RunMatches(w, runs[k]) {
      assert MaximalRun(correct, runs[k]);
      RunMatchesIffLetters(w, correct, runs[k]);
    }
  }

  /** A word that matches every run of a decomposition has every confirmed letter in place. */
  lemma MatchingRunsConfirm(w: Word, correct: Ledger, runs: seq<Run>)
    requires IsRunDecomposition(correct, runs)
    requires forall k :: 0 <= k < |runs| ==> RunMatches(w, runs[k])
    ensures ConfirmedOk(w, correct)
  {
    forall p | 0 <= p < 5 && correct[p] != [] ensures w[p] == correct[p][0] {
      var k :| 0 <= k < |runs| && Start(runs[k]) <= p < End(runs[k]);
      assert MaximalRun(correct, runs[k]) && RunMatches(w, runs[k]);
      MatchingRunConfirms(w, correct, runs[k], p);
    }
  }

  /** A word matching a well-formed run holds the confirmed letter of each position the run covers. */
  lemma MatchingRunConfirms(w: Word, correct: Ledger, run: Run, p: nat)
    requires WellFormedRun(correct, run) && RunMatches(w, run) && Start(run) <= p < End(run)
    ensures p < 5 && correct[p] != [] && w[p] == correct[p][0]
  {
    RunMatchesIffLetters(w, correct, run);
    var j := p - Start(run);
    assert run[j].0 == p && run[j].1 == correct[p][0];
  }

  /** The selection of `ws[..i + 1]` extends the selection of `ws[..i]` by at most `ws[i]`. */
  lemma SelectPrefixStep(ws: seq<Word>, ks: seq<Constraint>, i: nat)
    requires i < |ws|
    ensures Select(ws[..i + 1], ks) == Select(ws[..i], ks) + (if PassesAll(ws[i], ks) then [ws[i]] else [])
  {
    assert ws[..i + 1][..i] == ws[..i];
  }

  /** `eliminate_incorrect_letters`: a comprehension over the list. */
  function EliminateIncorrectLetters(words: seq<Word>, absent: Ledger): (r: seq<Word>)
    ensures forall w :: w in r <==> w in words && AbsentOk(w, absent)
    ensures IsSubsequence(r, words)
    ensures forall w :: multiset(r)[w] == if AbsentOk(w, absent) then multiset(words)[w] else 0
  {
    var ks := [PositionAbsence(absent)];
    assert forall w :: PassesAll(w, ks) <==> AbsentOk(w, absent) by {
      forall w ensures PassesAll(w, ks) <==> AbsentOk(w, absent) {
        assert PassesAll(w, ks) <==> Passes(w, ks[0]);
      }
    }
    forall w ensures multiset(Select(words, ks))[w] == if AbsentOk(w, absent) then multiset(words)[w] else 0 {
      SelectKeepsEveryCopy(words, ks, w);
    }
    SelectIsSubsequence(words, ks);
    Select(words, ks)
  }

  /** The inner loop of `eliminate_wo_correct_letters`: compare the word's slice with each run in turn, stopping at the first mismatch. */
  method AllSequencesMatch(word: Word, correct: Ledger, sequences: seq<Run>) returns (allSequenceMatch: bool)
    requires forall k :: 0 <= k < |sequences| ==> WellFormedRun(correct, sequences[k])
    ensures allSequenceMatch <==> forall k :: 0 <= k < |sequences| ==> RunMatches(word, sequences[k])
  {
    allSequenceMatch := true;
    for k := 0 to |sequences|
      invariant allSequenceMatch
      invariant forall m :: 0 <= m < k ==> RunMatches(word, sequences[m])
    {
      var run := sequences[k];
      assert WellFormedRun(correct, run);
      var startIndex := run[0].0;
      var endIndex := |run| + startIndex;
      if word[startIndex..endIndex] != RunLetters(run) {
        assert !RunMatches(word, sequences[k]);
        allSequenceMatch := false;
        break;
      }
    }
  }

  /** `eliminate_wo_correct_letters`: keep a word when every run's slice spells the run. */
  method EliminateWoCorrectLetters(words: seq<Word>, correct: Ledger) returns (filtered: seq<Word>)
    ensures filtered == Select(words, [CorrectRuns(correct)])
  {
    var ks := [CorrectRuns(correct)];
    filtered := [];
    for i := 0 to |words|
      invariant filtered == Select(words[..i], ks)
    {
      var word := words[i];
      var sequences := IndexCorrectLetters(correct);
      assert forall k :: 0 <= k < |sequences| ==> WellFormedRun(correct, sequences[k]) by {
        forall k | 0 <= k < |sequences| ensures WellFormedRun(correct, sequences[k]) {
          assert MaximalRun(correct, sequences[k]);
        }
      }
      var allSequenceMatch := AllSequencesMatch(word, correct, sequences);
      RunsMatchIffConfirmed(word, correct, sequences);
      assert allSequenceMatch <==> Passes(word, ks[0]);
      SelectPrefixStep(words, ks, i);
      if allSequenceMatch {
        filtered := filtered + [word];
      }
    }
    assert words[..|words|] == words;
  }

  /** `eliminate_wrong_pos_letters`: the per-position test, then the test that every present letter occurs. */
  method EliminateWrongPosLetters(words: seq<Word>, present: Ledger) returns (filtered: seq<Word>)
    ensures filtered == Select(words, [WrongPosition(present)])
  {
    var ks := [WrongPosition(present)];
    filtered := [];
    for i := 0 to |words|
      invariant filtered == Select(words[..i], ks)
    {
      var word := words[i];
      var validWord := true;
      for position := 0 to 5
        invariant forall q :: 0 <= q < position ==> word[q] !in present[q]
        invariant position > 0 ==> forall x :: x in Flatten(present) ==> x in word
      {
        if word[position] in present[position] {
          validWord := false;
          break;
        }
        var requiredLetters := Flatten(present);
        if !(forall j :: 0 <= j < |requiredLetters| ==> requiredLetters[j] in word) {
          validWord := false;
          break;
        }
      }
      assert validWord <==> Passes(word, ks[0]);
      SelectPrefixStep(words, ks, i);
      if validWord {
        filtered := filtered + [word];
      }
    }
    assert words[..|words|] == words;
  }
}
