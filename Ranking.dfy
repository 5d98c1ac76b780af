/**
 * `letter_frequency_rating`: each word is scored by the frequency weights of
 * its letters that are not recorded as absent anywhere, and the running best
 * is kept with the rule "replace while the best score is 0, afterwards only
 * on a strictly higher score". Weights are kept in hundredths so that the
 * scores are exact integers.
 */
module Ranking {
  import opened Ledger

  /** The letter-frequency table, in hundredths (E = 12.0 is 1200); a key outside it weighs 0. */
  function Weight(c: char): (w: nat)
    ensures w <= 1200
    ensures w > 0 <==> 'A' <= c <= 'Z'
  {
    match c
    case 'E' => 1200
    case 'T' => 910
    case 'A' => 812
    case 'O' => 768
    case 'I' => 731
    case 'N' => 695
    case 'S' => 628
    case 'R' => 602
    case 'H' => 592
    case 'D' => 432
    case 'L' => 398
    case 'U' => 288
    case 'C' => 271
    case 'M' => 261
    case 'F' => 230
    case 'Y' => 211
    case 'W' => 209
    case 'G' => 203
    case 'P' => 182
    case 'B' => 149
    case 'V' => 111
    case 'K' => 69
    case 'X' => 17
    case 'Q' => 11
    case 'J' => 10
    case 'Z' => 7
    case _ => 0
  }

  /** What a word's letters are iterated over: `set(word)` (newer versions) or `word` itself (the script). */
  datatype Scoring = PerDistinctLetter | PerOccurrence

  /** The letters of `s` in order of first occurrence, each once: an enumeration of `set(s)`. */
  function Dedup(s: string): (r: string)
    ensures NoDuplicates(r)
    ensures forall x :: x in r <==> x in s
    ensures |r| <= |s|
    decreases |s|
  {
    if s == [] then []
    else
      var n := |s| - 1;
      var init := Dedup(s[..n]);
      assert forall x :: x in s <==> x in s[..n] || x == s[n];
      if s[n] in s[..n] then init
      else
        assert forall i :: 0 <= i < |init| ==> init[i] in s[..n];
        init + [s[n]]
  }

  /** The sum of the weights of the letters of `s` that are not in `excluded`, counting repeats. */
  function OccurrenceScore(s: string, excluded: seq<char>): nat
    decreases |s|
  {
    if s == [] then 0
    else
      var n := |s| - 1;
      OccurrenceScore(s[..n], excluded) + (if s[n] in excluded then 0 else Weight(Upper(s[n])))
  }

  /** The letters a word is scored over. */
  function Letters(w: Word, how: Scoring): string
  {
    match how
    case PerDistinctLetter => Dedup(w)
    case PerOccurrence => w
  }

  /** `word_score` after the inner loop. */
  function Score(w: Word, excluded: seq<char>, how: Scoring): nat
  {
    OccurrenceScore(Letters(w, how), excluded)
  }

  /** `highest_word_score`: the initial `(0,)`, or a `(score, word)` pair. */
  datatype Rating = Unrated | Rated(score: nat, word: Word)

  /** `highest_word_score[0]`, which is 0 for the initial `(0,)`. */
  function TopScore(r: Rating): nat
  {
    if r.Rated? then r.score else 0
  }

  /** One step of the outer loop: the new word replaces the best while the best score is 0 or when it scores higher. */
  function Consider(best: Rating, w: Word, s: nat): Rating
  {
    if TopScore(best) == 0 || s > TopScore(best) then Rated(s, w) else best
  }

  /** The score of every word of `ws`, in list order. */
  function Scores(ws: seq<Word>, excluded: seq<char>, how: Scoring): (r: seq<nat>)
    ensures |r| == |ws|
  {
    seq(|ws|, i requires 0 <= i < |ws| => Score(ws[i], excluded, how))
  }

  /** The value of `highest_word_score` after the outer loop has seen the words of `ws`, scored by `scores`. */
  function BestOf(ws: seq<Word>, scores: seq<nat>): (r: Rating)
    requires |scores| == |ws|
    ensures r.Unrated? <==> ws == []
    ensures r.Rated? ==> r.word in ws
    decreases |ws|
  {
    if ws == [] then Unrated
    else
      var n := |ws| - 1;
      var best := BestOf(ws[..n], scores[..n]);
      assert best.Rated? ==> best.word in ws by {
        if best.Rated? {
          var i :| 0 <= i < n && ws[..n][i] == best.word;
          assert ws[i] == best.word;
        }
      }
      Consider(best, ws[n], scores[n])
  }

  /** The result of the rating for the candidate list `ws`: no word for an empty list, else one of its words. */
  function Best(ws: seq<Word>, excluded: seq<char>, how: Scoring): (r: Rating)
    ensures r.Unrated? <==> ws == []
    ensures r.Rated? ==> r.word in ws
  {
    BestOf(ws, Scores(ws, excluded, how))
  }

  /**
   * The documented outcome of the rating, stated without the loop: nothing for an
   * empty list; the first word with the maximum score when some score is positive;
   * and the last word when every score is 0.
   */
  ghost predicate IsChoiceOf(ws: seq<Word>, scores: seq<nat>, r: Rating)
    requires |scores| == |ws|
  {
    if ws == [] then r == Unrated
    else if forall i :: 0 <= i < |ws| ==> scores[i] == 0 then
      r == Rated(0, ws[|ws| - 1])
    else
      exists i ::
        && 0 <= i < |ws|
        && r == Rated(scores[i], ws[i])
        && (forall j :: 0 <= j < |ws| ==> scores[j] <= scores[i])
        && (forall j :: 0 <= j < i ==> scores[j] < scores[i])
  }

  ghost predicate IsChoice(ws: seq<Word>, excluded: seq<char>, how: Scoring, r: Rating)
  {
    IsChoiceOf(ws, Scores(ws, excluded, how), r)
  }

  /** The documented outcome determines the rating: two ratings that both meet it are equal. */
  lemma ChoiceIsUnique(ws: seq<Word>, scores: seq<nat>, r1: Rating, r2: Rating)
    requires |scores| == |ws|
    requires IsChoiceOf(ws, scores, r1) && IsChoiceOf(ws, scores, r2)
    ensures r1 == r2
  {
    if ws != [] && !(forall i :: 0 <= i < |ws| ==> scores[i] == 0) {
      var i1 :| && 0 <= i1 < |ws|
                && r1 == Rated(scores[i1], ws[i1])
                && (forall j :: 0 <= j < |ws| ==> scores[j] <= scores[i1])
                && (forall j :: 0 <= j < i1 ==> scores[j] < scores[i1]);
      var i2 :| && 0 <= i2 < |ws|
                && r2 == Rated(scores[i2], ws[i2])
                && (forall j :: 0 <= j < |ws| ==> scores[j] <= scores[i2])
                && (forall j :: 0 <= j < i2 ==> scores[j] < scores[i2]);
    }
  }

  /** One more word after a prefix whose scores are all 0: the new word becomes the best. */
  lemma ChoiceAfterZeros(ws: seq<Word>, scores: seq<nat>)
    requires |scores| == |ws| > 0
    requires forall j :: 0 <= j < |ws| - 1 ==> scores[j] == 0
    ensures IsChoiceOf(ws, scores, Rated(scores[|ws| - 1], ws[|ws| - 1]))
  {
    var n := |ws| - 1;
    if scores[n] != 0 {
      assert forall j :: 0 <= j < |ws| ==> scores[j] <= scores[n];
      assert forall j :: 0 <= j < n ==> scores[j] < scores[n];
    }
  }

  /** One more word after a prefix whose best has a positive score. */
  lemma ChoiceAfterPositive(ws: seq<Word>, scores: seq<nat>, i: nat)
    requires |scores| == |ws| && i < |ws| - 1
    requires scores[i] > 0
    requires forall j :: 0 <= j < |ws| - 1 ==> scores[j] <= scores[i]
    requires forall j :: 0 <= j < i ==> scores[j] < scores[i]
    ensures
      var n := |ws| - 1;
      IsChoiceOf(ws, scores, if scores[n] > scores[i] then Rated(scores[n], ws[n]) else Rated(scores[i], ws[i]))
  {
    var n := |ws| - 1;
    assert scores[i] != 0;
    if scores[n] > scores[i] {
      assert forall j :: 0 <= j < |ws| ==> scores[j] <= scores[n];
      assert forall j :: 0 <= j < n ==> scores[j] < scores[n];
    } else {
      assert forall j :: 0 <= j < |ws| ==> scores[j] <= scores[i];
    }
  }

  /** The running-best loop produces the documented outcome. */
  lemma {:induction false} BestOfIsChoice(ws: seq<Word>, scores: seq<nat>)
    requires |scores| == |ws|
    ensures IsChoiceOf(ws, scores, BestOf(ws, scores))
    decreases |ws|
  {
    if ws != [] {
      var n := |ws| - 1;
      var init, initScores := ws[..n], scores[..n];
      var before := BestOf(init, initScores);
      assert BestOf(ws, scores) == Consider(before, ws[n], scores[n]);
      BestOfIsChoice(init, initScores);
      if init == [] || forall j :: 0 <= j < n ==> initScores[j] == 0 {
        ChoiceAfterZeros(ws, scores);
      } else {
        var i :| && 0 <= i < n
                 && before == Rated(initScores[i], init[i])
                 && (forall j :: 0 <= j < n ==> initScores[j] <= initScores[i])
                 && (forall j :: 0 <= j < i ==> initScores[j] < initScores[i]);
        assert forall j :: 0 <= j < n ==> initScores[j] == scores[j];
        assert scores[i] > 0;
        ChoiceAfterPositive(ws, scores, i);
      }
    }
  }

  /** The rating of a candidate list is its documented outcome, and the only one. */
  lemma BestIsChoice(ws: seq<Word>, excluded: seq<char>, how: Scoring, r: Rating)
    ensures IsChoice(ws, excluded, how, r) <==> r == Best(ws, excluded, how)
  {
    BestOfIsChoice(ws, Scores(ws, excluded, how));
    if IsChoice(ws, excluded, how, r) {
      ChoiceIsUnique(ws, Scores(ws, excluded, how), r, Best(ws, excluded, how));
    }
  }

  /** An empty candidate list leaves the initial `(0,)`, so `[1]` on it has nothing to index. */
  lemma UnratedOnlyWhenEmpty(ws: seq<Word>, excluded: seq<char>, how: Scoring)
    ensures Best(ws, excluded, how) == Unrated <==> ws == []
  {
  }

  /** Once the best score is positive, a later word displaces it only with a strictly higher score. */
  lemma PositiveBestNeedsStrictlyHigher(best: Rating, w: Word, s: nat)
    requires TopScore(best) > 0
    ensures Consider(best, w, s) != best <==> s > TopScore(best)
  {
  }

  /** Scoring distinct letters never gives more than scoring every occurrence. */
  lemma {:induction false} DedupScoreAtMost(s: string, excluded: seq<char>)
    ensures OccurrenceScore(Dedup(s), excluded) <= OccurrenceScore(s, excluded)
    decreases |s|
  {
    if s != [] {
      var n := |s| - 1;
      DedupScoreAtMost(s[..n], excluded);
      var init := Dedup(s[..n]);
      if s[n] !in s[..n] {
        assert (init + [s[n]])[..|init|] == init;
      }
    }
  }

  lemma DistinctNeverExceedsOccurrence(w: Word, excluded: seq<char>)
    ensures Score(w, excluded, PerDistinctLetter) <= Score(w, excluded, PerOccurrence)
  {
    DedupScoreAtMost(w, excluded);
  }

  /** A string without repeated letters is its own distinct-letter enumeration. */
  lemma {:induction false} DedupOfDistinct(s: string)
    requires NoDuplicates(s)
    ensures Dedup(s) == s
    decreases |s|
  {
    if s != [] {
      var n := |s| - 1;
      assert NoDuplicates(s[..n]);
      DedupOfDistinct(s[..n]);
      assert s[n] !in s[..n];
      assert s[..n] + [s[n]] == s;
    }
  }

  /** For a word without repeated letters the two scorings agree. */
  lemma ScoringsAgreeWithoutRepeats(w: Word, excluded: seq<char>)
    requires NoDuplicates(w)
    ensures Score(w, excluded, PerDistinctLetter) == Score(w, excluded, PerOccurrence)
  {
    DedupOfDistinct(w);
  }

  /** The weights of the letters of "sheet", summed over every occurrence. */
  lemma SheetOccurrenceScore()
    ensures OccurrenceScore("sheet", []) == 4530
  {
    assert "sheet"[..4] == "shee" && "shee"[..3] == "she" && "she"[..2] == "sh" && "sh"[..1] == "s" && "s"[..0] == [];
  }

  /** The distinct letters of "sheet" in order of first occurrence. */
  lemma SheetDistinctLetters()
    ensures Dedup("sheet") == "shet"
  {
    var s0: string := [];
    var s1, s2, s3 := s0 + ['s'], s0 + ['s'] + ['h'], s0 + ['s'] + ['h'] + ['e'];
    var s4 := s3 + ['e'];
    DedupSnoc(s0, 's');
    DedupSnoc(s1, 'h');
    DedupSnoc(s2, 'e');
    DedupSnoc(s3, 'e');
    DedupSnoc(s4, 't');
    assert s4 + ['t'] == "sheet";
  }

  /** Appending a letter adds it to the distinct letters exactly when it is new. */
  lemma DedupSnoc(s: string, c: char)
    ensures Dedup(s + [c]) == if c in s then Dedup(s) else Dedup(s) + [c]
  {
    assert (s + [c])[..|s|] == s;
  }

  /** "sheet": its repeated E counts twice per occurrence (45.30) but once per distinct letter (33.30). */
  lemma RepeatedLetterCountsOncePerOccurrence()
    ensures Score("sheet", [], PerOccurrence) == 4530
    ensures Score("sheet", [], PerDistinctLetter) == 3330
  {
    SheetOccurrenceScore();
    SheetDistinctLetters();
    assert "shet"[..3] == "she" && "she"[..2] == "sh" && "sh"[..1] == "s" && "s"[..0] == [];
  }

  /** A letter recorded as absent anywhere contributes nothing to any word's score. */
  lemma {:induction false} ExcludedLettersWeighNothing(s: string, excluded: seq<char>)
    requires forall i :: 0 <= i < |s| ==> s[i] in excluded
    ensures OccurrenceScore(s, excluded) == 0
    decreases |s|
  {
    if s != [] {
      var n := |s| - 1;
      assert forall i :: 0 <= i < n ==> s[..n][i] == s[i];
      ExcludedLettersWeighNothing(s[..n], excluded);
    }
  }

  /** The inner loop: add the weight of each letter that is not excluded. */
  method WordScore(w: Word, excluded: seq<char>, how: Scoring) returns (wordScore: nat)
    ensures wordScore == Score(w, excluded, how)
  {
    var letters := Letters(w, how);
    wordScore := 0;
    for j := 0 to |letters|
      invariant wordScore == OccurrenceScore(letters[..j], excluded)
    {
      assert letters[..j + 1][..j] == letters[..j];
      if letters[j] !in excluded {
        wordScore := wordScore + Weight(Upper(letters[j]));
      }
    }
    assert letters[..|letters|] == letters;
  }

  /** The rating of a one-longer prefix is one more loop step on the rating of the prefix. */
  lemma BestOfPrefixStep(ws: seq<Word>, scores: seq<nat>, i: nat)
    requires |scores| == |ws| && i < |ws|
    ensures BestOf(ws[..i + 1], scores[..i + 1]) == Consider(BestOf(ws[..i], scores[..i]), ws[i], scores[i])
  {
    assert ws[..i + 1][..i] == ws[..i] && scores[..i + 1][..i] == scores[..i];
  }

  /** The outer loop over the word list, keeping the running best. */
  method Rate(words: seq<Word>, excluded: seq<char>, how: Scoring) returns (highest: Rating)
    ensures highest == Best(words, excluded, how)
  {
    ghost var scores := Scores(words, excluded, how);
    highest := Unrated;
    for i := 0 to |words|
      invariant highest == BestOf(words[..i], scores[..i])
    {
      var wordScore := WordScore(words[i], excluded, how);
      assert wordScore == scores[i];
      BestOfPrefixStep(words, scores, i);
      if TopScore(highest) == 0 || wordScore > TopScore(highest) {
        highest := Rated(wordScore, words[i]);
      }
    }
    assert words[..|words|] == words && scores[..|scores|] == scores;
  }
}
