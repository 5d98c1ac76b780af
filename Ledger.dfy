/**
 * The clue ledger of the solver: three dictionaries `correct_letters`,
 * `incorrect_letters` and `wrong_position_letters`, each mapping a position
 * 0..4 to the list of letters recorded there, and the rules by which the
 * tiles of one feedback row are recorded in them.
 */
module Ledger {

  /** A dictionary word: five characters. */
  type Word = w: string | |w| == 5 witness "aaaaa"

  /** A tile position, 0..4. */
  type Position = p: nat | p < 5

  /** One of the three dictionaries: position p holds the letters recorded at p, in recording order. */
  type Ledger = l: seq<seq<char>> | |l| == 5 witness [[], [], [], [], []]

  /** `{0: [], 1: [], 2: [], 3: [], 4: []}` */
  const EmptyLedger: Ledger := [[], [], [], [], []]

  /** The three dictionaries together: correct, absent (`incorrect_letters`) and present (`wrong_position_letters`). */
  datatype Clues = Clues(correct: Ledger, absent: Ledger, present: Ledger)

  const NoClues: Clues := Clues(EmptyLedger, EmptyLedger, EmptyLedger)

  /** The data-state of a tile; every state other than the three clue states is `Other`. */
  datatype TileState = Correct | Absent | Present | Other(name: string)

  /** One tile of a feedback row: its text and its data-state. */
  datatype Tile = Tile(letter: char, state: TileState)

  /** The five tiles of a submitted row once their states have settled: what the browser reports for one guess. */
  type FeedbackRow = r: seq<Tile> | |r| == 5
    witness [Tile('a', Other("tbd")), Tile('a', Other("tbd")), Tile('a', Other("tbd")), Tile('a', Other("tbd")), Tile('a', Other("tbd"))]

  /** `str.lower` on one character (ASCII letters). */
  function Lower(c: char): char
  {
    if 'A' <= c <= 'Z' then (c as int + 32) as char else c
  }

  /** `str.upper` on one character (ASCII letters). */
  function Upper(c: char): char
  {
    if 'a' <= c <= 'z' then (c as int - 32) as char else c
  }

  /** `if letter not in list: list.append(letter)`: the list keeps its order and gains the letter once. */
  function Record(list: seq<char>, letter: char): (r: seq<char>)
    ensures list <= r
    ensures forall x :: x in r <==> x in list || x == letter
    ensures r == list <==> letter in list
    ensures |r| <= |list| + 1
  {
    if letter in list then list else list + [letter]
  }

  /** No letter occurs twice. */
  predicate NoDuplicates(s: seq<char>)
  {
    forall i, j :: 0 <= i < j < |s| ==> s[i] != s[j]
  }

  /** Recording never creates a duplicate, so every ledger list stays a set of letters. */
  lemma RecordKeepsNoDuplicates(list: seq<char>, letter: char)
    requires NoDuplicates(list)
    ensures NoDuplicates(Record(list, letter))
  {
    if letter !in list {
      var r := list + [letter];
      forall i, j | 0 <= i < j < |r| ensures r[i] != r[j] {
        if j == |list| {
          assert r[i] == list[i];
        }
      }
    }
  }

  /** `sum(ledger.values(), [])`: the recorded letters, position by position. */
  function Flatten(lists: seq<seq<char>>): (r: seq<char>)
    ensures forall x :: x in r <==> exists p :: 0 <= p < |lists| && x in lists[p]
  {
    if lists == [] then []
    else
      var rest := Flatten(lists[1..]);
      assert forall p :: 1 <= p < |lists| ==> lists[p] == lists[1..][p - 1];
      lists[0] + rest
  }

  /** For a ledger the flattening is the concatenation of its five lists. */
  lemma FlattenFive(l: Ledger)
    ensures Flatten(l) == l[0] + l[1] + l[2] + l[3] + l[4]
  {
    assert Flatten(l[4..]) == l[4] by {
      assert l[4..][1..] == [];
    }
    assert Flatten(l[3..]) == l[3] + l[4] by {
      assert l[3..][1..] == l[4..];
    }
    assert Flatten(l[2..]) == l[2] + l[3] + l[4] by {
      assert l[2..][1..] == l[3..];
    }
    assert Flatten(l[1..]) == l[1] + l[2] + l[3] + l[4] by {
      assert l[1..][1..] == l[2..];
    }
  }

  /** `len(sum(correct_letters.values(), [])) == 5`: the solved test of every version. */
  predicate Solved(correct: Ledger)
  {
    |Flatten(correct)| == 5
  }

  /** In play a position holds at most one correct letter; then solved means every position has its letter. */
  lemma SolvedIffEveryPositionConfirmed(correct: Ledger)
    requires forall p :: 0 <= p < 5 ==> |correct[p]| <= 1
    ensures Solved(correct) <==> forall p :: 0 <= p < 5 ==> |correct[p]| == 1
  {
    FlattenFive(correct);
  }

  /** The solved test counts letters, not positions: two letters at one position make up for an empty one. */
  lemma SolvedWithAnEmptyPosition()
    ensures exists l: Ledger :: Solved(l) && l[4] == []
  {
    var l: Ledger := [['a', 'b'], ['c'], ['d'], ['e'], []];
    FlattenFive(l);
    assert Solved(l);
  }

  /** When each position holds one letter the answer (the flattening) spells the word letter by letter. */
  lemma AnswerSpellsConfirmedLetters(correct: Ledger)
    requires forall p :: 0 <= p < 5 ==> |correct[p]| == 1
    ensures Solved(correct)
    ensures forall p :: 0 <= p < 5 ==> Flatten(correct)[p] == correct[p][0]
  {
    FlattenFive(correct);
  }

  /** Each list of `before` is a prefix of the matching list of `after`: the ledger only ever grows by appending. */
  predicate Grows(before: Clues, after: Clues)
  {
    forall p :: 0 <= p < 5 ==>
      before.correct[p] <= after.correct[p] &&
      before.absent[p] <= after.absent[p] &&
      before.present[p] <= after.present[p]
  }

  lemma GrowsTransitive(c1: Clues, c2: Clues, c3: Clues)
    requires Grows(c1, c2) && Grows(c2, c3)
    ensures Grows(c1, c3)
  {
    forall p | 0 <= p < 5
      ensures c1.correct[p] <= c3.correct[p] && c1.absent[p] <= c3.absent[p] && c1.present[p] <= c3.present[p]
    {
      PrefixTransitive(c1.correct[p], c2.correct[p], c3.correct[p]);
      PrefixTransitive(c1.absent[p], c2.absent[p], c3.absent[p]);
      PrefixTransitive(c1.present[p], c2.present[p], c3.present[p]);
    }
  }

  lemma PrefixTransitive(a: seq<char>, b: seq<char>, c: seq<char>)
    requires a <= b && b <= c
    ensures a <= c
  {
    assert c[..|b|][..|a|] == c[..|a|];
  }

  /** Whether `letter` is already recorded at `p` under the state that the tile carries. */
  predicate Recorded(c: Clues, state: TileState, letter: char, p: Position)
  {
    match state
    case Correct => letter in c.correct[p]
    case Absent => letter in c.absent[p]
    case Present => letter in c.present[p]
    case Other(_) => true
  }

  /**
   * `letter_state_action[state](letter, position)`: `action_correct`, `action_absent`
   * or `action_present`; a state outside the three is not dispatched.
   */
  function RecordClue(c: Clues, state: TileState, letter: char, p: Position): (r: Clues)
    ensures Grows(c, r)
    ensures Recorded(r, state, letter, p)
    ensures Recorded(c, state, letter, p) <==> r == c
    ensures !state.Correct? ==> r.correct == c.correct
    ensures !state.Absent? ==> r.absent == c.absent
    ensures !state.Present? ==> r.present == c.present
    ensures forall q :: 0 <= q < 5 && q != p ==>
      r.correct[q] == c.correct[q] && r.absent[q] == c.absent[q] && r.present[q] == c.present[q]
  {
    match state
    case Correct => c.(correct := c.correct[p := Record(c.correct[p], letter)])
    case Absent => c.(absent := c.absent[p := Record(c.absent[p], letter)])
    case Present => c.(present := c.present[p := Record(c.present[p], letter)])
    case Other(_) => c
  }

  /** Recording the same clue twice leaves the ledger as recording it once. */
  lemma RecordClueIdempotent(c: Clues, state: TileState, letter: char, p: Position)
    ensures RecordClue(RecordClue(c, state, letter, p), state, letter, p) == RecordClue(c, state, letter, p)
  {
  }

  /**
   * The duplicate test of the older versions: a tile is skipped when its raw text is already
   * recorded as correct or absent at its position. The newest version has no effective test.
   */
  predicate Skipped(c: Clues, p: Position, t: Tile, skipKnown: bool)
  {
    skipKnown && (t.letter in c.correct[p] || t.letter in c.absent[p])
  }

  /** One tile of a feedback row: skipped, or dispatched with its lower-cased letter. */
  function IngestTile(c: Clues, p: Position, t: Tile, skipKnown: bool): Clues
  {
    if Skipped(c, p, t, skipKnown) then c else RecordClue(c, t.state, Lower(t.letter), p)
  }

  /** The tiles of one row, taken in position order (`for position, tile in enumerate(...)`). */
  function Ingest(c: Clues, tiles: seq<Tile>, skipKnown: bool): (r: Clues)
    requires |tiles| <= 5
    ensures Grows(c, r)
    decreases |tiles|
  {
    if tiles == [] then c
    else
      var n := |tiles| - 1;
      var before := Ingest(c, tiles[..n], skipKnown);
      var after := IngestTile(before, n, tiles[n], skipKnown);
      assert Grows(before, after);
      after
  }

  /** The three lists a ledger holds at one position. */
  function At(c: Clues, p: Position): (seq<char>, seq<char>, seq<char>)
  {
    (c.correct[p], c.absent[p], c.present[p])
  }

  /** A tile's effect at its own position depends only on what that position already holds. */
  lemma IngestTileIsLocal(c1: Clues, c2: Clues, p: Position, t: Tile, skipKnown: bool)
    requires At(c1, p) == At(c2, p)
    ensures At(IngestTile(c1, p, t, skipKnown), p) == At(IngestTile(c2, p, t, skipKnown), p)
  {
  }

  /**
   * A row adds nothing but its own letters, each at its own position: position `p` of the
   * ingested ledger is what tile `p` alone makes of it, and positions past the row are untouched.
   */
  lemma {:induction false} IngestPositionwise(c: Clues, tiles: seq<Tile>, skipKnown: bool)
    requires |tiles| <= 5
    ensures forall p: Position :: p < |tiles| ==>
      At(Ingest(c, tiles, skipKnown), p) == At(IngestTile(c, p, tiles[p], skipKnown), p)
    ensures forall p: Position :: |tiles| <= p ==> At(Ingest(c, tiles, skipKnown), p) == At(c, p)
    decreases |tiles|
  {
    if tiles != [] {
      var n := |tiles| - 1;
      var before := Ingest(c, tiles[..n], skipKnown);
      var after := Ingest(c, tiles, skipKnown);
      assert after == IngestTile(before, n, tiles[n], skipKnown);
      IngestPositionwise(c, tiles[..n], skipKnown);
      forall p: Position | p < |tiles|
        ensures At(after, p) == At(IngestTile(c, p, tiles[p], skipKnown), p)
      {
        if p < n {
          assert tiles[..n][p] == tiles[p];
        } else {
          IngestTileIsLocal(before, c, n, tiles[n], skipKnown);
        }
      }
    }
  }

  /** After ingesting a tile, ingesting it again changes nothing. */
  predicate Absorbed(c: Clues, p: Position, t: Tile, skipKnown: bool)
  {
    Skipped(c, p, t, skipKnown) || Recorded(c, t.state, Lower(t.letter), p)
  }

  lemma AbsorbedPersists(c1: Clues, c2: Clues, p: Position, t: Tile, skipKnown: bool)
    requires Grows(c1, c2) && Absorbed(c1, p, t, skipKnown)
    ensures Absorbed(c2, p, t, skipKnown)
  {
    assert c1.correct[p] <= c2.correct[p] && c1.absent[p] <= c2.absent[p] && c1.present[p] <= c2.present[p];
  }

  lemma {:induction false} IngestAbsorbsEveryTile(c: Clues, tiles: seq<Tile>, skipKnown: bool)
    requires |tiles| <= 5
    ensures forall i :: 0 <= i < |tiles| ==> Absorbed(Ingest(c, tiles, skipKnown), i, tiles[i], skipKnown)
    decreases |tiles|
  {
    if tiles != [] {
      var n := |tiles| - 1;
      var before := Ingest(c, tiles[..n], skipKnown);
      var after := Ingest(c, tiles, skipKnown);
      assert after == IngestTile(before, n, tiles[n], skipKnown);
      IngestAbsorbsEveryTile(c, tiles[..n], skipKnown);
      forall i | 0 <= i < |tiles| ensures Absorbed(after, i, tiles[i], skipKnown) {
        if i < n {
          assert tiles[..n][i] == tiles[i];
          AbsorbedPersists(before, after, i, tiles[i], skipKnown);
        }
      }
    }
  }

  lemma {:induction false} IngestOfAbsorbedRow(c: Clues, tiles: seq<Tile>, skipKnown: bool)
    requires |tiles| <= 5
    requires forall i :: 0 <= i < |tiles| ==> Absorbed(c, i, tiles[i], skipKnown)
    ensures Ingest(c, tiles, skipKnown) == c
    decreases |tiles|
  {
    if tiles != [] {
      var n := |tiles| - 1;
      forall i | 0 <= i < n ensures Absorbed(c, i, tiles[..n][i], skipKnown) {
        assert tiles[..n][i] == tiles[i];
      }
      IngestOfAbsorbedRow(c, tiles[..n], skipKnown);
    }
  }

  /** Ingesting the same feedback row twice gives the ledger of ingesting it once, in every version. */
  lemma IngestIdempotent(c: Clues, tiles: seq<Tile>, skipKnown: bool)
    requires |tiles| <= 5
    ensures Ingest(Ingest(c, tiles, skipKnown), tiles, skipKnown) == Ingest(c, tiles, skipKnown)
  {
    IngestAbsorbsEveryTile(c, tiles, skipKnown);
    IngestOfAbsorbedRow(Ingest(c, tiles, skipKnown), tiles, skipKnown);
  }
}
