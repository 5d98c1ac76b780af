/**
 * `WordleStats` (src/stats_manager.py): the game log kept as a `;`-separated
 * CSV file. The file is modelled as its rows after splitting, or None when it
 * does not exist; a result is appended only when it passes the validity check,
 * and answers are looked up by date below the header row.
 */
module StatsManager {
  import opened Wrappers

  /** One line of the file, split on `;`. */
  type Row = seq<string>

  /** The header line `date;game_mode;answer;solved;guesses`. */
  const Header: Row := ["date", "game_mode", "answer", "solved", "guesses"]

  /** A result is kept unless the game crashed: an empty answer or no guesses counted. */
  function CheckValidStats(guesses: int, answer: string): (valid: bool)
    ensures valid <==> answer != "" && guesses != 0
    ensures answer == "" ==> !valid
    ensures guesses == 0 ==> !valid
  {
    if answer == "" || guesses == 0 then false else true
  }

  /** `str` of a bool, as the CSV writer writes it. */
  function BoolText(b: bool): string
  {
    if b then "True" else "False"
  }

  /** The decimal digits of `n`, most significant first. */
  function DigitText(n: nat): (s: string)
    ensures |s| >= 1
    ensures forall i :: 0 <= i < |s| ==> '0' <= s[i] <= '9'
    decreases n
  {
    if n < 10 then [('0' as int + n) as char]
    else DigitText(n / 10) + [('0' as int + n % 10) as char]
  }

  /** The value of a string of decimal digits. */
  function DigitsValue(s: string): nat
    requires forall i :: 0 <= i < |s| ==> '0' <= s[i] <= '9'
    decreases |s|
  {
    if s == [] then 0
    else DigitsValue(s[..|s| - 1]) * 10 + (s[|s| - 1] as int - '0' as int)
  }

  /** The guesses field reads back as the number written. */
  lemma {:induction false} DigitTextRoundTrip(n: nat)
    ensures DigitsValue(DigitText(n)) == n
    decreases n
  {
    if n >= 10 {
      var s := DigitText(n);
      assert s[..|s| - 1] == DigitText(n / 10);
      DigitTextRoundTrip(n / 10);
    }
  }

  /** `str` of an int. */
  function IntText(i: int): string
  {
    if i < 0 then "-" + DigitText(-i) else DigitText(i)
  }

  /** The row `save_stats_csv` writes: date, game mode, answer, solved, guesses. */
  function StatsRow(date: string, gameMode: string, answer: string, solved: bool, guesses: int): (row: Row)
    ensures |row| == 5 && row[0] == date && row[1] == gameMode && row[2] == answer
    ensures row[3] == BoolText(solved) && row[4] == IntText(guesses)
  {
    [date, gameMode, answer, BoolText(solved), IntText(guesses)]
  }

  /** The rows of a file; a missing file has none. */
  function Rows(file: Option<seq<Row>>): seq<Row>
  {
    if file.None? then [] else file.value
  }

  /** `if date:` — None and the empty string are both falsy. */
  predicate Truthy(date: Option<string>)
  {
    date.Some? && date.value != ""
  }

  /** The loop of `get_answer` over the rows below the header. */
  function FindAnswer(rows: seq<Row>, date: Option<string>): (r: Result<Option<string>, string>)
    ensures r.Ok? && r.value.Some? ==> exists i :: 0 <= i < |rows| && |rows[i]| >= 3 && rows[i][2] == r.value.value
    decreases |rows|
  {
    if rows == [] then Ok(None)
    else
      var row := rows[0];
      if Truthy(date) then
        if |row| == 0 then Err("IndexError")
        else if row[0] == date.value then
          if |row| < 3 then Err("IndexError") else Ok(Some(row[2]))
        else
          var r := FindAnswer(rows[1..], date);
          assert r.Ok? && r.value.Some? ==> exists i :: 1 <= i < |rows| && |rows[i]| >= 3 && rows[i][2] == r.value.value by {
            if r.Ok? && r.value.Some? {
              var i :| 0 <= i < |rows[1..]| && |rows[1..][i]| >= 3 && rows[1..][i][2] == r.value.value;
              assert rows[i + 1] == rows[1..][i];
            }
          }
          r
      else if |row| < 3 then Err("IndexError")
      else Ok(Some(row[2]))
  }

  /** `get_answer`: opening a missing file fails, skipping the header of an empty file fails, then the loop. */
  function GetAnswerOf(file: Option<seq<Row>>, date: Option<string>): Result<Option<string>, string>
  {
    if file.None? then Err("FileNotFoundError")
    else if file.value == [] then Err("StopIteration")
    else FindAnswer(file.value[1..], date)
  }

  /** Among well-formed rows, a date finds the answer of the first row with that date, and nothing when no row has it. */
  lemma {:induction false} FindAnswerByDate(rows: seq<Row>, date: string)
    requires date != ""
    requires forall i :: 0 <= i < |rows| ==> |rows[i]| >= 3
    ensures (forall i :: 0 <= i < |rows| ==> rows[i][0] != date) ==> FindAnswer(rows, Some(date)) == Ok(None)
    ensures forall i :: 0 <= i < |rows| && rows[i][0] == date && (forall j :: 0 <= j < i ==> rows[j][0] != date) ==>
      FindAnswer(rows, Some(date)) == Ok(Some(rows[i][2]))
    decreases |rows|
  {
    if rows != [] {
      assert forall i :: 1 <= i < |rows| ==> rows[1..][i - 1] == rows[i];
      FindAnswerByDate(rows[1..], date);
      forall i | 0 <= i < |rows| && rows[i][0] == date && (forall j :: 0 <= j < i ==> rows[j][0] != date)
        ensures FindAnswer(rows, Some(date)) == Ok(Some(rows[i][2]))
      {
        if i > 0 {
          assert rows[1..][i - 1][0] == date;
          assert forall j :: 0 <= j < i - 1 ==> rows[1..][j][0] != date by {
            forall j | 0 <= j < i - 1 ensures rows[1..][j][0] != date {
              assert rows[1..][j] == rows[j + 1];
            }
          }
        }
      }
    }
  }

  /** Without a date the answer of the first row below the header is returned. */
  lemma FindAnswerWithoutDate(rows: seq<Row>, date: Option<string>)
    requires !Truthy(date)
    requires rows != [] && |rows[0]| >= 3
    ensures FindAnswer(rows, date) == Ok(Some(rows[0][2]))
  {
  }

  class WordleStats {
    /** The CSV file: None while it does not exist. */
    var file: Option<seq<Row>>

    /** Opening the log writes its header when the file is new. */
    constructor (existing: Option<seq<Row>>)
      ensures file == (if existing.None? then Some([Header]) else existing)
    {
      file := existing;
      new;
      CreateHeaders();
    }

    /** Writes the header line only when the file does not exist yet. */
    method CreateHeaders()
      modifies this`file
      ensures old(file).None? ==> file == Some([Header])
      ensures old(file).Some? ==> file == old(file)
    {
      if file.None? {
        file := Some([Header]);
      }
    }

    /** Appends one row for a valid result (creating the file if needed); an invalid one leaves the file as it was. */
    method SaveStatsCsv(date: string, gameMode: string, answer: string, solved: bool, guesses: int)
      modifies this`file
      ensures CheckValidStats(guesses, answer) ==> file == Some(Rows(old(file)) + [StatsRow(date, gameMode, answer, solved, guesses)])
      ensures !CheckValidStats(guesses, answer) ==> file == old(file)
    {
      if CheckValidStats(guesses, answer) {
        var rowData := StatsRow(date, gameMode, answer, solved, guesses);
        file := Some(Rows(file) + [rowData]);
      }
    }

    /** Looks an answer up: by date when one is given, else the first row's; None when nothing matches. */
    method GetAnswer(date: Option<string>) returns (r: Result<Option<string>, string>)
      ensures r == GetAnswerOf(file, date)
    {
      if file.None? {
        return Err("FileNotFoundError");
      }
      var rows := file.value;
      if rows == [] {
        return Err("StopIteration");
      }
      for i := 1 to |rows|
        invariant FindAnswer(rows[1..], date) == FindAnswer(rows[i..], date)
      {
        assert rows[i..][1..] == rows[i + 1..];
        var row := rows[i];
        if Truthy(date) {
          if |row| == 0 {
            return Err("IndexError");
          }
          if row[0] == date.value {
            if |row| < 3 {
              return Err("IndexError");
            }
            return Ok(Some(row[2]));
          }
        } else {
          if |row| < 3 {
            return Err("IndexError");
          }
          return Ok(Some(row[2]));
        }
      }
      return Ok(None);
    }
  }

  /**
   * A valid result saved below the header of a log whose rows are well formed and do not
   * yet hold its date is what `get_answer` then returns for that date.
   */
  lemma SavedAnswerIsFound(rows: seq<Row>, date: string, gameMode: string, answer: string, solved: bool, guesses: int)
    requires date != "" && CheckValidStats(guesses, answer)
    requires rows != [] && forall i :: 1 <= i < |rows| ==> |rows[i]| >= 3 && rows[i][0] != date
    ensures GetAnswerOf(Some(rows + [StatsRow(date, gameMode, answer, solved, guesses)]), Some(date)) == Ok(Some(answer))
  {
    var all := rows + [StatsRow(date, gameMode, answer, solved, guesses)];
    var data := all[1..];
    var last := |data| - 1;
    assert forall i :: 0 <= i < last ==> data[i] == rows[i + 1];
    assert data[last] == StatsRow(date, gameMode, answer, solved, guesses);
    assert forall i :: 0 <= i < |data| ==> |data[i]| >= 3;
    assert forall j :: 0 <= j < last ==> data[j][0] != date;
    FindAnswerByDate(data, date);
    assert FindAnswer(data, Some(date)) == Ok(Some(data[last][2]));
  }

  /** A result saved before any header (the file was missing) is taken for the header and never found. */
  lemma FirstRowOfHeaderlessFileIsSkipped(row: Row, date: Option<string>)
    ensures GetAnswerOf(Some([row]), date) == Ok(None)
  {
  }
}
