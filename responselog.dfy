/**
 * The local backup `responses.csv`: one row per rated news item and submission,
 * a header line only when the file is created, appended to and never rewritten.
 * CSV quoting and parsing are not modelled; a line is the record it holds.
 */
module ResponseLog {
  import opened Wrappers

  /** One row of the log, its fields in the order of the file's columns. */
  datatype LogRow = LogRow(
    id: string,
    title: string,
    scoreTruth: int,
    questionnaireId: string,
    age: string,
    education: string,
    freq: string,
    hesitantNews: string,
    verifyNews: string,
    clickbaitNews: string,
    timestamp: string,
    respondentUuid: string)

  /** The header written when the file is created. */
  const COLUMNS: seq<string> := ["ID", "title", "score_truth", "questionnaire_id", "age", "education",
    "freq", "hesitant_news", "verify_news", "clickbait_news", "timestamp", "respondent_uuid"]

  datatype Line = Header(columns: seq<string>) | Record(row: LogRow)

  /** Whether the file exists, and its lines. */
  datatype LogState = LogState(present: bool, lines: seq<Line>)

  /** A missing file has no lines; an existing one has one header and then records only. */
  predicate WellFormed(s: LogState) {
    if !s.present then s.lines == []
    else |s.lines| >= 1 && s.lines[0].Header? && forall i :: 1 <= i < |s.lines| ==> s.lines[i].Record?
  }

  function AsLines(rows: seq<LogRow>): (r: seq<Line>)
    ensures |r| == |rows|
    ensures forall i :: 0 <= i < |rows| ==> r[i] == Record(rows[i])
  {
    seq(|rows|, i requires 0 <= i < |rows| => Record(rows[i]))
  }

  /** The records of the lines after the header. */
  function Records(s: LogState): (r: seq<LogRow>)
    requires WellFormed(s)
    ensures s.present ==> |r| == |s.lines| - 1 && forall i :: 0 <= i < |r| ==> s.lines[i + 1] == Record(r[i])
    ensures !s.present ==> r == []
  {
    if !s.present then []
    else seq(|s.lines| - 1, i requires 0 <= i < |s.lines| - 1 => s.lines[i + 1].row)
  }

  /** What reading the backup gives: nothing when it does not exist, its records otherwise. */
  function Snapshot(s: LogState): (r: Option<seq<LogRow>>)
    requires WellFormed(s)
    ensures r.None? <==> !s.present
    ensures r.Some? ==> r.value == Records(s)
  {
    if s.present then Some(Records(s)) else None
  }

  /**
   * The file after one `to_csv` of `rows`: with a header when it did not exist
   * (`header=True`, a new file), without one in append mode otherwise.
   */
  function Appended(s: LogState, rows: seq<LogRow>): LogState {
    LogState(true, (if s.present then s.lines else [Header(COLUMNS)]) + AsLines(rows))
  }

  /** The number of header lines. */
  function HeaderCount(lines: seq<Line>): nat {
    if lines == [] then 0 else (if lines[0].Header? then 1 else 0) + HeaderCount(lines[1..])
  }

  lemma {:induction false} HeaderCountRecords(lines: seq<Line>)
    requires forall i :: 0 <= i < |lines| ==> lines[i].Record?
    ensures HeaderCount(lines) == 0
  {
    if lines != [] {
      HeaderCountRecords(lines[1..]);
    }
  }

  /** An existing, well-formed log holds exactly one header. */
  lemma OneHeader(s: LogState)
    requires WellFormed(s) && s.present
    ensures HeaderCount(s.lines) == 1
  {
    HeaderCountRecords(s.lines[1..]);
  }

  /**
   * Appending keeps the log well formed, adds exactly |rows| records after the
   * old ones, and adds a header line only when the file did not exist.
   */
  lemma AppendedFacts(s: LogState, rows: seq<LogRow>)
    requires WellFormed(s)
    ensures WellFormed(Appended(s, rows))
    ensures Records(Appended(s, rows)) == Records(s) + rows
    ensures |Appended(s, rows).lines| == |s.lines| + |rows| + (if s.present then 0 else 1)
    ensures HeaderCount(Appended(s, rows).lines) == 1
  {
    var t := Appended(s, rows);
    var r := Records(t);
    assert |r| == |Records(s)| + |rows|;
    forall i | 0 <= i < |r| ensures r[i] == (Records(s) + rows)[i] {
      if i < |Records(s)| {
        assert t.lines[i + 1] == s.lines[i + 1];
      } else {
        assert t.lines[i + 1] == Record(rows[i - |Records(s)|]);
      }
    }
    OneHeader(t);
  }

  /**
   * Two submissions into a missing file: one header, then the first
   * submission's rows, then the second's.
   */
  lemma TwoSubmissions(rows1: seq<LogRow>, rows2: seq<LogRow>)
    ensures Appended(Appended(LogState(false, []), rows1), rows2).lines
      == [Header(COLUMNS)] + AsLines(rows1) + AsLines(rows2)
    ensures Records(Appended(Appended(LogState(false, []), rows1), rows2)) == rows1 + rows2
    ensures HeaderCount(Appended(Appended(LogState(false, []), rows1), rows2).lines) == 1
  {
    var empty := LogState(false, []);
    AppendedFacts(empty, rows1);
    AppendedFacts(Appended(empty, rows1), rows2);
  }

  /** The backup file, updated in place by each submission. */
  class LogFile {
    var present: bool
    var lines: seq<Line>

    function State(): LogState
      reads this
    {
      LogState(present, lines)
    }

    /** The file as found when the program starts. */
    constructor (initial: LogState)
      requires WellFormed(initial)
      ensures State() == initial
    {
      present := initial.present;
      lines := initial.lines;
    }

    /** resp_df.to_csv(...): a header first when the file is new, then one line per row. */
    method Append(rows: seq<LogRow>)
      requires WellFormed(State())
      modifies this
      ensures State() == Appended(old(State()), rows)
      ensures WellFormed(State())
      ensures Records(State()) == old(Records(State())) + rows
    {
      ghost var before := State();
      if !present {
        present := true;
        lines := [Header(COLUMNS)];
      }
      for i := 0 to |rows|
        invariant present
        invariant lines == (if before.present then before.lines else [Header(COLUMNS)]) + AsLines(rows[..i])
      {
        assert AsLines(rows[..i + 1]) == AsLines(rows[..i]) + [Record(rows[i])];
        lines := lines + [Record(rows[i])];
      }
      assert rows[..|rows|] == rows;
      AppendedFacts(before, rows);
    }
  }
}
