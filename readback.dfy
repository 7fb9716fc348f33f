/**
 * Reading the backup back as the program does, with pandas' type inference.
 *
 * `pd.read_csv` stores a column as integers when every value in it is a decimal
 * integer. Ids such as "1" or "07" are written as text but come back as numbers,
 * so the group keys are numbers and `count_by_qid.get(qid, 0)` with the text id
 * finds nothing: every questionnaire then counts 0 and the first file is served
 * forever. Only integer inference is modelled; ids that pandas reads as floats
 * go the same way and are not covered here.
 */
module LogReadback {
  import opened Wrappers
  import opened FileNames
  import opened ResponseLog
  import opened Selection
  import opened Decimal

  /** Every logged questionnaire id is a decimal integer. */
  predicate NumericQidColumn(log: seq<LogRow>) {
    forall i :: 0 <= i < |log| ==> IsDigits(log[i].questionnaireId)
  }

  /** A questionnaire_id cell as pandas holds it after reading. */
  datatype Cell = IntCell(value: nat) | StrCell(text: string)

  /** The cell of row `i`: a number when the whole column is numeric, the text otherwise. */
  function QidCell(log: seq<LogRow>, i: nat): Cell
    requires i < |log|
  {
    if NumericQidColumn(log) then IntCell(DigitsValue(log[i].questionnaireId))
    else StrCell(log[i].questionnaireId)
  }

  /** `groupby(...)["respondent_uuid"].nunique().to_dict()` over the cells as read. */
  function CountsAsRead(log: seq<LogRow>): (counts: map<Cell, nat>)
    ensures NumericQidColumn(log) ==> forall c :: c in counts ==> c.IntCell?
    ensures !NumericQidColumn(log) ==> forall c :: c in counts ==> c.StrCell?
  {
    var keys := set i | 0 <= i < |log| :: QidCell(log, i);
    map c | c in keys :: |set i | 0 <= i < |log| && QidCell(log, i) == c :: log[i].respondentUuid|
  }

  /** What a lookup by text id can see of those counts. */
  function TextKeyed(counts: map<Cell, nat>): (view: map<string, nat>)
    ensures forall s :: s in view <==> StrCell(s) in counts
    ensures forall s :: s in view ==> view[s] == counts[StrCell(s)]
  {
    map c | c in counts && c.StrCell? :: c.text := counts[c]
  }

  /** `get_current_questionnaire()` as written, with the log read back by pandas. */
  function SelectAsWritten(files: seq<string>, log: Option<seq<LogRow>>): (r: string)
    requires files != []
    ensures r in files
  {
    match log
    case None => files[0]
    case Some(rows) => Pick(files, TextKeyed(CountsAsRead(rows)))
  }

  /** The respondents read for a text cell are the respondents of that id. */
  lemma TextCellRespondents(rows: seq<LogRow>, q: string)
    requires !NumericQidColumn(rows)
    ensures (set i | 0 <= i < |rows| && QidCell(rows, i) == StrCell(q) :: rows[i].respondentUuid)
      == Respondents(rows, q)
  {
    var cells := set i | 0 <= i < |rows| && QidCell(rows, i) == StrCell(q) :: rows[i].respondentUuid;
    forall u ensures u in cells <==> u in Respondents(rows, q) {
      if u in Respondents(rows, q) {
        var i :| 0 <= i < |rows| && rows[i].questionnaireId == q && rows[i].respondentUuid == u;
        assert QidCell(rows, i) == StrCell(q);
      }
    }
  }

  /** A text id is a key of the counts as read exactly when it is logged. */
  lemma TextCellKey(rows: seq<LogRow>, q: string)
    requires !NumericQidColumn(rows)
    ensures StrCell(q) in CountsAsRead(rows) <==> Logged(rows, q)
  {
    if Logged(rows, q) {
      var i :| 0 <= i < |rows| && rows[i].questionnaireId == q;
      assert QidCell(rows, i) == StrCell(q);
    }
  }

  /** For one text id, the lookup as read and the intended count agree. */
  lemma TextLookup(rows: seq<LogRow>, q: string)
    requires !NumericQidColumn(rows)
    ensures q in TextKeyed(CountsAsRead(rows)) <==> q in CountByQid(rows)
    ensures q in CountByQid(rows) ==> TextKeyed(CountsAsRead(rows))[q] == CountByQid(rows)[q]
  {
    var read := CountsAsRead(rows);
    TextCellKey(rows, q);
    if StrCell(q) in read {
      TextCellRespondents(rows, q);
      assert read[StrCell(q)] == Completed(rows, q);
      assert Get(CountByQid(rows), q) == Completed(rows, q);
    }
  }

  /**
   * When some id is not all digits the column stays text, and a lookup by text
   * id sees exactly the distinct-respondent counts of the intended rule.
   */
  lemma TextLogMatchesIntended(rows: seq<LogRow>)
    requires !NumericQidColumn(rows)
    ensures TextKeyed(CountsAsRead(rows)) == CountByQid(rows)
  {
    forall q {
      TextLookup(rows, q);
    }
  }

  /** On a text id column the program as written selects what the intended rule selects. */
  lemma TextLogServesAsIntended(files: seq<string>, log: Option<seq<LogRow>>)
    requires files != []
    requires log.Some? ==> !NumericQidColumn(log.value)
    ensures SelectAsWritten(files, log) == Select(files, log)
  {
    if log.Some? {
      TextLogMatchesIntended(log.value);
    }
  }

  /** With a numeric id column nothing is found, so the first file is served whatever the counts. */
  lemma NumericLogServesFirst(files: seq<string>, rows: seq<LogRow>)
    requires files != []
    requires NumericQidColumn(rows)
    ensures SelectAsWritten(files, Some(rows)) == files[0]
  {
    var view := TextKeyed(CountsAsRead(rows));
    var qids := FileQids(files);
    assert Get(view, qids[0]) == 0;
    FirstBelowIs(qids, view, 0);
  }

  /**
   * Whenever the first questionnaire is full, the second is not, and the ids
   * are numeric, the program as written serves the full one while the intended
   * rule serves the second.
   */
  lemma AsWrittenOverfillsFirst(files: seq<string>, rows: seq<LogRow>)
    requires |files| >= 2
    requires NumericQidColumn(rows)
    requires Completed(rows, QidOf(files[0])) >= THRESHOLD
    requires Completed(rows, QidOf(files[1])) < THRESHOLD
    ensures SelectAsWritten(files, Some(rows)) == files[0]
    ensures Select(files, Some(rows)) == files[1]
    ensures files[0] != files[1]
  {
    assert SelectAsWritten(files, Some(rows)) == files[0] by {
      NumericLogServesFirst(files, rows);
    }
    assert Select(files, Some(rows)) == files[1] by {
      forall j | 0 <= j < 1 ensures Completed(rows, QidOf(files[j])) >= THRESHOLD {
        assert j == 0;
      }
      SelectFirstFit(files, rows, 1);
    }
    assert QidOf(files[0]) != QidOf(files[1]);
  }

  /** A respondent id per index, all different (their lengths differ). */
  function ExampleUuid(i: nat): string {
    seq(i + 1, _ => 'u')
  }

  function ExampleRow(qid: string, uuid: string): LogRow {
    LogRow("n", "t", 5, qid, "a", "e", "f", "h", "v", "c", "2024-01-01 00:00:00", uuid)
  }

  /** Twenty respondents of questionnaire "1". */
  function TwentyOnFirst(): seq<LogRow> {
    seq(20, i requires 0 <= i => ExampleRow("1", ExampleUuid(i)))
  }

  lemma {:induction false} ExampleUuidsCount(n: nat)
    ensures |set i | 0 <= i < n :: ExampleUuid(i)| == n
  {
    if n > 0 {
      var prev := set i | 0 <= i < n - 1 :: ExampleUuid(i);
      ExampleUuidsCount(n - 1);
      assert (set i | 0 <= i < n :: ExampleUuid(i)) == prev + {ExampleUuid(n - 1)};
      assert ExampleUuid(n - 1) !in prev by {
        forall i | 0 <= i < n - 1 ensures ExampleUuid(i) != ExampleUuid(n - 1) {
          assert |ExampleUuid(i)| != |ExampleUuid(n - 1)|;
        }
      }
    }
  }

  lemma TwentyOnFirstCounts()
    ensures NumericQidColumn(TwentyOnFirst())
    ensures Completed(TwentyOnFirst(), "1") == 20
    ensures Completed(TwentyOnFirst(), "2") == 0
  {
    var rows := TwentyOnFirst();
    var uuids := set i | 0 <= i < 20 :: ExampleUuid(i);
    forall u | u in Respondents(rows, "1") ensures u in uuids {
      var i :| 0 <= i < |rows| && rows[i].questionnaireId == "1" && rows[i].respondentUuid == u;
      assert u == ExampleUuid(i);
    }
    forall u | u in uuids ensures u in Respondents(rows, "1") {
      var i :| 0 <= i < 20 && u == ExampleUuid(i);
      assert rows[i].questionnaireId == "1" && rows[i].respondentUuid == u;
    }
    assert Respondents(rows, "1") == uuids;
    ExampleUuidsCount(20);
    assert Respondents(rows, "2") == {};
  }

  /**
   * The input that shows it: files "questionnaire_1.xlsx" and
   * "questionnaire_2.xlsx", twenty respondents logged for "1". The intended rule
   * serves questionnaire 2; the program serves questionnaire 1 again.
   */
  lemma OverfillExample()
    ensures var files := [MARKER + "1" + EXTENSION, MARKER + "2" + EXTENSION];
      SelectAsWritten(files, Some(TwentyOnFirst())) == files[0]
      && Select(files, Some(TwentyOnFirst())) == files[1]
  {
    var files := [MARKER + "1" + EXTENSION, MARKER + "2" + EXTENSION];
    assert !Occurs("1", MARKER) && !Occurs("2", MARKER);
    QidOfConventionalName("1");
    QidOfConventionalName("2");
    TwentyOnFirstCounts();
    AsWrittenOverfillsFirst(files, TwentyOnFirst());
  }
}
