/**
 * Which questionnaire the next respondent is given: the first file, in sorted
 * order, whose questionnaire has fewer than 20 distinct respondents in the
 * backup log; the first file when there is no log or when every one is full.
 */
module Selection {
  import opened Wrappers
  import opened FileNames
  import opened ResponseLog

  /** Respondents per questionnaire before the next one is served. */
  const THRESHOLD: nat := 20

  /** The distinct respondent ids logged against `qid`. */
  function Respondents(log: seq<LogRow>, qid: string): set<string> {
    set i | 0 <= i < |log| && log[i].questionnaireId == qid :: log[i].respondentUuid
  }

  /** The number of distinct respondents of `qid`: the reference meaning of the count. */
  function Completed(log: seq<LogRow>, qid: string): nat {
    |Respondents(log, qid)|
  }

  /** How one more row changes the respondents of a questionnaire. */
  lemma RespondentsSnoc(log: seq<LogRow>, row: LogRow, qid: string)
    ensures Respondents(log + [row], qid)
      == Respondents(log, qid) + (if row.questionnaireId == qid then {row.respondentUuid} else {})
  {
    var l := log + [row];
    forall u ensures u in Respondents(l, qid) <==> u in Respondents(log, qid) + (if row.questionnaireId == qid then {row.respondentUuid} else {}) {
      if u in Respondents(l, qid) {
        var i :| 0 <= i < |l| && l[i].questionnaireId == qid && l[i].respondentUuid == u;
        if i < |log| { assert log[i] == l[i]; }
      }
      if u in Respondents(log, qid) {
        var i :| 0 <= i < |log| && log[i].questionnaireId == qid && log[i].respondentUuid == u;
        assert l[i] == log[i];
      }
      if row.questionnaireId == qid && u == row.respondentUuid {
        assert l[|log|] == row;
      }
    }
  }

  /** Some row of the log carries `qid`. */
  predicate Logged(log: seq<LogRow>, qid: string) {
    exists i :: 0 <= i < |log| && log[i].questionnaireId == qid
  }

  lemma LoggedIffRespondents(log: seq<LogRow>, qid: string)
    ensures Logged(log, qid) <==> Respondents(log, qid) != {}
  {
    if Logged(log, qid) {
      var i :| 0 <= i < |log| && log[i].questionnaireId == qid;
      assert log[i].respondentUuid in Respondents(log, qid);
    }
  }

  /**
   * `groupby("questionnaire_id")["respondent_uuid"]`: the rows folded into one set
   * of respondents per questionnaire id that has at least one row.
   */
  function Group(log: seq<LogRow>): (m: map<string, set<string>>)
    ensures forall q :: q in m <==> Respondents(log, q) != {}
    ensures forall q :: q in m ==> m[q] == Respondents(log, q)
  {
    if log == [] then map[]
    else
      var prefix := log[..|log| - 1];
      var row := log[|log| - 1];
      var m := Group(prefix);
      var q := row.questionnaireId;
      assert log == prefix + [row];
      var grouped := m[q := (if q in m then m[q] else {}) + {row.respondentUuid}];
      forall p ensures (p in grouped <==> Respondents(log, p) != {})
        && (p in grouped ==> grouped[p] == Respondents(log, p)) {
        RespondentsSnoc(prefix, row, p);
        if p == q {
          assert row.respondentUuid in Respondents(log, p);
        } else {
          assert Respondents(log, p) == Respondents(prefix, p);
        }
      }
      grouped
  }

  /** `count_by_qid.get(qid, 0)`. */
  function Get(counts: map<string, nat>, qid: string): nat {
    if qid in counts then counts[qid] else 0
  }

  /**
   * `...nunique().to_dict()`: the number of distinct respondents per logged
   * questionnaire id; looking up an id that was never logged gives 0.
   */
  function CountByQid(log: seq<LogRow>): (counts: map<string, nat>)
    ensures forall q :: q in counts <==> Logged(log, q)
    ensures forall q :: q in counts ==> counts[q] >= 1
    ensures forall q :: Get(counts, q) == Completed(log, q)
  {
    var g := Group(log);
    var counts := map q | q in g :: |g[q]|;
    forall q ensures (q in counts <==> Logged(log, q)) && Get(counts, q) == Completed(log, q) {
      LoggedIffRespondents(log, q);
    }
    counts
  }

  /** The questionnaire id of each file, in file order. */
  function FileQids(files: seq<string>): (qids: seq<string>)
    ensures |qids| == |files|
    ensures forall j :: 0 <= j < |files| ==> qids[j] == QidOf(files[j])
  {
    seq(|files|, j requires 0 <= j < |files| => QidOf(files[j]))
  }

  /** The first position at or after `from` whose id is below the threshold, if any. */
  function FirstBelowFrom(qids: seq<string>, counts: map<string, nat>, from: nat): (r: Option<nat>)
    requires from <= |qids|
    ensures r.Some? ==> from <= r.value < |qids| && Get(counts, qids[r.value]) < THRESHOLD
    ensures r.Some? ==> forall j :: from <= j < r.value ==> Get(counts, qids[j]) >= THRESHOLD
    ensures r.None? <==> forall j :: from <= j < |qids| ==> Get(counts, qids[j]) >= THRESHOLD
    decreases |qids| - from
  {
    if from == |qids| then None
    else if Get(counts, qids[from]) < THRESHOLD then Some(from)
    else FirstBelowFrom(qids, counts, from + 1)
  }

  /** The first position whose id is below the threshold, if any. */
  function FirstBelow(qids: seq<string>, counts: map<string, nat>): (r: Option<nat>)
    ensures r.Some? ==> r.value < |qids| && Get(counts, qids[r.value]) < THRESHOLD
    ensures r.Some? ==> forall j :: 0 <= j < r.value ==> Get(counts, qids[j]) >= THRESHOLD
    ensures r.None? <==> forall j :: 0 <= j < |qids| ==> Get(counts, qids[j]) >= THRESHOLD
  {
    FirstBelowFrom(qids, counts, 0)
  }

  /** A position below the threshold with every earlier one full is the one found. */
  lemma FirstBelowIs(qids: seq<string>, counts: map<string, nat>, k: nat)
    requires k < |qids| && Get(counts, qids[k]) < THRESHOLD
    requires forall j :: 0 <= j < k ==> Get(counts, qids[j]) >= THRESHOLD
    ensures FirstBelow(qids, counts) == Some(k)
  {
  }

  /** The first file below the threshold, or the first file when all are full. */
  function Pick(files: seq<string>, counts: map<string, nat>): (r: string)
    requires files != []
    ensures r in files
  {
    match FirstBelow(FileQids(files), counts)
    case Some(k) => files[k]
    case None => files[0]
  }

  /** `get_current_questionnaire()` as a function of the file list and what reading the log gives. */
  function Select(files: seq<string>, log: Option<seq<LogRow>>): (r: string)
    requires files != []
    ensures r in files
    ensures log.None? ==> r == files[0]
  {
    match log
    case None => files[0]
    case Some(rows) => Pick(files, CountByQid(rows))
  }

  /**
   * First fit: when some file is below the threshold, the result is the first
   * such file in list order, and every file before it is full.
   */
  lemma SelectFirstFit(files: seq<string>, rows: seq<LogRow>, k: nat)
    requires k < |files| && Completed(rows, QidOf(files[k])) < THRESHOLD
    requires forall j :: 0 <= j < k ==> Completed(rows, QidOf(files[j])) >= THRESHOLD
    ensures Select(files, Some(rows)) == files[k]
  {
    var qids := FileQids(files);
    var counts := CountByQid(rows);
    assert Get(counts, qids[k]) < THRESHOLD;
    forall j | 0 <= j < k ensures Get(counts, qids[j]) >= THRESHOLD {
      assert qids[j] == QidOf(files[j]);
    }
    FirstBelowIs(qids, counts, k);
  }

  /** Whatever the log, the result is a file that is below the threshold, or every file is full. */
  lemma SelectBelowOrAllFull(files: seq<string>, rows: seq<LogRow>)
    requires files != []
    ensures var r := Select(files, Some(rows));
      (exists k :: 0 <= k < |files| && r == files[k] && Completed(rows, QidOf(files[k])) < THRESHOLD
        && forall j :: 0 <= j < k ==> Completed(rows, QidOf(files[j])) >= THRESHOLD)
      || ((forall j :: 0 <= j < |files| ==> Completed(rows, QidOf(files[j])) >= THRESHOLD) && r == files[0])
  {
    var qids := FileQids(files);
    var counts := CountByQid(rows);
    match FirstBelow(qids, counts)
    case Some(k) =>
      assert Select(files, Some(rows)) == files[k];
      assert Completed(rows, QidOf(files[k])) < THRESHOLD;
      forall j | 0 <= j < k ensures Completed(rows, QidOf(files[j])) >= THRESHOLD {
        assert Get(counts, qids[j]) >= THRESHOLD;
      }
    case None =>
      forall j | 0 <= j < |files| ensures Completed(rows, QidOf(files[j])) >= THRESHOLD {
        assert Get(counts, qids[j]) >= THRESHOLD;
      }
  }

  /** Wrap-around: once every file is full, the first file is served again. */
  lemma SelectWrapsAround(files: seq<string>, rows: seq<LogRow>)
    requires files != []
    requires forall j :: 0 <= j < |files| ==> Completed(rows, QidOf(files[j])) >= THRESHOLD
    ensures Select(files, Some(rows)) == files[0]
  {
    var qids := FileQids(files);
    var counts := CountByQid(rows);
    forall j | 0 <= j < |qids| ensures Get(counts, qids[j]) >= THRESHOLD {
      assert Completed(rows, QidOf(files[j])) >= THRESHOLD;
    }
  }

  /** A questionnaire nobody has answered counts 0, so the first file is served on an empty log. */
  lemma SelectEmptyLog(files: seq<string>)
    requires files != []
    ensures Completed([], QidOf(files[0])) == 0
    ensures Select(files, Some([])) == files[0]
  {
    assert Respondents([], QidOf(files[0])) == {};
    SelectFirstFit(files, [], 0);
  }

  /** A repeated row of a respondent already counted does not raise the count. */
  lemma CompletedIgnoresRepeat(log: seq<LogRow>, row: LogRow, i: nat)
    requires i < |log|
    requires log[i].questionnaireId == row.questionnaireId && log[i].respondentUuid == row.respondentUuid
    ensures forall q :: Completed(log + [row], q) == Completed(log, q)
  {
    forall q ensures Completed(log + [row], q) == Completed(log, q) {
      RespondentsSnoc(log, row, q);
      if row.questionnaireId == q {
        assert row.respondentUuid in Respondents(log, q);
        assert Respondents(log, q) + {row.respondentUuid} == Respondents(log, q);
      } else {
        assert Respondents(log + [row], q) == Respondents(log, q);
      }
    }
  }

  /** A row of a new respondent raises its questionnaire's count by one and no other. */
  lemma CompletedNewRespondent(log: seq<LogRow>, row: LogRow)
    requires row.respondentUuid !in Respondents(log, row.questionnaireId)
    ensures Completed(log + [row], row.questionnaireId) == Completed(log, row.questionnaireId) + 1
    ensures forall q :: q != row.questionnaireId ==> Completed(log + [row], q) == Completed(log, q)
  {
    forall q ensures Respondents(log + [row], q)
      == Respondents(log, q) + (if row.questionnaireId == q then {row.respondentUuid} else {}) {
      RespondentsSnoc(log, row, q);
    }
  }

  /** The conventional file name `questionnaire_<id>.xlsx` of each id, in order. */
  function ConventionalNames(ids: seq<string>): (files: seq<string>)
    ensures |files| == |ids|
    ensures forall j :: 0 <= j < |ids| ==> files[j] == MARKER + ids[j] + EXTENSION
  {
    seq(|ids|, j requires 0 <= j < |ids| => MARKER + ids[j] + EXTENSION)
  }

  /** Conventionally named files give back exactly the ids they were named after. */
  lemma ConventionalQids(ids: seq<string>)
    requires forall j :: 0 <= j < |ids| ==> '/' !in ids[j] && !Occurs(ids[j], MARKER)
    ensures FileQids(ConventionalNames(ids)) == ids
  {
    var qids := FileQids(ConventionalNames(ids));
    forall j | 0 <= j < |ids| ensures qids[j] == ids[j] {
      QidOfConventionalName(ids[j]);
    }
  }

  /** Example files named after Q1, Q2 and Q3. */
  function ExampleFiles(): seq<string> {
    ConventionalNames(["Q1", "Q2", "Q3"])
  }

  /** The example files have ids Q1, Q2 and Q3. */
  lemma ExampleQids()
    ensures FileQids(ExampleFiles()) == ["Q1", "Q2", "Q3"]
  {
    var ids := ["Q1", "Q2", "Q3"];
    forall j | 0 <= j < |ids| ensures '/' !in ids[j] && !Occurs(ids[j], MARKER) {
    }
    ConventionalQids(ids);
  }

  /** Counts 20, 5 and 20 for Q1, Q2 and Q3 give Q2. */
  lemma PickExampleAdvance()
    ensures Pick(ExampleFiles(), map["Q1" := 20, "Q2" := 5, "Q3" := 20]) == ExampleFiles()[1]
  {
    var counts := map["Q1" := 20, "Q2" := 5, "Q3" := 20];
    var qids := FileQids(ExampleFiles());
    assert qids == ["Q1", "Q2", "Q3"] by {
      ExampleQids();
    }
    assert Get(counts, "Q1") == 20 && Get(counts, "Q2") == 5;
    FirstBelowIs(qids, counts, 1);
  }

  /** Counts of 20 for all three wrap around to Q1. */
  lemma PickExampleWrap()
    ensures Pick(ExampleFiles(), map["Q1" := 20, "Q2" := 20, "Q3" := 20]) == ExampleFiles()[0]
  {
    var counts := map["Q1" := 20, "Q2" := 20, "Q3" := 20];
    var qids := FileQids(ExampleFiles());
    assert qids == ["Q1", "Q2", "Q3"] by {
      ExampleQids();
    }
    assert Get(counts, "Q1") == 20 && Get(counts, "Q2") == 20 && Get(counts, "Q3") == 20;
    assert FirstBelow(qids, counts).None?;
  }

  /** The loop of `get_current_questionnaire()`: scan the files in order, return at the first one below the threshold. */
  method ScanFiles(files: seq<string>, countByQid: map<string, nat>) returns (chosen: string)
    requires files != []
    ensures chosen == Pick(files, countByQid)
  {
    ghost var qids := FileQids(files);
    for i := 0 to |files|
      invariant forall j :: 0 <= j < i ==> Get(countByQid, qids[j]) >= THRESHOLD
    {
      var qid := QidOf(files[i]);
      var filled := Get(countByQid, qid);
      if filled < THRESHOLD {
        FirstBelowIs(qids, countByQid, i);
        return files[i];
      }
    }
    return files[0];
  }

  /**
   * `get_current_questionnaire()`: with no log the first file; otherwise the
   * count per id is built once and the files are scanned in order.
   */
  method GetCurrentQuestionnaire(files: seq<string>, log: Option<seq<LogRow>>) returns (chosen: string)
    requires files != []
    ensures chosen == Select(files, log)
  {
    if log.None? {
      return files[0];
    }
    var countByQid := CountByQid(log.value);
    chosen := ScanFiles(files, countByQid);
  }
}
