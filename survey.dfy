/**
 * The two ends of one session tied together: the questionnaire served is the
 * selector's choice over the backup as it stands, and a submission adds one
 * respondent to that questionnaire's count and to no other.
 */
module Survey {
  import opened Wrappers
  import opened FileNames
  import opened ResponseLog
  import opened Selection
  import opened Submission

  /**
   * One evaluation of the questionnaire choice (`chosen_file` and `qid`) over
   * the log as it stands: the file is below the threshold unless every file is
   * full, and its id is derived the same way as during selection.
   */
  method ServeQuestionnaire(files: seq<string>, log: LogFile) returns (chosen: string, qid: string)
    requires files != []
    requires WellFormed(log.State())
    ensures chosen == Select(files, Snapshot(log.State()))
    ensures chosen in files && qid == QidOf(chosen)
    ensures !log.present ==> chosen == files[0]
    ensures log.present ==>
      (Completed(Records(log.State()), qid) < THRESHOLD
       || forall j :: 0 <= j < |files| ==> Completed(Records(log.State()), QidOf(files[j])) >= THRESHOLD)
  {
    chosen := GetCurrentQuestionnaire(files, Snapshot(log.State()));
    qid := QidOf(chosen);
    if log.present {
      SelectBelowOrAllFull(files, Records(log.State()));
    }
  }

  /** The respondents of `q` once a session's rows, all for `qid` and `uuid`, follow the log. */
  lemma RespondentsAfterSession(log: seq<LogRow>, rows: seq<LogRow>, qid: string, uuid: string, q: string)
    requires rows != []
    requires forall i :: 0 <= i < |rows| ==> rows[i].questionnaireId == qid && rows[i].respondentUuid == uuid
    ensures Respondents(log + rows, q) == Respondents(log, q) + (if q == qid then {uuid} else {})
  {
    var all := log + rows;
    forall u | u in Respondents(all, q)
      ensures u in Respondents(log, q) + (if q == qid then {uuid} else {}) {
      var i :| 0 <= i < |all| && all[i].questionnaireId == q && all[i].respondentUuid == u;
      if i < |log| {
        assert log[i] == all[i];
      } else {
        assert all[i] == rows[i - |log|];
      }
    }
    forall u | u in Respondents(log, q) ensures u in Respondents(all, q) {
      var i :| 0 <= i < |log| && log[i].questionnaireId == q && log[i].respondentUuid == u;
      assert all[i] == log[i];
    }
    if q == qid {
      assert all[|log|] == rows[0];
    }
  }

  /** Rows of one session, all for `qid` and `uuid`, add that respondent once and only to `qid`. */
  lemma CompletedAfterSession(log: seq<LogRow>, rows: seq<LogRow>, qid: string, uuid: string)
    requires rows != []
    requires forall i :: 0 <= i < |rows| ==> rows[i].questionnaireId == qid && rows[i].respondentUuid == uuid
    requires uuid !in Respondents(log, qid)
    ensures Completed(log + rows, qid) == Completed(log, qid) + 1
    ensures forall q :: q != qid ==> Completed(log + rows, q) == Completed(log, q)
  {
    RespondentsAfterSession(log, rows, qid, uuid, qid);
    forall q | q != qid ensures Completed(log + rows, q) == Completed(log, q) {
      RespondentsAfterSession(log, rows, qid, uuid, q);
    }
  }

  /**
   * A submission of a respondent new to `qid` raises `qid`'s count by exactly one
   * and leaves every other questionnaire's count as it was.
   */
  lemma SubmissionCountsOnce(s: LogState, responses: seq<Response>, qid: string,
                             answers: SessionAnswers, timestamp: string, uuid: string)
    requires WellFormed(s)
    requires responses != []
    requires uuid !in Respondents(Records(s), qid)
    ensures var after := Records(Appended(s, BackupRows(responses, qid, answers, timestamp, uuid)));
      Completed(after, qid) == Completed(Records(s), qid) + 1
      && forall q :: q != qid ==> Completed(after, q) == Completed(Records(s), q)
  {
    var rows := BackupRows(responses, qid, answers, timestamp, uuid);
    AppendedFacts(s, rows);
    CompletedAfterSession(Records(s), rows, qid, uuid);
  }
}
