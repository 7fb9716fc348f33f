/**
 * The rating part of the form and the submit action: one response per
 * spreadsheet row, one payload POSTed per response, one success flag for all
 * of them, and the same responses appended to the local backup.
 * The answer widgets, the HTTP replies, the uuid and the clock are inputs.
 */
module Submission {
  import opened Wrappers
  import opened ResponseLog
  import opened Decimal

  /** A spreadsheet row; None stands for a column the sheet does not have. */
  datatype QuestionRow = QuestionRow(id: Option<string>, title: Option<string>)

  /** One rated news item. */
  datatype Response = Response(id: string, title: string, scoreTruth: int)

  /** The answers given once per session, shared by every payload. */
  datatype SessionAnswers = SessionAnswers(
    age: string,
    education: string,
    freq: string,
    hesitantNews: string,
    verifyNews: string,
    clickbaitNews: string)

  /** The JSON body of one POST. */
  datatype Payload = Payload(
    newsId: string,
    title: string,
    scoreTruth: int,
    questionnaireId: string,
    answers: SessionAnswers,
    respondentUuid: string)

  /** What one `requests.post` gave: a reply with a status code, or an exception. */
  datatype PostOutcome = Replied(statusCode: int) | Raised(message: string)

  /** The title shown when a sheet has no title column. */
  const MISSING_TITLE: string := "（标题缺失）"

  /** The rating scale, `list(range(1, 11))`. */
  const SCORE_OPTIONS: seq<int> := seq(10, k => k + 1)

  /** `str(row.get("ID", i))`: the row's id, or its index when the sheet has no ID column. */
  function Slug(row: QuestionRow, index: nat): string {
    row.id.GetOr(DecimalString(index))
  }

  /** `str(row.get("title", ...))`: the row's title, or the placeholder. */
  function TitleOf(row: QuestionRow): string {
    row.title.GetOr(MISSING_TITLE)
  }

  /**
   * The rating loop: for each row in order a response with the row's id and
   * title and the option the respondent picked (`picks[i]` is the position of
   * the chosen option in the radio's list).
   */
  method BuildResponses(rows: seq<QuestionRow>, picks: seq<nat>) returns (responses: seq<Response>)
    requires |picks| == |rows|
    requires forall i :: 0 <= i < |picks| ==> picks[i] < |SCORE_OPTIONS|
    ensures |responses| == |rows|
    ensures forall i :: 0 <= i < |rows| ==>
      responses[i].id == Slug(rows[i], i) && responses[i].title == TitleOf(rows[i])
      && responses[i].scoreTruth == SCORE_OPTIONS[picks[i]]
    ensures forall i :: 0 <= i < |rows| ==> 1 <= responses[i].scoreTruth <= 10
  {
    responses := [];
    for i := 0 to |rows|
      invariant |responses| == i
      invariant forall j :: 0 <= j < i ==>
        responses[j] == Response(Slug(rows[j], j), TitleOf(rows[j]), SCORE_OPTIONS[picks[j]])
      invariant forall j :: 0 <= j < i ==> 1 <= responses[j].scoreTruth <= 10
    {
      var slug := Slug(rows[i], i);
      var title := TitleOf(rows[i]);
      var score := SCORE_OPTIONS[picks[i]];
      responses := responses + [Response(slug, title, score)];
    }
  }

  /** A POST counts as delivered when it returned status 200 without raising. */
  predicate Succeeded(outcome: PostOutcome) {
    outcome.Replied? && outcome.statusCode == 200
  }

  /** The payload of one response. */
  function PayloadOf(r: Response, qid: string, answers: SessionAnswers, uuid: string): Payload {
    Payload(r.id, r.title, r.scoreTruth, qid, answers, uuid)
  }

  /**
   * The POST loop: one payload per response, in order, each sent on its own;
   * `allSuccess` stays true only if every POST returned 200. A failure does not
   * stop the remaining POSTs.
   */
  method SendAll(responses: seq<Response>, qid: string, answers: SessionAnswers, uuid: string,
                 outcomes: seq<PostOutcome>)
    returns (sent: seq<Payload>, allSuccess: bool)
    requires |outcomes| == |responses|
    ensures |sent| == |responses|
    ensures forall i :: 0 <= i < |responses| ==>
      sent[i].newsId == responses[i].id && sent[i].title == responses[i].title
      && sent[i].scoreTruth == responses[i].scoreTruth
    ensures forall i :: 0 <= i < |responses| ==>
      sent[i].questionnaireId == qid && sent[i].respondentUuid == uuid && sent[i].answers == answers
    ensures allSuccess <==> forall i :: 0 <= i < |outcomes| ==> Succeeded(outcomes[i])
  {
    allSuccess := true;
    sent := [];
    for i := 0 to |responses|
      invariant |sent| == i
      invariant forall j :: 0 <= j < i ==> sent[j] == PayloadOf(responses[j], qid, answers, uuid)
      invariant allSuccess <==> forall j :: 0 <= j < i ==> Succeeded(outcomes[j])
    {
      var payload := PayloadOf(responses[i], qid, answers, uuid);
      sent := sent + [payload];
      match outcomes[i]
      case Replied(code) =>
        if code != 200 {
          allSuccess := false;
        }
      case Raised(_) =>
        allSuccess := false;
    }
  }

  /**
   * The backup rows: the responses as a table with the session's columns
   * broadcast onto every row.
   */
  function BackupRows(responses: seq<Response>, qid: string, answers: SessionAnswers,
                      timestamp: string, uuid: string): (rows: seq<LogRow>)
    ensures |rows| == |responses|
    ensures forall i :: 0 <= i < |rows| ==>
      rows[i].id == responses[i].id && rows[i].title == responses[i].title
      && rows[i].scoreTruth == responses[i].scoreTruth
    ensures forall i :: 0 <= i < |rows| ==>
      rows[i].questionnaireId == qid && rows[i].timestamp == timestamp && rows[i].respondentUuid == uuid
  {
    seq(|responses|, i requires 0 <= i < |responses| =>
      LogRow(responses[i].id, responses[i].title, responses[i].scoreTruth, qid,
        answers.age, answers.education, answers.freq,
        answers.hesitantNews, answers.verifyNews, answers.clickbaitNews,
        timestamp, uuid))
  }

  /** The session fields of a backup row. */
  function RowAnswers(row: LogRow): SessionAnswers {
    SessionAnswers(row.age, row.education, row.freq, row.hesitantNews, row.verifyNews, row.clickbaitNews)
  }

  /**
   * The backup mirrors what was posted: row i of the backup and payload i carry
   * the same item, score, questionnaire, answers and respondent.
   */
  lemma BackupMatchesPayloads(responses: seq<Response>, qid: string, answers: SessionAnswers,
                              timestamp: string, uuid: string, i: nat)
    requires i < |responses|
    ensures var row := BackupRows(responses, qid, answers, timestamp, uuid)[i];
      var p := PayloadOf(responses[i], qid, answers, uuid);
      row.id == p.newsId && row.title == p.title && row.scoreTruth == p.scoreTruth
      && row.questionnaireId == p.questionnaireId && RowAnswers(row) == p.answers
      && row.respondentUuid == p.respondentUuid
  {
  }

  /**
   * The submit action: POST every response, then append every response to the
   * backup whatever the POSTs returned.
   */
  method Submit(responses: seq<Response>, qid: string, answers: SessionAnswers,
                uuid: string, timestamp: string, outcomes: seq<PostOutcome>, log: LogFile)
    returns (sent: seq<Payload>, allSuccess: bool)
    requires |outcomes| == |responses|
    requires WellFormed(log.State())
    modifies log
    ensures |sent| == |responses|
    ensures forall i :: 0 <= i < |responses| ==> sent[i] == PayloadOf(responses[i], qid, answers, uuid)
    ensures allSuccess <==> forall i :: 0 <= i < |outcomes| ==> Succeeded(outcomes[i])
    ensures log.State() == Appended(old(log.State()), BackupRows(responses, qid, answers, timestamp, uuid))
    ensures WellFormed(log.State())
    ensures Records(log.State()) == old(Records(log.State())) + BackupRows(responses, qid, answers, timestamp, uuid)
  {
    sent, allSuccess := SendAll(responses, qid, answers, uuid, outcomes);
    var rows := BackupRows(responses, qid, answers, timestamp, uuid);
    log.Append(rows);
  }
}
