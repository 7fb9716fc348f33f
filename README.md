# Sports-news survey: questionnaire assignment and submission

A model of `app.py`, a survey form about sports headlines. The model covers
the two pieces of rule logic the program contains:

- **Questionnaire assignment.** The questionnaire files are the `.xlsx` names of
  a directory, sorted. A file's questionnaire id is its name without the
  extension, with every `questionnaire_` deleted. The file served to a new
  respondent is meant to be the first one whose id has fewer than 20 distinct
  `respondent_uuid`s in the local backup `responses.csv`; when there is no
  backup, or when every questionnaire is full, the first file is served. The
  program does this only when the logged ids stay text: with all-digit ids it
  serves the first file whatever the counts (see Findings).
- **Submission.** There is one response per spreadsheet row, with a score from
  1 to 10. On submit, all of the session's payloads share one respondent uuid
  and one questionnaire id, and each payload is POSTed on its own. One flag
  records whether all of them returned 200. The same responses, stamped with
  the uuid and a timestamp, are appended to the backup, which gets a header
  only when it is created.

Modules: `Decimal` (`str(n)` and the value of a digit string), `FileNames`
(splitext, `str.replace`, the questionnaire id),
`Listing` (filtering and sorting the directory listing), `ResponseLog` (log
rows, the file's lines, the `LogFile` class updated in place), `Selection`
(distinct-respondent counts and the selector), `Submission` (building the
responses, the POST loop, the backup rows, the submit action), `Survey`
(linking serving and submitting), `LogReadback` (the log read back with
pandas' type inference; see Findings). `Wrappers` holds `Option`.

Inputs that stand for I/O: the directory listing, the spreadsheet rows, the
widget answers (each rating is the position of the chosen option among
1..10), each POST's outcome (a status code or an exception), the uuid, the
timestamp and the backup as found at start.

Two details of app.py that the model keeps:
- The POST payload carries no timestamp; only the backup rows do (app.py:130-142, 162).
- Any status other than 200 counts as a failure, 201 included (app.py:146).

## Model

| member | source | states |
|---|---|---|
| `FileNames.EndsWith` | app.py:31 | Python's `str.endswith`: the last `|suffix|` characters are the suffix (definition only, no contract) |
| `FileNames.RFind` | app.py:45 | the result is -1 or an index holding the character, and no later index holds it |
| `FileNames.SplitExt` | app.py:45 | root + extension is the name; the extension is empty, or starts with the name's last '.' and holds no other '.' and no '/' |
| `FileNames.SplitExtAtDot` | app.py:45 | the split is at the last dot whenever no '/' follows it and a non-dot character of the same base name precedes it |
| `FileNames.SplitExtDotsOnly` | app.py:45 | no split when no dot of the base name comes after a character other than '.': such a name (no dot, or only leading dots such as ".xlsx") is its own root with an empty extension |
| `FileNames.SplitExtHiddenName` | app.py:45 | ".xlsx" alone splits into (".xlsx", ""), not ("", ".xlsx") |
| `FileNames.SplitExtXlsx` | app.py:45 | for a name `stem.xlsx` (no '/', some character other than '.'), splitext gives exactly (stem, ".xlsx") |
| `FileNames.DeleteAll` | app.py:45 | deleting occurrences never lengthens the text; what is deleted is stated by the lemmas below |
| `FileNames.DeleteAllChanges` | app.py:45 | `replace(pat, "")` changes the text exactly when `pat` occurs in it, and then makes it strictly shorter |
| `FileNames.DeleteAllShrinks` | app.py:45 | text in which `pat` occurs loses at least one character |
| `FileNames.DeleteAllAbsent` | app.py:45 | text without the pattern is unchanged by `replace(pat, "")` |
| `FileNames.DeleteAllLeading` | app.py:45 | a leading occurrence is deleted, and the scan resumes after it |
| `FileNames.DeleteAllKeeps` | app.py:45 | a part in which no occurrence of the pattern starts is copied unchanged, and the scan goes on after it |
| `FileNames.QidOf` | app.py:45 | a file's id (here and at line 71) is its splitext root with every marker deleted (definition; its meaning is stated by the lemmas that follow) |
| `FileNames.QidOfConventionalName` | app.py:45 | `questionnaire_<id>.xlsx` has id `<id>` when `<id>` has no marker and no '/' |
| `FileNames.QidOfPlainName` | app.py:45 | a file without the marker has its stem as id |
| `FileNames.QidDeletesInnerMarker` | app.py:45 | a marker after any prefix in which no marker starts is deleted too: `a + "questionnaire_" + id + ".xlsx"` has id `a + id` |
| `FileNames.QidQuizExample` | app.py:45 | `quiz_questionnaire_1.xlsx`, whose prefix starts with the marker's first letter, has id `quiz_1` |
| `FileNames.QidOfNotInjective` | app.py:43-46 | two different names, `questionnaire_<id>.xlsx` and `<id>.xlsx`, get the same id and share one count |
| `Listing.LexLe` | app.py:31 | Python's string order: code-point lexicographic, a prefix first (definition; its properties follow) |
| `Listing.LexLeTotal` | app.py:31 | any two names are ordered one way or the other by Python's string order |
| `Listing.LexLeTransitive` | app.py:31 | Python's string order is transitive |
| `Listing.LexLeReflexive` | app.py:31 | every name is at most itself |
| `Listing.SortedPairwise` | app.py:31 | in a sorted list every earlier name is at most every later one |
| `Listing.XlsxNames` | app.py:31 | the kept names are exactly the listed names ending in ".xlsx", each as often as it is listed, none added |
| `Listing.Insert` | app.py:31 | inserting into a sorted list keeps it sorted and adds exactly that name |
| `Listing.Sort` | app.py:31 | the result is sorted and a permutation of the input |
| `Listing.DiscoverFiles` | app.py:31-34 | None exactly when no name ends in ".xlsx"; otherwise a non-empty sorted permutation of the .xlsx names |
| `ResponseLog.Records` | app.py:42 | the records are the lines after the header, in order; a missing file has none |
| `ResponseLog.Snapshot` | app.py:40-42 | reading gives nothing exactly when the file does not exist, otherwise its records |
| `ResponseLog.Appended` | app.py:165-168 | `to_csv` of rows: a new file gets the header and then the rows; an existing one keeps its lines and gets the rows after them (definition; its facts are in `AppendedFacts`) |
| `ResponseLog.OneHeader` | app.py:165-168 | an existing well-formed log holds exactly one header line |
| `ResponseLog.AppendedFacts` | app.py:165-168 | an append keeps the log well formed, adds the rows after the old records, adds one header line only for a new file, and leaves exactly one header |
| `ResponseLog.TwoSubmissions` | app.py:165-168 | two submissions into a missing file give one header, then the first rows, then the second |
| `ResponseLog.LogFile.constructor` | app.py:40 | the file object starts as the backup found on disk |
| `ResponseLog.LogFile.Append` | app.py:165-168 | one line per row is appended in a loop, after a header when the file is new; the new state is the append of the old one |
| `Selection.Respondents` | app.py:43 | the distinct uuids of the rows logged against an id: the reference meaning of `nunique` (definition) |
| `Selection.Completed` | app.py:43 | the number of those distinct uuids (definition) |
| `Selection.Group` | app.py:43 | the fold over rows has a key exactly for each id that has respondents, holding that id's distinct respondent set |
| `Selection.Get` | app.py:46 | `dict.get(qid, 0)`: the stored count, or 0 for an absent id (definition) |
| `Selection.CountByQid` | app.py:43 | keys are exactly the logged ids, each count is at least 1, and `get(qid, 0)` equals the distinct-respondent count for every id |
| `Selection.FirstBelowFrom` | app.py:44-48 | scanning from a given position: a found position is below the threshold and every one before it (from the start position) is full; nothing is found exactly when every later id is full |
| `Selection.FirstBelow` | app.py:44-48 | a found position is below the threshold and every earlier one is full; nothing is found exactly when every file is full |
| `Selection.FirstBelowIs` | app.py:44-48 | a file below the threshold with every earlier file full is the position found |
| `Selection.Pick` | app.py:44-49 | the file picked from given counts is one of the files |
| `Selection.Select` | app.py:39-49 | the result is one of the files; with no log it is the first file |
| `Selection.SelectFirstFit` | app.py:44-48 | the first file in order whose count is below 20 is the one served |
| `Selection.SelectBelowOrAllFull` | app.py:44-49 | the result is the first file below 20 with all earlier files full, or all files are full and it is the first file |
| `Selection.SelectWrapsAround` | app.py:49 | when every count is at least 20 the first file is served again |
| `Selection.SelectEmptyLog` | app.py:46 | an id without rows counts 0, so an existing but empty log serves the first file |
| `Selection.CompletedIgnoresRepeat` | app.py:43 | another row of an already-counted respondent changes no count |
| `Selection.CompletedNewRespondent` | app.py:43 | a row of a new respondent raises their questionnaire's count by one and no other |
| `Selection.ConventionalQids` | app.py:45 | files named `questionnaire_<id>.xlsx` give back exactly their ids, in order, when no id holds '/' or the marker |
| `Selection.ExampleQids` | app.py:45 | the example files have ids Q1, Q2, Q3 |
| `Selection.PickExampleAdvance` | app.py:44-48 | counts {Q1: 20, Q2: 5, Q3: 20} select Q2 |
| `Selection.PickExampleWrap` | app.py:49 | counts {Q1: 20, Q2: 20, Q3: 20} select Q1 |
| `Selection.ScanFiles` | app.py:44-49 | the loop over the files with its early return picks exactly what `Pick` specifies |
| `Selection.GetCurrentQuestionnaire` | app.py:39-49 | the scan loop with early return gives exactly the selector's result |
| `Decimal.DecimalString` | app.py:95 | `str(i)` of a row index is a non-empty string of digits that denotes `i`, with no leading zero except for 0 itself, which is "0" |
| `Submission.Slug` | app.py:95 | the row's ID, or `str(i)` of its index when the sheet has no ID column (definition) |
| `Submission.TitleOf` | app.py:96 | the row's title, or the placeholder "（标题缺失）" (definition) |
| `Submission.BuildResponses` | app.py:92-109 | one response per row in row order, with the row's id (or index) and title (or placeholder) and the chosen option, every score in 1..10 |
| `Submission.Succeeded` | app.py:146-149 | a POST counts as delivered exactly when it returned 200 without raising (definition) |
| `Submission.PayloadOf` | app.py:130-142 | the payload copies the response's id, title and score and carries the session's id, answers and uuid (definition) |
| `Submission.SendAll` | app.py:125-150 | one payload per response in order, copying its id, title and score; all share the uuid, the id and the answers; the flag is true iff every POST returned 200 without raising |
| `Submission.BackupRows` | app.py:154-163 | one backup row per response, copying id, title and score; every row has the same questionnaire id, timestamp and uuid |
| `Submission.BackupMatchesPayloads` | app.py:130-163 | backup row i and payload i agree on item, score, questionnaire, answers and respondent |
| `Submission.Submit` | app.py:124-168 | the payloads and flag as above, and the log grows by exactly the backup rows whatever the POSTs returned |
| `Survey.ServeQuestionnaire` | app.py:68-71 | the served file is the selector's choice over the backup, and the served id is derived from it as in selection; it is below 20 unless every file is full |
| `Survey.RespondentsAfterSession` | app.py:155-163 | after one session's rows, the respondents of `qid` gain the session uuid and other ids' respondents are unchanged |
| `Survey.CompletedAfterSession` | app.py:155-163 | rows of one session add one respondent to their questionnaire's count and none to others |
| `Survey.SubmissionCountsOnce` | app.py:124-168 | a submission by a respondent new to the questionnaire raises its count by exactly one and no other count |
| `Decimal.IsDigits` | app.py:42 | a non-empty string of the digits 0-9, the ids pandas reads as integers here (definition) |
| `Decimal.DigitsValue` | app.py:42 | the integer such a string denotes, leading zeros allowed (definition; tied to `str(n)` by `Decimal.DecimalString`) |
| `LogReadback.NumericQidColumn` | app.py:42 | every logged id is a digit string, so pandas reads the column as integers (definition) |
| `LogReadback.QidCell` | app.py:42 | a cell holds the id's integer value in a numeric column and the text otherwise (definition) |
| `LogReadback.CountsAsRead` | app.py:42-43 | with an all-digit id column every group key is a number, otherwise every key is text (signed and blank-padded integer ids are left out); the counts are tied to the reference count by `TextLogMatchesIntended` |
| `LogReadback.TextKeyed` | app.py:46 | a lookup by text id sees exactly the text keys, each with its count as read |
| `LogReadback.SelectAsWritten` | app.py:39-49 | the selector as written, over the log as pandas reads it, returns one of the files; its choice is pinned by the lemmas below |
| `LogReadback.TextCellRespondents` | app.py:42-43 | on a text column the uuids grouped under a text key are that id's distinct respondents |
| `LogReadback.TextCellKey` | app.py:42-43 | on a text column a text id is a group key exactly when it is logged |
| `LogReadback.TextLookup` | app.py:42-46 | for one text id on a text column, the lookup as read finds the id exactly when the intended counts do, with the same count |
| `LogReadback.TextLogMatchesIntended` | app.py:42-46 | on a text column the counts a text lookup sees are exactly the intended distinct-respondent counts |
| `LogReadback.TextLogServesAsIntended` | app.py:39-49 | without a log, or with a log whose ids are not all digits, the program as written serves what the intended rule serves |
| `LogReadback.NumericLogServesFirst` | app.py:42-48 | with an all-digit id column the program as written serves the first file whatever the counts |
| `LogReadback.AsWrittenOverfillsFirst` | app.py:42-48 | with the first questionnaire full and the second not, the program serves the first and the intended rule the second |
| `LogReadback.TwentyOnFirstCounts` | app.py:43 | the example log has 20 respondents for id "1", none for "2", and only numeric ids |
| `LogReadback.OverfillExample` | app.py:42-48 | for `questionnaire_1.xlsx`, `questionnaire_2.xlsx` and twenty respondents of "1", the program serves questionnaire 1 and the intended rule questionnaire 2 |

## Findings

| source | as written | input that shows it | evidently intended | confidence | as-written member | corrected member |
|---|---|---|---|---|---|---|
| app.py:42-46 | `pd.read_csv` reads an all-digit `questionnaire_id` column as integers, so `count_by_qid.get(qid, 0)` with the text id always gives 0 | files `questionnaire_1.xlsx`, `questionnaire_2.xlsx`; a log with 20 distinct respondents for id "1" | serve questionnaire 2 once questionnaire 1 has 20 respondents | not executed; depends on pandas' inference of integer columns | `LogReadback.OverfillExample` | `Selection.Select` |

The rest of the model uses `Selection.Select`. It compares ids as text, which
is what the program does whenever pandas keeps the id column as text
(`LogReadback.TextLogServesAsIntended`, for logs in which some id is not an
unsigned digit string; signed and blank-padded integers are left out below).

## Left out

- The Streamlit screens: page setup, consent checkbox, the demographic radios, the frequency stop, the three selection questions and the result messages (app.py:13, 54-86, 114-119, 171-176). Their answers are inputs (`SessionAnswers`).
- Zip extraction and the directory-exists stop (app.py:18-29): file-system I/O. The directory listing is an input to `Listing.DiscoverFiles`.
- `pd.read_excel`: cell formatting by `str()` and NaN cells (app.py:70, 95-96). A row's id and title are given as text. `None` stands for a column the sheet lacks, and the id then defaults to the row index.
- CSV quoting and parsing: a line is the record it holds. For an empty questionnaire, pandas' header would lack the ID, title and score columns; the model always writes the full header.
- Streamlit widget keys: a sheet in which two rows share an ID makes Streamlit reject the duplicate key (app.py:106). This is not modelled.
- `requests.post` (app.py:145): each outcome is an input. The `st.error` message shown for an exception is not modelled.
- `uuid.uuid4()` and `datetime.now()` (app.py:126, 162) are parameters. That a fresh uuid is new to the log is a hypothesis of `Survey.SubmissionCountsOnce`, not something proved.
- `FileNames.DeleteAll`: Python's behaviour for an empty pattern is not modelled; the program only deletes the non-empty marker.
- Missing-value cells: `pd.read_csv` reads an empty field, and texts such as "NA" or "nan", as NaN even in a text column, and `groupby` drops those rows. So a file named `questionnaire_.xlsx` (id "") always counts 0 in the program, while `Selection.CountByQid` and `LogReadback.CountsAsRead` count its rows. Missing values are not modelled.
- `LogReadback.CountsAsRead`: only unsigned digit strings are read as integers. pandas also reads ids such as "-1", "+1" or " 1" as integers, and ids such as "1.5" as floats; a log whose ids are all of that kind fails the same way (the first file is served for ever), but the model keys those ids as text and serves what `Selection.Select` serves.
- `Survey.ServeQuestionnaire`: the selector is evaluated once per session, over one snapshot of the log. Streamlit re-runs the whole script on every interaction, so `get_current_questionnaire()` (app.py:68) is re-evaluated against the log as it then stands, and another session's submission can switch the questionnaire of a respondent who is filling it in. Sessions also share `responses.csv` without locking, so two sessions served at 19 respondents both push a questionnaire past 20. Reruns and concurrent sessions are not modelled.
- Other selection policies (random choice once per session, a fixed in-memory list) belong to other variants of the program, not to app.py.
