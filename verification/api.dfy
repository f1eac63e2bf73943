/** The two endpoints (main.py:61-111 and main.py:149-233) with the work they
    delegate: request validation, the per-document loop, and the sheet the
    successful response carries. The oracles stand in for the OpenAI calls. */
module Api {
  import opened Wrappers
  import opened Text
  import opened Dicts
  import opened Json
  import opened Criteria
  import opened Extraction
  import opened Rows
  import opened Batch
  import opened Report

  /** An `HTTPException` the endpoint raises: status code and detail. */
  datatype HttpError = HttpError(status: int, detail: string)

  /** What the spreadsheet holds: the written columns in order, the rows
      under them, and the width set for each column. */
  datatype Sheet = Sheet(columns: seq<string>, rows: seq<Row>, widths: seq<nat>)

  const NoCriteriaDetail := "At least one criterion is required"
  const NoFilesDetail := "At least one resume file is required"
  const AllFailedPrefix := "No resumes could be processed successfully. Errors: "

  function UnsupportedFormatDetail(filename: string): string {
    "Unsupported file format for " + filename + ". Only PDF and DOCX files are accepted."
  }

  // ---------------------------------------------------------------------------
  // score_resumes

  /** The first upload, from `from` on, whose name fails the up-front check. */
  function FirstUnsupported(uploads: seq<Upload>, from: nat): (r: Option<nat>)
    requires from <= |uploads|
    ensures r.None? <==> forall i | from <= i < |uploads| :: Accepted(uploads[i].filename)
    ensures r.Some? ==> from <= r.value < |uploads| && !Accepted(uploads[r.value].filename)
    ensures r.Some? ==> forall i | from <= i < r.value :: Accepted(uploads[i].filename)
    decreases |uploads| - from
  {
    if from == |uploads| then None
    else if !Accepted(uploads[from].filename) then Some(from)
    else FirstUnsupported(uploads, from + 1)
  }

  /** The checks made before any document is read, in their order: the
      criteria parse, they are not empty, there is a file, and every file name
      ends in ".pdf" or ".docx" in any case. The first check that fails
      decides the 400 response; the criteria value when all pass. */
  function Validate(input: CriteriaInput, uploads: seq<Upload>): (r: Result<Value, HttpError>)
    ensures r.Success? <==>
              ParseCriteria(input).Success? && Truthy(ParseCriteria(input).value) && |uploads| > 0 &&
              forall i | 0 <= i < |uploads| :: Accepted(uploads[i].filename)
    ensures r.Success? ==> r.value == ParseCriteria(input).value
    ensures r.Failure? ==> r.error.status == 400
    ensures ParseCriteria(input).Failure? ==> r.error.detail == ParseCriteria(input).error.Message()
    ensures ParseCriteria(input).Success? && !Truthy(ParseCriteria(input).value) ==>
              r.error.detail == NoCriteriaDetail
    ensures ParseCriteria(input).Success? && Truthy(ParseCriteria(input).value) && |uploads| == 0 ==>
              r.error.detail == NoFilesDetail
    ensures ParseCriteria(input).Success? && Truthy(ParseCriteria(input).value) && r.Failure? && |uploads| > 0 ==>
              exists i | 0 <= i < |uploads| ::
                && !Accepted(uploads[i].filename)
                && (forall j | 0 <= j < i :: Accepted(uploads[j].filename))
                && r.error.detail == UnsupportedFormatDetail(uploads[i].filename)
  {
    match ParseCriteria(input)
    case Failure(e) => Failure(HttpError(400, e.Message()))
    case Success(criteria) =>
      if !Truthy(criteria) then Failure(HttpError(400, NoCriteriaDetail))
      else if |uploads| == 0 then Failure(HttpError(400, NoFilesDetail))
      else match FirstUnsupported(uploads, 0)
        case Some(i) => Failure(HttpError(400, UnsupportedFormatDetail(uploads[i].filename)))
        case None => Success(criteria)
  }

  /** The response once the loop has run: a 400 listing every error when no
      row was built, otherwise the sheet of the rows. */
  function Respond(o: Outcome): (r: Result<Sheet, HttpError>)
    ensures r.Success? <==> |o.rows| > 0
    ensures r.Failure? ==> r.error == HttpError(400, AllFailedPrefix + Join(o.errors, "; "))
    ensures r.Success? ==> r.value.rows == o.rows && |r.value.widths| == |r.value.columns|
    ensures r.Success? ==> forall i | 0 <= i < |r.value.columns| :: r.value.widths[i] >= |r.value.columns[i]| + 2
  {
    if |o.rows| == 0 then Failure(HttpError(400, AllFailedPrefix + Join(o.errors, "; ")))
    else
      var columns := Layout(FrameColumns(o.rows));
      Success(Sheet(columns, o.rows, SheetWidths(columns, o.rows)))
  }

  /** The `/score-resumes` endpoint. */
  function ScoreResumes(input: CriteriaInput, uploads: seq<Upload>, oracle: Oracle): (r: Result<Sheet, HttpError>)
    ensures Validate(input, uploads).Failure? ==> r == Failure(Validate(input, uploads).error)
    ensures Validate(input, uploads).Success? ==>
              (r.Success? <==> exists i | 0 <= i < |uploads| ::
                                 ProcessUpload(uploads[i], Validate(input, uploads).value, oracle).Success?)
    ensures r.Success? ==> r.value.rows == RunBatch(uploads, ParseCriteria(input).value, oracle).rows
  {
    match Validate(input, uploads)
    case Failure(e) => Failure(e)
    case Success(criteria) => Respond(RunBatch(uploads, criteria, oracle))
  }

  /** A request that fails validation is answered without consulting the
      oracle: any two oracles get the same response. */
  lemma {:induction false} ValidationPrecedesScoring(input: CriteriaInput, uploads: seq<Upload>, oracle1: Oracle, oracle2: Oracle)
    requires Validate(input, uploads).Failure?
    ensures ScoreResumes(input, uploads, oracle1) == ScoreResumes(input, uploads, oracle2)
    ensures ScoreResumes(input, uploads, oracle1).Failure?
  {
  }

  /** One document that is processed is enough for the request to succeed:
      its row is in the sheet however many others fail. */
  lemma {:induction false} PartialFailureTolerated(input: CriteriaInput, uploads: seq<Upload>, oracle: Oracle, i: nat)
    requires Validate(input, uploads).Success?
    requires i < |uploads| && ProcessUpload(uploads[i], ParseCriteria(input).value, oracle).Success?
    ensures ScoreResumes(input, uploads, oracle).Success?
    ensures ProcessUpload(uploads[i], ParseCriteria(input).value, oracle).value
            in ScoreResumes(input, uploads, oracle).value.rows
  {
    var criteria := ParseCriteria(input).value;
    SucceedingRowCollected(uploads, u => ProcessUpload(u, criteria, oracle), i);
    assert ScoreResumes(input, uploads, oracle) == Respond(RunBatch(uploads, criteria, oracle));
  }

  /** When every document fails the response is a 400 whose detail lists one
      message per document, in upload order, each naming its file. */
  lemma {:induction false} AllFailedListsEveryDocument(input: CriteriaInput, uploads: seq<Upload>, oracle: Oracle)
    requires Validate(input, uploads).Success?
    requires forall i | 0 <= i < |uploads| :: ProcessUpload(uploads[i], ParseCriteria(input).value, oracle).Failure?
    ensures var errors := RunBatch(uploads, ParseCriteria(input).value, oracle).errors;
            && ScoreResumes(input, uploads, oracle) == Failure(HttpError(400, AllFailedPrefix + Join(errors, "; ")))
            && |errors| == |uploads|
            && forall i | 0 <= i < |uploads| ::
                 errors[i] == DocumentError(uploads[i].filename,
                                            ProcessUpload(uploads[i], ParseCriteria(input).value, oracle).error)
  {
    var criteria := ParseCriteria(input).value;
    AllFailedErrors(uploads, u => ProcessUpload(u, criteria, oracle));
  }

  /** A file named "*.PDF" passes the up-front check, and extraction then
      refuses it: sent alone it earns the all-failed 400 carrying the
      extraction error's string form. */
  lemma {:induction false} UpperCaseUploadFailsLate(input: CriteriaInput, u: Upload, oracle: Oracle)
    requires ParseCriteria(input).Success? && Truthy(ParseCriteria(input).value)
    requires EndsWith(u.filename, ".PDF")
    ensures Validate(input, [u]).Success?
    ensures ScoreResumes(input, [u], oracle)
            == Failure(HttpError(400, AllFailedPrefix + DocumentError(u.filename, "400: " + UnsupportedTypeDetail)))
  {
    UpperCaseSuffixPassesCheckButNotExtraction(u);
    assert [u][1..] == [];
  }

  // ---------------------------------------------------------------------------
  // The sheet for criteria that mention neither "Score" nor "Explanation"

  /** The criteria value iterates, every criterion can be a key, and none of
      them mentions "Score" or "Explanation". */
  predicate PlainCriteria(criteria: Value) {
    && Iterate(criteria).Success?
    && Stems(Iterate(criteria).value).Success?
    && forall t | t in Stems(Iterate(criteria).value).value :: Plain(t)
  }

  /** The distinct criteria, in order of first appearance. */
  function DistinctStems(criteria: Value): seq<string>
    requires Iterate(criteria).Success? && Stems(Iterate(criteria).value).Success?
  {
    Dedup(Stems(Iterate(criteria).value).value)
  }

  /** Every row of a batch has the same columns, in the same order: the base
      columns, then a score and an explanation column per distinct criterion,
      then the two summary columns. */
  lemma {:induction false} RowsUniform(uploads: seq<Upload>, criteria: Value, oracle: Oracle)
    requires Iterate(criteria).Success? && Stems(Iterate(criteria).value).Success?
    ensures forall r | 0 <= r < |RunBatch(uploads, criteria, oracle).rows| ::
              Keys(RunBatch(uploads, criteria, oracle).rows[r]) == RowLayout(DistinctStems(criteria))
  {
    var step: Step := u => ProcessUpload(u, criteria, oracle);
    var rows := RunBatch(uploads, criteria, oracle).rows;
    RowsInUploadOrder(uploads, step, 0);
    assert uploads[0..] == uploads;
    var ix := Where(uploads, step, true, 0);
    forall r | 0 <= r < |rows|
      ensures Keys(rows[r]) == RowLayout(DistinctStems(criteria))
    {
      ProcessedRowColumns(uploads[ix[r]], criteria, oracle);
    }
  }

  /** With plain criteria the frame built from a run's rows has exactly the
      columns every row has, none repeated. */
  lemma {:induction false} FrameOfPlainRun(uploads: seq<Upload>, criteria: Value, oracle: Oracle)
    requires PlainCriteria(criteria)
    requires |RunBatch(uploads, criteria, oracle).rows| > 0
    ensures FrameColumns(RunBatch(uploads, criteria, oracle).rows) == RowLayout(DistinctStems(criteria))
    ensures NoDuplicates(RowLayout(DistinctStems(criteria)))
    ensures forall i | 0 <= i < |DistinctStems(criteria)| :: Plain(DistinctStems(criteria)[i])
  {
    var rows := RunBatch(uploads, criteria, oracle).rows;
    var stems := DistinctStems(criteria);
    assert forall r | 0 <= r < |rows| :: Keys(rows[r]) == RowLayout(stems) by {
      RowsUniform(uploads, criteria, oracle);
    }
    assert NoDuplicates(Keys(rows[0])) by {
      KeysDistinct(rows[0]);
    }
    FrameOfUniformRows(rows, RowLayout(stems));
    DistinctStemsPlain(criteria);
  }

  lemma DistinctStemsPlain(criteria: Value)
    requires PlainCriteria(criteria)
    ensures forall i | 0 <= i < |DistinctStems(criteria)| :: Plain(DistinctStems(criteria)[i])
  {
    var stems := DistinctStems(criteria);
    DedupFacts(Stems(Iterate(criteria).value).value);
    assert forall i | 0 <= i < |stems| :: stems[i] in Stems(Iterate(criteria).value).value;
  }

  /** The sheet for plain criteria with distinct stems `stems`: it has rows;
      it lists the base columns, every score column, the total and the
      average, then every explanation column; it writes each column of the
      rows exactly once; and each column is wide enough for every one of its
      cells. */
  predicate PlainSheet(sheet: Sheet, stems: seq<string>) {
    && |sheet.rows| > 0
    && sheet.columns == BaseColumns + ScoreColumns(stems) + SummaryColumns + ExplanationColumns(stems)
    && multiset(sheet.columns) == multiset(Keys(sheet.rows[0]))
    && NoDuplicates(sheet.columns)
    && |sheet.widths| == |sheet.columns|
    && forall c, r | 0 <= c < |sheet.columns| && 0 <= r < |sheet.rows| ::
         sheet.widths[c] >= |CellText(Get(sheet.rows[r], sheet.columns[c]))| + 2
  }

  /** The sheet written for rows that all carry the columns of the same plain
      criteria has the plain layout. */
  lemma {:induction false} SheetOfUniformRows(rows: seq<Row>, stems: seq<string>)
    requires forall i | 0 <= i < |stems| :: Plain(stems[i])
    requires FrameColumns(rows) == RowLayout(stems) && NoDuplicates(RowLayout(stems))
    requires |rows| > 0 && Keys(rows[0]) == RowLayout(stems)
    ensures var columns := Layout(FrameColumns(rows));
            PlainSheet(Sheet(columns, rows, SheetWidths(columns, rows)), stems)
  {
    var columns := Layout(RowLayout(stems));
    LayoutOfRowColumns(stems);
    LayoutPermutesRowColumns(stems);
    DistinctPermutation(RowLayout(stems), columns);
    WidthsFitCells(columns, rows);
  }

  /** With plain criteria every row has the same columns, so the sheet of a
      successful response has the plain layout. */
  lemma {:induction false} SheetOfPlainCriteria(input: CriteriaInput, uploads: seq<Upload>, oracle: Oracle)
    requires ScoreResumes(input, uploads, oracle).Success?
    requires PlainCriteria(ParseCriteria(input).value)
    ensures PlainSheet(ScoreResumes(input, uploads, oracle).value, DistinctStems(ParseCriteria(input).value))
  {
    var criteria := ParseCriteria(input).value;
    assert ScoreResumes(input, uploads, oracle) == Respond(RunBatch(uploads, criteria, oracle));
    SheetOfPlainRun(uploads, criteria, oracle);
  }

  /** The response to a run with plain criteria and at least one row. */
  lemma {:induction false} SheetOfPlainRun(uploads: seq<Upload>, criteria: Value, oracle: Oracle)
    requires PlainCriteria(criteria)
    requires |RunBatch(uploads, criteria, oracle).rows| > 0
    ensures Respond(RunBatch(uploads, criteria, oracle)).Success?
    ensures PlainSheet(Respond(RunBatch(uploads, criteria, oracle)).value, DistinctStems(criteria))
  {
    var rows := RunBatch(uploads, criteria, oracle).rows;
    var stems := DistinctStems(criteria);
    var columns := Layout(FrameColumns(rows));
    assert Respond(RunBatch(uploads, criteria, oracle)).value == Sheet(columns, rows, SheetWidths(columns, rows));
    FrameOfPlainRun(uploads, criteria, oracle);
    RowsUniform(uploads, criteria, oracle);
    SheetOfUniformRows(rows, stems);
  }

  // ---------------------------------------------------------------------------
  // extract_criteria

  /** What the criteria-extraction oracle does with a document's text: the
      decoded JSON of its reply, or the message of the exception the call or
      the decoding raised. */
  datatype Reply = Replied(content: Value) | CallFailed(cause: string)

  const FileErrorPrefix := "Error processing file: "
  const OracleErrorPrefix := "OpenAI API error: "

  /** The `/extract-criteria` endpoint: a 400 for an unknown suffix, a 500 for
      a decoder failure or a failing or malformed reply, otherwise the list
      stored under "criteria" (empty when there is none or it is no list). */
  function ExtractCriteria(u: Upload, ask: string -> Reply): (r: Result<seq<Value>, HttpError>)
    ensures ExtractText(u) == Failure(UnsupportedType) <==> r == Failure(HttpError(400, UnsupportedTypeDetail))
    ensures ExtractText(u).Failure? && ExtractText(u).error.DecodeFailed? ==>
              r == Failure(HttpError(500, FileErrorPrefix + ExtractText(u).error.cause))
    ensures ExtractText(u).Success? && ask(ExtractText(u).value).CallFailed? ==>
              r == Failure(HttpError(500, OracleErrorPrefix + ask(ExtractText(u).value).cause))
    ensures r.Success? <==> ExtractText(u).Success? && ask(ExtractText(u).value).Replied? &&
                            ask(ExtractText(u).value).content.Object?
    ensures r.Success? ==> r.value == CriteriaFromReply(ask(ExtractText(u).value).content).value
  {
    match ExtractText(u)
    case Failure(UnsupportedType) => Failure(HttpError(400, UnsupportedTypeDetail))
    case Failure(DecodeFailed(cause)) => Failure(HttpError(500, FileErrorPrefix + cause))
    case Success(text) =>
      match ask(text)
      case CallFailed(cause) => Failure(HttpError(500, OracleErrorPrefix + cause))
      case Replied(content) =>
        match CriteriaFromReply(content)
        case Failure(message) => Failure(HttpError(500, OracleErrorPrefix + message))
        case Success(items) => Success(items)
  }

  /** The response body `{"criteria": items}`. */
  function CriteriaResponse(items: seq<Value>): Value {
    Object([("criteria", List(items))])
  }

  /** The extracted criteria, sent back to `/score-resumes` as JSON text, are
      read back unchanged; they pass the emptiness check exactly when at
      least one criterion was extracted. */
  lemma {:induction false} ExtractedCriteriaFeedScoring(u: Upload, ask: string -> Reply, uploads: seq<Upload>)
    requires ExtractCriteria(u, ask).Success?
    ensures var items := ExtractCriteria(u, ask).value;
            && ParseCriteria(JsonText(Success(CriteriaResponse(items)))) == Success(List(items))
            && ((Validate(JsonText(Success(CriteriaResponse(items))), uploads)
                 == Failure(HttpError(400, NoCriteriaDetail))) <==> |items| == 0)
  {
    var items := ExtractCriteria(u, ask).value;
    var response := CriteriaResponse(items);
    assert Get(response.fields, "criteria") == Some(List(items));
  }

  /** Extraction does not forgive an upper-case suffix either: such a file is
      refused with the 400 for an unsupported type. */
  lemma UpperCaseDescriptionRefused(u: Upload, ask: string -> Reply)
    requires EndsWith(u.filename, ".PDF")
    ensures ExtractCriteria(u, ask) == Failure(HttpError(400, UnsupportedTypeDetail))
  {
    UpperCaseSuffixPassesCheckButNotExtraction(u);
  }
}
