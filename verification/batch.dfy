/** The per-document loop of `score_resumes` (main.py:171-205): every upload
    is extracted, scored by the oracle and turned into a row; any failure is
    recorded as an error message and the loop moves on to the next upload. */
module Batch {
  import opened Wrappers
  import opened Text
  import opened Seqs
  import opened Dicts
  import opened Json
  import opened Extraction
  import opened Rows

  /** The scoring oracle (`evaluate_resume`): given a document's text and the
      criteria value, the fields of its JSON verdict or the error it raised. */
  type Oracle = (string, Value) -> Evaluation

  /** `str(e)` for the exception the loop body raised while extracting: the
      `HTTPException` for an unknown suffix prints as "status: detail". */
  function ExtractFailure(e: ExtractError): string {
    match e
    case UnsupportedType => "400: " + UnsupportedTypeDetail
    case DecodeFailed(cause) => cause
  }

  const EvaluationPrefix := "Error evaluating resume: "

  /** The loop body for one upload: the row it appends, or `str(e)` of what it
      raised. */
  function ProcessUpload(u: Upload, criteria: Value, oracle: Oracle): (r: Result<Row, string>)
    ensures ExtractText(u).Failure? ==> r == Failure(ExtractFailure(ExtractText(u).error))
    ensures ExtractText(u).Success? && oracle(ExtractText(u).value, criteria).EvaluationFailed? ==>
              r == Failure(EvaluationPrefix + oracle(ExtractText(u).value, criteria).cause)
    ensures ExtractText(u).Success? && oracle(ExtractText(u).value, criteria).Evaluated? ==>
              && (Iterate(criteria).Failure? ==> r == Failure(Iterate(criteria).error))
              && (Iterate(criteria).Success? && Stems(Iterate(criteria).value).Failure? ==>
                    r == Failure(Stems(Iterate(criteria).value).error))
              && (Iterate(criteria).Success? && |Iterate(criteria).value| == 0 ==> r == Failure("division by zero"))
    ensures r.Success? <==>
              && ExtractText(u).Success? && oracle(ExtractText(u).value, criteria).Evaluated?
              && Iterate(criteria).Success? && |Iterate(criteria).value| > 0
              && Stems(Iterate(criteria).value).Success?
    ensures r.Success? ==> Get(r.value, "Filename") == Some(TextCell(u.filename))
  {
    match ExtractText(u)
    case Failure(e) => Failure(ExtractFailure(e))
    case Success(text) =>
      match oracle(text, criteria)
      case EvaluationFailed(cause) => Failure(EvaluationPrefix + cause)
      case Evaluated(name, scores, explanations) =>
        match Iterate(criteria)
        case Failure(e) => Failure(e)
        case Success(items) =>
          var r := BuildRow(u.filename, name, scores.GetOr([]), explanations.GetOr([]), items);
          RowColumns(u.filename, name, scores.GetOr([]), explanations.GetOr([]), items);
          if r.Success? then
            RowFilename(u.filename, name, scores.GetOr([]), explanations.GetOr([]), items);
            r
          else r
  }

  /** Building never touches the filename cell. */
  lemma RowFilename(filename: string, name: Option<string>, scores: Dict<int>,
                    explanations: Dict<string>, items: seq<Value>)
    requires BuildRow(filename, name, scores, explanations, items).Success?
    ensures Get(BuildRow(filename, name, scores, explanations, items).value, "Filename") == Some(TextCell(filename))
  {
    var base := BaseRow(filename, name);
    FillFrame(base, items, scores, explanations);
    PlainNameNotCriterionColumn("Filename");
    SummaryCells(Fill(base, items, scores, explanations).value, SumValues(scores), |items|);
  }

  /** A row the loop body appends has the base columns, then the two columns
      of each distinct criterion, then the total and the average. */
  lemma {:induction false} ProcessedRowColumns(u: Upload, criteria: Value, oracle: Oracle)
    requires ProcessUpload(u, criteria, oracle).Success?
    ensures Iterate(criteria).Success? && Stems(Iterate(criteria).value).Success?
    ensures Keys(ProcessUpload(u, criteria, oracle).value)
            == BaseColumns + ColumnPairs(Dedup(Stems(Iterate(criteria).value).value)) + SummaryColumns
  {
    var ev := oracle(ExtractText(u).value, criteria);
    var items := Iterate(criteria).value;
    var built := BuildRow(u.filename, ev.name, ev.scores.GetOr([]), ev.explanations.GetOr([]), items);
    RowColumns(u.filename, ev.name, ev.scores.GetOr([]), ev.explanations.GetOr([]), items);
    assert built.Success?;
  }

  /** "Error processing <filename>: <cause>". */
  function DocumentError(filename: string, cause: string): string {
    "Error processing " + filename + ": " + cause
  }

  /** What the loop leaves behind: the rows and the error messages, each in
      upload order. */
  datatype Outcome = Outcome(rows: seq<Row>, errors: seq<string>)

  function Merge(a: Outcome, b: Outcome): Outcome {
    Outcome(a.rows + b.rows, a.errors + b.errors)
  }

  /** The loop body as a value: what one upload contributes. */
  type Step = Upload -> Result<Row, string>

  /** The loop over the uploads for any body: one outcome per upload, its row
      or its error message. */
  function Collect(uploads: seq<Upload>, step: Step): (o: Outcome)
    ensures |o.rows| + |o.errors| == |uploads|
    ensures |o.rows| == 0 <==> forall i | 0 <= i < |uploads| :: step(uploads[i]).Failure?
  {
    if |uploads| == 0 then Outcome([], [])
    else
      var rest := Collect(uploads[1..], step);
      assert forall i | 1 <= i < |uploads| :: uploads[i] == uploads[1..][i - 1];
      match step(uploads[0])
      case Success(row) => Outcome([row] + rest.rows, rest.errors)
      case Failure(cause) => Outcome(rest.rows, [DocumentError(uploads[0].filename, cause)] + rest.errors)
  }

  /** `score_resumes`' loop: `Collect` with `ProcessUpload` as its body. */
  function RunBatch(uploads: seq<Upload>, criteria: Value, oracle: Oracle): (o: Outcome)
    ensures |o.rows| + |o.errors| == |uploads|
    ensures |o.rows| == 0 <==> forall i | 0 <= i < |uploads| :: ProcessUpload(uploads[i], criteria, oracle).Failure?
  {
    Collect(uploads, u => ProcessUpload(u, criteria, oracle))
  }

  /** Running the loop over two batches one after the other gives the rows and
      errors of the whole batch: no upload's outcome depends on another. */
  lemma {:induction false} BatchSplit(a: seq<Upload>, b: seq<Upload>, step: Step)
    ensures Collect(a + b, step) == Merge(Collect(a, step), Collect(b, step))
  {
    if |a| == 0 {
      assert a + b == b;
      EmptyOutcome(Collect(b, step));
    } else {
      var ab := a + b;
      assert ab[0] == a[0];
      assert ab[1..] == a[1..] + b;
      BatchSplit(a[1..], b, step);
      var front, back := Collect(a[1..], step), Collect(b, step);
      match step(a[0])
      case Success(row) =>
        Assoc([row], front.rows, back.rows);
      case Failure(cause) =>
        Assoc([DocumentError(a[0].filename, cause)], front.errors, back.errors);
    }
  }

  lemma EmptyOutcome(o: Outcome)
    ensures Merge(Outcome([], []), o) == o
  {
    assert [] + o.rows == o.rows;
    assert [] + o.errors == o.errors;
  }

  /** An upload that fails takes nothing away from the others: the rows are
      those of the batch without it, and only its own message is added. */
  lemma FailureIsLocal(before: seq<Upload>, u: Upload, after: seq<Upload>, step: Step)
    requires step(u).Failure?
    ensures Collect(before + [u] + after, step).rows == Collect(before + after, step).rows
    ensures Collect(before + [u] + after, step).errors
            == Collect(before, step).errors + [DocumentError(u.filename, step(u).error)] + Collect(after, step).errors
  {
    var b, a := Collect(before, step), Collect(after, step);
    var e := DocumentError(u.filename, step(u).error);
    SingleFailure(u, step);
    BatchSplit(before, [u], step);
    var bu := Collect(before + [u], step);
    assert bu.rows == b.rows + [] && bu.errors == b.errors + [e];
    EmptyBack(b.rows);
    BatchSplit(before + [u], after, step);
    BatchSplit(before, after, step);
  }

  /** One failing upload contributes its message and no row. */
  lemma SingleFailure(u: Upload, step: Step)
    requires step(u).Failure?
    ensures Collect([u], step) == Outcome([], [DocumentError(u.filename, step(u).error)])
  {
    assert [u][1..] == [];
    assert [DocumentError(u.filename, step(u).error)] + [] == [DocumentError(u.filename, step(u).error)];
  }

  /** The indices from `from` on of the uploads whose body succeeds (when
      `success` holds) or fails (otherwise), in increasing order. */
  function Where(uploads: seq<Upload>, step: Step, success: bool, from: nat): (ix: seq<nat>)
    requires from <= |uploads|
    ensures forall j | 0 <= j < |ix| :: from <= ix[j] < |uploads| && step(uploads[ix[j]]).Success? == success
    decreases |uploads| - from
  {
    if from == |uploads| then []
    else if step(uploads[from]).Success? == success then [from] + Where(uploads, step, success, from + 1)
    else Where(uploads, step, success, from + 1)
  }

  /** `Where` misses no index from `from` on with the wanted outcome. */
  lemma {:induction false} WhereComplete(uploads: seq<Upload>, step: Step, success: bool, from: nat)
    requires from <= |uploads|
    ensures forall i | from <= i < |uploads| && step(uploads[i]).Success? == success ::
              i in Where(uploads, step, success, from)
    decreases |uploads| - from
  {
    if from < |uploads| {
      WhereComplete(uploads, step, success, from + 1);
    }
  }

  /** `Where` lists the indices in increasing order. */
  lemma {:induction false} WhereSorted(uploads: seq<Upload>, step: Step, success: bool, from: nat)
    requires from <= |uploads|
    ensures forall j, k | 0 <= j < k < |Where(uploads, step, success, from)| ::
              Where(uploads, step, success, from)[j] < Where(uploads, step, success, from)[k]
    decreases |uploads| - from
  {
    if from < |uploads| {
      WhereSorted(uploads, step, success, from + 1);
      var later := Where(uploads, step, success, from + 1);
      if step(uploads[from]).Success? == success {
        var ix := [from] + later;
        forall j | 1 <= j < |ix|
          ensures ix[j] == later[j - 1]
        {
        }
      }
    }
  }

  /** The rows are exactly the rows of the uploads whose body succeeds, in
      upload order. */
  lemma {:induction false} RowsInUploadOrder(uploads: seq<Upload>, step: Step, from: nat)
    requires from <= |uploads|
    ensures var ix := Where(uploads, step, true, from);
            var o := Collect(uploads[from..], step);
            |o.rows| == |ix| && forall j | 0 <= j < |ix| :: o.rows[j] == step(uploads[ix[j]]).value
    decreases |uploads| - from
  {
    if from < |uploads| {
      RowsInUploadOrder(uploads, step, from + 1);
      assert uploads[from..][0] == uploads[from];
      assert uploads[from..][1..] == uploads[from + 1..];
      var later := Where(uploads, step, true, from + 1);
      var rest := Collect(uploads[from + 1..], step);
      if step(uploads[from]).Success? {
        var first := step(uploads[from]).value;
        forall j | 1 <= j < |later| + 1
          ensures ([first] + rest.rows)[j] == step(uploads[([from] + later)[j]]).value
        {
          ConsAt(from, later, j);
          ConsAt(first, rest.rows, j);
        }
      }
    }
  }

  /** The errors name the failing uploads, in upload order, each with the
      message of what its body raised. */
  lemma {:induction false} ErrorsInUploadOrder(uploads: seq<Upload>, step: Step, from: nat)
    requires from <= |uploads|
    ensures var ix := Where(uploads, step, false, from);
            var o := Collect(uploads[from..], step);
            |o.errors| == |ix| &&
            forall j | 0 <= j < |ix| :: o.errors[j] == DocumentError(uploads[ix[j]].filename, step(uploads[ix[j]]).error)
    decreases |uploads| - from
  {
    if from < |uploads| {
      ErrorsInUploadOrder(uploads, step, from + 1);
      assert uploads[from..][0] == uploads[from];
      assert uploads[from..][1..] == uploads[from + 1..];
      var later := Where(uploads, step, false, from + 1);
      var rest := Collect(uploads[from + 1..], step);
      if step(uploads[from]).Failure? {
        var first := DocumentError(uploads[from].filename, step(uploads[from]).error);
        forall j | 1 <= j < |later| + 1
          ensures ([first] + rest.errors)[j]
                  == DocumentError(uploads[([from] + later)[j]].filename, step(uploads[([from] + later)[j]]).error)
        {
          ConsAt(from, later, j);
          ConsAt(first, rest.errors, j);
        }
      }
    }
  }

  /** The row of an upload whose body succeeds is among the rows. */
  lemma {:induction false} SucceedingRowCollected(uploads: seq<Upload>, step: Step, i: nat)
    requires i < |uploads| && step(uploads[i]).Success?
    ensures step(uploads[i]).value in Collect(uploads, step).rows
  {
    if i > 0 {
      assert uploads[1..][i - 1] == uploads[i];
      SucceedingRowCollected(uploads[1..], step, i - 1);
    }
  }

  /** When every upload fails, the errors are one message per upload, in
      upload order. */
  lemma {:induction false} AllFailedErrors(uploads: seq<Upload>, step: Step)
    requires forall i | 0 <= i < |uploads| :: step(uploads[i]).Failure?
    ensures var errors := Collect(uploads, step).errors;
            |errors| == |uploads| &&
            forall i | 0 <= i < |uploads| :: errors[i] == DocumentError(uploads[i].filename, step(uploads[i]).error)
  {
    if |uploads| > 0 {
      assert forall i | 0 <= i < |uploads| - 1 :: uploads[1..][i] == uploads[i + 1];
      AllFailedErrors(uploads[1..], step);
    }
  }
}
