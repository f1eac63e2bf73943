# Resume Ranking API — a Dafny model of its decision logic

The Resume Ranking API is a small FastAPI service in one file, `main.py`. It has two endpoints:

- `/extract-criteria` turns a job description (PDF or DOCX) into a list of ranking criteria by asking a language model.
- `/score-resumes` takes such criteria and a batch of resumes. For each resume it:
  - extracts the text;
  - asks the language model for a name, a score per criterion and an explanation per criterion;
  - builds one spreadsheet row.

  It then writes all rows to an Excel sheet. The sheet's columns are reordered and each column's width is set from its longest cell.

This project models the deterministic part of that service as pure Dafny functions and proves what it guarantees.

| module | file | what it models |
|---|---|---|
| `Wrappers` | `wrappers.dfy` | `Option` and `Result` |
| `Text` | `text.dfy` | string helpers: suffix tests, ASCII lower-casing, substring search, `join`/`split`, integer printing |
| `Dicts` | `dicts.dfy` | Python's insertion-ordered `dict` with string keys: lookup, assignment, `sum(d.values())` |
| `Json` | `json.dfy` | decoded JSON values, Python truthiness, type names |
| `Criteria` | `criteria.dfy` | `parse_criteria`, and the post-processing of the extraction oracle's reply |
| `Extraction` | `extraction.dfy` | `extract_text_from_file`, and the case-insensitive up-front filename check |
| `Rows` | `rows.dfy` | one spreadsheet row: base cells, default-filled criterion cells, total and average |
| `Batch` | `batch.dfy` | the loop over the uploads: one row or one error message per upload |
| `Report` | `report.dfy` | the DataFrame's columns, the Score/Explanation reordering, column widths |
| `Api` | `api.dfy` | the two endpoints: validation order, the all-failed error, the written sheet |

The model makes these choices:

- **External calls are parameters.**
  - The PDF and DOCX decoders are an upload's `pdfPages` and `docxParagraphs` fields. Each holds the decoded page or paragraph texts, or the decoder's error message.
  - The scoring oracle is a function from the document text and the criteria to an `Evaluation`. An `Evaluation` is either the optional `name`, `scores` and `explanations` of the reply, or the message of the exception it raised.
  - The extraction oracle is a function from the text to a `Reply`.
- **`json.loads` is not modelled.** A JSON-text criteria input carries what the decoder made of it: a value or an error message.
- **A dict is a list of distinct keys, in insertion order.** So the column order that pandas derives from the rows is modelled exactly.

## Model

| member | source | states |
|---|---|---|
| Criteria.ParseCriteria | main.py:25-47 | JSON text that decodes to an object with a "criteria" key yields exactly the value under that key, whatever its type. The same holds for a dict input. A typed response yields its own list. Undecodable text fails with "Invalid JSON format: " plus the decoder's message. Other decoded text fails with the missing-key message. A dict without the key, or any other shape, fails with its own message under "Error parsing criteria: ". |
| Criteria.CriteriaRoundTrip | main.py:27-39 | `{"criteria": xs}`, given in any of the three accepted shapes, normalises back to exactly `xs`, in order |
| Criteria.MissingKeyRejected | main.py:29-31 | decoded text that is not an object, or is an object without "criteria", is always refused with the missing-key message |
| Criteria.CriteriaFromReply | main.py:105-108 | a non-object reply fails with Python's "no attribute 'get'" message; an object reply yields the items of its "criteria" list when there is one, and any non-empty result is that list |
| Criteria.NonListCriteriaBecomeEmpty | main.py:106-108 | a reply whose "criteria" is absent or not a list yields no criteria, not an error |
| Extraction.ExtractText | main.py:49-59 | it is refused as an unsupported type exactly when the name ends, case-sensitively, in neither ".pdf" nor ".docx"; any other failure is the chosen decoder's own error; a success comes from the decoder the suffix picks |
| Extraction.PdfTextConcatenatesPages | main.py:51-53 | a PDF's text is its pages' texts written one after another, in page order, with nothing between them; its length is the sum of theirs |
| Extraction.Accepted | main.py:164-165 | no contract of its own: the case-insensitive suffix test of the up-front check; its properties are stated by Extraction.ExtractableIsAccepted, Extraction.UpperCaseSuffixPassesCheckButNotExtraction and Api.FirstUnsupported |
| Extraction.DocxTextShape | main.py:54-56 | a DOCX's text of n ≥ 1 paragraphs has their total length plus n−1 newlines, and splitting it at newlines gives back the paragraphs when none of them contains one |
| Extraction.ExtractableIsAccepted | main.py:164-165 | every name extraction can dispatch on also passes the case-insensitive up-front check |
| Extraction.UpperCaseSuffixPassesCheckButNotExtraction | main.py:164-176 | a name ending in ".PDF" passes the up-front check and is then refused by extraction |
| Text.JoinEmptyLength | main.py:53 | joining with the empty separator keeps exactly the characters of the parts |
| Text.JoinEmptyIsConcat | main.py:53 | joining with the empty separator equals the independently defined right fold `Concat` of the parts |
| Text.ConcatSlices | main.py:53 | in a concatenation, part i occupies exactly the positions from the total length of the parts before it to that total plus its own length |
| Text.JoinCharLength | main.py:56 | joining n ≥ 1 parts with a one-character separator adds exactly n−1 characters |
| Text.SplitJoin | main.py:56 | splitting a join at its separator character recovers the parts when no part contains that character |
| Dicts.Get | main.py:185-190 | `d.get(k)` finds a value exactly when `k` is a key, and the value found is stored under `k` |
| Dicts.SetEntries | main.py:189-190 | after `d[k] = v`: `k` reads `v`; every other key reads as before; the key order is unchanged when `k` was present, and otherwise `k` is appended |
| Dicts.SetReads | main.py:189-190 | assignment on a dict with distinct keys: the assigned key reads the new value and every other key is untouched |
| Dicts.SetTwoKeys | main.py:189-193 | two assignments to distinct keys that are both new append both, in order; if both are present the key order is unchanged |
| Dicts.SumCovered | main.py:192 | when every key of the score dict is among duplicate-free criteria, the sum of its values equals the sum over the criteria with 0 for a missing score |
| Rows.Iterate | main.py:188 | a list visits exactly its items; a string visits one one-character string per character, in order; a dict visits its keys in insertion order. So the number visited is the value's `len`, which is the average's denominator. Any other value fails with Python's "not iterable" message. The loop visits something exactly when the criteria are truthy |
| Rows.Stem | main.py:189-190 | the column name `f"{criterion}"` gives each criterion: a string is its own name; a list or dict fails with "unhashable type: 'list'" or "unhashable type: 'dict'", as `scores.get` raises on it, and nothing else fails |
| Rows.StemNames | main.py:189-190 | the names the other hashable criteria get: an integer its decimal digits, a boolean "True" or "False", null "None" |
| Rows.Stems | main.py:188-190 | the names of all criteria, one per criterion and in order. They exist exactly when every criterion is hashable; otherwise the failure is that of the first unhashable criterion, where the loop stops |
| Rows.StemsOfStrings | main.py:189-190 | for string criteria, the column stems are the criteria themselves |
| Rows.Hundredths | main.py:193 | the average, in hundredths, is the nearest hundredth to total/count, with ties going to the even hundredth |
| Rows.HundredthsUnique | main.py:193 | any hundredth that is nearest to total/count, with ties to even, is the one `Hundredths` picks |
| Rows.SummaryCells | main.py:192-193 | the summary step sets "Total Score" to the total and "Average Score" to its rounded average, and leaves every other cell alone |
| Rows.Fill | main.py:188-190 | no contract of its own: the loop over the criteria; its properties are stated by Rows.FillSucceeds, Rows.FillKeys, Rows.FillFrame, Rows.FillOutside, Rows.FillCells, Rows.UnambiguousCells and Rows.FillStrings |
| Rows.FillSucceeds | main.py:188-190 | the criterion loop completes exactly when every criterion can be a dict key; otherwise it fails with the first unhashable criterion's error |
| Rows.FillKeys | main.py:188-190 | the loop appends one score column and one explanation column per new distinct criterion, in first-appearance order; a repeated criterion adds no column |
| Rows.FillFrame | main.py:188-190 | the loop changes no cell outside the criterion columns |
| Rows.FillOutside | main.py:188-190 | for any hashable criteria, the loop changes no cell except the score and explanation columns of the criteria's names |
| Rows.FillCells | main.py:188-190 | for any hashable criteria, the last criterion with a given name decides that name's cells: its score cell holds `scores.get(criterion, 0)`, which is 0 for a criterion that is not a string, and its explanation cell `explanations.get(criterion, "No explanation provided")`; an earlier criterion with the same name is overwritten |
| Rows.UnambiguousCells | main.py:188-190 | when criteria that share a name are equal, every criterion's two cells hold its own score and explanation, with the defaults |
| Rows.FillStrings | main.py:188-190 | for string criteria, each criterion's score cell holds the oracle's score for it or 0, and its explanation cell the oracle's explanation or "No explanation provided" |
| Rows.ColumnPairsMembership | main.py:189-190 | a criterion column exists for `t` exactly when `t` is among the criteria |
| Rows.BuildRow | main.py:180-193 | no contract of its own: the whole row; its properties are stated by Rows.RowColumns, Rows.RowDefaults, Rows.RowDefaultsOfStrings, Rows.RowTotals, Rows.ExtraOracleKeysDropped, Rows.TotalMatchesRowScores and Rows.CollidingStemsOverwrite |
| Rows.RowColumns | main.py:180-193 | a row is built exactly when the criteria are non-empty and all hashable. Its keys are then "Filename", "Candidate Name", one score and one explanation column per distinct criterion name, "Total Score" and "Average Score", in that order. Otherwise it fails with the first unhashable criterion's error, or with "division by zero" for no criteria |
| Rows.RowDefaults | main.py:180-190 | for any hashable criteria, the row holds the filename, the oracle's name or "Unknown", and, for the last criterion with each name, its score and explanation with the defaults filled in |
| Rows.RowDefaultsOfStrings | main.py:180-190 | for string criteria, every criterion's score and explanation cell holds the oracle's value or the default |
| Rows.RowTotals | main.py:192-193 | "Total Score" is the sum of every score the oracle returned, extra keys included; "Average Score" is that sum over the number of criteria listed, duplicates counted, rounded to hundredths |
| Rows.ExtraOracleKeysDropped | main.py:188-190 | a key the oracle scored or explained but that is not a criterion never becomes a column |
| Rows.TotalMatchesRowScores | main.py:189-192 | when the oracle scores only string criteria and no two different criteria share a name, the total equals the sum of the row's score cells, one per distinct name |
| Rows.CollidingStemsOverwrite | main.py:189-192 | criteria `"1"` and `1` share the column "1 (Score)": the integer criterion overwrites it with 0 while the total stays the oracle's 5 |
| Batch.ProcessUpload | main.py:175-198 | extraction failures give their own message, with an unsupported suffix printed as "400: …". Oracle failures give the "Error evaluating resume: " message. After both succeed, non-iterable criteria give the "not iterable" message, an unhashable criterion the first such criterion's "unhashable type" message, and empty criteria "division by zero". A row is produced exactly when none of these happens, and it carries the upload's filename |
| Batch.ProcessedRowColumns | main.py:180-195 | every appended row has the columns of the distinct criteria, in the fixed order |
| Batch.Collect | main.py:171-199 | every upload contributes exactly one row or one error, and no row is collected exactly when every upload fails |
| Batch.RunBatch | main.py:174-199 | the scoring loop's rows and errors number the uploads; it has no rows exactly when every upload fails |
| Batch.BatchSplit | main.py:174-199 | processing a batch in two parts and concatenating the outcomes gives the outcome of the whole: no upload depends on another |
| Batch.ExtractFailure | main.py:176-198 | no contract of its own: `str(e)` of an extraction failure, "400: " plus the detail for the HTTP error; used by Batch.ProcessUpload, whose contract states it, and by Api.UpperCaseUploadFailsLate |
| Batch.DocumentError | main.py:198 | no contract of its own: the per-upload message "Error processing <name>: <cause>"; Batch.FailureIsLocal, Batch.ErrorsInUploadOrder and Batch.AllFailedErrors state where it appears |
| Batch.FailureIsLocal | main.py:197-199 | a failing upload adds exactly its "Error processing <name>: <cause>" message at its place and changes no row |
| Batch.RowsInUploadOrder | main.py:174-195 | the rows are exactly the rows of the succeeding uploads, in upload order |
| Batch.ErrorsInUploadOrder | main.py:197-198 | the errors are exactly the messages of the failing uploads, in upload order |
| Batch.SucceedingRowCollected | main.py:195 | the row of every succeeding upload is among the collected rows |
| Batch.AllFailedErrors | main.py:197-198 | when every upload fails, there is one error per upload, in order, naming that upload |
| Report.FrameColumns | main.py:207 | no contract of its own: the DataFrame's columns; Report.FrameColumnsFacts and Report.FrameOfUniformRows state them |
| Report.FrameColumnsFacts | main.py:207 | the frame has a column for exactly the keys that some row has, and no column twice |
| Report.FrameOfUniformRows | main.py:207 | when all rows have the same duplicate-free keys, the frame's columns are exactly those keys |
| Report.FilterMembership | main.py:209-210 | the comprehension keeps exactly the columns containing the word |
| Report.Filter | main.py:209-210 | the list comprehension; its contract only bounds the length; Report.FilterMembership, Report.FilterAppend and Report.CountFilter state what it keeps |
| Report.CountFilter | main.py:209-210 | the filter keeps every copy of a column mentioning the word and no copy of any other column |
| Report.FilterAppend | main.py:209-210 | filtering distributes over concatenation, so the relative order is preserved |
| Report.LayoutOfRowColumns | main.py:209-213 | for criteria mentioning neither "Score" nor "Explanation", the sheet lists the base columns, every score column, the total and the average, then every explanation column |
| Report.LayoutPermutesRowColumns | main.py:209-213 | for such criteria, the written columns are a permutation of the row's columns |
| Report.Layout | main.py:209-213 | no contract of its own: base columns, then the two filters; Report.LayoutOfRowColumns, Report.LayoutPermutesRowColumns and Report.WordInCriterionRepeatsColumn state the result |
| Report.WordInCriterionRepeatsColumn | main.py:209-213 | the explanation column of a criterion containing "Score", and the score column of a criterion containing "Explanation", pass both filters: the sheet writes it twice for each time the criterion is listed, so exactly twice when the criteria are distinct, and the written columns contain a repeat |
| Report.CellText | main.py:222 | no contract of its own: `astype(str)` of a cell, "nan" for a missing one; Report.WidthsFitCells and Report.WidthsAreTight state the widths over these texts |
| Report.MaxLen | main.py:221-222 | the length of the longest text: no text is longer, and one text has exactly that length |
| Report.Width | main.py:220-225 | a column's width is at least its header's length + 2 and at least every cell's length + 2, and it equals one of these |
| Report.ColumnWidth | main.py:220-225 | the loop computes that width |
| Report.SheetWidths | main.py:220-225 | there is one width per written column, each at least the header's length + 2 |
| Report.ComputeWidths | main.py:220-225 | the loop over the written columns computes those widths |
| Report.SingleColumnWidth | main.py:220-225 | a column written once gets the width of its header and its cells' texts |
| Report.WidthsFitCells | main.py:220-225 | with no repeated column, every cell's text fits in its column with two to spare |
| Report.WidthsAreTight | main.py:220-225 | with no repeated column, each width comes from the header or from some cell, and is no wider than needed |
| Json.Truthy | main.py:156 | no contract of its own: Python truthiness behind `if not criteria_list`; Rows.Iterate and Api.Validate state its role |
| Api.FirstUnsupported | main.py:164-169 | finds the first upload whose lower-cased name ends in neither ".pdf" nor ".docx"; all uploads before it pass |
| Api.Validate | main.py:154-169 | the checks run in source order: a criteria parse error (as its message), then empty criteria, then no files, then the first unsupported name. Every rejection is a 400. Validation passes exactly when none applies |
| Api.Respond | main.py:201-225 | no rows gives the 400 listing every error joined by "; "; otherwise the sheet holds the rows and one width per column, each at least header + 2 |
| Api.ScoreResumes | main.py:149-233 | a validation failure is the response. Otherwise the call succeeds exactly when at least one upload yields a row, and the sheet holds the batch's rows |
| Api.ValidationPrecedesScoring | main.py:154-174 | a rejected request fails before any document is processed: the oracle cannot affect the response |
| Api.PartialFailureTolerated | main.py:174-201 | one succeeding upload is enough for the call to succeed, and its row is in the sheet, whatever the others did |
| Api.AllFailedListsEveryDocument | main.py:197-205 | when every upload fails, the call fails with a 400 listing one message per upload, in order |
| Api.UpperCaseUploadFailsLate | main.py:164-205 | a single "X.PDF" upload passes validation and then fails the batch, with the per-document unsupported-type error |
| Api.RowsUniform | main.py:180-195 | every row of a batch has the same columns in the same order |
| Api.FrameOfPlainRun | main.py:207 | for plain criteria, the frame's columns are one row's columns, with no repeats |
| Api.SheetOfUniformRows | main.py:207-225 | rows with the columns of plain criteria give the plain layout. That layout is a permutation of the row's keys, repeats nothing, and every cell fits its column |
| Api.SheetOfPlainRun | main.py:207-225 | a batch over plain criteria with at least one row produces that plain sheet |
| Api.SheetOfPlainCriteria | main.py:149-225 | a successful call with plain criteria writes base, score, summary, then explanation columns; every cell fits its width |
| Api.ExtractCriteria | main.py:61-111 | An unsupported suffix is a 400. A decoder failure is a 500 "Error processing file: …". A failing oracle call is a 500 "OpenAI API error: …". The call succeeds exactly when the reply is a JSON object, and it then returns the reply's criteria list |
| Api.ExtractedCriteriaFeedScoring | main.py:105-109 | extracted criteria, sent back to `/score-resumes` as JSON text, are read back unchanged; they are refused as empty exactly when none were extracted |
| Api.UpperCaseDescriptionRefused | main.py:61-68 | a job description named "X.PDF" is refused with the unsupported-type 400 |

## Left out

- PDF and DOCX decoding (PyPDF2, python-docx): the decoded texts or the decoder's error are given with each upload.
- The OpenAI calls and their prompts: each oracle call is a function parameter whose result is given.
- `json.loads`: a JSON-text criteria input carries the decoded value or the decoder's message.
  - JSON floats are not among the modelled values.
  - An oracle reply whose `scores` or `explanations` is not a dict of integers or strings is not modelled. The model's `Evaluation` has no such case.
  - An oracle reply that is not a JSON object is not modelled. Python fails on `result.get` outside the oracle, so the message lacks the "Error evaluating resume: " prefix; the model's `Evaluation` has no such case.
  - A "name" that is present but not a string (null, say) is not modelled. Python writes that value into the "Candidate Name" cell instead of "Unknown"; the model's `name` is a string or absent.
- Writing the workbook (xlsxwriter, the "Resume Scores" sheet name, `StreamingResponse`) and the timestamped download filename, which depends on the clock. The model stops at the written sheet's columns, rows and widths.
- FastAPI's request parsing and its validation of the `/extract-criteria` response against `List[str]`. `Api.ExtractCriteria` returns the list as the handler builds it.
- Rows.Hundredths: rounds the exact quotient to the nearest hundredth with ties to even. Python's `round` on the binary float can differ when the quotient is not representable; float arithmetic is not modelled.
- Report.DecimalText: prints an average as Python prints its float, only for averages written with at most two decimals. Exponent notation and `-0.0` are not modelled.
- Text.Lower: lower-cases ASCII letters only; Python's `str.lower` also maps non-ASCII letters.
- Concurrency: the source processes uploads one after another, and so does the model.

Five behaviours of the code that a reader might not expect, all modelled as the code has them:

- "Total Score" is the sum of every score the oracle returned, including keys that are not criteria. It is not the sum of the row's score cells; `Rows.TotalMatchesRowScores` gives the case where the two agree.
- When at least one upload succeeds, the per-upload error messages are discarded, not returned with the sheet.
- Criteria are column names through `f"{criterion}"`, so `1` and `"1"` share the columns "1 (Score)" and "1 (Explanation)". The later one's cells win, and a non-string criterion never matches the oracle's string keys, so its score is 0.
- The up-front filename check is case-insensitive, but extraction is case-sensitive. An upper-case suffix therefore passes validation and then fails as a per-document error, printed as "400: Unsupported file type. …".
- A criterion whose text contains "Score" puts its explanation column into the sheet twice, and one whose text contains "Explanation" does the same with its score column. Selecting such a column yields both copies at once, so its width is the larger of the number of rows and the header length, plus two. `Report.SheetWidths` models this; the other width lemmas assume no repeated column.
