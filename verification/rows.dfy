/** One spreadsheet row per successfully scored document (main.py:180-193):
    the filename, the candidate's name, a score and an explanation column per
    criterion, default-filled where the oracle said nothing, and the total and
    average score. */
module Rows {
  import opened Wrappers
  import opened Text
  import opened Dicts
  import opened Json

  /** A cell: a string, an integer, or the two-decimal float `round` yields,
      held as its number of hundredths. */
  datatype Cell = TextCell(text: string) | IntCell(n: int) | DecimalCell(hundredths: int)

  /** A row is a dict from column name to cell, in insertion order. */
  type Row = Dict<Cell>

  /** What the scoring oracle returned for one document: the optional fields
      of its JSON reply, or the error `evaluate_resume` raised. */
  datatype Evaluation =
    | Evaluated(name: Option<string>, scores: Option<Dict<int>>, explanations: Option<Dict<string>>)
    | EvaluationFailed(cause: string)

  const UnknownName := "Unknown"
  const NoExplanation := "No explanation provided"
  const ScoreSuffix := " (Score)"
  const ExplanationSuffix := " (Explanation)"
  const BaseColumns: seq<string> := ["Filename", "Candidate Name"]
  const SummaryColumns: seq<string> := ["Total Score", "Average Score"]

  // ---------------------------------------------------------------------------
  // Walking the criteria

  /** What `for criterion in criteria_list` visits: the characters of a string,
      the items of a list, the keys of a dict; any other value is not iterable. */
  function Iterate(criteria: Value): (r: Result<seq<Value>, string>)
    ensures r.Success? <==> criteria.Str? || criteria.List? || criteria.Object?
    ensures r.Success? ==> (|r.value| > 0 <==> Truthy(criteria))
    ensures r.Success? && !criteria.List? ==> AllStr(r.value)
    ensures r.Failure? ==> r.error == "'" + TypeName(criteria) + "' object is not iterable"
    ensures criteria.List? ==> r == Success(criteria.items)
    ensures criteria.Str? ==>
              r.Success? && |r.value| == |criteria.s| &&
              forall i | 0 <= i < |criteria.s| :: r.value[i] == Str([criteria.s[i]])
    ensures criteria.Object? ==>
              r.Success? && |r.value| == |criteria.fields| &&
              forall i | 0 <= i < |criteria.fields| :: r.value[i] == Str(Keys(criteria.fields)[i])
  {
    match criteria
    case Str(s) => Success(seq(|s|, i requires 0 <= i < |s| => Str([s[i]])))
    case List(items) => Success(items)
    case Object(fields) => Success(seq(|fields|, i requires 0 <= i < |fields| => Str(fields[i].0)))
    case _ => Failure("'" + TypeName(criteria) + "' object is not iterable")
  }

  predicate AllStr(items: seq<Value>) {
    forall i | 0 <= i < |items| :: items[i].Str?
  }

  function Texts(items: seq<Value>): (ts: seq<string>)
    requires AllStr(items)
    ensures |ts| == |items|
    ensures forall i | 0 <= i < |items| :: ts[i] == items[i].s
  {
    if |items| == 0 then [] else [items[0].s] + Texts(items[1..])
  }

  /** `f"{criterion}"`, or the TypeError `scores.get(criterion, 0)` raises
      first when the criterion is a list or dict. */
  function Stem(c: Value): (r: Result<string, string>)
    ensures r.Failure? <==> c.List? || c.Object?
    ensures r.Failure? ==> r.error == "unhashable type: '" + TypeName(c) + "'"
    ensures c.Str? ==> r == Success(c.s)
  {
    match c
    case Null => Success("None")
    case Bool(b) => Success(if b then "True" else "False")
    case Int(i) => Success(IntToString(i))
    case Str(s) => Success(s)
    case List(_) => Failure("unhashable type: 'list'")
    case Object(_) => Failure("unhashable type: 'dict'")
  }

  /** The names `f"{criterion}"` gives the other hashable criteria: an
      integer's decimal digits, "True" or "False", and "None" for null. */
  lemma StemNames(c: Value)
    ensures c.Int? ==> Stem(c) == Success(IntToString(c.i))
    ensures c.Bool? ==> Stem(c) == Success(if c.b then "True" else "False")
    ensures c.Null? ==> Stem(c) == Success("None")
  {
  }

  /** The stems of all criteria, or the first failure. */
  function Stems(items: seq<Value>): (r: Result<seq<string>, string>)
    ensures r.Success? ==> |r.value| == |items|
    ensures r.Success? <==> forall i | 0 <= i < |items| :: Stem(items[i]).Success?
    ensures r.Success? ==> forall i | 0 <= i < |items| :: r.value[i] == Stem(items[i]).value
    ensures r.Failure? ==> exists i | 0 <= i < |items| :: FirstUnhashable(items, i, r.error)
  {
    if |items| == 0 then Success([])
    else match Stem(items[0])
      case Failure(e) =>
        assert FirstUnhashable(items, 0, e);
        Failure(e)
      case Success(t) =>
        match Stems(items[1..])
        case Failure(e) =>
          var i :| 0 <= i < |items[1..]| && FirstUnhashable(items[1..], i, e);
          assert FirstUnhashable(items, i + 1, e);
          Failure(e)
        case Success(rest) => Success([t] + rest)
  }

  /** Criterion `i` is the first that has no stem, and fails with `e`. */
  predicate FirstUnhashable(items: seq<Value>, i: int, e: string)
    requires 0 <= i < |items|
  {
    Stem(items[i]) == Failure(e) && forall j | 0 <= j < i :: Stem(items[j]).Success?
  }

  lemma {:induction false} StemsOfStrings(items: seq<Value>)
    requires AllStr(items)
    ensures Stems(items) == Success(Texts(items))
  {
    if |items| > 0 {
      StemsOfStrings(items[1..]);
    }
  }

  /** `scores.get(criterion, 0)`: only a string criterion can match a key. */
  function ScoreFor(c: Value, scores: Dict<int>): int {
    if c.Str? then Get(scores, c.s).GetOr(0) else 0
  }

  /** `explanations.get(criterion, "No explanation provided")`. */
  function ExplanationFor(c: Value, explanations: Dict<string>): string {
    if c.Str? then Get(explanations, c.s).GetOr(NoExplanation) else NoExplanation
  }

  // ---------------------------------------------------------------------------
  // Building the row

  function BaseRow(filename: string, name: Option<string>): Row {
    [("Filename", TextCell(filename)), ("Candidate Name", TextCell(name.GetOr(UnknownName)))]
  }

  /** The loop over the criteria: assign each criterion's score cell, then its
      explanation cell, stopping at the first criterion that cannot be a key. */
  function Fill(row: Row, items: seq<Value>, scores: Dict<int>, explanations: Dict<string>): Result<Row, string>
    decreases |items|
  {
    if |items| == 0 then Success(row)
    else match Stem(items[0])
      case Failure(e) => Failure(e)
      case Success(t) => Fill(Step(row, t, items[0], scores, explanations), items[1..], scores, explanations)
  }

  /** One pass of the loop body for criterion `c`, whose stem is `t`: the
      score cell, then the explanation cell, each with its default. */
  function Step(row: Row, t: string, c: Value, scores: Dict<int>, explanations: Dict<string>): Row {
    Assign(row, t, IntCell(ScoreFor(c, scores)), TextCell(ExplanationFor(c, explanations)))
  }

  /** One pass of the loop body: the score cell, then the explanation cell. */
  function Assign(row: Row, t: string, score: Cell, explanation: Cell): Row {
    Set(Set(row, t + ScoreSuffix, score), t + ExplanationSuffix, explanation)
  }

  /** The whole row: base cells, criterion cells, then the total of every value
      the oracle scored and that total divided by the number of criteria. */
  function BuildRow(filename: string, name: Option<string>, scores: Dict<int>,
                    explanations: Dict<string>, items: seq<Value>): Result<Row, string>
  {
    match Fill(BaseRow(filename, name), items, scores, explanations)
    case Failure(e) => Failure(e)
    case Success(filled) =>
      if |items| == 0 then Failure("division by zero")
      else
        Success(Summarised(filled, SumValues(scores), |items|))
  }

  /** The row with "Total Score" and then "Average Score" assigned. */
  function Summarised(filled: Row, total: int, count: nat): Row
    requires count > 0
  {
    Set(Set(filled, "Total Score", IntCell(total)), "Average Score", DecimalCell(Hundredths(total, count)))
  }

  /** `round(total / count, 2)` in hundredths: the number of hundredths
      nearest to `total / count`, a tie going to the even neighbour. */
  function Hundredths(total: int, count: int): (h: int)
    requires count > 0
    ensures -count <= 2 * (100 * total - h * count) <= count
    ensures 2 * (100 * total - h * count) == count || 2 * (100 * total - h * count) == -count ==> h % 2 == 0
  {
    var m := 100 * total;
    var n := m / count;
    var rem := m % count;
    assert m - n * count == rem;
    assert m - (n + 1) * count == rem - count by {
      assert (n + 1) * count == n * count + count;
    }
    if 2 * rem < count then n
    else if 2 * rem > count then n + 1
    else if n % 2 == 0 then n
    else n + 1
  }

  /** Nearest-with-ties-to-even determines the hundredths uniquely. */
  lemma HundredthsUnique(total: int, count: int, h: int)
    requires count > 0
    requires -count <= 2 * (100 * total - h * count) <= count
    requires 2 * (100 * total - h * count) == count || 2 * (100 * total - h * count) == -count ==> h % 2 == 0
    ensures h == Hundredths(total, count)
  {
    NearestUnique(100 * total, count, Hundredths(total, count), h);
  }

  /** Two whole numbers both nearest to `m / count`, a tie going to the even
      one, are the same number. */
  lemma NearestUnique(m: int, count: int, g: int, h: int)
    requires count > 0
    requires -count <= 2 * (m - g * count) <= count
    requires 2 * (m - g * count) == count || 2 * (m - g * count) == -count ==> g % 2 == 0
    requires -count <= 2 * (m - h * count) <= count
    requires 2 * (m - h * count) == count || 2 * (m - h * count) == -count ==> h % 2 == 0
    ensures g == h
  {
    var a, b := m - g * count, m - h * count;
    var d := h - g;
    assert a - b == d * count by {
      assert h * count - g * count == (h - g) * count;
    }
    ScaleMonotone(d, 1, count);
    ScaleMonotone(d, 2, count);
    ScaleMonotone(-1, d, count);
    ScaleMonotone(-2, d, count);
  }

  lemma ScaleMonotone(a: int, b: int, c: int)
    requires c > 0
    ensures a >= b ==> a * c >= b * c
  {
    assert a * c - b * c == (a - b) * c;
  }

  /** The summary cells hold the total and the average; every other column
      keeps its cell. */
  lemma SummaryCells(filled: Row, total: int, count: nat)
    requires count > 0
    ensures Get(Summarised(filled, total, count), "Total Score") == Some(IntCell(total))
    ensures Get(Summarised(filled, total, count), "Average Score") == Some(DecimalCell(Hundredths(total, count)))
    ensures forall k | k !in SummaryColumns :: Get(Summarised(filled, total, count), k) == Get(filled, k)
  {
    var totalled := Set(filled, "Total Score", IntCell(total));
    SetReads(filled, "Total Score", IntCell(total));
    SetReads(totalled, "Average Score", DecimalCell(Hundredths(total, count)));
    assert "Total Score"[0] != "Average Score"[0];
  }

  // ---------------------------------------------------------------------------
  // Column names

  predicate IsCriterionColumn(k: string) {
    EndsWith(k, ScoreSuffix) || EndsWith(k, ExplanationSuffix)
  }

  /** The score and explanation columns of the given stems, pairwise. */
  function ColumnPairs(stems: seq<string>): seq<string> {
    if |stems| == 0 then []
    else [stems[0] + ScoreSuffix, stems[0] + ExplanationSuffix] + ColumnPairs(stems[1..])
  }

  /** The elements of `xs` not in `seen`, each at its first occurrence. */
  function Fresh(xs: seq<string>, seen: seq<string>): seq<string> {
    if |xs| == 0 then []
    else if xs[0] in seen then Fresh(xs[1..], seen)
    else [xs[0]] + Fresh(xs[1..], seen + [xs[0]])
  }

  function Dedup(xs: seq<string>): seq<string> {
    Fresh(xs, [])
  }

  lemma {:induction false} FreshFacts(xs: seq<string>, seen: seq<string>)
    ensures NoDuplicates(Fresh(xs, seen))
    ensures forall x :: x in Fresh(xs, seen) <==> x in xs && x !in seen
  {
    if |xs| > 0 {
      FreshFacts(xs[1..], seen);
      FreshFacts(xs[1..], seen + [xs[0]]);
      assert xs == [xs[0]] + xs[1..];
      if xs[0] !in seen {
        var rest := Fresh(xs[1..], seen + [xs[0]]);
        assert forall i | 0 <= i < |rest| :: rest[i] in rest;
      }
    }
  }

  /** `Dedup(xs)` lists the distinct elements of `xs`, each once. */
  lemma DedupFacts(xs: seq<string>)
    ensures NoDuplicates(Dedup(xs))
    ensures forall x :: x in Dedup(xs) <==> x in xs
  {
    FreshFacts(xs, []);
  }

  lemma SuffixedEnds(t: string, suffix: string)
    ensures EndsWith(t + suffix, suffix)
  {
    assert (t + suffix)[|t|..] == suffix;
  }

  lemma SuffixInjective(t: string, u: string, suffix: string)
    requires t + suffix == u + suffix
    ensures t == u
  {
    assert t == (t + suffix)[..|t|];
    assert u == (u + suffix)[..|u|];
  }

  lemma ScoreIsNotExplanation(t: string, u: string)
    ensures t + ScoreSuffix != u + ExplanationSuffix
  {
    if |t + ScoreSuffix| == |u + ExplanationSuffix| {
      var n := |t + ScoreSuffix|;
      assert (t + ScoreSuffix)[n - 2] == 'e';
      assert (u + ExplanationSuffix)[n - 2] == 'n';
    }
  }

  /** A name that does not end in ')' is never a criterion column. */
  lemma PlainNameNotCriterionColumn(k: string)
    requires |k| > 0 && k[|k| - 1] != ')'
    ensures !IsCriterionColumn(k)
  {
  }

  lemma FixedColumnsNotCriterionColumns()
    ensures forall k | k in BaseColumns + SummaryColumns :: !IsCriterionColumn(k)
  {
    PlainNameNotCriterionColumn("Filename");
    PlainNameNotCriterionColumn("Candidate Name");
    PlainNameNotCriterionColumn("Total Score");
    PlainNameNotCriterionColumn("Average Score");
  }

  lemma {:induction false} ColumnPairsAppend(a: seq<string>, b: seq<string>)
    ensures ColumnPairs(a + b) == ColumnPairs(a) + ColumnPairs(b)
  {
    if |a| > 0 {
      assert (a + b)[0] == a[0];
      assert (a + b)[1..] == a[1..] + b;
      ColumnPairsAppend(a[1..], b);
      var pair := [a[0] + ScoreSuffix, a[0] + ExplanationSuffix];
      calc {
        ColumnPairs(a + b);
        pair + ColumnPairs(a[1..] + b);
        pair + (ColumnPairs(a[1..]) + ColumnPairs(b));
        (pair + ColumnPairs(a[1..])) + ColumnPairs(b);
        ColumnPairs(a) + ColumnPairs(b);
      }
    } else {
      assert a + b == b;
    }
  }

  /** A stem's score and explanation columns are among the pairs exactly when
      the stem is among the stems; every pair is a criterion column. */
  lemma {:induction false} ColumnPairsMembership(stems: seq<string>, t: string)
    ensures t + ScoreSuffix in ColumnPairs(stems) <==> t in stems
    ensures t + ExplanationSuffix in ColumnPairs(stems) <==> t in stems
    ensures forall k | k in ColumnPairs(stems) :: IsCriterionColumn(k)
  {
    if |stems| > 0 {
      ColumnPairsMembership(stems[1..], t);
      var s := stems[0];
      if t + ScoreSuffix == s + ScoreSuffix {
        SuffixInjective(t, s, ScoreSuffix);
      }
      if t + ExplanationSuffix == s + ExplanationSuffix {
        SuffixInjective(t, s, ExplanationSuffix);
      }
      ScoreIsNotExplanation(t, s);
      ScoreIsNotExplanation(s, t);
      SuffixedEnds(s, ScoreSuffix);
      SuffixedEnds(s, ExplanationSuffix);
      assert stems == [s] + stems[1..];
    }
  }

  // ---------------------------------------------------------------------------
  // Which columns a row has

  /** In a row whose columns are the base columns and the pairs of `seen`, a
      stem's two columns are present exactly when the stem is in `seen`. */
  lemma PairPresence(row: Row, t: string, seen: seq<string>)
    requires Keys(row) == BaseColumns + ColumnPairs(seen)
    ensures t + ScoreSuffix in Keys(row) <==> t in seen
    ensures t + ExplanationSuffix in Keys(row) <==> t in seen
  {
    ColumnPairsMembership(seen, t);
    FixedColumnsNotCriterionColumns();
    SuffixedEnds(t, ScoreSuffix);
    SuffixedEnds(t, ExplanationSuffix);
  }

  /** Assigning a stem's score and explanation cells to a row whose columns are
      the base columns and the pairs of `seen` adds the stem's pair at the end
      when the stem is new, and changes no column otherwise. */
  lemma AddPair(row: Row, t: string, score: Cell, explanation: Cell, seen: seq<string>)
    requires Keys(row) == BaseColumns + ColumnPairs(seen)
    ensures t in seen ==>
              Keys(Assign(row, t, score, explanation)) == Keys(row)
    ensures t !in seen ==>
              Keys(Assign(row, t, score, explanation))
              == BaseColumns + ColumnPairs(seen + [t])
  {
    PairPresence(row, t, seen);
    ScoreIsNotExplanation(t, t);
    SetTwoKeys(row, t + ScoreSuffix, score, t + ExplanationSuffix, explanation);
    if t !in seen {
      PairsExtend(seen, t);
    }
  }

  lemma PairsExtend(seen: seq<string>, t: string)
    ensures BaseColumns + ColumnPairs(seen) + [t + ScoreSuffix, t + ExplanationSuffix]
            == BaseColumns + ColumnPairs(seen + [t])
  {
    PairsSnoc(seen, t);
    var pair := [t + ScoreSuffix, t + ExplanationSuffix];
    assert (BaseColumns + ColumnPairs(seen)) + pair == BaseColumns + (ColumnPairs(seen) + pair);
  }

  lemma PairsSnoc(seen: seq<string>, t: string)
    ensures ColumnPairs(seen + [t]) == ColumnPairs(seen) + [t + ScoreSuffix, t + ExplanationSuffix]
  {
    ColumnPairsAppend(seen, [t]);
    assert [t][1..] == [];
  }

  lemma FreshCons(t: string, rest: seq<string>, seen: seq<string>)
    ensures Fresh([t] + rest, seen)
            == if t in seen then Fresh(rest, seen) else [t] + Fresh(rest, seen + [t])
  {
    assert ([t] + rest)[1..] == rest;
  }

  /** Moving one stem from the walk into `seen` keeps the list of stems in
      first-seen order unchanged. */
  lemma FreshStep(seen: seq<string>, t: string, rest: seq<string>)
    ensures var seen' := if t in seen then seen else seen + [t];
            seen' + Fresh(rest, seen') == seen + Fresh([t] + rest, seen)
  {
    FreshCons(t, rest, seen);
    if t !in seen {
      assert (seen + [t]) + Fresh(rest, seen + [t]) == seen + ([t] + Fresh(rest, seen + [t]));
    }
  }

  /** Filling succeeds exactly when every criterion has a stem. */
  lemma {:induction false} FillSucceeds(row: Row, items: seq<Value>, scores: Dict<int>, explanations: Dict<string>)
    ensures Fill(row, items, scores, explanations).Success? <==> Stems(items).Success?
    ensures Stems(items).Failure? ==> Fill(row, items, scores, explanations) == Failure(Stems(items).error)
    decreases |items|
  {
    if |items| > 0 && Stem(items[0]).Success? {
      FillSucceeds(Step(row, Stem(items[0]).value, items[0], scores, explanations), items[1..], scores, explanations);
    }
  }

  /** Filling from a row whose columns are the base columns and the pairs of
      `seen` appends the pairs of the stems not seen before, each stem once, in
      first-seen order. */
  lemma {:induction false} FillKeys(row: Row, items: seq<Value>, scores: Dict<int>,
                                    explanations: Dict<string>, seen: seq<string>)
    requires Keys(row) == BaseColumns + ColumnPairs(seen)
    requires Stems(items).Success?
    ensures Fill(row, items, scores, explanations).Success?
    ensures Keys(Fill(row, items, scores, explanations).value)
            == BaseColumns + ColumnPairs(seen + Fresh(Stems(items).value, seen))
    decreases |items|
  {
    FillSucceeds(row, items, scores, explanations);
    if |items| == 0 {
      assert seen + [] == seen;
    } else {
      var t := Stem(items[0]).value;
      var score := IntCell(ScoreFor(items[0], scores));
      var explanation := TextCell(ExplanationFor(items[0], explanations));
      var explained := Step(row, t, items[0], scores, explanations);
      AddPair(row, t, score, explanation, seen);
      var seen' := if t in seen then seen else seen + [t];
      FillKeys(explained, items[1..], scores, explanations, seen');
      StemsCons(items);
      FreshStep(seen, t, Stems(items[1..]).value);
    }
  }

  /** Filling touches only criterion columns. */
  lemma {:induction false} FillFrame(row: Row, items: seq<Value>, scores: Dict<int>, explanations: Dict<string>)
    ensures Fill(row, items, scores, explanations).Success? ==>
              forall k | !IsCriterionColumn(k) :: Get(Fill(row, items, scores, explanations).value, k) == Get(row, k)
    decreases |items|
  {
    if |items| > 0 && Stem(items[0]).Success? {
      var t := Stem(items[0]).value;
      var explained := Step(row, t, items[0], scores, explanations);
      AssignFrame(row, t, IntCell(ScoreFor(items[0], scores)), TextCell(ExplanationFor(items[0], explanations)));
      SuffixedEnds(t, ScoreSuffix);
      SuffixedEnds(t, ExplanationSuffix);
      FillFrame(explained, items[1..], scores, explanations);
    }
  }

  /** Appending the total and the average to a row of base and criterion
      columns adds the two summary columns at the end. */
  lemma SummaryAppended(row: Row, stems: seq<string>, total: int, count: nat)
    requires count > 0
    requires Keys(row) == BaseColumns + ColumnPairs(stems)
    ensures Keys(Summarised(row, total, count)) == BaseColumns + ColumnPairs(stems) + SummaryColumns
  {
    SummaryNotInLayout(stems);
    SetTwoKeys(row, "Total Score", IntCell(total), "Average Score", DecimalCell(Hundredths(total, count)));
  }

  /** Neither summary column is a base column or a criterion column. */
  lemma SummaryNotInLayout(stems: seq<string>)
    ensures "Total Score" != "Average Score"
    ensures "Total Score" !in BaseColumns + ColumnPairs(stems)
    ensures "Average Score" !in BaseColumns + ColumnPairs(stems)
  {
    ColumnPairsMembership(stems, "");
    BaseNotSummary();
    PlainNameNotCriterionColumn("Total Score");
    PlainNameNotCriterionColumn("Average Score");
    assert "Total Score"[0] != "Average Score"[0];
  }

  /** Filling the base row gives the base columns and the pairs of the
      distinct stems, in first-seen order. */
  lemma FillFromBase(row: Row, scores: Dict<int>, explanations: Dict<string>, items: seq<Value>)
    requires Keys(row) == BaseColumns
    requires Stems(items).Success?
    ensures Fill(row, items, scores, explanations).Success?
    ensures Keys(Fill(row, items, scores, explanations).value)
            == BaseColumns + ColumnPairs(Dedup(Stems(items).value))
  {
    assert Keys(row) == BaseColumns + ColumnPairs([]);
    FillKeys(row, items, scores, explanations, []);
    assert [] + Fresh(Stems(items).value, []) == Dedup(Stems(items).value);
  }

  lemma {:induction false} RowKeys(filename: string, name: Option<string>, scores: Dict<int>,
                explanations: Dict<string>, items: seq<Value>)
    requires Stems(items).Success? && |items| > 0
    ensures BuildRow(filename, name, scores, explanations, items).Success?
    ensures Keys(BuildRow(filename, name, scores, explanations, items).value)
            == BaseColumns + ColumnPairs(Dedup(Stems(items).value)) + SummaryColumns
  {
    var base := BaseRow(filename, name);
    BaseRowKeys(filename, name);
    FillFromBase(base, scores, explanations, items);
    BuiltRow(filename, name, scores, explanations, items);
    SummaryAppended(Fill(base, items, scores, explanations).value, Dedup(Stems(items).value), SumValues(scores), |items|);
  }

  lemma BaseRowKeys(filename: string, name: Option<string>)
    ensures Keys(BaseRow(filename, name)) == BaseColumns
  {
  }

  /** The key set is the same for every outcome the oracle can produce: it is
      "Filename", "Candidate Name", the score and explanation column of each
      distinct criterion in first-seen order, "Total Score" and "Average Score".
      Building fails only for an empty criteria walk or an unhashable criterion. */
  lemma RowColumns(filename: string, name: Option<string>, scores: Dict<int>,
                   explanations: Dict<string>, items: seq<Value>)
    ensures BuildRow(filename, name, scores, explanations, items).Success?
            <==> Stems(items).Success? && |items| > 0
    ensures Stems(items).Failure? ==> BuildRow(filename, name, scores, explanations, items) == Failure(Stems(items).error)
    ensures |items| == 0 ==> BuildRow(filename, name, scores, explanations, items) == Failure("division by zero")
    ensures BuildRow(filename, name, scores, explanations, items).Success? ==>
              Keys(BuildRow(filename, name, scores, explanations, items).value)
              == BaseColumns + ColumnPairs(Dedup(Stems(items).value)) + SummaryColumns
  {
    FillSucceeds(BaseRow(filename, name), items, scores, explanations);
    if Stems(items).Success? && |items| > 0 {
      RowKeys(filename, name, scores, explanations, items);
    }
  }

  /** Criterion `i` is the last with its stem: no later criterion assigns
      its two cells again. */
  predicate LastOfStem(stems: seq<string>, i: int)
    requires 0 <= i < |stems|
  {
    stems[i] !in stems[i + 1..]
  }

  /** Every stem has a last criterion carrying it. */
  lemma LastOccurrence(stems: seq<string>, i: int)
    requires 0 <= i < |stems|
    ensures exists j | i <= j < |stems| :: stems[j] == stems[i] && LastOfStem(stems, j)
    decreases |stems| - i
  {
    if stems[i] in stems[i + 1..] {
      var m :| 0 <= m < |stems[i + 1..]| && stems[i + 1..][m] == stems[i];
      LastOccurrence(stems, i + 1 + m);
    }
  }

  /** Criteria with the same column name are the same value, as string
      criteria always are; `1` and `"1"` (both named "1") are not. */
  predicate Unambiguous(items: seq<Value>) {
    && Stems(items).Success?
    && forall i, j | 0 <= i < |items| && 0 <= j < |items| && Stems(items).value[i] == Stems(items).value[j] ::
         items[i] == items[j]
  }

  lemma StringsUnambiguous(items: seq<Value>)
    requires AllStr(items)
    ensures Unambiguous(items)
    ensures Stems(items) == Success(Texts(items))
  {
    StemsOfStrings(items);
  }

  lemma StemsCons(items: seq<Value>)
    requires |items| > 0 && Stems(items).Success?
    ensures Stem(items[0]).Success? && Stems(items[1..]).Success?
    ensures Stems(items).value == [Stem(items[0]).value] + Stems(items[1..]).value
  {
  }

  lemma PairsCons(t: string, rest: seq<string>)
    ensures ColumnPairs([t] + rest) == [t + ScoreSuffix, t + ExplanationSuffix] + ColumnPairs(rest)
  {
    assert ([t] + rest)[1..] == rest;
  }

  /** Filling changes no cell outside the score and explanation columns of
      the criteria. */
  lemma {:induction false} FillOutside(row: Row, items: seq<Value>, scores: Dict<int>, explanations: Dict<string>)
    requires Stems(items).Success?
    ensures Fill(row, items, scores, explanations).Success?
    ensures forall k | k !in ColumnPairs(Stems(items).value) ::
              Get(Fill(row, items, scores, explanations).value, k) == Get(row, k)
    decreases |items|
  {
    FillSucceeds(row, items, scores, explanations);
    if |items| > 0 {
      StemsCons(items);
      var t := Stem(items[0]).value;
      var rest := Stems(items[1..]).value;
      var stepped := Step(row, t, items[0], scores, explanations);
      AssignFrame(row, t, IntCell(ScoreFor(items[0], scores)), TextCell(ExplanationFor(items[0], explanations)));
      PairsCons(t, rest);
      FillOutside(stepped, items[1..], scores, explanations);
      forall k | k !in ColumnPairs(Stems(items).value)
        ensures Get(Fill(row, items, scores, explanations).value, k) == Get(row, k)
      {
        assert k !in ColumnPairs(rest) && k != t + ScoreSuffix && k != t + ExplanationSuffix;
      }
    }
  }

  /** One step changes no column but the stem's two. */
  lemma AssignFrame(row: Row, t: string, score: Cell, explanation: Cell)
    ensures forall k | k != t + ScoreSuffix && k != t + ExplanationSuffix ::
              Get(Assign(row, t, score, explanation), k) == Get(row, k)
  {
  }

  /** The row holds criterion `c`'s two cells under the name `t`:
      `scores.get(c, 0)` and `explanations.get(c, "No explanation provided")`. */
  predicate HoldsCells(row: Row, t: string, c: Value, scores: Dict<int>, explanations: Dict<string>) {
    && Get(row, t + ScoreSuffix) == Some(IntCell(ScoreFor(c, scores)))
    && Get(row, t + ExplanationSuffix) == Some(TextCell(ExplanationFor(c, explanations)))
  }

  /** One step writes both of the stem's cells. */
  lemma StepCells(row: Row, t: string, c: Value, scores: Dict<int>, explanations: Dict<string>)
    ensures HoldsCells(Step(row, t, c, scores, explanations), t, c, scores, explanations)
  {
    ScoreIsNotExplanation(t, t);
  }

  /** A stem's cells written in one step survive the rest of the loop when
      the stem does not come up again. */
  lemma {:induction false} CellsSurvive(row: Row, t: string, c: Value, tail: seq<Value>, scores: Dict<int>, explanations: Dict<string>)
    requires Stems(tail).Success? && t !in Stems(tail).value
    ensures Fill(Step(row, t, c, scores, explanations), tail, scores, explanations).Success?
    ensures HoldsCells(Fill(Step(row, t, c, scores, explanations), tail, scores, explanations).value, t, c, scores, explanations)
  {
    FillOutside(Step(row, t, c, scores, explanations), tail, scores, explanations);
    ColumnPairsMembership(Stems(tail).value, t);
    StepCells(row, t, c, scores, explanations);
  }

  /** Default fill: the criterion that is the last with its stem leaves its
      own cells under the stem; an earlier criterion with the same stem is
      overwritten. */
  lemma {:induction false} FillCells(row: Row, items: seq<Value>, scores: Dict<int>, explanations: Dict<string>)
    requires Stems(items).Success?
    ensures Fill(row, items, scores, explanations).Success?
    ensures forall i | 0 <= i < |items| && LastOfStem(Stems(items).value, i) ::
              HoldsCells(Fill(row, items, scores, explanations).value, Stems(items).value[i], items[i], scores, explanations)
    decreases |items|
  {
    FillSucceeds(row, items, scores, explanations);
    if |items| > 0 {
      StemsCons(items);
      var stems := Stems(items).value;
      var t := stems[0];
      var tail := items[1..];
      var rest := Stems(tail).value;
      var stepped := Step(row, t, items[0], scores, explanations);
      var filled := Fill(stepped, tail, scores, explanations).value;
      assert Fill(row, items, scores, explanations).value == filled;
      FillCells(stepped, tail, scores, explanations);
      if LastOfStem(stems, 0) {
        assert stems[1..] == rest;
        CellsSurvive(row, t, items[0], tail, scores, explanations);
      }
      LastCellsCons(filled, stems, items, scores, explanations);
    }
  }

  /** The last-with-its-stem cells of a list follow from those of its tail
      and, when the head is the last with its stem, the head's. */
  lemma {:induction false} LastCellsCons(filled: Row, stems: seq<string>, items: seq<Value>, scores: Dict<int>, explanations: Dict<string>)
    requires |stems| == |items| > 0
    requires forall j | 0 <= j < |items| - 1 && LastOfStem(stems[1..], j) ::
               HoldsCells(filled, stems[1..][j], items[1..][j], scores, explanations)
    requires LastOfStem(stems, 0) ==> HoldsCells(filled, stems[0], items[0], scores, explanations)
    ensures forall i | 0 <= i < |items| && LastOfStem(stems, i) :: HoldsCells(filled, stems[i], items[i], scores, explanations)
  {
    forall i | 0 < i < |items| && LastOfStem(stems, i)
      ensures HoldsCells(filled, stems[i], items[i], scores, explanations)
    {
      LastOfStemTail(stems, i);
      assert items[1..][i - 1] == items[i];
    }
  }

  /** Dropping the first criterion keeps every later one the last with its
      stem. */
  lemma LastOfStemTail(stems: seq<string>, i: int)
    requires 0 < i < |stems| && LastOfStem(stems, i)
    ensures LastOfStem(stems[1..], i - 1) && stems[1..][i - 1] == stems[i]
  {
    assert stems[1..][i..] == stems[i + 1..];
  }

  /** Every criterion's cells hold its own values when criteria with the same
      column name are the same value. */
  lemma {:induction false} UnambiguousCells(row: Row, items: seq<Value>, scores: Dict<int>, explanations: Dict<string>)
    requires Unambiguous(items)
    ensures Fill(row, items, scores, explanations).Success?
    ensures forall i | 0 <= i < |items| ::
              HoldsCells(Fill(row, items, scores, explanations).value, Stems(items).value[i], items[i], scores, explanations)
  {
    FillCells(row, items, scores, explanations);
    var stems := Stems(items).value;
    var filled := Fill(row, items, scores, explanations).value;
    forall i | 0 <= i < |items|
      ensures HoldsCells(filled, stems[i], items[i], scores, explanations)
    {
      LastOccurrence(stems, i);
      var j :| i <= j < |stems| && stems[j] == stems[i] && LastOfStem(stems, j);
      assert items[j] == items[i];
    }
  }

  /** Default fill of string criteria: each criterion's score cell holds the
      oracle's score for it, or 0, and its explanation cell the oracle's text,
      or "No explanation provided". */
  lemma {:induction false} FillStrings(row: Row, items: seq<Value>, scores: Dict<int>, explanations: Dict<string>)
    requires AllStr(items)
    ensures Fill(row, items, scores, explanations).Success?
    ensures forall t | t in Texts(items) ::
              Get(Fill(row, items, scores, explanations).value, t + ScoreSuffix) == Some(IntCell(Get(scores, t).GetOr(0)))
    ensures forall t | t in Texts(items) ::
              Get(Fill(row, items, scores, explanations).value, t + ExplanationSuffix)
              == Some(TextCell(Get(explanations, t).GetOr(NoExplanation)))
  {
    StringsUnambiguous(items);
    UnambiguousCells(row, items, scores, explanations);
    var filled := Fill(row, items, scores, explanations).value;
    forall t | t in Texts(items)
      ensures Get(filled, t + ScoreSuffix) == Some(IntCell(Get(scores, t).GetOr(0)))
      ensures Get(filled, t + ExplanationSuffix) == Some(TextCell(Get(explanations, t).GetOr(NoExplanation)))
    {
      var i :| 0 <= i < |items| && Texts(items)[i] == t;
      assert HoldsCells(filled, Stems(items).value[i], items[i], scores, explanations);
    }
  }

  /** Criterion columns are never summary columns. */
  lemma SuffixedNotSummary(t: string)
    ensures t + ScoreSuffix !in SummaryColumns && t + ExplanationSuffix !in SummaryColumns
  {
    FixedColumnsNotCriterionColumns();
    SuffixedEnds(t, ScoreSuffix);
    SuffixedEnds(t, ExplanationSuffix);
  }

  /** The filename and name cells of a built row. */
  lemma {:induction false} RowBaseCells(filename: string, name: Option<string>, scores: Dict<int>,
                     explanations: Dict<string>, items: seq<Value>)
    requires Stems(items).Success? && |items| > 0
    ensures BuildRow(filename, name, scores, explanations, items).Success?
    ensures Get(BuildRow(filename, name, scores, explanations, items).value, "Filename") == Some(TextCell(filename))
    ensures Get(BuildRow(filename, name, scores, explanations, items).value, "Candidate Name")
            == Some(TextCell(name.GetOr(UnknownName)))
  {
    var base := BaseRow(filename, name);
    FillKeepsBaseCells(base, items, scores, explanations);
    SummaryKeepsBaseCells(Fill(base, items, scores, explanations).value, SumValues(scores), |items|);
  }

  /** The summary step leaves the two base cells alone. */
  lemma SummaryKeepsBaseCells(filled: Row, total: int, count: nat)
    requires count > 0
    ensures Get(Summarised(filled, total, count), "Filename") == Get(filled, "Filename")
    ensures Get(Summarised(filled, total, count), "Candidate Name") == Get(filled, "Candidate Name")
  {
    BaseNotSummary();
    SummaryKeeps(filled, total, count, "Filename");
    SummaryKeeps(filled, total, count, "Candidate Name");
  }

  lemma SummaryKeeps(filled: Row, total: int, count: nat, k: string)
    requires count > 0 && k !in SummaryColumns
    ensures Get(Summarised(filled, total, count), k) == Get(filled, k)
  {
    SummaryCells(filled, total, count);
  }

  /** The base column names differ in length from both summary names. */
  lemma BaseNotSummary()
    ensures "Filename" !in SummaryColumns && "Candidate Name" !in SummaryColumns
  {
    assert |SummaryColumns[0]| == 11 && |SummaryColumns[1]| == 13;
  }

  lemma {:induction false} FillKeepsBaseCells(row: Row, items: seq<Value>, scores: Dict<int>, explanations: Dict<string>)
    requires Stems(items).Success?
    ensures Fill(row, items, scores, explanations).Success?
    ensures Get(Fill(row, items, scores, explanations).value, "Filename") == Get(row, "Filename")
    ensures Get(Fill(row, items, scores, explanations).value, "Candidate Name") == Get(row, "Candidate Name")
  {
    FillSucceeds(row, items, scores, explanations);
    FillFrame(row, items, scores, explanations);
    PlainNameNotCriterionColumn("Filename");
    PlainNameNotCriterionColumn("Candidate Name");
  }

  /** The summary step keeps every criterion's cells. */
  lemma SummaryKeepsCells(filled: Row, total: int, count: nat, t: string, c: Value,
                          scores: Dict<int>, explanations: Dict<string>)
    requires count > 0 && HoldsCells(filled, t, c, scores, explanations)
    ensures HoldsCells(Summarised(filled, total, count), t, c, scores, explanations)
  {
    SuffixedNotSummary(t);
    SummaryKeeps(filled, total, count, t + ScoreSuffix);
    SummaryKeeps(filled, total, count, t + ExplanationSuffix);
  }

  /** The score and explanation cells of a built row: those of the last
      criterion with each stem. */
  lemma {:induction false} RowCriterionCells(filename: string, name: Option<string>, scores: Dict<int>,
                          explanations: Dict<string>, items: seq<Value>)
    requires Stems(items).Success? && |items| > 0
    ensures BuildRow(filename, name, scores, explanations, items).Success?
    ensures forall i | 0 <= i < |items| && LastOfStem(Stems(items).value, i) ::
              HoldsCells(BuildRow(filename, name, scores, explanations, items).value, Stems(items).value[i], items[i],
                         scores, explanations)
  {
    var base := BaseRow(filename, name);
    FillCells(base, items, scores, explanations);
    BuiltRow(filename, name, scores, explanations, items);
    SummaryKeepsLastCells(Fill(base, items, scores, explanations).value, SumValues(scores), |items|,
                          Stems(items).value, items, scores, explanations);
  }

  lemma {:induction false} SummaryKeepsLastCells(filled: Row, total: int, count: nat, stems: seq<string>, items: seq<Value>,
                              scores: Dict<int>, explanations: Dict<string>)
    requires count > 0 && |stems| == |items|
    requires forall i | 0 <= i < |items| && LastOfStem(stems, i) :: HoldsCells(filled, stems[i], items[i], scores, explanations)
    ensures forall i | 0 <= i < |items| && LastOfStem(stems, i) ::
              HoldsCells(Summarised(filled, total, count), stems[i], items[i], scores, explanations)
  {
    forall i | 0 <= i < |items| && LastOfStem(stems, i)
      ensures HoldsCells(Summarised(filled, total, count), stems[i], items[i], scores, explanations)
    {
      SummaryKeepsCells(filled, total, count, stems[i], items[i], scores, explanations);
    }
  }

  /** The name, filename and per-criterion cells of a built row: the oracle's
      value where it gave one, the default otherwise, the last criterion with
      a column name deciding that column's cells. */
  lemma {:induction false} RowDefaults(filename: string, name: Option<string>, scores: Dict<int>,
                    explanations: Dict<string>, items: seq<Value>)
    requires Stems(items).Success? && |items| > 0
    ensures BuildRow(filename, name, scores, explanations, items).Success?
    ensures var row := BuildRow(filename, name, scores, explanations, items).value;
            && Get(row, "Filename") == Some(TextCell(filename))
            && Get(row, "Candidate Name") == Some(TextCell(name.GetOr(UnknownName)))
            && forall i | 0 <= i < |items| && LastOfStem(Stems(items).value, i) ::
                 HoldsCells(row, Stems(items).value[i], items[i], scores, explanations)
  {
    RowBaseCells(filename, name, scores, explanations, items);
    RowCriterionCells(filename, name, scores, explanations, items);
  }

  /** For string criteria, the type the endpoint declares, each criterion's
      score and explanation cells hold the oracle's values or the defaults. */
  lemma {:induction false} RowDefaultsOfStrings(filename: string, name: Option<string>, scores: Dict<int>,
                             explanations: Dict<string>, items: seq<Value>)
    requires AllStr(items) && |items| > 0
    ensures BuildRow(filename, name, scores, explanations, items).Success?
    ensures var row := BuildRow(filename, name, scores, explanations, items).value;
            && (forall t | t in Texts(items) :: Get(row, t + ScoreSuffix) == Some(IntCell(Get(scores, t).GetOr(0))))
            && (forall t | t in Texts(items) ::
                  Get(row, t + ExplanationSuffix) == Some(TextCell(Get(explanations, t).GetOr(NoExplanation))))
  {
    var base := BaseRow(filename, name);
    StringsUnambiguous(items);
    FillStrings(base, items, scores, explanations);
    var filled := Fill(base, items, scores, explanations).value;
    BuiltRow(filename, name, scores, explanations, items);
    forall t | t in Texts(items)
      ensures Get(Summarised(filled, SumValues(scores), |items|), t + ScoreSuffix) == Get(filled, t + ScoreSuffix)
      ensures Get(Summarised(filled, SumValues(scores), |items|), t + ExplanationSuffix) == Get(filled, t + ExplanationSuffix)
    {
      SuffixedNotSummary(t);
      SummaryKeeps(filled, SumValues(scores), |items|, t + ScoreSuffix);
      SummaryKeeps(filled, SumValues(scores), |items|, t + ExplanationSuffix);
    }
  }

  /** A row built from hashable, non-empty criteria is the filled base row
      with the summary cells set. */
  lemma BuiltRow(filename: string, name: Option<string>, scores: Dict<int>,
                 explanations: Dict<string>, items: seq<Value>)
    requires Stems(items).Success? && |items| > 0
    ensures Fill(BaseRow(filename, name), items, scores, explanations).Success?
    ensures BuildRow(filename, name, scores, explanations, items)
            == Success(Summarised(Fill(BaseRow(filename, name), items, scores, explanations).value, SumValues(scores), |items|))
  {
    FillSucceeds(BaseRow(filename, name), items, scores, explanations);
  }

  /** "Total Score" is the sum of every value in the oracle's scores, including
      keys that are not criteria, and "Average Score" divides it by the number
      of criteria visited, duplicates included. */
  lemma RowTotals(filename: string, name: Option<string>, scores: Dict<int>,
                  explanations: Dict<string>, items: seq<Value>)
    ensures BuildRow(filename, name, scores, explanations, items).Success? ==>
              var row := BuildRow(filename, name, scores, explanations, items).value;
              && Get(row, "Total Score") == Some(IntCell(SumValues(scores)))
              && Get(row, "Average Score") == Some(DecimalCell(Hundredths(SumValues(scores), |items|)))
  {
  }

  /** A key the oracle scored or explained that is not a criterion never
      becomes a column. */
  lemma ExtraOracleKeysDropped(filename: string, name: Option<string>, scores: Dict<int>,
                               explanations: Dict<string>, items: seq<Value>, k: string)
    requires BuildRow(filename, name, scores, explanations, items).Success?
    requires Stems(items).Success? && k !in Stems(items).value
    ensures k + ScoreSuffix !in Keys(BuildRow(filename, name, scores, explanations, items).value)
    ensures k + ExplanationSuffix !in Keys(BuildRow(filename, name, scores, explanations, items).value)
  {
    RowColumns(filename, name, scores, explanations, items);
    DedupFacts(Stems(items).value);
    PairsOfOtherStem(Dedup(Stems(items).value), k);
  }

  /** The columns of a stem outside `stems` are not in the row layout. */
  lemma PairsOfOtherStem(stems: seq<string>, k: string)
    requires k !in stems
    ensures k + ScoreSuffix !in BaseColumns + ColumnPairs(stems) + SummaryColumns
    ensures k + ExplanationSuffix !in BaseColumns + ColumnPairs(stems) + SummaryColumns
  {
    ColumnPairsMembership(stems, k);
    FixedColumnsNotCriterionColumns();
    SuffixedEnds(k, ScoreSuffix);
    SuffixedEnds(k, ExplanationSuffix);
  }

  // ---------------------------------------------------------------------------
  // The total against the row's own scores

  function CellInt(c: Option<Cell>): int {
    if c.Some? && c.value.IntCell? then c.value.n else 0
  }

  /** The sum of the row's score cells for the given stems. */
  function RowScoreSum(row: Row, stems: seq<string>): int {
    if |stems| == 0 then 0 else CellInt(Get(row, stems[0] + ScoreSuffix)) + RowScoreSum(row, stems[1..])
  }

  lemma {:induction false} RowScoreSumIsSumOver(row: Row, stems: seq<string>, scores: Dict<int>)
    requires forall i | 0 <= i < |stems| ::
               Get(row, stems[i] + ScoreSuffix) == Some(IntCell(Get(scores, stems[i]).GetOr(0)))
    ensures RowScoreSum(row, stems) == SumOver(stems, scores)
  {
    if |stems| > 0 {
      assert Get(row, stems[0] + ScoreSuffix) == Some(IntCell(Get(scores, stems[0]).GetOr(0)));
      RowScoreSumIsSumOver(row, stems[1..], scores);
    }
  }

  /** A criterion's default score is the oracle's value under its column
      name when every scored key is a string criterion and no two different
      criteria share a name: a criterion that is not a string then names no
      scored key. */
  lemma ScoreUnderStem(items: seq<Value>, scores: Dict<int>, i: int)
    requires Unambiguous(items) && 0 <= i < |items|
    requires forall k | k in Keys(scores) :: Str(k) in items
    ensures ScoreFor(items[i], scores) == Get(scores, Stems(items).value[i]).GetOr(0)
  {
  }

  /** When every scored key is a criterion and each criterion's score cell
      holds its score, the score cells of the distinct stems add up to the
      sum of all scores. */
  lemma {:induction false} CellsAddUpToScores(row: Row, items: seq<Value>, scores: Dict<int>, explanations: Dict<string>)
    requires Unambiguous(items)
    requires forall k | k in Keys(scores) :: Str(k) in items
    requires forall i | 0 <= i < |items| :: HoldsCells(row, Stems(items).value[i], items[i], scores, explanations)
    ensures RowScoreSum(row, Dedup(Stems(items).value)) == SumValues(scores)
  {
    var all := Stems(items).value;
    var stems := Dedup(all);
    DedupFacts(all);
    forall m | 0 <= m < |stems|
      ensures Get(row, stems[m] + ScoreSuffix) == Some(IntCell(Get(scores, stems[m]).GetOr(0)))
    {
      assert stems[m] in stems;
      var i :| 0 <= i < |all| && all[i] == stems[m];
      assert HoldsCells(row, all[i], items[i], scores, explanations);
      ScoreUnderStem(items, scores, i);
    }
    forall k | k in Keys(scores)
      ensures k in stems
    {
      var j :| 0 <= j < |items| && items[j] == Str(k);
      assert all[j] == k;
    }
    RowScoreSumIsSumOver(row, stems, scores);
    SumCovered(stems, scores);
  }

  /** When every key the oracle scored is a string criterion and no two
      different criteria share a column name, "Total Score" equals the sum of
      the row's own score cells, one per distinct column name. */
  lemma {:induction false} TotalMatchesRowScores(filename: string, name: Option<string>, scores: Dict<int>,
                              explanations: Dict<string>, items: seq<Value>)
    requires Unambiguous(items) && |items| > 0
    requires forall k | k in Keys(scores) :: Str(k) in items
    ensures BuildRow(filename, name, scores, explanations, items).Success?
    ensures var row := BuildRow(filename, name, scores, explanations, items).value;
            Get(row, "Total Score") == Some(IntCell(RowScoreSum(row, Dedup(Stems(items).value))))
  {
    var base := BaseRow(filename, name);
    UnambiguousCells(base, items, scores, explanations);
    var filled := Fill(base, items, scores, explanations).value;
    var row := Summarised(filled, SumValues(scores), |items|);
    BuiltRow(filename, name, scores, explanations, items);
    forall i | 0 <= i < |items|
      ensures HoldsCells(row, Stems(items).value[i], items[i], scores, explanations)
    {
      SummaryKeepsCells(filled, SumValues(scores), |items|, Stems(items).value[i], items[i], scores, explanations);
    }
    RowTotals(filename, name, scores, explanations, items);
    CellsAddUpToScores(row, items, scores, explanations);
  }

  /** Two criteria that share a column name share its cells: with criteria
      `"1"` and `1` and the oracle scoring "1" as 5, the integer criterion
      overwrites the score cell with 0 while the total stays 5. */
  lemma CollidingStemsOverwrite()
    ensures var row := BuildRow("cv.pdf", None, [("1", 5)], [], [Str("1"), Int(1)]);
            && row.Success?
            && Get(row.value, "1" + ScoreSuffix) == Some(IntCell(0))
            && Get(row.value, "Total Score") == Some(IntCell(5))
  {
    var items := [Str("1"), Int(1)];
    var scores := [("1", 5)];
    assert IntToString(1) == "1";
    var stems := Stems(items).value;
    assert stems[1] == "1";
    assert LastOfStem(stems, 1);
    RowDefaults("cv.pdf", None, scores, [], items);
    assert HoldsCells(BuildRow("cv.pdf", None, scores, [], items).value, stems[1], items[1], scores, []);
    assert ScoreFor(items[1], scores) == 0;
    RowTotals("cv.pdf", None, scores, [], items);
    assert SumValues(scores) == 5;
  }
}
