/** The spreadsheet `score_resumes` writes (main.py:207-225): the data frame's
    columns, the selection and order of the written columns, and the width
    given to each of them. The workbook bytes themselves are not modelled. */
module Report {
  import opened Wrappers
  import opened Text
  import opened Seqs
  import opened Dicts
  import opened Rows

  // ---------------------------------------------------------------------------
  // The data frame's columns

  /** Every key of every row, row after row. */
  function AllKeys(rows: seq<Row>): seq<string> {
    if |rows| == 0 then [] else Keys(rows[0]) + AllKeys(rows[1..])
  }

  /** `pd.DataFrame(rows).columns`: every key of every row, once each, in
      order of first appearance. */
  function FrameColumns(rows: seq<Row>): seq<string> {
    Dedup(AllKeys(rows))
  }

  /** The frame has every key of every row as a column, and no column twice. */
  lemma FrameColumnsFacts(rows: seq<Row>)
    ensures NoDuplicates(FrameColumns(rows))
    ensures forall c :: c in FrameColumns(rows) <==> exists i | 0 <= i < |rows| :: c in Keys(rows[i])
  {
    DedupFacts(AllKeys(rows));
    forall c
      ensures c in AllKeys(rows) <==> exists i | 0 <= i < |rows| :: c in Keys(rows[i])
    {
      AllKeysMembership(rows, c);
    }
  }

  lemma {:induction false} AllKeysMembership(rows: seq<Row>, c: string)
    ensures c in AllKeys(rows) <==> exists i | 0 <= i < |rows| :: c in Keys(rows[i])
  {
    if |rows| > 0 {
      AllKeysMembership(rows[1..], c);
      if c in AllKeys(rows[1..]) {
        var i :| 0 <= i < |rows| - 1 && c in Keys(rows[1..][i]);
        assert rows[1..][i] == rows[i + 1];
      }
      if exists i | 0 <= i < |rows| :: c in Keys(rows[i]) {
        var i :| 0 <= i < |rows| && c in Keys(rows[i]);
        if i > 0 {
          assert rows[i] == rows[1..][i - 1];
        }
      }
    }
  }

  lemma {:induction false} FreshAppend(a: seq<string>, b: seq<string>, seen: seq<string>)
    ensures Fresh(a + b, seen) == Fresh(a, seen) + Fresh(b, seen + Fresh(a, seen))
  {
    if |a| == 0 {
      assert a + b == b;
      assert seen + [] == seen;
    } else {
      var x := a[0];
      assert a + b == [x] + (a[1..] + b);
      assert a == [x] + a[1..];
      FreshCons(x, a[1..] + b, seen);
      FreshCons(x, a[1..], seen);
      if x in seen {
        FreshAppend(a[1..], b, seen);
      } else {
        FreshAppend(a[1..], b, seen + [x]);
        var f := Fresh(a[1..], seen + [x]);
        assert seen + [x] + f == seen + ([x] + f);
      }
    }
  }

  lemma {:induction false} FreshDistinct(xs: seq<string>, seen: seq<string>)
    requires NoDuplicates(xs)
    requires forall i | 0 <= i < |xs| :: xs[i] !in seen
    ensures Fresh(xs, seen) == xs
  {
    if |xs| > 0 {
      forall i | 0 <= i < |xs| - 1
        ensures xs[1..][i] !in seen + [xs[0]]
      {
        assert xs[1..][i] == xs[i + 1] != xs[0];
      }
      FreshDistinct(xs[1..], seen + [xs[0]]);
    }
  }

  lemma {:induction false} FreshCovered(xs: seq<string>, seen: seq<string>)
    requires forall x | x in xs :: x in seen
    ensures Fresh(xs, seen) == []
  {
    if |xs| > 0 {
      assert xs[0] in xs;
      FreshCovered(xs[1..], seen);
    }
  }

  lemma {:induction false} AllKeysUniform(rows: seq<Row>, columns: seq<string>)
    requires forall i | 0 <= i < |rows| :: Keys(rows[i]) == columns
    ensures forall x | x in AllKeys(rows) :: x in columns
  {
    if |rows| > 0 {
      AllKeysUniform(rows[1..], columns);
    }
  }

  /** When every row has the same duplicate-free keys, the frame's columns are
      exactly those keys, in the rows' own order. */
  lemma FrameOfUniformRows(rows: seq<Row>, columns: seq<string>)
    requires |rows| > 0
    requires forall i | 0 <= i < |rows| :: Keys(rows[i]) == columns
    requires NoDuplicates(columns)
    ensures FrameColumns(rows) == columns
  {
    var rest := AllKeys(rows[1..]);
    assert AllKeys(rows) == columns + rest;
    FreshAppend(columns, rest, []);
    FreshDistinct(columns, []);
    EmptyFront(columns);
    assert forall i | 0 <= i < |rows| - 1 :: rows[1..][i] == rows[i + 1];
    AllKeysUniform(rows[1..], columns);
    FreshCovered(rest, columns);
    EmptyBack(columns);
  }

  // ---------------------------------------------------------------------------
  // The written columns

  /** The one-column part of the filter. */
  function Keep(c: string, word: string): seq<string> {
    if Contains(c, word) then [c] else []
  }

  /** `[col for col in cols if word in col]`. */
  function Filter(cols: seq<string>, word: string): (r: seq<string>)
    ensures |r| <= |cols|
  {
    if |cols| == 0 then [] else Keep(cols[0], word) + Filter(cols[1..], word)
  }

  /** The filter keeps exactly the columns that mention the word. */
  lemma {:induction false} FilterMembership(cols: seq<string>, word: string, c: string)
    ensures c in Filter(cols, word) <==> c in cols && Contains(c, word)
  {
    if |cols| > 0 {
      FilterMembership(cols[1..], word, c);
      assert cols == [cols[0]] + cols[1..];
    }
  }

  lemma {:induction false} FilterAppend(a: seq<string>, b: seq<string>, word: string)
    ensures Filter(a + b, word) == Filter(a, word) + Filter(b, word)
  {
    if |a| == 0 {
      assert a + b == b;
      assert Filter(a, word) == [];
    } else {
      var ab := a + b;
      assert ab[0] == a[0];
      assert ab[1..] == a[1..] + b;
      FilterAppend(a[1..], b, word);
      Assoc(Keep(a[0], word), Filter(a[1..], word), Filter(b, word));
    }
  }

  /** The selection the sheet is written with: the two base columns, then
      every column mentioning "Score", then every column mentioning
      "Explanation". */
  function Layout(cols: seq<string>): seq<string> {
    BaseColumns + Filter(cols, "Score") + Filter(cols, "Explanation")
  }

  /** The score columns of the stems, in order. */
  function ScoreColumns(stems: seq<string>): seq<string> {
    if |stems| == 0 then [] else [stems[0] + ScoreSuffix] + ScoreColumns(stems[1..])
  }

  /** The explanation columns of the stems, in order. */
  function ExplanationColumns(stems: seq<string>): seq<string> {
    if |stems| == 0 then [] else [stems[0] + ExplanationSuffix] + ExplanationColumns(stems[1..])
  }

  predicate Plain(t: string) {
    !Contains(t, "Score") && !Contains(t, "Explanation")
  }

  lemma OccursHasChar(s: string, w: string, c: char, i: int)
    requires c in w
    ensures OccursAt(s, w, i) ==> c in s
  {
    if OccursAt(s, w, i) {
      var k :| 0 <= k < |w| && w[k] == c;
      assert s[i + k] == s[i..i + |w|][k];
    }
  }

  /** A word with a character the text lacks does not occur in it. */
  lemma MissingChar(s: string, w: string, c: char)
    requires c in w && c !in s
    ensures !Contains(s, w)
  {
    forall i ensures OccursAt(s, w, i) ==> c in s {
      OccursHasChar(s, w, c, i);
    }
  }

  lemma EndsWithWord(s: string, w: string)
    requires EndsWith(s, w)
    ensures Contains(s, w)
  {
    assert OccursAt(s, w, |s| - |w|);
  }

  lemma FilterNeither(a: string, b: string, word: string)
    requires !Contains(a, word) && !Contains(b, word)
    ensures Filter([a, b], word) == []
  {
    assert [a, b][1..][1..] == [];
  }

  lemma FilterBoth(a: string, b: string, word: string)
    requires Contains(a, word) && Contains(b, word)
    ensures Filter([a, b], word) == [a, b]
  {
    assert [a, b][1..] == [b];
    assert [a, b][1..][1..] == [];
  }

  /** Neither base column mentions either word. */
  lemma BaseColumnIsPlain(name: string)
    requires name in BaseColumns
    ensures !Contains(name, "Score") && !Contains(name, "Explanation")
  {
    MissingChar(name, "Score", 'S');
    MissingChar(name, "Explanation", 'x');
  }

  /** Both summary columns mention "Score" and not "Explanation". */
  lemma SummaryColumnWords(name: string)
    requires name in SummaryColumns
    ensures Contains(name, "Score") && !Contains(name, "Explanation")
  {
    EndsWithWord(name, "Score");
    MissingChar(name, "Explanation", 'x');
  }

  /** The filters pass over both base columns. */
  lemma BaseColumnsUnfiltered(word: string)
    requires word == "Score" || word == "Explanation"
    ensures Filter(BaseColumns, word) == []
  {
    BaseColumnIsPlain("Filename");
    BaseColumnIsPlain("Candidate Name");
    FilterNeither("Filename", "Candidate Name", word);
  }

  /** Both summary columns mention "Score". */
  lemma SummaryColumnsScored()
    ensures Filter(SummaryColumns, "Score") == SummaryColumns
  {
    SummaryColumnWords("Total Score");
    SummaryColumnWords("Average Score");
    FilterBoth("Total Score", "Average Score", "Score");
  }

  /** Neither summary column mentions "Explanation". */
  lemma SummaryColumnsExplanationFree()
    ensures Filter(SummaryColumns, "Explanation") == []
  {
    SummaryColumnWords("Total Score");
    SummaryColumnWords("Average Score");
    FilterNeither("Total Score", "Average Score", "Explanation");
  }

  lemma ScoreSuffixMentionsScore()
    ensures Contains(ScoreSuffix, "Score")
  {
    assert ScoreSuffix[2..7] == "Score";
    assert OccursAt(ScoreSuffix, "Score", 2);
  }

  lemma ExplanationSuffixMentionsExplanation()
    ensures Contains(ExplanationSuffix, "Explanation")
  {
    assert ExplanationSuffix[2..13] == "Explanation";
    assert OccursAt(ExplanationSuffix, "Explanation", 2);
  }

  lemma ScoreSuffixLacksExplanation()
    ensures !Contains(ScoreSuffix, "Explanation")
  {
    MissingChar(ScoreSuffix, "Explanation", 'x');
  }

  lemma ExplanationSuffixLacksScore()
    ensures !Contains(ExplanationSuffix, "Score")
  {
    MissingChar(ExplanationSuffix, "Score", 'S');
  }

  /** Both suffixes start with a blank, which neither word contains. */
  lemma SuffixesStartApart()
    ensures ScoreSuffix[0] !in "Explanation" && ExplanationSuffix[0] !in "Score"
  {
  }

  /** A plain stem's score column mentions only "Score", its explanation
      column only "Explanation". */
  lemma SuffixWords(t: string)
    requires Plain(t)
    ensures Contains(t + ScoreSuffix, "Score") && !Contains(t + ScoreSuffix, "Explanation")
    ensures Contains(t + ExplanationSuffix, "Explanation") && !Contains(t + ExplanationSuffix, "Score")
  {
    ScoreSuffixMentionsScore();
    ExplanationSuffixMentionsExplanation();
    ScoreSuffixLacksExplanation();
    ExplanationSuffixLacksScore();
    SuffixesStartApart();
    ContainsInSuffix(t, ScoreSuffix, "Score");
    ContainsInSuffix(t, ExplanationSuffix, "Explanation");
    NotContainsConcat(t, ScoreSuffix, "Explanation");
    NotContainsConcat(t, ExplanationSuffix, "Score");
  }

  lemma FilterFirstOnly(a: string, b: string, word: string)
    requires Contains(a, word) && !Contains(b, word)
    ensures Filter([a, b], word) == [a]
  {
    assert [a, b][1..] == [b];
    assert [a, b][1..][1..] == [];
  }

  lemma FilterSecondOnly(a: string, b: string, word: string)
    requires !Contains(a, word) && Contains(b, word)
    ensures Filter([a, b], word) == [b]
  {
    assert [a, b][1..] == [b];
    assert [a, b][1..][1..] == [];
  }

  lemma {:induction false} FilterPairs(stems: seq<string>)
    requires forall i | 0 <= i < |stems| :: Plain(stems[i])
    ensures Filter(ColumnPairs(stems), "Score") == ScoreColumns(stems)
    ensures Filter(ColumnPairs(stems), "Explanation") == ExplanationColumns(stems)
  {
    if |stems| > 0 {
      var t := stems[0];
      var pair := [t + ScoreSuffix, t + ExplanationSuffix];
      var rest := ColumnPairs(stems[1..]);
      assert ColumnPairs(stems) == pair + rest;
      FilterPairs(stems[1..]);
      SuffixWords(t);
      FilterFirstOnly(t + ScoreSuffix, t + ExplanationSuffix, "Score");
      FilterSecondOnly(t + ScoreSuffix, t + ExplanationSuffix, "Explanation");
      FilterAppend(pair, rest, "Score");
      FilterAppend(pair, rest, "Explanation");
    }
  }

  lemma {:induction false} PairsMultiset(stems: seq<string>)
    ensures multiset(ColumnPairs(stems)) == multiset(ScoreColumns(stems)) + multiset(ExplanationColumns(stems))
  {
    if |stems| > 0 {
      PairsMultiset(stems[1..]);
    }
  }

  /** The columns a row of plain criteria carries, in the row's order. */
  function RowLayout(stems: seq<string>): seq<string> {
    BaseColumns + ColumnPairs(stems) + SummaryColumns
  }

  /** Filtering three parts one after the other. */
  lemma {:induction false} FilterThree(a: seq<string>, b: seq<string>, c: seq<string>, word: string)
    ensures Filter(a + b + c, word) == Filter(a, word) + Filter(b, word) + Filter(c, word)
  {
    FilterAppend(a + b, c, word);
    FilterAppend(a, b, word);
  }

  lemma {:induction false} ScoreFilterOfRow(stems: seq<string>)
    requires forall i | 0 <= i < |stems| :: Plain(stems[i])
    ensures Filter(RowLayout(stems), "Score") == ScoreColumns(stems) + SummaryColumns
  {
    FilterPairs(stems);
    ScoreFilterOfPairs(stems, ScoreColumns(stems));
  }

  lemma {:induction false} ExplanationFilterOfRow(stems: seq<string>)
    requires forall i | 0 <= i < |stems| :: Plain(stems[i])
    ensures Filter(RowLayout(stems), "Explanation") == ExplanationColumns(stems)
  {
    FilterPairs(stems);
    ExplanationFilterOfPairs(stems, ExplanationColumns(stems));
  }

  /** The score filter of a row keeps the pairs' score columns, then both
      summary columns. */
  lemma ScoreFilterOfPairs(stems: seq<string>, kept: seq<string>)
    requires Filter(ColumnPairs(stems), "Score") == kept
    ensures Filter(RowLayout(stems), "Score") == kept + SummaryColumns
  {
    BaseColumnsUnfiltered("Score");
    SummaryColumnsScored();
    FilterMiddleAndLast(BaseColumns, ColumnPairs(stems), SummaryColumns, "Score", kept);
  }

  /** The explanation filter of a row keeps only the pairs' explanation
      columns. */
  lemma ExplanationFilterOfPairs(stems: seq<string>, kept: seq<string>)
    requires Filter(ColumnPairs(stems), "Explanation") == kept
    ensures Filter(RowLayout(stems), "Explanation") == kept
  {
    BaseColumnsUnfiltered("Explanation");
    SummaryColumnsExplanationFree();
    FilterMiddleOnly(BaseColumns, ColumnPairs(stems), SummaryColumns, "Explanation", kept);
  }

  /** Filtering three parts of which the first passes nothing and the last
      passes whole. */
  lemma {:induction false} FilterMiddleAndLast(a: seq<string>, b: seq<string>, c: seq<string>, word: string, kept: seq<string>)
    requires Filter(a, word) == [] && Filter(b, word) == kept && Filter(c, word) == c
    ensures Filter(a + b + c, word) == kept + c
  {
    FilterThree(a, b, c, word);
    EmptyFront(kept);
  }

  /** Filtering three parts of which only the middle one passes anything. */
  lemma {:induction false} FilterMiddleOnly(a: seq<string>, b: seq<string>, c: seq<string>, word: string, kept: seq<string>)
    requires Filter(a, word) == [] && Filter(b, word) == kept && Filter(c, word) == []
    ensures Filter(a + b + c, word) == kept
  {
    FilterThree(a, b, c, word);
    EmptyFront(kept);
    EmptyBack(kept);
  }

  /** For criteria that mention neither word, the sheet lists the base
      columns, every score column, the total and the average, then every
      explanation column. */
  lemma {:induction false} LayoutOfRowColumns(stems: seq<string>)
    requires forall i | 0 <= i < |stems| :: Plain(stems[i])
    ensures Layout(RowLayout(stems))
            == BaseColumns + ScoreColumns(stems) + SummaryColumns + ExplanationColumns(stems)
  {
    RowFilters(stems);
    LayoutOfFilters(RowLayout(stems), ScoreColumns(stems), SummaryColumns, ExplanationColumns(stems));
  }

  /** Both filters of a row of plain criteria. */
  lemma {:induction false} RowFilters(stems: seq<string>)
    requires forall i | 0 <= i < |stems| :: Plain(stems[i])
    ensures Filter(RowLayout(stems), "Score") == ScoreColumns(stems) + SummaryColumns
    ensures Filter(RowLayout(stems), "Explanation") == ExplanationColumns(stems)
  {
    ScoreFilterOfRow(stems);
    ExplanationFilterOfRow(stems);
  }

  /** The layout of columns whose two filters are known. */
  lemma {:induction false} LayoutOfFilters(cols: seq<string>, scored: seq<string>, summary: seq<string>, explained: seq<string>)
    requires Filter(cols, "Score") == scored + summary
    requires Filter(cols, "Explanation") == explained
    ensures Layout(cols) == BaseColumns + scored + summary + explained
  {
    Regroup(BaseColumns, scored, summary, explained);
  }

  /** ... and that is a reordering of the row's columns: none lost and none
      repeated. */
  lemma {:induction false} LayoutPermutesRowColumns(stems: seq<string>)
    requires forall i | 0 <= i < |stems| :: Plain(stems[i])
    ensures multiset(Layout(RowLayout(stems))) == multiset(RowLayout(stems))
  {
    LayoutOfRowColumns(stems);
    PairsMultiset(stems);
  }

  /** A sequence repeats nothing exactly when no element occurs twice in its
      multiset. */
  lemma {:induction false} DistinctByCount(xs: seq<string>)
    ensures NoDuplicates(xs) <==> forall x :: multiset(xs)[x] <= 1
  {
    if |xs| > 0 {
      var h, t := xs[0], xs[1..];
      assert xs == [h] + t;
      assert multiset(xs) == multiset{h} + multiset(t);
      DistinctByCount(t);
      if NoDuplicates(xs) {
        forall i, j | 0 <= i < j < |t|
          ensures t[i] != t[j]
        {
          assert t[i] == xs[i + 1] && t[j] == xs[j + 1];
        }
        forall j | 0 <= j < |t|
          ensures t[j] != h
        {
          assert t[j] == xs[j + 1];
        }
      } else {
        var i, j :| 0 <= i < j < |xs| && xs[i] == xs[j];
        if i == 0 {
          assert t[j - 1] == h;
          assert multiset(xs)[h] >= 2;
        } else {
          assert t[i - 1] == t[j - 1];
          var x :| multiset(t)[x] > 1;
          assert multiset(xs)[x] > 1;
        }
      }
    }
  }

  /** Reordering keeps a sequence free of repeats. */
  lemma DistinctPermutation(a: seq<string>, b: seq<string>)
    requires multiset(a) == multiset(b) && NoDuplicates(a)
    ensures NoDuplicates(b)
  {
    DistinctByCount(a);
    DistinctByCount(b);
  }

  /** A criterion column that also mentions the other column's word: the
      explanation column of a criterion mentioning "Score", or the score
      column of a criterion mentioning "Explanation". */
  predicate MixedColumn(t: string, suffix: string) {
    || (suffix == ExplanationSuffix && Contains(t, "Score"))
    || (suffix == ScoreSuffix && Contains(t, "Explanation"))
  }

  /** Such a column passes both filters, so the sheet lists it twice for
      every time the criterion is listed: exactly twice when the criteria are
      distinct. */
  lemma {:induction false} WordInCriterionRepeatsColumn(stems: seq<string>, t: string, suffix: string)
    requires t in stems && MixedColumn(t, suffix)
    ensures !NoDuplicates(Layout(RowLayout(stems)))
    ensures Count(Layout(RowLayout(stems)), t + suffix) == 2 * Count(stems, t)
    ensures NoDuplicates(stems) ==> Count(Layout(RowLayout(stems)), t + suffix) == 2
  {
    MixedCount(stems, t, suffix);
    if NoDuplicates(stems) {
      var i :| 0 <= i < |stems| && stems[i] == t;
      CountDistinct(stems, i);
    }
    var cols := RowLayout(stems);
    var c := t + suffix;
    ColumnPairsMembership(stems, t);
    assert c in cols;
    MixedWords(t, suffix);
    var scored := Filter(cols, "Score");
    var explained := Filter(cols, "Explanation");
    FilterMembership(cols, "Score", c);
    FilterMembership(cols, "Explanation", c);
    RepeatedAcross(BaseColumns, scored, explained, c);
  }

  /** A mixed column mentions both words and is no fixed column. */
  lemma MixedWords(t: string, suffix: string)
    requires MixedColumn(t, suffix)
    ensures Contains(t + suffix, "Score") && Contains(t + suffix, "Explanation")
    ensures t + suffix !in BaseColumns + SummaryColumns
  {
    if suffix == ExplanationSuffix && Contains(t, "Score") {
      ContainsInPrefix(t, ExplanationSuffix, "Score");
      ExplanationSuffixMentionsExplanation();
      ContainsInSuffix(t, ExplanationSuffix, "Explanation");
    } else {
      ContainsInPrefix(t, ScoreSuffix, "Explanation");
      ScoreSuffixMentionsScore();
      ContainsInSuffix(t, ScoreSuffix, "Score");
    }
    SuffixedEnds(t, suffix);
    FixedColumnsNotCriterionColumns();
  }

  /** How often a mixed column is written. */
  lemma {:induction false} MixedCount(stems: seq<string>, t: string, suffix: string)
    requires MixedColumn(t, suffix)
    ensures Count(Layout(RowLayout(stems)), t + suffix) == 2 * Count(stems, t)
  {
    MixedWords(t, suffix);
    LayoutCount(RowLayout(stems), t + suffix);
    RowLayoutCount(stems, t, suffix);
  }

  /** A column mentioning both words, and not a base column, is written once
      per copy in the frame under each of the two filters. */
  lemma LayoutCount(cols: seq<string>, c: string)
    requires Contains(c, "Score") && Contains(c, "Explanation") && c !in BaseColumns
    ensures Count(Layout(cols), c) == 2 * Count(cols, c)
  {
    CountAppend(BaseColumns + Filter(cols, "Score"), Filter(cols, "Explanation"), c);
    CountAppend(BaseColumns, Filter(cols, "Score"), c);
    CountAbsent(BaseColumns, c);
    CountFilter(cols, "Score", c);
    CountFilter(cols, "Explanation", c);
  }

  /** A row lists each of a criterion's columns once per listing of the
      criterion. */
  lemma RowLayoutCount(stems: seq<string>, t: string, suffix: string)
    requires suffix == ScoreSuffix || suffix == ExplanationSuffix
    requires t + suffix !in BaseColumns + SummaryColumns
    ensures Count(RowLayout(stems), t + suffix) == Count(stems, t)
  {
    var c := t + suffix;
    CountAppend(BaseColumns + ColumnPairs(stems), SummaryColumns, c);
    CountAppend(BaseColumns, ColumnPairs(stems), c);
    CountAbsent(BaseColumns, c);
    CountAbsent(SummaryColumns, c);
    PairsCount(stems, t, suffix);
  }

  lemma {:induction false} PairsCount(stems: seq<string>, t: string, suffix: string)
    requires suffix == ScoreSuffix || suffix == ExplanationSuffix
    ensures Count(ColumnPairs(stems), t + suffix) == Count(stems, t)
  {
    if |stems| > 0 {
      var s := stems[0];
      var c := t + suffix;
      var rest := ColumnPairs(stems[1..]);
      PairsCount(stems[1..], t, suffix);
      CountAppend([s + ScoreSuffix, s + ExplanationSuffix], rest, c);
      ScoreIsNotExplanation(s, t);
      ScoreIsNotExplanation(t, s);
      if s + suffix == c {
        SuffixInjective(s, t, suffix);
      }
      assert [s + ScoreSuffix, s + ExplanationSuffix][1..] == [s + ExplanationSuffix];
      assert [s + ExplanationSuffix][1..] == [];
    }
  }

  lemma {:induction false} CountAppend(a: seq<string>, b: seq<string>, x: string)
    ensures Count(a + b, x) == Count(a, x) + Count(b, x)
  {
    if |a| > 0 {
      assert (a + b)[1..] == a[1..] + b;
      CountAppend(a[1..], b, x);
    } else {
      assert a + b == b;
    }
  }

  /** The filter keeps every copy of a column mentioning the word, and none
      of any other. */
  lemma {:induction false} CountFilter(cols: seq<string>, word: string, x: string)
    ensures Count(Filter(cols, word), x) == if Contains(x, word) then Count(cols, x) else 0
  {
    if |cols| > 0 {
      CountFilter(cols[1..], word, x);
      CountAppend(Keep(cols[0], word), Filter(cols[1..], word), x);
      if Contains(cols[0], word) {
        assert [cols[0]][1..] == [];
      }
    }
  }

  /** A value in both of the last two parts of a concatenation occurs twice. */
  lemma RepeatedAcross(a: seq<string>, b: seq<string>, d: seq<string>, c: string)
    requires c in b && c in d
    ensures !NoDuplicates(a + b + d)
  {
    var p :| 0 <= p < |b| && b[p] == c;
    var q :| 0 <= q < |d| && d[q] == c;
    var all := a + b + d;
    assert all[|a| + p] == c;
    assert all[|a| + |b| + q] == c;
  }

  // ---------------------------------------------------------------------------
  // Column widths

  /** `str(x)` for the float `hundredths / 100`: the integer part, a point,
      and the hundredths without a trailing zero (but at least one digit). */
  function DecimalText(hundredths: int): string {
    var a := if hundredths < 0 then -hundredths else hundredths;
    var frac := a % 100;
    (if hundredths < 0 then "-" else "") + NatToString(a / 100) + "." +
    (if frac % 10 == 0 then [DigitChar(frac / 10)] else [DigitChar(frac / 10), DigitChar(frac % 10)])
  }

  /** What `astype(str)` makes of a cell; a missing one is NaN. */
  function CellText(c: Option<Cell>): string {
    match c
    case None => "nan"
    case Some(TextCell(s)) => s
    case Some(IntCell(n)) => IntToString(n)
    case Some(DecimalCell(h)) => DecimalText(h)
  }

  function Max(a: int, b: int): int {
    if a < b then b else a
  }

  /** The length of the longest text, 0 when there is none. */
  function MaxLen(texts: seq<string>): (m: nat)
    ensures forall i | 0 <= i < |texts| :: |texts[i]| <= m
    ensures |texts| > 0 ==> exists i | 0 <= i < |texts| :: |texts[i]| == m
    ensures |texts| == 0 ==> m == 0
  {
    if |texts| == 0 then 0
    else
      var m := MaxLen(texts[..|texts| - 1]);
      assert forall i | 0 <= i < |texts| - 1 :: texts[..|texts| - 1][i] == texts[i];
      if |texts[|texts| - 1]| > m then |texts[|texts| - 1]| else m
  }

  /** `max(longest cell text, len(header)) + 2`: wide enough for the header
      and every cell, with two characters to spare, and no wider. */
  function Width(header: string, texts: seq<string>): (w: nat)
    ensures w >= |header| + 2
    ensures forall i | 0 <= i < |texts| :: w >= |texts[i]| + 2
    ensures w == |header| + 2 || exists i | 0 <= i < |texts| :: w == |texts[i]| + 2
  {
    Max(MaxLen(texts), |header|) + 2
  }

  /** The width computation as a loop over the cells. */
  method ColumnWidth(header: string, texts: seq<string>) returns (w: nat)
    ensures w == Width(header, texts)
  {
    var longest := 0;
    var i := 0;
    while i < |texts|
      invariant 0 <= i <= |texts|
      invariant longest == MaxLen(texts[..i])
    {
      assert texts[..i + 1][..i] == texts[..i];
      if |texts[i]| > longest {
        longest := |texts[i]|;
      }
      i := i + 1;
    }
    assert texts[..|texts|] == texts;
    w := Max(longest, |header|) + 2;
  }

  /** The cell texts of one column, row by row. */
  function ColumnTexts(col: string, rows: seq<Row>): seq<string> {
    seq(|rows|, i requires 0 <= i < |rows| => CellText(Get(rows[i], col)))
  }

  function Count(xs: seq<string>, x: string): nat {
    if |xs| == 0 then 0 else (if xs[0] == x then 1 else 0) + Count(xs[1..], x)
  }

  /** The width of every written column. Selecting a repeated column yields
      all its copies at once, and `apply(len)` then measures each copy as a
      whole: such a column's width is the number of rows or the header's
      length, whichever is larger, plus two. */
  function SheetWidths(layout: seq<string>, rows: seq<Row>): (ws: seq<nat>)
    ensures |ws| == |layout|
    ensures forall i | 0 <= i < |layout| :: ws[i] >= |layout[i]| + 2
  {
    seq(|layout|, i requires 0 <= i < |layout| =>
      if Count(layout, layout[i]) > 1 then Max(|rows|, |layout[i]|) + 2
      else Width(layout[i], ColumnTexts(layout[i], rows)))
  }

  /** The widths as the loop over the written columns computes them. */
  method ComputeWidths(layout: seq<string>, rows: seq<Row>) returns (ws: seq<nat>)
    ensures ws == SheetWidths(layout, rows)
  {
    ws := [];
    var i := 0;
    while i < |layout|
      invariant 0 <= i <= |layout|
      invariant ws == SheetWidths(layout, rows)[..i]
    {
      var w;
      if Count(layout, layout[i]) > 1 {
        w := Max(|rows|, |layout[i]|) + 2;
      } else {
        w := ColumnWidth(layout[i], ColumnTexts(layout[i], rows));
      }
      ws := ws + [w];
      i := i + 1;
    }
  }

  lemma {:induction false} CountDistinct(xs: seq<string>, i: nat)
    requires NoDuplicates(xs) && i < |xs|
    ensures Count(xs, xs[i]) == 1
  {
    if i == 0 {
      CountAbsent(xs[1..], xs[0]);
    } else {
      assert xs[1..][i - 1] == xs[i] != xs[0];
      CountDistinct(xs[1..], i - 1);
    }
  }

  lemma {:induction false} CountAbsent(xs: seq<string>, x: string)
    requires x !in xs
    ensures Count(xs, x) == 0
  {
    if |xs| > 0 {
      CountAbsent(xs[1..], x);
    }
  }

  /** A column written once gets `Width` over its own cells. */
  lemma SingleColumnWidth(layout: seq<string>, rows: seq<Row>, i: nat)
    requires NoDuplicates(layout) && i < |layout|
    ensures SheetWidths(layout, rows)[i] == Width(layout[i], ColumnTexts(layout[i], rows))
  {
    CountDistinct(layout, i);
  }

  /** When no column is written twice, every column is wide enough for every
      one of its cells. */
  lemma WidthsFitCells(layout: seq<string>, rows: seq<Row>)
    requires NoDuplicates(layout)
    ensures forall i, r | 0 <= i < |layout| && 0 <= r < |rows| ::
              SheetWidths(layout, rows)[i] >= |CellText(Get(rows[r], layout[i]))| + 2
  {
    forall i, r | 0 <= i < |layout| && 0 <= r < |rows|
      ensures SheetWidths(layout, rows)[i] >= |CellText(Get(rows[r], layout[i]))| + 2
    {
      SingleColumnWidth(layout, rows, i);
      assert ColumnTexts(layout[i], rows)[r] == CellText(Get(rows[r], layout[i]));
    }
  }

  /** ... and no wider than it must be: as wide as its header or its widest
      cell text, plus two. */
  lemma WidthsAreTight(layout: seq<string>, rows: seq<Row>)
    requires NoDuplicates(layout)
    ensures forall i | 0 <= i < |layout| ::
              SheetWidths(layout, rows)[i] == |layout[i]| + 2 ||
              exists r | 0 <= r < |rows| :: SheetWidths(layout, rows)[i] == |CellText(Get(rows[r], layout[i]))| + 2
  {
    forall i | 0 <= i < |layout|
      ensures SheetWidths(layout, rows)[i] == |layout[i]| + 2 ||
              exists r | 0 <= r < |rows| :: SheetWidths(layout, rows)[i] == |CellText(Get(rows[r], layout[i]))| + 2
    {
      SingleColumnWidth(layout, rows, i);
      var texts := ColumnTexts(layout[i], rows);
      if SheetWidths(layout, rows)[i] != |layout[i]| + 2 {
        var r :| 0 <= r < |texts| && SheetWidths(layout, rows)[i] == |texts[r]| + 2;
        assert texts[r] == CellText(Get(rows[r], layout[i]));
      }
    }
  }
}
