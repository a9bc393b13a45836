/**
 * The computation `show_analysis_page` (app.py) performs once the score
 * column has been read: the count, the mean, the extremes with the rows that
 * reach them, and the band histogram, all skipped when no score is present.
 */
module Analysis {

  import opened Wrappers
  import opened Statistics
  import opened Bands
  import opened Roster

  /** Everything the page shows about one uploaded roster. */
  datatype Summary = Summary(
    count: nat,
    average: real,
    highest: real,
    lowest: real,
    topRows: seq<Row>,
    bottomRows: seq<Row>,
    distribution: Bins)

  /**
   * The analysis of one roster. `None` when every score cell is missing:
   * the source's `if scores:` guard then shows nothing and never divides.
   */
  method AnalyzeScores(rows: seq<Row>) returns (result: Option<Summary>)
    ensures result.None? <==> ExtractScores(rows) == []
    ensures result.Some? ==>
      var scores, s := ExtractScores(rows), result.value;
      && s.count == |scores|
      && s.average == Average(scores)
      && s.highest == Max(scores) && s.lowest == Min(scores)
      && s.lowest <= s.average <= s.highest
      && s.topRows == TopRows(rows) && s.bottomRows == BottomRows(rows)
      && s.topRows != [] && s.bottomRows != []
      && s.distribution == Distribution(scores)
      && s.distribution.Total() == s.count
  {
    var scores := ExtractScores(rows);
    if scores == [] {
      return None;
    }
    var average := Average(scores);
    var highest, lowest := Max(scores), Min(scores);
    var top, bottom := TopRows(rows), BottomRows(rows);
    var bins := PercentageDistribution(scores);
    result := Some(Summary(|scores|, average, highest, lowest, top, bottom, bins));
  }

  /** The worked roster: two students tie on 95, one has 40. */
  predicate IsExampleRoster(rows: seq<Row>) {
    rows == [Row("A", Some(95.0)), Row("B", Some(95.0)), Row("C", Some(40.0))]
  }

  /** Extraction of the worked roster keeps all three scores, in order. */
  lemma ExampleScores(rows: seq<Row>)
    requires IsExampleRoster(rows)
    ensures ExtractScores(rows) == [95.0, 95.0, 40.0]
  {
    var tail1, tail2 := rows[1..], rows[2..];
    assert tail1[1..] == tail2 && tail2[1..] == [];
    assert ExtractScores(tail2) == [40.0];
    assert ExtractScores(tail1) == [95.0, 40.0];
  }

  /** The worked roster's scores average 230 / 3, with highest 95 and lowest 40. */
  lemma ExampleStatistics(scores: seq<real>)
    requires scores == [95.0, 95.0, 40.0]
    ensures Average(scores) == 230.0 / 3.0
    ensures Max(scores) == 95.0 && Min(scores) == 40.0
  {
    var tail1, tail2 := scores[1..], scores[2..];
    assert tail1 == [95.0, 40.0] && tail2 == [40.0] && tail1[1..] == tail2 && tail2[1..] == [];
    assert Sum(tail2) == 40.0 && Max(tail2) == 40.0 && Min(tail2) == 40.0;
    assert Sum(tail1) == 135.0 && Max(tail1) == 95.0 && Min(tail1) == 40.0;
    assert Sum(scores) == 230.0;
  }

  /** Both tied rows are top rows; the row with 40 is the only bottom row. */
  lemma ExampleExtremes(rows: seq<Row>)
    requires IsExampleRoster(rows)
    ensures TopRows(rows) == rows[..2]
    ensures BottomRows(rows) == [rows[2]]
  {
    ExampleScores(rows);
    ExampleStatistics(ExtractScores(rows));
    var a, b, c := [rows[0]], [rows[1]], [rows[2]];
    assert rows == a + (b + c) && rows[..2] == a + b;
    WithScoreAppend(a, b + c, 95.0);
    WithScoreAppend(b, c, 95.0);
    WithScoreAppend(a, b + c, 40.0);
    WithScoreAppend(b, c, 40.0);
    assert WithScore(a, 95.0) == a && WithScore(b, 95.0) == b && WithScore(c, 95.0) == [];
    assert WithScore(a, 40.0) == [] && WithScore(b, 40.0) == [] && WithScore(c, 40.0) == c;
  }

  /** Two scores of the worked roster fall in "90-100" and one in "<60". */
  lemma ExampleDistribution(scores: seq<real>)
    requires scores == [95.0, 95.0, 40.0]
    ensures Distribution(scores) == Bins(2, 0, 0, 0, 1)
  {
    assert scores[..2][..1][..0] == [];
    assert scores[..2][..1][0] == 95.0 && scores[..2][1] == 95.0;
    assert Distribution(scores[..2][..1]) == Bins(1, 0, 0, 0, 0);
    assert Distribution(scores[..2]) == Bins(2, 0, 0, 0, 0);
  }

  /** The analysis of the worked roster, end to end. */
  lemma ExampleAnalysis(rows: seq<Row>)
    requires IsExampleRoster(rows)
    ensures var scores := ExtractScores(rows);
      && scores != []
      && Average(scores) == 230.0 / 3.0
      && TopRows(rows) == rows[..2] && BottomRows(rows) == [rows[2]]
      && Distribution(scores) == Bins(2, 0, 0, 0, 1)
  {
    var scores := ExtractScores(rows);
    ExampleScores(rows);
    ExampleStatistics(scores);
    ExampleExtremes(rows);
    ExampleDistribution(scores);
  }
}
