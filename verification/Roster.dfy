/**
 * The row-level part of `show_analysis_page` (app.py): dropping missing
 * cells from the score column, and keeping every row whose score equals the
 * column's maximum (or minimum) exactly, ties included.
 */
module Roster {

  import opened Wrappers
  import opened Statistics

  /**
   * One spreadsheet row: `name` stands for the row's other cells, `score`
   * for its parsed score cell, `None` when the cell is missing (NaN).
   */
  datatype Row = Row(name: string, score: Option<real>)

  /** `df[column].dropna().tolist()`: the present scores, in row order. */
  function ExtractScores(rows: seq<Row>): (scores: seq<real>)
    ensures |scores| <= |rows|
    ensures forall x :: x in scores <==> HasScore(rows, x)
  {
    if rows == [] then []
    else
      assert forall i :: 0 <= i < |rows| - 1 ==> rows[1..][i] == rows[i + 1];
      var rest := ExtractScores(rows[1..]);
      match rows[0].score
      case None => rest
      case Some(x) => [x] + rest
  }

  /** Some row of `rows` has the present score `x`. */
  predicate HasScore(rows: seq<Row>, x: real) {
    exists i :: 0 <= i < |rows| && rows[i].score == Some(x)
  }

  /** Extraction works row by row: extracting a concatenation concatenates the extractions. */
  lemma {:induction false} ExtractAppend(a: seq<Row>, b: seq<Row>)
    ensures ExtractScores(a + b) == ExtractScores(a) + ExtractScores(b)
    decreases |a|
  {
    if a != [] {
      assert (a + b)[0] == a[0] && (a + b)[1..] == a[1..] + b;
      ExtractAppend(a[1..], b);
    } else {
      assert a + b == b;
    }
  }

  /** Extraction drops a row with a missing cell and keeps a present score as it is. */
  lemma ExtractOne(row: Row)
    ensures ExtractScores([row]) == if row.score.Some? then [row.score.value] else []
  {
  }

  /** No present score is lost: the extracted list is as long as the number of present cells. */
  lemma {:induction false} ExtractCount(rows: seq<Row>)
    ensures |ExtractScores(rows)| == |set i | 0 <= i < |rows| && rows[i].score.Some?|
    decreases |rows|
  {
    if rows != [] {
      var n := |rows| - 1;
      var prefix := rows[..n];
      assert rows == prefix + [rows[n]];
      ExtractAppend(prefix, [rows[n]]);
      ExtractCount(prefix);
      var before := set i | 0 <= i < |prefix| && prefix[i].score.Some?;
      var extra := if rows[n].score.Some? then {n} else {};
      forall i | 0 <= i
        ensures (0 <= i < |rows| && rows[i].score.Some?) <==> i in before + extra
      {
        if i < n {
          assert rows[i] == prefix[i];
        }
      }
      assert (set i | 0 <= i < |rows| && rows[i].score.Some?) == before + extra;
      assert n !in before;
    }
  }

  /** `df[df[column] == v]`: the rows whose score is present and equal to `v`, in row order. */
  function WithScore(rows: seq<Row>, v: real): (sel: seq<Row>)
    ensures |sel| <= |rows|
    ensures forall r :: r in sel <==> r in rows && r.score == Some(v)
  {
    if rows == [] then []
    else
      assert rows == [rows[0]] + rows[1..];
      var rest := WithScore(rows[1..], v);
      if rows[0].score == Some(v) then [rows[0]] + rest else rest
  }

  /** Selection keeps row order: selecting from a concatenation concatenates the selections. */
  lemma {:induction false} WithScoreAppend(a: seq<Row>, b: seq<Row>, v: real)
    ensures WithScore(a + b, v) == WithScore(a, v) + WithScore(b, v)
    decreases |a|
  {
    if a != [] {
      assert (a + b)[0] == a[0] && (a + b)[1..] == a[1..] + b;
      WithScoreAppend(a[1..], b, v);
    } else {
      assert a + b == b;
    }
  }

  /** As many rows are selected as the extracted list holds copies of `v`. */
  lemma {:induction false} WithScoreCount(rows: seq<Row>, v: real)
    ensures |WithScore(rows, v)| == multiset(ExtractScores(rows))[v]
    decreases |rows|
  {
    if rows != [] {
      WithScoreCount(rows[1..], v);
    }
  }

  /**
   * `top_students`: the rows whose score equals the column maximum. Defined
   * when some score is present, which the caller's guard ensures.
   */
  function TopRows(rows: seq<Row>): (top: seq<Row>)
    requires ExtractScores(rows) != []
    ensures top != []
    ensures forall r :: r in top <==> r in rows && r.score.Some? && IsUpperBound(rows, r.score.value)
  {
    var scores := ExtractScores(rows);
    var best := Max(scores);
    assert HasScore(rows, best);
    forall i | 0 <= i < |rows| && rows[i].score.Some?
      ensures rows[i].score.value <= best
    {
      assert HasScore(rows, rows[i].score.value);
    }
    assert IsUpperBound(rows, best);
    forall r | r in rows && r.score.Some? && IsUpperBound(rows, r.score.value)
      ensures r.score == Some(best)
    {
      assert HasScore(rows, r.score.value);
    }
    WithScore(rows, best)
  }

  /** `low_students`: the rows whose score equals the column minimum. */
  function BottomRows(rows: seq<Row>): (bottom: seq<Row>)
    requires ExtractScores(rows) != []
    ensures bottom != []
    ensures forall r :: r in bottom <==> r in rows && r.score.Some? && IsLowerBound(rows, r.score.value)
  {
    var scores := ExtractScores(rows);
    var worst := Min(scores);
    assert HasScore(rows, worst);
    forall i | 0 <= i < |rows| && rows[i].score.Some?
      ensures rows[i].score.value >= worst
    {
      assert HasScore(rows, rows[i].score.value);
    }
    assert IsLowerBound(rows, worst);
    forall r | r in rows && r.score.Some? && IsLowerBound(rows, r.score.value)
      ensures r.score == Some(worst)
    {
      assert HasScore(rows, r.score.value);
    }
    WithScore(rows, worst)
  }

  /** Every tie on the maximum is kept: one top row per occurrence of the maximum score. */
  lemma TopRowsCount(rows: seq<Row>)
    requires ExtractScores(rows) != []
    ensures |TopRows(rows)| == multiset(ExtractScores(rows))[Max(ExtractScores(rows))]
  {
    WithScoreCount(rows, Max(ExtractScores(rows)));
  }

  /** Every tie on the minimum is kept: one bottom row per occurrence of the minimum score. */
  lemma BottomRowsCount(rows: seq<Row>)
    requires ExtractScores(rows) != []
    ensures |BottomRows(rows)| == multiset(ExtractScores(rows))[Min(ExtractScores(rows))]
  {
    WithScoreCount(rows, Min(ExtractScores(rows)));
  }

  /** No present score in `rows` exceeds `v`. */
  predicate IsUpperBound(rows: seq<Row>, v: real) {
    forall i :: 0 <= i < |rows| && rows[i].score.Some? ==> rows[i].score.value <= v
  }

  /** No present score in `rows` is below `v`. */
  predicate IsLowerBound(rows: seq<Row>, v: real) {
    forall i :: 0 <= i < |rows| && rows[i].score.Some? ==> v <= rows[i].score.value
  }
}
