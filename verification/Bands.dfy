/**
 * The grade-band histogram of `percentage_distribution` (app.py).
 * Every score is sent down a fixed cascade of thresholds (>= 90, >= 80,
 * >= 70, >= 60, otherwise) and the counter of the band it lands in goes up.
 */
module Bands {

  /** The five bands, declared in the order of the source dictionary's keys. */
  datatype Band = Band90To100 | Band80To89 | Band70To79 | Band60To69 | BandBelow60
  {
    /** The dictionary key the source uses for this band. */
    function Label(): string {
      match this
      case Band90To100 => "90-100"
      case Band80To89 => "80-89"
      case Band70To79 => "70-79"
      case Band60To69 => "60-69"
      case BandBelow60 => "<60"
    }

    /**
     * The band read as a half-open interval of the reals. There is no upper
     * bound on the top band and no lower bound on the bottom one, as in the
     * source, which never range-checks a score.
     */
    predicate Contains(score: real) {
      match this
      case Band90To100 => 90.0 <= score
      case Band80To89 => 80.0 <= score < 90.0
      case Band70To79 => 70.0 <= score < 80.0
      case Band60To69 => 60.0 <= score < 70.0
      case BandBelow60 => score < 60.0
    }
  }

  /** The dictionary keys, in the source's insertion order. */
  const Keys: seq<string> :=
    [Band90To100.Label(), Band80To89.Label(), Band70To79.Label(), Band60To69.Label(), BandBelow60.Label()]

  /** The threshold cascade: the band of one score. */
  function Classify(score: real): (b: Band)
    ensures b.Contains(score)
    ensures forall c: Band :: c.Contains(score) ==> c == b
  {
    if score >= 90.0 then Band90To100
    else if score >= 80.0 then Band80To89
    else if score >= 70.0 then Band70To79
    else if score >= 60.0 then Band60To69
    else BandBelow60
  }

  /**
   * The edges of the cascade: 90 itself is in the top band, a score just
   * under 90 in "80-89", one just under 60 in "<60"; scores above 100 and
   * below 0 are not rejected but land in the top and bottom bands.
   */
  lemma ClassifyEdges(epsilon: real)
    requires 0.0 < epsilon <= 10.0
    ensures Classify(90.0) == Band90To100
    ensures Classify(90.0 - epsilon) == Band80To89
    ensures Classify(60.0 - epsilon) == BandBelow60
    ensures forall score :: score > 100.0 ==> Classify(score) == Band90To100
    ensures forall score :: score < 0.0 ==> Classify(score) == BandBelow60
  {
  }

  /** The dictionary of counters, one field per key. */
  datatype Bins = Bins(count90To100: nat, count80To89: nat, count70To79: nat, count60To69: nat, countBelow60: nat)
  {
    /** The counter stored under the key of `b`. */
    function Get(b: Band): nat {
      match b
      case Band90To100 => count90To100
      case Band80To89 => count80To89
      case Band70To79 => count70To79
      case Band60To69 => count60To69
      case BandBelow60 => countBelow60
    }

    /** The sum of the dictionary's values. */
    function Total(): nat {
      count90To100 + count80To89 + count70To79 + count60To69 + countBelow60
    }

    /** `bins[key] += 1` for the key of `b`. */
    function Inc(b: Band): (r: Bins)
      ensures r.Get(b) == Get(b) + 1
      ensures forall c: Band :: c != b ==> r.Get(c) == Get(c)
      ensures r.Total() == Total() + 1
    {
      match b
      case Band90To100 => this.(count90To100 := count90To100 + 1)
      case Band80To89 => this.(count80To89 := count80To89 + 1)
      case Band70To79 => this.(count70To79 := count70To79 + 1)
      case Band60To69 => this.(count60To69 := count60To69 + 1)
      case BandBelow60 => this.(countBelow60 := countBelow60 + 1)
    }

    /** The same counters as the string-keyed dictionary the source returns. */
    function AsDict(): (d: map<string, nat>)
      ensures d.Keys == set k | k in Keys
      ensures forall b: Band :: b.Label() in d && d[b.Label()] == Get(b)
    {
      map[Band90To100.Label() := count90To100, Band80To89.Label() := count80To89,
          Band70To79.Label() := count70To79, Band60To69.Label() := count60To69,
          BandBelow60.Label() := countBelow60]
    }
  }

  /** The dictionary as first built: every key present with counter 0. */
  const NoScores: Bins := Bins(0, 0, 0, 0, 0)

  /**
   * What the loop has built after it has processed `scores`: the counters
   * after the prefix, with the last score's band incremented.
   */
  function Distribution(scores: seq<real>): Bins
    decreases |scores|
  {
    if scores == [] then NoScores
    else Distribution(scores[..|scores| - 1]).Inc(Classify(scores[|scores| - 1]))
  }

  /** The positions of the scores that lie in the interval of `b`. */
  function Members(scores: seq<real>, b: Band): set<nat> {
    set i: nat | i < |scores| && b.Contains(scores[i])
  }

  /** An empty score list gives every key a count of zero. */
  lemma EmptyDistribution()
    ensures forall b: Band :: Distribution([]).Get(b) == 0
    ensures Distribution([]).AsDict() == map k | k in Keys :: 0
  {
  }

  /** One more score raises exactly one counter, by one, and leaves the other four. */
  lemma DistributionStep(scores: seq<real>, score: real)
    ensures Distribution(scores + [score]).Get(Classify(score)) == Distribution(scores).Get(Classify(score)) + 1
    ensures forall c: Band :: c != Classify(score) ==> Distribution(scores + [score]).Get(c) == Distribution(scores).Get(c)
  {
  }

  /** No score is dropped or counted twice: the counters add up to the number of scores. */
  lemma {:induction false} DistributionTotal(scores: seq<real>)
    ensures Distribution(scores).Total() == |scores|
    decreases |scores|
  {
    if scores != [] {
      DistributionTotal(scores[..|scores| - 1]);
    }
  }

  /** Appending a score adds its position to the members of its band only. */
  lemma MembersSnoc(prefix: seq<real>, score: real, b: Band)
    ensures Members(prefix + [score], b) == Members(prefix, b) + (if b.Contains(score) then {|prefix|} else {})
  {
  }

  /** Each counter is the number of scores lying in its band's interval. */
  lemma {:induction false} DistributionCounts(scores: seq<real>, b: Band)
    ensures Distribution(scores).Get(b) == |Members(scores, b)|
    decreases |scores|
  {
    if scores == [] {
      assert Members(scores, b) == {};
    } else {
      var n := |scores| - 1;
      var prefix, last := scores[..n], scores[n];
      assert scores == prefix + [last];
      DistributionCounts(prefix, b);
      DistributionStep(prefix, last);
      MembersSnoc(prefix, last, b);
      assert n !in Members(prefix, b);
    }
  }

  /** The counters after one more position of `scores`. */
  lemma DistributionPrefix(scores: seq<real>, i: nat)
    requires i < |scores|
    ensures Distribution(scores[..i + 1]) == Distribution(scores[..i]).Inc(Classify(scores[i]))
  {
    assert scores[..i + 1][..i] == scores[..i];
  }

  /** Every counter at once is the number of scores in its band. */
  lemma DistributionCountsAll(scores: seq<real>)
    ensures forall b: Band :: Distribution(scores).Get(b) == |Members(scores, b)|
  {
    forall b: Band
      ensures Distribution(scores).Get(b) == |Members(scores, b)|
    {
      DistributionCounts(scores, b);
    }
  }

  /** `percentage_distribution`: the counters built by one pass over the scores. */
  method PercentageDistribution(scores: seq<real>) returns (bins: Bins)
    ensures bins == Distribution(scores)
    ensures bins.Total() == |scores|
    ensures forall b: Band :: bins.Get(b) == |Members(scores, b)|
  {
    bins := NoScores;
    for i := 0 to |scores|
      invariant bins == Distribution(scores[..i])
    {
      var score := scores[i];
      DistributionPrefix(scores, i);
      ghost var next := bins.Inc(Classify(score));
      if score >= 90.0 {
        bins := bins.(count90To100 := bins.count90To100 + 1);
      } else if score >= 80.0 {
        bins := bins.(count80To89 := bins.count80To89 + 1);
      } else if score >= 70.0 {
        bins := bins.(count70To79 := bins.count70To79 + 1);
      } else if score >= 60.0 {
        bins := bins.(count60To69 := bins.count60To69 + 1);
      } else {
        bins := bins.(countBelow60 := bins.countBelow60 + 1);
      }
      assert bins == next;
    }
    assert scores[..|scores|] == scores;
    DistributionTotal(scores);
    DistributionCountsAll(scores);
  }
}
