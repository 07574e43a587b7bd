/** `score`: the corpus-level EM and F1 of a set of predictions against a set
    of references, both keyed by question ID, averaged over the IDs the two
    have in common. */
module Scorer {
  import opened Metrics

  datatype Result<T, E> = Ok(value: T) | Err(error: E)

  /** The `ValueError` raised when no question ID has both a prediction and
      references. */
  datatype ScoreError = NoCommonQuestionIds

  /** The two warnings `score` prints, with the number of IDs they report. */
  datatype Warning =
    | ReferencesWithoutPredictions(count: nat)
    | PredictionsWithoutReferences(count: nat)

  /** The dictionary `score` returns. */
  datatype Summary = Summary(
    em: real,
    f1: real,
    numEvaluated: nat,
    totalPredictions: nat,
    totalReferences: nat)

  datatype Metric = EM | F1Metric

  type Predictions = map<string, string>
  type References = map<string, seq<string>>

  /** The question IDs that have both a prediction and references. */
  function CommonIds(predictions: Predictions, references: References): (ids: set<string>)
    ensures forall q :: q in ids <==> q in predictions && q in references
  {
    predictions.Keys * references.Keys
  }

  /** The score of one question: the best match of its prediction over its
      references, on the given metric. */
  function QuestionScore(predictions: Predictions, references: References, q: string, m: Metric): real
    requires q in predictions && q in references
  {
    match m
    case EM => MaxExactMatch(predictions[q], references[q]) as real
    case F1Metric => MaxF1(predictions[q], references[q])
  }

  /** Each question scores between 0 and 1, and its EM never exceeds its F1. */
  lemma QuestionScoreBounds(predictions: Predictions, references: References, q: string)
    requires q in predictions && q in references
    ensures 0.0 <= QuestionScore(predictions, references, q, EM) <= 1.0
    ensures 0.0 <= QuestionScore(predictions, references, q, F1Metric) <= 1.0
    ensures QuestionScore(predictions, references, q, EM) <= QuestionScore(predictions, references, q, F1Metric)
  {
    MaxExactMatchSpec(predictions[q], references[q]);
    MaxF1Spec(predictions[q], references[q]);
    if MaxExactMatch(predictions[q], references[q]) == 1 {
      MaxExactMatchImpliesMaxF1(predictions[q], references[q]);
    }
  }

  /** An arbitrary element of a non-empty set. */
  ghost function Pick(s: set<string>): (q: string)
    requires s != {}
    ensures q in s
  {
    var q :| q in s; q
  }

  /** The scores of the given questions on one metric, keyed by ID. */
  ghost function ScoresOf(ids: set<string>, predictions: Predictions, references: References, m: Metric): (scores: map<string, real>)
    requires ids <= CommonIds(predictions, references)
    ensures scores.Keys == ids
    decreases |ids|
  {
    if ids == {} then map[]
    else
      var q := Pick(ids);
      ScoresOf(ids - {q}, predictions, references, m)[q := QuestionScore(predictions, references, q, m)]
  }

  /** Every entry of the map is that question's score. */
  lemma {:induction false} ScoresOfLookup(ids: set<string>, predictions: Predictions, references: References, m: Metric, q: string)
    requires ids <= CommonIds(predictions, references) && q in ids
    ensures ScoresOf(ids, predictions, references, m)[q] == QuestionScore(predictions, references, q, m)
    decreases |ids|
  {
    if q != Pick(ids) {
      ScoresOfLookup(ids - {Pick(ids)}, predictions, references, m, q);
    }
  }

  /** Every common question's score on one metric. */
  ghost function Scores(predictions: Predictions, references: References, m: Metric): (scores: map<string, real>)
    ensures scores.Keys == CommonIds(predictions, references)
  {
    ScoresOf(CommonIds(predictions, references), predictions, references, m)
  }

  /** `scores` holds the score of every common question on metric `m`, and
      nothing else. */
  ghost predicate IsScoreMap(predictions: Predictions, references: References, scores: map<string, real>, m: Metric) {
    && scores.Keys == CommonIds(predictions, references)
    && forall q {:trigger QuestionScore(predictions, references, q, m)} ::
         q in scores ==> scores[q] == QuestionScore(predictions, references, q, m)
  }

  /** `Scores` is the score map of its metric. */
  lemma ScoresAreScoreMap(predictions: Predictions, references: References, m: Metric)
    ensures IsScoreMap(predictions, references, Scores(predictions, references, m), m)
  {
    forall q | q in Scores(predictions, references, m)
      ensures Scores(predictions, references, m)[q] == QuestionScore(predictions, references, q, m)
    {
      ScoresOfLookup(CommonIds(predictions, references), predictions, references, m, q);
    }
  }

  /** Every entry of the two score maps lies in `[0, 1]`, EM below F1. */
  lemma ScoresBounds(predictions: Predictions, references: References)
    ensures forall q :: q in CommonIds(predictions, references) ==>
      && 0.0 <= Scores(predictions, references, EM)[q]
      && Scores(predictions, references, EM)[q] <= Scores(predictions, references, F1Metric)[q]
      && Scores(predictions, references, F1Metric)[q] <= 1.0
  {
    forall q | q in CommonIds(predictions, references)
      ensures 0.0 <= Scores(predictions, references, EM)[q]
      ensures Scores(predictions, references, EM)[q] <= Scores(predictions, references, F1Metric)[q]
      ensures Scores(predictions, references, F1Metric)[q] <= 1.0
    {
      ScoresOfLookup(CommonIds(predictions, references), predictions, references, EM, q);
      ScoresOfLookup(CommonIds(predictions, references), predictions, references, F1Metric, q);
      QuestionScoreBounds(predictions, references, q);
    }
  }

  /** A prediction that is one of its own references scores 1 on both metrics. */
  lemma ScoresPerfect(predictions: Predictions, references: References, m: Metric, q: string)
    requires q in predictions && q in references && predictions[q] in references[q]
    ensures Scores(predictions, references, m)[q] == 1.0
  {
    ScoresOfLookup(CommonIds(predictions, references), predictions, references, m, q);
    ReferenceItselfIsPerfect(predictions[q], references[q]);
  }

  /** The sum of the scores of a set of IDs. */
  ghost function Total(ids: set<string>, scores: map<string, real>): real
    requires ids <= scores.Keys
    decreases |ids|
  {
    if ids == {} then 0.0
    else
      var q := Pick(ids);
      scores[q] + Total(ids - {q}, scores)
  }

  /** The total can be taken apart at any element: it does not depend on the
      order in which the IDs are visited. */
  lemma {:induction false} TotalRemove(ids: set<string>, scores: map<string, real>, x: string)
    requires ids <= scores.Keys && x in ids
    ensures Total(ids, scores) == scores[x] + Total(ids - {x}, scores)
    decreases |ids|
  {
    var y := Pick(ids);
    if y != x {
      TotalRemove(ids - {y}, scores, x);
      TotalRemove(ids - {x}, scores, y);
      assert ids - {y} - {x} == ids - {x} - {y};
    }
  }

  lemma SumAppend(xs: seq<real>, x: real)
    ensures Sum(xs + [x]) == Sum(xs) + x
  {
    assert (xs + [x])[..|xs|] == xs;
  }

  /** Totals of scores in `[0, 1]` lie in `[0, n]`, and a pointwise smaller
      score map has a smaller total. */
  lemma {:induction false} TotalBounds(ids: set<string>, lower: map<string, real>, upper: map<string, real>)
    requires ids <= lower.Keys && ids <= upper.Keys
    requires forall q :: q in ids ==> 0.0 <= lower[q] <= upper[q] <= 1.0
    ensures 0.0 <= Total(ids, lower) <= Total(ids, upper) <= |ids| as real
    decreases |ids|
  {
    if ids != {} {
      var q := Pick(ids);
      TotalRemove(ids, upper, q);
      TotalBounds(ids - {q}, lower, upper);
    }
  }

  /** Scores that are all 1 total the number of IDs. */
  lemma {:induction false} TotalOnes(ids: set<string>, scores: map<string, real>)
    requires ids <= scores.Keys
    requires forall q :: q in ids ==> scores[q] == 1.0
    ensures Total(ids, scores) == |ids| as real
    decreases |ids|
  {
    if ids != {} {
      TotalOnes(ids - {Pick(ids)}, scores);
    }
  }

  /** The corpus score on one metric: the mean question score over the common
      IDs. */
  ghost function Mean(predictions: Predictions, references: References, m: Metric): real
    requires CommonIds(predictions, references) != {}
  {
    var ids := CommonIds(predictions, references);
    Total(ids, Scores(predictions, references, m)) / |ids| as real
  }

  /** Both corpus scores lie in `[0, 1]`, EM at or below F1. */
  lemma MeanBounds(predictions: Predictions, references: References)
    requires CommonIds(predictions, references) != {}
    ensures 0.0 <= Mean(predictions, references, EM)
    ensures Mean(predictions, references, EM) <= Mean(predictions, references, F1Metric)
    ensures Mean(predictions, references, F1Metric) <= 1.0
  {
    var ids := CommonIds(predictions, references);
    ScoresBounds(predictions, references);
    TotalBounds(ids, Scores(predictions, references, EM), Scores(predictions, references, F1Metric));
    DivideBounds(Total(ids, Scores(predictions, references, EM)),
                 Total(ids, Scores(predictions, references, F1Metric)), |ids|);
  }

  /** When every prediction is one of its own references, both corpus scores
      are 1. */
  lemma MeanPerfect(predictions: Predictions, references: References, m: Metric)
    requires CommonIds(predictions, references) != {}
    requires forall q :: q in CommonIds(predictions, references) ==> predictions[q] in references[q]
    ensures Mean(predictions, references, m) == 1.0
  {
    var ids := CommonIds(predictions, references);
    forall q | q in ids ensures Scores(predictions, references, m)[q] == 1.0 {
      ScoresPerfect(predictions, references, m, q);
    }
    var total := Total(ids, Scores(predictions, references, m));
    TotalOnes(ids, Scores(predictions, references, m));
    assert total == |ids| as real;
    DivideSelf(total, |ids|);
  }

  lemma DivideSelf(a: real, n: nat)
    requires n > 0 && a == n as real
    ensures a / n as real == 1.0
  {
  }

  /** Dividing two totals `0 <= a <= b <= n` by `n` keeps their order and
      keeps them within `[0, 1]`. */
  lemma DivideBounds(a: real, b: real, n: nat)
    requires n > 0 && 0.0 <= a <= b <= n as real
    ensures 0.0 <= a / n as real <= b / n as real <= 1.0
  {
    var d := n as real;
    assert a / d <= b / d;
    assert b / d <= d / d;
  }

  /** `sum(xs)`. */
  function Sum(xs: seq<real>): real {
    if |xs| == 0 then 0.0 else Sum(xs[..|xs| - 1]) + xs[|xs| - 1]
  }

  /** The warnings for the IDs with references but no prediction and the IDs
      with a prediction but no references: one per non-empty set, in that
      order, each with the size of its set. */
  function WarningsFor(missingPredictions: set<string>, missingReferences: set<string>): (ws: seq<Warning>)
    ensures ReferencesWithoutPredictions(|missingPredictions|) in ws <==> missingPredictions != {}
    ensures PredictionsWithoutReferences(|missingReferences|) in ws <==> missingReferences != {}
    ensures forall w :: w in ws ==>
      || w == ReferencesWithoutPredictions(|missingPredictions|)
      || w == PredictionsWithoutReferences(|missingReferences|)
    ensures |ws| <= 2
    ensures |ws| == 2 ==> ws[0].ReferencesWithoutPredictions? && ws[1].PredictionsWithoutReferences?
  {
    var first := ReferencesWithoutPredictions(|missingPredictions|);
    var second := PredictionsWithoutReferences(|missingReferences|);
    if missingPredictions != {} && missingReferences != {} then [first, second]
    else if missingPredictions != {} then [first]
    else if missingReferences != {} then [second]
    else []
  }

  /** The warnings `score` prints once it has found common IDs: first the
      IDs with references but no prediction, then the IDs with a prediction
      but no references, each only when there is at least one, and nothing
      else. */
  function MissingWarnings(predictions: Predictions, references: References): (ws: seq<Warning>)
    ensures ReferencesWithoutPredictions(|references.Keys - predictions.Keys|) in ws
      <==> references.Keys - predictions.Keys != {}
    ensures PredictionsWithoutReferences(|predictions.Keys - references.Keys|) in ws
      <==> predictions.Keys - references.Keys != {}
    ensures forall w :: w in ws ==>
      || w == ReferencesWithoutPredictions(|references.Keys - predictions.Keys|)
      || w == PredictionsWithoutReferences(|predictions.Keys - references.Keys|)
    ensures |ws| <= 2
    ensures |ws| == 2 ==> ws[0].ReferencesWithoutPredictions? && ws[1].PredictionsWithoutReferences?
  {
    WarningsFor(references.Keys - predictions.Keys, predictions.Keys - references.Keys)
  }

  lemma IntersectionBound(a: set<string>, b: set<string>)
    ensures |a * b| <= |a| && |a * b| <= |b|
  {
    assert a == (a - b) + (a * b);
    assert b == (b - a) + (a * b);
  }

  /** One pass of the loop body of `score`: the best-match EM and F1 of
      question `q`, which are its entries in the score maps. */
  method ScoreQuestion(predictions: Predictions, references: References, q: string,
                       ghost ems: map<string, real>, ghost f1s: map<string, real>)
    returns (em: real, f1: real)
    requires IsScoreMap(predictions, references, ems, EM)
    requires IsScoreMap(predictions, references, f1s, F1Metric)
    requires q in ems
    ensures q in f1s && em == ems[q] && f1 == f1s[q]
  {
    var maxEm, maxF1 := ComputeMaxEmF1(predictions[q], references[q]);
    assert ems[q] == QuestionScore(predictions, references, q, EM);
    assert f1s[q] == QuestionScore(predictions, references, q, F1Metric);
    em, f1 := maxEm as real, maxF1;
  }

  /** `score`: fails when no question ID has both a prediction and references;
      otherwise the mean best-match EM and F1 over the common IDs, with the
      three counts. */
  method Score(predictions: Predictions, references: References)
    returns (r: Result<Summary, ScoreError>, warnings: seq<Warning>)
    ensures r.Err? <==> CommonIds(predictions, references) == {}
    ensures r.Err? ==> r.error == NoCommonQuestionIds && warnings == []
    ensures r.Ok? ==> warnings == MissingWarnings(predictions, references)
    ensures r.Ok? ==>
      && r.value.numEvaluated == |CommonIds(predictions, references)|
      && r.value.totalPredictions == |predictions|
      && r.value.totalReferences == |references|
      && r.value.em == Mean(predictions, references, EM)
      && r.value.f1 == Mean(predictions, references, F1Metric)
    ensures r.Ok? ==> r.value.numEvaluated <= r.value.totalPredictions && r.value.numEvaluated <= r.value.totalReferences
    ensures r.Ok? ==> 0.0 <= r.value.em <= r.value.f1 <= 1.0
  {
    var common := predictions.Keys * references.Keys;
    if common == {} {
      return Err(NoCommonQuestionIds), [];
    }
    warnings := MissingWarnings(predictions, references);
    ghost var ems := Scores(predictions, references, EM);
    ghost var f1s := Scores(predictions, references, F1Metric);
    ScoresAreScoreMap(predictions, references, EM);
    ScoresAreScoreMap(predictions, references, F1Metric);

    var emScores: seq<real> := [];
    var f1Scores: seq<real> := [];
    var todo := common;
    while todo != {}
      invariant todo <= ems.Keys
      invariant |emScores| + |todo| == |ems.Keys| && |f1Scores| == |emScores|
      invariant Sum(emScores) + Total(todo, ems) == Total(ems.Keys, ems)
      invariant Sum(f1Scores) + Total(todo, f1s) == Total(f1s.Keys, f1s)
      decreases |todo|
    {
      var q :| q in todo;
      var em, f1 := ScoreQuestion(predictions, references, q, ems, f1s);
      TotalRemove(todo, ems, q);
      TotalRemove(todo, f1s, q);
      SumAppend(emScores, em);
      SumAppend(f1Scores, f1);
      emScores := emScores + [em];
      f1Scores := f1Scores + [f1];
      todo := todo - {q};
    }
    var n := |emScores|;
    IntersectionBound(predictions.Keys, references.Keys);
    MeanBounds(predictions, references);
    r := Ok(Summary(Sum(emScores) / n as real, Sum(f1Scores) / n as real,
                    |common|, |predictions|, |references|));
  }
}
