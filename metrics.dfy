/** Per-pair scoring: `_compute_em`, `_compute_f1` and the best-of-references
    loop `_compute_max_em_f1`.  Scores are exact: counts are naturals and F1 is
    a real number. */
module Metrics {
  import opened Text
  import opened Normalizer

  function Min(a: nat, b: nat): nat {
    if a <= b then a else b
  }

  function MaxNat(a: nat, b: nat): nat {
    if a >= b then a else b
  }

  function MaxReal(a: real, b: real): real {
    if a >= b then a else b
  }

  /** The tokens a score compares: the normalised answer, split on whitespace. */
  function Tokens(text: string): seq<string> {
    Split(Normalize(text))
  }

  /** `_compute_em`: 1 when the two answers normalise to the same string. */
  function ExactMatch(truth: string, prediction: string): (r: nat)
    ensures r <= 1
    ensures r == 1 <==> Normalize(truth) == Normalize(prediction)
  {
    if Normalize(truth) == Normalize(prediction) then 1 else 0
  }

  /** Exact match does not care which side is the reference. */
  lemma ExactMatchSymmetric(a: string, b: string)
    ensures ExactMatch(a, b) == ExactMatch(b, a)
  {
  }

  /** `tokens.count(w)`. */
  function Count(w: string, tokens: seq<string>): nat {
    multiset(tokens)[w]
  }

  predicate Distinct(ws: seq<string>) {
    forall i, j :: 0 <= i < j < |ws| ==> ws[i] != ws[j]
  }

  /** `set(p) & set(t)`, enumerated once each, in the order the tokens first
      occur in `p`. */
  function CommonTokens(p: seq<string>, t: seq<string>): seq<string> {
    if |p| == 0 then []
    else
      var w := p[|p| - 1];
      var c := CommonTokens(p[..|p| - 1], t);
      if w in t && w !in c then c + [w] else c
  }

  /** Every token in both lists is enumerated, exactly once. */
  lemma {:induction false} CommonTokensSpec(p: seq<string>, t: seq<string>)
    ensures Distinct(CommonTokens(p, t))
    ensures forall w :: w in CommonTokens(p, t) <==> w in p && w in t
  {
    if |p| > 0 {
      var w := p[|p| - 1];
      CommonTokensSpec(p[..|p| - 1], t);
      assert p == p[..|p| - 1] + [w];
    }
  }

  /** The sum of `min(p.count(w), t.count(w))` over the tokens `ws`. */
  function SumMinCounts(ws: seq<string>, p: seq<string>, t: seq<string>): nat {
    if |ws| == 0 then 0
    else SumMinCounts(ws[..|ws| - 1], p, t) + Min(Count(ws[|ws| - 1], p), Count(ws[|ws| - 1], t))
  }

  /** `num_same`: summed over the common tokens, the smaller of the two counts. */
  function NumSame(p: seq<string>, t: seq<string>): nat {
    SumMinCounts(CommonTokens(p, t), p, t)
  }

  /** Summing per-token multiplicities over a duplicate-free list that covers
      every token of a multiset gives the size of the multiset. */
  lemma {:induction false} SumMinCountsIsSize(ws: seq<string>, p: seq<string>, t: seq<string>, m: multiset<string>)
    requires Distinct(ws)
    requires forall w :: w in ws ==> m[w] == Min(Count(w, p), Count(w, t))
    requires forall w :: m[w] > 0 ==> w in ws
    ensures SumMinCounts(ws, p, t) == |m|
    decreases |ws|
  {
    if |ws| == 0 {
      assert m == multiset{};
    } else {
      var x := ws[|ws| - 1];
      var init := ws[..|ws| - 1];
      assert ws == init + [x];
      var m' := m[x := 0];
      assert x !in init;
      forall w | m'[w] > 0 ensures w in init {
        assert w in ws && w != x;
      }
      SumMinCountsIsSize(init, p, t, m');
    }
  }

  /** `num_same` is the size of the multiset intersection of the two token
      lists: the number of tokens the two lists share, counted with repetition. */
  lemma NumSameIsOverlap(p: seq<string>, t: seq<string>)
    ensures NumSame(p, t) == |multiset(p) * multiset(t)|
  {
    var m := multiset(p) * multiset(t);
    var c := CommonTokens(p, t);
    CommonTokensSpec(p, t);
    forall w | m[w] > 0 ensures w in c {
      assert multiset(p)[w] > 0 && multiset(t)[w] > 0;
    }
    SumMinCountsIsSize(c, p, t, m);
  }

  lemma OverlapBound(a: multiset<string>, b: multiset<string>)
    ensures |a * b| <= |a| && |a * b| <= |b|
    ensures |a * b| == |a| ==> a * b == a
  {
    assert a == a * b + (a - b);
    assert b == a * b + (b - a);
  }

  /** `num_same` never exceeds either token count, and does not depend on
      which list is the prediction. */
  lemma NumSameBounds(p: seq<string>, t: seq<string>)
    ensures NumSame(p, t) <= |p| && NumSame(p, t) <= |t|
    ensures NumSame(p, t) == NumSame(t, p)
  {
    NumSameIsOverlap(p, t);
    NumSameIsOverlap(t, p);
    OverlapBound(multiset(p), multiset(t));
    assert multiset(p) * multiset(t) == multiset(t) * multiset(p);
  }

  /** `num_same` is zero exactly when the two lists have no token in common. */
  lemma NumSameZero(p: seq<string>, t: seq<string>)
    ensures NumSame(p, t) == 0 <==> forall w :: w in p ==> w !in t
  {
    NumSameIsOverlap(p, t);
    var m := multiset(p) * multiset(t);
    if NumSame(p, t) == 0 {
      forall w | w in p ensures w !in t {
        assert m[w] == 0;
      }
    } else {
      assert m != multiset{};
      var w :| w in m;
      assert w in p && w in t;
    }
  }

  /** Both lists share all of their tokens exactly when they hold the same
      tokens with the same counts. */
  lemma NumSameFull(p: seq<string>, t: seq<string>)
    ensures (NumSame(p, t) == |p| && NumSame(p, t) == |t|) <==> multiset(p) == multiset(t)
  {
    NumSameIsOverlap(p, t);
    OverlapBound(multiset(p), multiset(t));
    OverlapBound(multiset(t), multiset(p));
    assert multiset(p) * multiset(t) == multiset(t) * multiset(p);
    if multiset(p) == multiset(t) {
      assert multiset(p) * multiset(t) == multiset(p);
    }
  }

  /** The harmonic mean of precision `n/a` and recall `n/b` is `2n/(a+b)`. */
  lemma HarmonicMean(n: nat, a: nat, b: nat)
    requires n > 0 && a > 0 && b > 0
    ensures var precision := n as real / a as real;
      var recall := n as real / b as real;
      2.0 * precision * recall / (precision + recall) == 2.0 * n as real / (a + b) as real
  {
    var x, y, z := n as real, a as real, b as real;
    var precision := x / y;
    var recall := x / z;
    assert precision * y == x;
    assert recall * z == x;
    Positive(n, a);
    Positive(n, b);
    var top := 2.0 * precision * recall;
    assert top * y == 2.0 * recall * x;
    assert top * z == 2.0 * precision * x;
    assert top * (y + z) == 2.0 * x * (precision + recall);
    CrossDivide(top, precision + recall, 2.0 * x, y + z);
  }

  /** `u/v == w/k` follows from `u*k == w*v`. */
  lemma CrossDivide(u: real, v: real, w: real, k: real)
    requires v > 0.0 && k > 0.0 && u * k == w * v
    ensures u / v == w / k
  {
    assert u / v == (u * k) / (v * k);
    assert w / k == (w * v) / (k * v);
  }

  /** Lines 66-75 of `_compute_f1`, on the prediction's tokens `p` and the
      reference's tokens `t`. */
  function F1Score(p: seq<string>, t: seq<string>): real {
    if |p| == 0 || |t| == 0 then
      (if p == t then 1.0 else 0.0)
    else
      var numSame := NumSame(p, t);
      if numSame == 0 then
        0.0
      else
        var precision := numSame as real / |p| as real;
        var recall := numSame as real / |t| as real;
        Positive(numSame, |p|);
        Positive(numSame, |t|);
        2.0 * precision * recall / (precision + recall)
  }

  lemma Positive(n: nat, a: nat)
    requires n > 0 && a > 0
    ensures n as real / a as real > 0.0
  {
  }

  /** `_compute_f1(a_true, a_pred)`. */
  function F1(truth: string, prediction: string): real {
    F1Score(Tokens(prediction), Tokens(truth))
  }

  /** The Dice coefficient of two token lists: twice the shared tokens over
      all tokens. */
  function Dice(p: seq<string>, t: seq<string>): (r: real)
    requires |p| > 0 && |t| > 0
    ensures 0.0 <= r <= 1.0
  {
    var n := |multiset(p) * multiset(t)|;
    OverlapBound(multiset(p), multiset(t));
    assert |multiset(p)| == |p| && |multiset(t)| == |t|;
    DiceBound(n, |p|, |t|);
    2.0 * n as real / (|p| + |t|) as real
  }

  lemma DiceBound(n: nat, a: nat, b: nat)
    requires n <= a && n <= b && a + b > 0
    ensures 0.0 <= 2.0 * n as real / (a + b) as real <= 1.0
  {
    var x, y := 2.0 * n as real, (a + b) as real;
    assert x <= y;
    assert (x / y) * y == x;
  }

  /** With both token lists non-empty, F1 is the Dice coefficient of the two
      token multisets. */
  lemma F1ScoreDice(p: seq<string>, t: seq<string>)
    requires |p| > 0 && |t| > 0
    ensures F1Score(p, t) == Dice(p, t)
  {
    NumSameIsOverlap(p, t);
    if NumSame(p, t) > 0 {
      HarmonicMean(NumSame(p, t), |p|, |t|);
    }
  }

  /** F1 is a score between 0 and 1. */
  lemma F1ScoreBounds(p: seq<string>, t: seq<string>)
    ensures 0.0 <= F1Score(p, t) <= 1.0
  {
    if |p| > 0 && |t| > 0 {
      F1ScoreDice(p, t);
    }
  }

  /** The rule for empty token lists: both empty scores 1, one empty scores 0. */
  lemma F1ScoreEmpty(p: seq<string>, t: seq<string>)
    requires |p| == 0 || |t| == 0
    ensures F1Score(p, t) == if |p| == 0 && |t| == 0 then 1.0 else 0.0
  {
  }

  lemma DiceOne(n: nat, a: nat, b: nat)
    requires n <= a && n <= b && a + b > 0
    ensures 2.0 * n as real / (a + b) as real == 1.0 <==> n == a && n == b
  {
    var x, y := 2.0 * n as real, (a + b) as real;
    if x / y == 1.0 {
      assert x == (x / y) * y;
    }
  }

  /** The Dice coefficient is 1 exactly for equal multisets. */
  lemma DicePerfect(p: seq<string>, t: seq<string>)
    requires |p| > 0 && |t| > 0
    ensures Dice(p, t) == 1.0 <==> multiset(p) == multiset(t)
  {
    var m := multiset(p) * multiset(t);
    assert |multiset(p)| == |p| && |multiset(t)| == |t|;
    OverlapBound(multiset(p), multiset(t));
    OverlapBound(multiset(t), multiset(p));
    assert m == multiset(t) * multiset(p);
    DiceOne(|m|, |p|, |t|);
    if multiset(p) == multiset(t) {
      assert m == multiset(p);
    }
  }

  /** The Dice coefficient is 0 exactly when nothing is shared. */
  lemma DiceZero(p: seq<string>, t: seq<string>)
    requires |p| > 0 && |t| > 0
    ensures Dice(p, t) == 0.0 <==> |multiset(p) * multiset(t)| == 0
  {
    var n := |multiset(p) * multiset(t)|;
    if n > 0 {
      Positive(2 * n, |p| + |t|);
    }
  }

  /** F1 is perfect exactly when the two answers have the same tokens with the
      same counts, in whatever order. */
  lemma F1ScorePerfect(p: seq<string>, t: seq<string>)
    ensures F1Score(p, t) == 1.0 <==> multiset(p) == multiset(t)
  {
    if |p| == 0 || |t| == 0 {
      assert |multiset(p)| == |p| && |multiset(t)| == |t|;
      if multiset(p) == multiset(t) {
        assert |p| == |t|;
      }
    } else {
      F1ScoreDice(p, t);
      DicePerfect(p, t);
    }
  }

  /** F1 is zero exactly when no token is shared and the pair is not the
      both-empty case. */
  lemma F1ScoreZero(p: seq<string>, t: seq<string>)
    ensures F1Score(p, t) == 0.0 <==> NumSame(p, t) == 0 && (|p| > 0 || |t| > 0)
  {
    if |p| > 0 && |t| > 0 {
      F1ScoreDice(p, t);
      DiceZero(p, t);
      NumSameIsOverlap(p, t);
    } else {
      NumSameBounds(p, t);
    }
  }

  /** F1 does not depend on which answer is the reference. */
  lemma F1ScoreSymmetric(p: seq<string>, t: seq<string>)
    ensures F1Score(p, t) == F1Score(t, p)
  {
    if |p| > 0 && |t| > 0 {
      F1ScoreDice(p, t);
      F1ScoreDice(t, p);
      DiceSymmetric(p, t);
    }
  }

  lemma DiceSymmetric(p: seq<string>, t: seq<string>)
    requires |p| > 0 && |t| > 0
    ensures Dice(p, t) == Dice(t, p)
  {
    assert multiset(p) * multiset(t) == multiset(t) * multiset(p);
  }

  /** Two of the three reference tokens predicted: precision 1, recall 2/3,
      F1 0.8. */
  lemma F1ScoreExample()
    ensures F1Score(["big", "car"], ["big", "red", "car"]) == 0.8
  {
    var p, t := ["big", "car"], ["big", "red", "car"];
    assert multiset(p) * multiset(t) == multiset{"big", "car"};
    F1ScoreDice(p, t);
  }

  /** The tokens of a joined list of clean words are those words, articles
      dropped. */
  lemma TokensOfJoin(ws: seq<string>)
    requires forall i :: 0 <= i < |ws| ==> IsCleanWord(ws[i])
    ensures Tokens(Join(ws)) == DropArticles(ws)
  {
    NormalizeJoin(ws);
    DropArticlesNormal(ws);
    CleanWordsAreWords(DropArticles(ws));
    SplitJoin(DropArticles(ws));
  }

  lemma TokensOfReference()
    ensures Tokens("the big red car") == ["big", "red", "car"]
  {
    var ws := ["the", "big", "red", "car"];
    forall i | 0 <= i < |ws| ensures IsCleanWord(ws[i]) {
      PlainWordIsClean(ws[i]);
    }
    assert Join(ws) == "the big red car";
    TokensOfJoin(ws);
    NotArticle("big");
    NotArticle("red");
    NotArticle("car");
    assert DropArticles(ws) == ["big", "red", "car"];
  }

  lemma TokensOfPrediction()
    ensures Tokens("big car") == ["big", "car"]
  {
    var ws := ["big", "car"];
    forall i | 0 <= i < |ws| ensures IsCleanWord(ws[i]) {
      PlainWordIsClean(ws[i]);
    }
    assert Join(ws) == "big car";
    TokensOfJoin(ws);
    NotArticle("big");
    NotArticle("car");
    assert DropArticles(ws) == ws;
  }

  /** The same example on answer strings: the reference's article is dropped
      before the tokens are compared. */
  lemma F1Example()
    ensures F1("the big red car", "big car") == 0.8
  {
    TokensOfReference();
    TokensOfPrediction();
    F1ScoreExample();
  }

  /** `_compute_f1` is a score between 0 and 1. */
  lemma F1Bounds(truth: string, prediction: string)
    ensures 0.0 <= F1(truth, prediction) <= 1.0
  {
    F1ScoreBounds(Tokens(prediction), Tokens(truth));
  }

  /** An exact match is also a perfect F1. */
  lemma ExactMatchImpliesFullF1(truth: string, prediction: string)
    requires ExactMatch(truth, prediction) == 1
    ensures F1(truth, prediction) == 1.0
  {
    F1ScorePerfect(Tokens(prediction), Tokens(truth));
  }

  /** `max` folded over a list of counts from 0: `max(max(max(0, s[0]), s[1]), ...)`. */
  function MaxOfNat(s: seq<nat>): nat {
    if |s| == 0 then 0 else MaxNat(MaxOfNat(s[..|s| - 1]), s[|s| - 1])
  }

  /** `max` folded over a list of scores from 0. */
  function MaxOfReal(s: seq<real>): real {
    if |s| == 0 then 0.0 else MaxReal(MaxOfReal(s[..|s| - 1]), s[|s| - 1])
  }

  /** The fold is an upper bound of every element and is one of them, or 0
      for the empty list. */
  lemma {:induction false} MaxOfNatSpec(s: seq<nat>)
    ensures forall i :: 0 <= i < |s| ==> s[i] <= MaxOfNat(s)
    ensures |s| == 0 ==> MaxOfNat(s) == 0
    ensures |s| > 0 ==> exists i :: 0 <= i < |s| && MaxOfNat(s) == s[i]
  {
    if |s| > 0 {
      var init := s[..|s| - 1];
      MaxOfNatSpec(init);
      assert forall i :: 0 <= i < |init| ==> init[i] == s[i];
    }
  }

  /** The fold is an upper bound of every element, at least 0, and either 0
      or one of the elements. */
  lemma {:induction false} MaxOfRealSpec(s: seq<real>)
    ensures forall i :: 0 <= i < |s| ==> s[i] <= MaxOfReal(s)
    ensures 0.0 <= MaxOfReal(s)
    ensures MaxOfReal(s) == 0.0 || exists i :: 0 <= i < |s| && MaxOfReal(s) == s[i]
  {
    if |s| > 0 {
      var init := s[..|s| - 1];
      MaxOfRealSpec(init);
      assert forall i :: 0 <= i < |init| ==> init[i] == s[i];
    }
  }

  /** One more step of the fold; the last step folds the whole list. */
  lemma MaxOfNatStep(s: seq<nat>, i: nat)
    requires i <= |s|
    ensures i < |s| ==> MaxOfNat(s[..i + 1]) == MaxNat(MaxOfNat(s[..i]), s[i])
    ensures i == |s| ==> MaxOfNat(s[..i]) == MaxOfNat(s)
  {
    if i < |s| {
      assert s[..i + 1][..i] == s[..i];
    } else {
      assert s[..i] == s;
    }
  }

  lemma MaxOfRealStep(s: seq<real>, i: nat)
    requires i <= |s|
    ensures i < |s| ==> MaxOfReal(s[..i + 1]) == MaxReal(MaxOfReal(s[..i]), s[i])
    ensures i == |s| ==> MaxOfReal(s[..i]) == MaxOfReal(s)
  {
    if i < |s| {
      assert s[..i + 1][..i] == s[..i];
    } else {
      assert s[..i] == s;
    }
  }

  /** The EM score of the prediction against each reference, in order. */
  function ExactMatches(prediction: string, references: seq<string>): seq<nat> {
    seq(|references|, i requires 0 <= i < |references| => ExactMatch(references[i], prediction))
  }

  /** The F1 score of the prediction against each reference, in order. */
  function F1s(prediction: string, references: seq<string>): seq<real> {
    seq(|references|, i requires 0 <= i < |references| => F1(references[i], prediction))
  }

  /** The best EM over the references; 0 when there are none. */
  function MaxExactMatch(prediction: string, references: seq<string>): nat {
    MaxOfNat(ExactMatches(prediction, references))
  }

  /** The best F1 over the references; 0 when there are none. */
  function MaxF1(prediction: string, references: seq<string>): real {
    MaxOfReal(F1s(prediction, references))
  }

  /** The best EM is the EM of some reference, at least that of every
      reference, and at most 1. */
  lemma MaxExactMatchSpec(prediction: string, references: seq<string>)
    ensures MaxExactMatch(prediction, references) <= 1
    ensures forall i :: 0 <= i < |references| ==>
      ExactMatch(references[i], prediction) <= MaxExactMatch(prediction, references)
    ensures |references| == 0 ==> MaxExactMatch(prediction, references) == 0
    ensures |references| > 0 ==>
      exists i :: 0 <= i < |references| && MaxExactMatch(prediction, references) == ExactMatch(references[i], prediction)
  {
    var s := ExactMatches(prediction, references);
    MaxOfNatSpec(s);
    forall i | 0 <= i < |references|
      ensures ExactMatch(references[i], prediction) <= MaxExactMatch(prediction, references)
    {
      assert s[i] == ExactMatch(references[i], prediction);
    }
    if |references| > 0 {
      var i :| 0 <= i < |s| && MaxOfNat(s) == s[i];
      assert MaxExactMatch(prediction, references) == ExactMatch(references[i], prediction);
    }
  }

  /** The best F1 is the F1 of some reference, at least that of every
      reference, and between 0 and 1. */
  lemma MaxF1Spec(prediction: string, references: seq<string>)
    ensures 0.0 <= MaxF1(prediction, references) <= 1.0
    ensures forall i :: 0 <= i < |references| ==>
      F1(references[i], prediction) <= MaxF1(prediction, references)
    ensures |references| == 0 ==> MaxF1(prediction, references) == 0.0
    ensures |references| > 0 ==>
      exists i :: 0 <= i < |references| && MaxF1(prediction, references) == F1(references[i], prediction)
  {
    var s := F1s(prediction, references);
    MaxOfRealSpec(s);
    forall i | 0 <= i < |references|
      ensures F1(references[i], prediction) <= MaxF1(prediction, references)
    {
      assert s[i] == F1(references[i], prediction);
    }
    if |references| > 0 {
      if MaxOfReal(s) == 0.0 {
        F1Bounds(references[0], prediction);
        assert s[0] == F1(references[0], prediction);
      } else {
        var i :| 0 <= i < |s| && MaxOfReal(s) == s[i];
        F1Bounds(references[i], prediction);
        assert MaxF1(prediction, references) == F1(references[i], prediction);
      }
    }
  }

  /** `_compute_max_em_f1`: the best EM and, independently, the best F1 of the
      prediction over all the references. */
  method ComputeMaxEmF1(prediction: string, references: seq<string>) returns (maxEm: nat, maxF1: real)
    ensures maxEm == MaxExactMatch(prediction, references)
    ensures maxF1 == MaxF1(prediction, references)
  {
    ghost var ems := ExactMatches(prediction, references);
    ghost var f1s := F1s(prediction, references);
    maxEm, maxF1 := 0, 0.0;
    for i := 0 to |references|
      invariant maxEm == MaxOfNat(ems[..i])
      invariant maxF1 == MaxOfReal(f1s[..i])
    {
      var em := ExactMatch(references[i], prediction);
      var f1 := F1(references[i], prediction);
      MaxOfNatStep(ems, i);
      MaxOfRealStep(f1s, i);
      maxEm := MaxNat(maxEm, em);
      maxF1 := MaxReal(maxF1, f1);
    }
    MaxOfNatStep(ems, |references|);
    MaxOfRealStep(f1s, |references|);
  }

  /** A best EM of 1 brings a best F1 of 1 with it. */
  lemma MaxExactMatchImpliesMaxF1(prediction: string, references: seq<string>)
    requires MaxExactMatch(prediction, references) == 1
    ensures MaxF1(prediction, references) == 1.0
  {
    MaxExactMatchSpec(prediction, references);
    MaxF1Spec(prediction, references);
    var i :| 0 <= i < |references| && ExactMatch(references[i], prediction) == 1;
    ExactMatchImpliesFullF1(references[i], prediction);
  }

  /** A prediction that is one of its references scores 1 on both metrics. */
  lemma ReferenceItselfIsPerfect(prediction: string, references: seq<string>)
    requires prediction in references
    ensures MaxExactMatch(prediction, references) == 1
    ensures MaxF1(prediction, references) == 1.0
  {
    var i :| 0 <= i < |references| && references[i] == prediction;
    assert ExactMatch(references[i], prediction) == 1;
    MaxExactMatchSpec(prediction, references);
    MaxExactMatchImpliesMaxF1(prediction, references);
  }
}
