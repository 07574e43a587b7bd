# TiQuAD evaluator: a verified model of the scoring engine

This project models the scoring engine of `TiQuADEvaluator`, the official
evaluation script of the TiQuAD benchmark, in Dafny. TiQuAD is an
extractive question-answering benchmark for Tigrinya. The engine has three
layers.

- **Normalisation** (`normalize_answer`). An answer is lowercased. Every
  punctuation character, ASCII or Ge'ez, becomes a space. The text is split
  on whitespace and re-joined with single spaces. English and Tigrinya
  articles are then dropped. The hyphen is deliberately kept.
- **Per-pair scores.** Exact match (`_compute_em`) is 1 when two answers
  normalise to the same string. Token F1 (`_compute_f1`) is the harmonic
  mean of token precision and recall. `_compute_max_em_f1` takes the best
  EM and, separately, the best F1 of a prediction over all its reference
  answers.
- **Corpus score** (`score`). It averages the per-question best EM and F1
  over the question IDs that have both a prediction and references. It
  reports how many IDs were evaluated and how many predictions and
  references there were. It warns about IDs found on one side only. With
  no common ID it fails.

The Dafny modules follow those layers.

- `Text` (`text.dfy`) covers the Python string builtins the engine relies
  on: `split()`, `" ".join` and `strip()`, with `str.isspace` whitespace.
- `Normalizer` (`normalizer.dfy`) holds the punctuation and article tables
  and the normaliser.
- `Metrics` (`metrics.dfy`) covers EM, F1 and the best-of-references loop.
  The loop is a `method` proved against the fold it computes.
- `Scorer` (`scorer.dfy`) covers `score`. It is a `method` that loops over
  the set of common IDs, proved equal to the mean of a functional total
  over that set.

Three points where the code behaves in a way a reader might not expect.

- **Backslash.** The punctuation class is assembled by pasting
  `string.punctuation` (hyphen removed) between `[` and `]`. Inside that
  class the backslash escapes the `]` that follows it. The backslash is
  therefore not a punctuation character, although `string.punctuation`
  contains it, and `IsAsciiPunctuation` leaves it out.
- **F1 with an empty side.** When either token list is empty, F1 is 1 if
  both are empty and 0 otherwise. This is the test at
  `evaluate-tiquad.py:68-69`, which runs before the `num_same == 0` test.
- **Warnings.** The two warnings are produced only once common IDs have
  been found, in the order the code prints them.

## Model

| member | source | states |
|---|---|---|
| Text.Split | evaluate-tiquad.py:52 | `s.split()`: the maximal runs of non-whitespace characters, in order; its contract is stated by `Text.SplitAtSpace` (every whitespace character separates), `Text.SplitWords`, `Text.SplitKeepsText` and `Text.SplitJoin`, which together fix it on every string |
| Text.Join | evaluate-tiquad.py:52 | `" ".join(ws)`: the tokens separated by single spaces; its contract is stated by `Text.JoinShape` and `Text.SplitJoin` |
| Text.StripLeading | evaluate-tiquad.py:52 | `s.lstrip()`: the input without its leading whitespace; its contract is `Text.StripLeadingSpec` |
| Text.StripTrailing | evaluate-tiquad.py:52 | `s.rstrip()`: the input without its trailing whitespace; its contract is `Text.StripTrailingSpec` |
| Text.Strip | evaluate-tiquad.py:52 | `s.strip()`, as `rstrip` after `lstrip`; its contract is `Text.StripSpec` |
| Text.WhitespaceTable | evaluate-tiquad.py:52 | the ranges used for `str.isspace` are exactly the 29-character whitespace table |
| Text.SplitWords | evaluate-tiquad.py:52 | every token of `split()` is non-empty, has no whitespace, and is made of characters of the input |
| Text.SplitKeepsText | evaluate-tiquad.py:52 | the tokens of `split()` laid end to end are the input with its whitespace deleted: nothing but whitespace is lost |
| Text.StripLeadingSpec | evaluate-tiquad.py:52 | `lstrip()` is a suffix of its input, preceded only by whitespace, and does not start with whitespace |
| Text.StripTrailingSpec | evaluate-tiquad.py:52 | `rstrip()` is a prefix of its input, followed only by whitespace, and does not end with whitespace |
| Text.StripSpec | evaluate-tiquad.py:52 | `strip()` is a slice of its input with only whitespace around it, and has no whitespace at either end |
| Text.StripUntrimmed | evaluate-tiquad.py:52 | `strip()` leaves a string without whitespace at its ends unchanged |
| Text.SplitJoin | evaluate-tiquad.py:52 | `split()` gives back the tokens of `" ".join` when the tokens are whitespace-free words |
| Text.SplitAtSpace | evaluate-tiquad.py:52 | splitting at any one whitespace character gives the tokens before it followed by the tokens after it, so words separated by any run of whitespace are never merged |
| Text.SplitConsWord | evaluate-tiquad.py:52 | text that starts with a word kept whole by what follows splits into that word, then the split of the rest |
| Text.SplitConsSpace | evaluate-tiquad.py:52 | a leading whitespace character is skipped by `split()` |
| Text.WordLengthAppend | evaluate-tiquad.py:52 | appending text after whitespace, or text that starts with whitespace, does not lengthen the first word |
| Text.SplitWordSpace | evaluate-tiquad.py:52 | a word followed by one space splits into that word alone |
| Text.JoinShape | evaluate-tiquad.py:52 | `" ".join` of words is empty iff there are no words, has no whitespace at its ends, has no whitespace but single spaces, and every other character comes from a word |
| Normalizer.AsciiPunctuationTable | evaluate-tiquad.py:40 | the ASCII range predicate is exactly the 30-character table: `string.punctuation` without the hyphen and the backslash |
| Normalizer.GeezPunctuationTable | evaluate-tiquad.py:39-40 | the Ge'ez range predicate is exactly the 17 Ge'ez and quotation marks |
| Normalizer.PunctuationTable | evaluate-tiquad.py:39-40 | a character is matched by the compiled class iff it is in the union of the two tables |
| Normalizer.Lower | evaluate-tiquad.py:51 | `text.lower()`, character by character with `LowerChar`; its contract is stated by `Normalizer.LowerIdempotent` and `Normalizer.NormalizeSeesLowercase` |
| Normalizer.ReplacePunctuation | evaluate-tiquad.py:51 | the substitution of the compiled class: every punctuation character becomes one space, so it separates words rather than joining them; stated by `Normalizer.PunctuationSeparates` and `Normalizer.SplitCleanedIsClean` |
| Normalizer.CleanTokens | evaluate-tiquad.py:51-52 | the tokens `clean_text` joins: the split of the lowercased, blanked-out text; stated by `Normalizer.PunctuationSeparates` (a mark splits the tokens), `Normalizer.CleanWordTokens` and `Normalizer.SplitCleanedIsClean` |
| Normalizer.CleanText | evaluate-tiquad.py:46-52 | `clean_text`: lowercase, blank out punctuation, split, join with single spaces, strip; its contract is `Normalizer.CleanTextIsJoin` |
| Normalizer.DropArticles | evaluate-tiquad.py:55 | the list comprehension of `remove_articles`; its contract is `Normalizer.DropArticlesSpec` and `Normalizer.DropArticlesAppend` |
| Normalizer.RemoveArticles | evaluate-tiquad.py:54-55 | `remove_articles`: split, filter out the articles, join with single spaces; stated by `Normalizer.NormalizeJoin` |
| Normalizer.Normalize | evaluate-tiquad.py:43-57 | `normalize_answer`, as `remove_articles` after `clean_text`; its contract is stated by `Normalizer.NormalizeShape`, `Normalizer.NormalizeIdempotent` and `Normalizer.NormalizeIsJoin` |
| Normalizer.LowerChar | evaluate-tiquad.py:51 | a Latin capital A-Z becomes its small letter (code point plus 32), every other character is unchanged, and the result is never a Latin capital |
| Normalizer.LowerIdempotent | evaluate-tiquad.py:51 | lowercasing keeps the length and lowercasing twice is lowercasing once |
| Normalizer.DropArticlesSpec | evaluate-tiquad.py:54-55 | `remove_articles` keeps a token iff it is in the input and not an excluded article, keeps every occurrence of each non-article (same multiset count), and never adds tokens |
| Normalizer.DropArticlesAppend | evaluate-tiquad.py:55 | filtering keeps the tokens in their order: the filter of a concatenation is the concatenation of the filters |
| Normalizer.NotArticle | evaluate-tiquad.py:41 | all excluded articles are shorter than three characters except "the", so longer words and three-character words not starting with `t` are never dropped |
| Normalizer.DropArticlesNone | evaluate-tiquad.py:55 | a token list without articles passes `remove_articles` unchanged |
| Normalizer.SplitCleanedIsClean | evaluate-tiquad.py:51-52 | after lowercasing and blanking punctuation, every token is non-empty and free of whitespace, punctuation and Latin capitals |
| Normalizer.PunctuationSeparates | evaluate-tiquad.py:51-52 | a punctuation mark anywhere in the text splits its tokens into those before it followed by those after it, as a whitespace character would |
| Normalizer.CleanWordTokens | evaluate-tiquad.py:51-52 | a clean word on its own cleans to that single token |
| Normalizer.CleanTextIsJoin | evaluate-tiquad.py:51-52 | `clean_text` is the single-space join of its tokens (the final `strip()` removes nothing), and splitting it gives those tokens back |
| Normalizer.NormalizeIsJoin | evaluate-tiquad.py:43-57 | a normalised answer is the join of its tokens, each a clean non-article word, and splitting it gives those tokens back |
| Normalizer.NormalizeJoin | evaluate-tiquad.py:43-57 | normalising a join of clean words only drops the articles among them |
| Normalizer.NormalizeIdempotent | evaluate-tiquad.py:43-57 | normalising a normalised answer changes nothing |
| Normalizer.NormalizeShape | evaluate-tiquad.py:43-57 | a normalised answer has no punctuation and no Latin capital; its only whitespace is single spaces, none at the ends; no token is an excluded article |
| Normalizer.NormalizeSeesLowercase | evaluate-tiquad.py:51 | two answers with the same lowercase form normalise alike |
| Normalizer.NormalizeIgnoresCase | evaluate-tiquad.py:51 | uppercasing an answer does not change its normal form |
| Normalizer.NormalizeKeepsHyphen | evaluate-tiquad.py:40 | the hyphen is not punctuation: "well-known" normalises to itself |
| Normalizer.NormalizeDropsEnglishArticle | evaluate-tiquad.py:41-57 | "the cat" and "cat" both normalise to "cat" |
| Normalizer.NormalizeDropsTigrinyaArticle | evaluate-tiquad.py:41-57 | "ናይ ከተማ" and "ከተማ" both normalise to "ከተማ" |
| Normalizer.CleanTokensAtPunctuation | evaluate-tiquad.py:51-52 | the tokens of "big,car", with no space beside the comma, are big, car |
| Normalizer.NormalizeSplitsAtPunctuation | evaluate-tiquad.py:43-57 | "big,car" normalises to "big car": the comma alone separates the two words |
| Normalizer.NormalizeDropsPunctuatedArticle | evaluate-tiquad.py:43-57 | "The." and "A," both normalise to the empty string: punctuation becomes whitespace before articles are dropped |
| Normalizer.CleanArticle | evaluate-tiquad.py:43-57 | an article in any Latin case followed by one punctuation mark normalises to the empty string |
| Metrics.Tokens | evaluate-tiquad.py:64-65 | the token list of an answer: its normalised form, split; stated by `Normalizer.NormalizeIsJoin` and `Metrics.TokensOfJoin` |
| Metrics.ExactMatch | evaluate-tiquad.py:59-60 | exact match is 0 or 1, and 1 iff the two normal forms are equal |
| Metrics.ExactMatchSymmetric | evaluate-tiquad.py:59-60 | exact match does not depend on which answer is the reference |
| Metrics.CommonTokens | evaluate-tiquad.py:66 | `set(p) & set(t)` enumerated once each; its contract is `Metrics.CommonTokensSpec` |
| Metrics.NumSame | evaluate-tiquad.py:67 | `num_same`: the sum over the common tokens of the smaller count; its contract is `Metrics.NumSameIsOverlap` and `Metrics.NumSameBounds` |
| Metrics.CommonTokensSpec | evaluate-tiquad.py:66 | the enumeration of `set(p) & set(t)` lists each token in both lists exactly once and nothing else |
| Metrics.NumSameIsOverlap | evaluate-tiquad.py:66-67 | `num_same` is the size of the multiset intersection of the two token lists |
| Metrics.NumSameBounds | evaluate-tiquad.py:67 | `num_same` is at most either token count and is symmetric |
| Metrics.NumSameZero | evaluate-tiquad.py:67-71 | `num_same` is 0 iff no token of the prediction occurs in the reference |
| Metrics.NumSameFull | evaluate-tiquad.py:67 | `num_same` equals both token counts iff the two lists are equal as multisets |
| Metrics.HarmonicMean | evaluate-tiquad.py:72-74 | the harmonic mean of precision `n/a` and recall `n/b` is `2n/(a+b)` |
| Metrics.F1Score | evaluate-tiquad.py:66-75 | the F1 computation on two token lists, with the empty-side and no-overlap branches; its contract is stated by `Metrics.F1ScoreDice`, `Metrics.F1ScoreBounds`, `Metrics.F1ScoreEmpty`, `Metrics.F1ScorePerfect` and `Metrics.F1ScoreZero` |
| Metrics.F1 | evaluate-tiquad.py:62-75 | `_compute_f1(a_true, a_pred)`: `F1Score` of the prediction's tokens against the reference's; its contract is `Metrics.F1Bounds` |
| Metrics.Dice | evaluate-tiquad.py:62-75 | the Dice coefficient of two non-empty token lists, the reference definition F1 is proved against, lies in `[0, 1]` |
| Metrics.F1ScoreDice | evaluate-tiquad.py:66-75 | with both token lists non-empty, F1 equals the Dice coefficient of the token multisets |
| Metrics.F1ScoreBounds | evaluate-tiquad.py:62-75 | token F1 lies in `[0, 1]` |
| Metrics.F1ScoreEmpty | evaluate-tiquad.py:68-69 | with an empty side, F1 is 1 if both are empty and 0 otherwise |
| Metrics.F1ScorePerfect | evaluate-tiquad.py:62-75 | F1 is 1 iff the two token lists are equal as multisets |
| Metrics.F1ScoreZero | evaluate-tiquad.py:68-71 | F1 is 0 iff no token is shared and the lists are not both empty |
| Metrics.F1ScoreSymmetric | evaluate-tiquad.py:62-75 | F1 does not depend on which answer is the reference |
| Metrics.F1ScoreExample | evaluate-tiquad.py:72-75 | predicting "big car" for "big red car" scores 0.8 |
| Metrics.TokensOfJoin | evaluate-tiquad.py:64-65 | the tokens of a join of clean words are those words with the articles dropped |
| Metrics.TokensOfReference | evaluate-tiquad.py:64-65 | the tokens of "the big red car" are big, red, car |
| Metrics.TokensOfPrediction | evaluate-tiquad.py:64-65 | the tokens of "big car" are big, car |
| Metrics.F1Example | evaluate-tiquad.py:62-75 | `_compute_f1("the big red car", "big car")` is 0.8 |
| Metrics.F1Bounds | evaluate-tiquad.py:62-75 | `_compute_f1` of two answers lies in `[0, 1]` |
| Metrics.ExactMatchImpliesFullF1 | evaluate-tiquad.py:59-75 | an exact match has F1 1 |
| Metrics.MaxOfNat | evaluate-tiquad.py:79-85 | `max_em`: `max` folded over the EM scores from 0; its contract is `Metrics.MaxOfNatSpec` |
| Metrics.MaxOfReal | evaluate-tiquad.py:80-85 | `max_f1`: `max` folded over the F1 scores from 0; its contract is `Metrics.MaxOfRealSpec` |
| Metrics.ExactMatches | evaluate-tiquad.py:81-82 | the EM of the prediction against each reference, in order |
| Metrics.F1s | evaluate-tiquad.py:81-83 | the F1 of the prediction against each reference, in order |
| Metrics.MaxExactMatch | evaluate-tiquad.py:77-86 | the first result of `_compute_max_em_f1`; its contract is `Metrics.MaxExactMatchSpec` |
| Metrics.MaxF1 | evaluate-tiquad.py:77-86 | the second result of `_compute_max_em_f1`; its contract is `Metrics.MaxF1Spec` |
| Metrics.MaxOfNatSpec | evaluate-tiquad.py:79-85 | the `max` fold from 0 bounds every element, and is one of them for a non-empty list or 0 for the empty list |
| Metrics.MaxOfRealSpec | evaluate-tiquad.py:79-85 | the `max` fold from 0 bounds every element, is non-negative, and is 0 or one of the elements |
| Metrics.MaxExactMatchSpec | evaluate-tiquad.py:77-86 | the best EM is at most 1, at least every reference's EM, 0 with no references, and otherwise the EM of some reference |
| Metrics.MaxF1Spec | evaluate-tiquad.py:77-86 | the best F1 lies in `[0, 1]`, is at least every reference's F1, is 0 with no references, and is otherwise the F1 of some reference |
| Metrics.ComputeMaxEmF1 | evaluate-tiquad.py:77-86 | the loop returns the best EM and the best F1 over the references |
| Metrics.MaxExactMatchImpliesMaxF1 | evaluate-tiquad.py:77-86 | a best EM of 1 brings a best F1 of 1 |
| Metrics.ReferenceItselfIsPerfect | evaluate-tiquad.py:77-86 | a prediction equal to one of its references scores 1 on both metrics |
| Scorer.CommonIds | evaluate-tiquad.py:91 | an ID is common iff it has both a prediction and references |
| Scorer.QuestionScore | evaluate-tiquad.py:105-107 | the score one question contributes: its best EM or best F1 over its references; its contract is `Scorer.QuestionScoreBounds` |
| Scorer.QuestionScoreBounds | evaluate-tiquad.py:104-107 | each question's EM and F1 lie in `[0, 1]`, EM at or below F1 |
| Scorer.ScoresOf | evaluate-tiquad.py:104-109 | the scores of a set of questions keyed by ID; its keys are exactly that set, and `Scorer.ScoresOfLookup` states its entries |
| Scorer.Scores | evaluate-tiquad.py:104-109 | the scores of all the common questions on one metric; keyed by exactly the common IDs |
| Scorer.ScoresOfLookup | evaluate-tiquad.py:104-109 | the score map built over a set of IDs holds each ID's best-match score |
| Scorer.ScoresAreScoreMap | evaluate-tiquad.py:104-109 | the score map is keyed by the common IDs and holds each one's score |
| Scorer.ScoresBounds | evaluate-tiquad.py:104-109 | every entry of the score maps lies in `[0, 1]`, EM at or below F1 |
| Scorer.ScoresPerfect | evaluate-tiquad.py:104-109 | a question whose prediction is one of its references scores 1 |
| Scorer.Total | evaluate-tiquad.py:104-112 | the sum of the scores over a set of IDs; its contract is stated by `Scorer.TotalRemove`, `Scorer.TotalBounds` and `Scorer.TotalOnes` |
| Scorer.Sum | evaluate-tiquad.py:112-113 | `sum(xs)` of the score lists the loop appends to; the loop invariant of `Scorer.Score` relates it to `Scorer.Total` |
| Scorer.TotalRemove | evaluate-tiquad.py:104-113 | the total over a set splits off any element, so the sum does not depend on the order the set is visited in |
| Scorer.TotalBounds | evaluate-tiquad.py:112-113 | totals of scores in `[0, 1]` lie in `[0, n]`, and a pointwise smaller map has a smaller total |
| Scorer.TotalOnes | evaluate-tiquad.py:112-113 | scores that are all 1 total the number of IDs |
| Scorer.Mean | evaluate-tiquad.py:112-113 | a corpus score: the total over the common IDs divided by their number; its contract is `Scorer.MeanBounds` and `Scorer.MeanPerfect` |
| Scorer.MeanBounds | evaluate-tiquad.py:112-113 | both corpus scores lie in `[0, 1]`, EM at or below F1 |
| Scorer.MeanPerfect | evaluate-tiquad.py:112-113 | if every prediction is one of its references, both corpus scores are 1 |
| Scorer.WarningsFor | evaluate-tiquad.py:97-100 | one warning per non-empty set of one-sided IDs, carrying its size, references-without-predictions first, and nothing else |
| Scorer.MissingWarnings | evaluate-tiquad.py:95-100 | each warning, with its count, is issued iff its set of one-sided IDs is non-empty; no other warning is issued; when both are issued, the references-without-predictions warning comes first |
| Scorer.IntersectionBound | evaluate-tiquad.py:114-116 | the common IDs are no more than the predictions and no more than the references |
| Scorer.ScoreQuestion | evaluate-tiquad.py:105-109 | one loop pass yields the question's entries in the EM and F1 score maps |
| Scorer.Score | evaluate-tiquad.py:88-117 | fails with no common ID (and then warns nothing); otherwise returns the warnings, the common-ID count, both totals, and the mean EM and F1 over the common IDs, with `numEvaluated` at most both totals and `0 <= em <= f1 <= 1` |

## Left out

- The constructor's loading of predictions and references from JSON files or
  a hosted dataset (`evaluate-tiquad.py:16-37`): I/O. Its two results reach the
  model as the `predictions` and `references` maps of `Scorer.Score`.
- The command-line interface and the printing of results
  (`evaluate-tiquad.py:120-176`): I/O.
- Scorer.Score: it returns the two warnings as a list of values instead of
  printing them.
- Floating point: precision, recall, F1 and the averages are exact real
  numbers. The model does not capture the rounding a Python `float` does.
  EM scores are also summed as reals.
- Normalizer.LowerChar: it lowercases only the Latin capitals A-Z. The
  full Unicode `str.lower()` (other cased scripts, and characters whose
  lowercase form is longer) is not modelled. Ge'ez has no case, so it is
  unaffected.
- The regular-expression engine is not modelled. The substitution is the
  character-by-character replacement it performs for a one-character class.
- Scorer.Score: Python visits the set of common IDs in an unspecified
  order; the model picks each next ID arbitrarily. The sum is proved not
  to depend on that order (`Scorer.TotalRemove`), so the model does not fix
  one order.
