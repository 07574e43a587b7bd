/** Answer normalisation: `TiQuADEvaluator.normalize_answer` with its inner
    `clean_text` and `remove_articles`, and the fixed punctuation and article
    tables the constructor builds. */
module Normalizer {
  import opened Text

  /** The ASCII characters the compiled punctuation class matches: Python's
      `string.punctuation` without the hyphen, which is removed on purpose, and
      without the backslash, which the class text reads as the escape of the
      closing bracket that follows it. */
  const AsciiPunctuation: set<char> := {
    '!', '"', '#', '$', '%', '&', '\'', '(', ')', '*', '+', ',', '.', '/',
    ':', ';', '<', '=', '>', '?', '@', '[', ']', '^', '_', '`', '{', '|', '}', '~'
  }

  /** The Ge'ez punctuation and typographic quotation marks added to the class. */
  const GeezPunctuation: set<char> := {
    '፡', '፣', '፥', '፤', '፦', '።', '፧', '፨', '፠',
    '“', '”', '‘', '’', '‚', '‛', '„', '‟'
  }

  const Punctuation: set<char> := AsciiPunctuation + GeezPunctuation

  /** Tokens dropped after cleaning: English and Tigrinya articles and particles. */
  const ExcludedArticles: set<string> := {
    "a", "an", "the", "ብ", "ናይ", "ኣብ", "እዩ", "ናብ", "ካብ", "እቲ"
  }

  /** Membership in `AsciiPunctuation`, as the runs of code points that make it up. */
  predicate IsAsciiPunctuation(c: char) {
    || ('!' <= c <= '/' && c != '-')
    || ':' <= c <= '@'
    || ('[' <= c <= '`' && c != '\\')
    || '{' <= c <= '~'
  }

  /** Membership in `GeezPunctuation`: the Ge'ez marks U+1360 to U+1368 and the
      quotation marks U+2018 to U+201F. */
  predicate IsGeezPunctuation(c: char) {
    '\U{1360}' <= c <= '\U{1368}' || '\U{2018}' <= c <= '\U{201F}'
  }

  /** A character the compiled punctuation class matches. */
  predicate IsPunctuation(c: char) {
    IsAsciiPunctuation(c) || IsGeezPunctuation(c)
  }

  lemma AsciiPunctuationTable(c: char)
    ensures IsAsciiPunctuation(c) <==> c in AsciiPunctuation
  {
  }

  lemma GeezPunctuationTable(c: char)
    ensures IsGeezPunctuation(c) <==> c in GeezPunctuation
  {
  }

  /** The ranges of `IsPunctuation` are exactly the punctuation table. */
  lemma PunctuationTable(c: char)
    ensures IsPunctuation(c) <==> c in Punctuation
  {
    AsciiPunctuationTable(c);
    GeezPunctuationTable(c);
  }

  predicate IsUpper(c: char) {
    'A' <= c <= 'Z'
  }

  /** `str.lower()` on one character, for the Latin capitals; Ge'ez has no case. */
  function LowerChar(c: char): (d: char)
    ensures !IsUpper(d)
    ensures !IsUpper(c) ==> d == c
    ensures IsUpper(c) ==> d as int == c as int + 32 && 'a' <= d <= 'z'
  {
    if IsUpper(c) then (c as int + 32) as char else c
  }

  /** `str.upper()` on one character, for the Latin small letters. */
  function UpperChar(c: char): char {
    if 'a' <= c <= 'z' then (c as int - 32) as char else c
  }

  function Lower(s: string): string {
    seq(|s|, i requires 0 <= i < |s| => LowerChar(s[i]))
  }

  /** Lowercasing is idempotent and keeps the length. */
  lemma LowerIdempotent(s: string)
    ensures |Lower(s)| == |s|
    ensures Lower(Lower(s)) == Lower(s)
  {
  }

  function Upper(s: string): string {
    seq(|s|, i requires 0 <= i < |s| => UpperChar(s[i]))
  }

  /** The regular-expression substitution: every punctuation character becomes one space. */
  function ReplacePunctuation(s: string): string {
    seq(|s|, i requires 0 <= i < |s| => if IsPunctuation(s[i]) then ' ' else s[i])
  }

  /** The tokens `clean_text` collapses its text into. */
  function CleanTokens(text: string): seq<string> {
    Split(ReplacePunctuation(Lower(text)))
  }

  /** `clean_text`: lowercase, blank out punctuation, collapse whitespace. */
  function CleanText(text: string): string {
    Strip(Join(CleanTokens(text)))
  }

  /** The list comprehension of `remove_articles`: the tokens that are not
      excluded articles, in their original order. */
  function DropArticles(ws: seq<string>): seq<string> {
    if |ws| == 0 then []
    else (if ws[0] in ExcludedArticles then [] else [ws[0]]) + DropArticles(ws[1..])
  }

  /** `remove_articles` keeps exactly the tokens that are not articles: every
      occurrence of a non-article survives, and no article does. */
  lemma {:induction false} DropArticlesSpec(ws: seq<string>)
    ensures |DropArticles(ws)| <= |ws|
    ensures forall w :: w in DropArticles(ws) <==> w in ws && w !in ExcludedArticles
    ensures forall w :: w !in ExcludedArticles ==> multiset(DropArticles(ws))[w] == multiset(ws)[w]
  {
    if |ws| > 0 {
      DropArticlesSpec(ws[1..]);
      assert ws == [ws[0]] + ws[1..];
    }
  }

  /** `remove_articles` keeps the order of the tokens: filtering a
      concatenation filters each part. */
  lemma {:induction false} DropArticlesAppend(a: seq<string>, b: seq<string>)
    ensures DropArticles(a + b) == DropArticles(a) + DropArticles(b)
    decreases |a|
  {
    if |a| == 0 {
      assert a + b == b;
    } else {
      assert (a + b)[1..] == a[1..] + b;
      DropArticlesAppend(a[1..], b);
    }
  }

  /** `remove_articles`. */
  function RemoveArticles(text: string): string {
    Join(DropArticles(Split(text)))
  }

  /** `normalize_answer`. */
  function Normalize(text: string): string {
    RemoveArticles(CleanText(text))
  }

  /** Every excluded article is shorter than three characters, except "the":
      a longer word, or one of three characters not starting with `t`, is
      never dropped. */
  lemma NotArticle(w: string)
    requires |w| > 3 || (|w| == 3 && w[0] != 't')
    ensures w !in ExcludedArticles
  {
  }

  /** A character that can survive normalisation. */
  predicate IsClean(c: char) {
    !IsSpace(c) && !IsPunctuation(c) && !IsUpper(c)
  }

  /** A token made only of characters that survive normalisation. */
  predicate IsCleanWord(w: string) {
    |w| > 0 && forall i :: 0 <= i < |w| ==> IsClean(w[i])
  }

  /** A token that can appear in a normalised answer. */
  predicate IsNormalWord(w: string) {
    IsCleanWord(w) && w !in ExcludedArticles
  }

  /** The tokens of a normalised answer, computed without the intermediate join. */
  function NormalTokens(text: string): seq<string> {
    DropArticles(CleanTokens(text))
  }

  lemma CleanWordsAreWords(ws: seq<string>)
    requires forall i :: 0 <= i < |ws| ==> IsCleanWord(ws[i])
    ensures AllWords(ws)
  {
    forall i | 0 <= i < |ws| ensures IsWord(ws[i]) {
      assert IsCleanWord(ws[i]);
    }
  }

  /** Split after lowercasing and blanking punctuation yields clean tokens. */
  lemma SplitCleanedIsClean(text: string)
    ensures forall i :: 0 <= i < |CleanTokens(text)| ==> IsCleanWord(CleanTokens(text)[i])
  {
    var p := ReplacePunctuation(Lower(text));
    assert forall c :: c in p ==> !IsPunctuation(c) && !IsUpper(c);
    var ws := Split(p);
    SplitWords(p);
    assert ws == CleanTokens(text);
    forall i | 0 <= i < |ws| ensures IsCleanWord(ws[i]) {
      assert IsWord(ws[i]);
      forall j | 0 <= j < |ws[i]| ensures IsClean(ws[i][j]) {
        assert ws[i][j] in ws[i];
      }
    }
  }

  /** A punctuation mark is blanked out, not deleted: wherever it stands it
      separates the tokens before it from the tokens after it, exactly as a
      whitespace character does. */
  lemma PunctuationSeparates(a: string, c: char, b: string)
    requires IsPunctuation(c)
    ensures CleanTokens(a + [c] + b) == CleanTokens(a) + CleanTokens(b)
  {
    var la, lb := Lower(a), Lower(b);
    assert !IsUpper(c);
    assert Lower(a + [c] + b) == la + [c] + lb;
    var ra, rb := ReplacePunctuation(la), ReplacePunctuation(lb);
    assert ReplacePunctuation(la + [c] + lb) == ra + [' '] + rb;
    SpaceFacts();
    SplitAtSpace(ra, ' ', rb);
  }

  /** A clean word is its own single token. */
  lemma CleanWordTokens(w: string)
    requires IsCleanWord(w)
    ensures CleanTokens(w) == [w]
  {
    assert Join([w]) == w;
    JoinCleanFixed([w]);
    CleanWordsAreWords([w]);
    SplitJoin([w]);
  }

  /** A `Join` of clean tokens holds only clean characters and spaces. */
  lemma JoinCleanChars(ws: seq<string>)
    requires forall i :: 0 <= i < |ws| ==> IsCleanWord(ws[i])
    ensures forall i :: 0 <= i < |Join(ws)| ==> Join(ws)[i] == ' ' || IsClean(Join(ws)[i])
  {
    CleanWordsAreWords(ws);
    JoinShape(ws);
    var s := Join(ws);
    forall i | 0 <= i < |s| && s[i] != ' ' ensures IsClean(s[i]) {
      var j :| 0 <= j < |ws| && s[i] in ws[j];
      var k :| 0 <= k < |ws[j]| && ws[j][k] == s[i];
      assert IsClean(ws[j][k]);
    }
  }

  /** The separating space is whitespace, and neither punctuation nor a capital. */
  lemma SpaceFacts()
    ensures IsSpace(' ') && !IsPunctuation(' ') && !IsUpper(' ')
  {
  }

  /** Text of clean characters and spaces is untouched by lowercasing and by
      the punctuation substitution. */
  lemma CleanTextUnchanged(s: string)
    requires forall i :: 0 <= i < |s| ==> s[i] == ' ' || IsClean(s[i])
    ensures ReplacePunctuation(Lower(s)) == s
  {
    SpaceFacts();
    LowerUnchanged(s);
    ReplacePunctuationUnchanged(s);
  }

  /** A `Join` of clean tokens is untouched by lowercasing and by the
      punctuation substitution. */
  lemma JoinCleanFixed(ws: seq<string>)
    requires forall i :: 0 <= i < |ws| ==> IsCleanWord(ws[i])
    ensures ReplacePunctuation(Lower(Join(ws))) == Join(ws)
  {
    JoinCleanChars(ws);
    CleanTextUnchanged(Join(ws));
  }

  lemma LowerUnchanged(s: string)
    requires forall i :: 0 <= i < |s| ==> !IsUpper(s[i])
    ensures Lower(s) == s
  {
  }

  lemma ReplacePunctuationUnchanged(s: string)
    requires forall i :: 0 <= i < |s| ==> !IsPunctuation(s[i])
    ensures ReplacePunctuation(s) == s
  {
  }

  /** `clean_text` is the `Join` of the tokens of the blanked-out text: its
      final `strip()` has nothing left to remove. */
  lemma CleanTextIsJoin(text: string)
    ensures CleanText(text) == Join(CleanTokens(text))
    ensures Split(CleanText(text)) == CleanTokens(text)
  {
    var ws := CleanTokens(text);
    SplitWords(ReplacePunctuation(Lower(text)));
    JoinShape(ws);
    StripUntrimmed(Join(ws));
    SplitJoin(ws);
  }

  /** Dropping articles from clean tokens leaves normal words. */
  lemma DropArticlesNormal(ws: seq<string>)
    requires forall i :: 0 <= i < |ws| ==> IsCleanWord(ws[i])
    ensures forall i :: 0 <= i < |DropArticles(ws)| ==> IsNormalWord(DropArticles(ws)[i])
  {
    var ts := DropArticles(ws);
    DropArticlesSpec(ws);
    forall i | 0 <= i < |ts| ensures IsNormalWord(ts[i]) {
      assert ts[i] in ws;
    }
  }

  /** Every token of a normalised answer is a normal word. */
  lemma NormalTokensAreNormal(text: string)
    ensures forall i :: 0 <= i < |NormalTokens(text)| ==> IsNormalWord(NormalTokens(text)[i])
  {
    var ws := CleanTokens(text);
    SplitCleanedIsClean(text);
    assert forall i :: 0 <= i < |ws| ==> IsCleanWord(ws[i]);
    DropArticlesNormal(ws);
    assert NormalTokens(text) == DropArticles(ws);
  }

  /** Normalisation is `Join` of `NormalTokens`, every one of which is a normal
      word, and splitting the normalised answer gives those tokens back. */
  lemma NormalizeIsJoin(text: string)
    ensures forall i :: 0 <= i < |NormalTokens(text)| ==> IsNormalWord(NormalTokens(text)[i])
    ensures Normalize(text) == Join(NormalTokens(text))
    ensures Split(Normalize(text)) == NormalTokens(text)
  {
    var ts := NormalTokens(text);
    assert Normalize(text) == Join(ts) by {
      CleanTextIsJoin(text);
    }
    NormalTokensAreNormal(text);
    assert AllWords(ts) by {
      CleanWordsAreWords(ts);
    }
    SplitJoin(ts);
  }

  /** Normalising text that is already a `Join` of clean tokens only drops the
      articles among them. */
  lemma NormalizeJoin(ws: seq<string>)
    requires forall i :: 0 <= i < |ws| ==> IsCleanWord(ws[i])
    ensures Normalize(Join(ws)) == Join(DropArticles(ws))
  {
    JoinCleanFixed(ws);
    CleanWordsAreWords(ws);
    SplitJoin(ws);
    JoinShape(ws);
    StripUntrimmed(Join(ws));
    assert CleanText(Join(ws)) == Join(ws);
  }

  /** Dropping articles keeps a list of non-articles as it is. */
  lemma {:induction false} DropArticlesNone(ws: seq<string>)
    requires forall i :: 0 <= i < |ws| ==> ws[i] !in ExcludedArticles
    ensures DropArticles(ws) == ws
  {
    if |ws| > 0 {
      DropArticlesNone(ws[1..]);
      assert ws == [ws[0]] + ws[1..];
    }
  }

  /** Normalisation is idempotent. */
  lemma NormalizeIdempotent(text: string)
    ensures Normalize(Normalize(text)) == Normalize(text)
  {
    NormalizeIsJoin(text);
    var ts := NormalTokens(text);
    NormalizeJoin(ts);
    DropArticlesNone(ts);
  }

  /** The shape of a `Join` of normal words. */
  lemma JoinNormalShape(ts: seq<string>)
    requires forall i :: 0 <= i < |ts| ==> IsNormalWord(ts[i])
    ensures var r := Join(ts);
      && (forall i :: 0 <= i < |r| ==> !IsPunctuation(r[i]) && !IsUpper(r[i]))
      && (forall i :: 0 <= i < |r| && IsSpace(r[i]) ==> r[i] == ' ')
      && (|r| > 0 ==> !IsSpace(r[0]) && !IsSpace(r[|r| - 1]))
      && (forall i :: 0 <= i < |r| - 1 && r[i] == ' ' ==> r[i + 1] != ' ')
      && (forall w :: w in Split(r) ==> w !in ExcludedArticles)
  {
    var r := Join(ts);
    assert forall i :: 0 <= i < |ts| ==> IsCleanWord(ts[i]);
    CleanWordsAreWords(ts);
    JoinShape(ts);
    JoinCleanChars(ts);
    SpaceFacts();
    SplitJoin(ts);
    forall w | w in Split(r) ensures w !in ExcludedArticles {
      var i :| 0 <= i < |ts| && ts[i] == w;
      assert IsNormalWord(ts[i]);
    }
  }

  /** The shape of every normalised answer: no punctuation, no Latin capital,
      no whitespace at either end, no whitespace but single spaces, never two
      spaces in a row, and no token that is an excluded article. */
  lemma NormalizeShape(text: string)
    ensures var r := Normalize(text);
      && (forall i :: 0 <= i < |r| ==> !IsPunctuation(r[i]) && !IsUpper(r[i]))
      && (forall i :: 0 <= i < |r| && IsSpace(r[i]) ==> r[i] == ' ')
      && (|r| > 0 ==> !IsSpace(r[0]) && !IsSpace(r[|r| - 1]))
      && (forall i :: 0 <= i < |r| - 1 && r[i] == ' ' ==> r[i + 1] != ' ')
      && (forall w :: w in Split(r) ==> w !in ExcludedArticles)
  {
    var ts := NormalTokens(text);
    NormalizeIsJoin(text);
    assert forall i :: 0 <= i < |ts| ==> IsNormalWord(ts[i]);
    JoinNormalShape(ts);
  }

  /** Normalisation sees text only through its lowercase form. */
  lemma NormalizeSeesLowercase(x: string, y: string)
    requires Lower(x) == Lower(y)
    ensures Normalize(x) == Normalize(y)
  {
  }

  /** Normalisation ignores the case of the Latin letters: uppercasing the
      input first changes nothing. */
  lemma NormalizeIgnoresCase(x: string)
    ensures Normalize(Upper(x)) == Normalize(x)
  {
    assert Lower(Upper(x)) == Lower(x);
    NormalizeSeesLowercase(Upper(x), x);
  }

  /** Latin small letters, the hyphen and the Ethiopic syllables (the block
      below its punctuation marks) all survive normalisation. */
  predicate IsPlainLetter(c: char) {
    ('a' <= c <= 'z') || c == '-' || ('\U{1200}' <= c <= '\U{135A}')
  }

  lemma PlainLetterIsClean(c: char)
    requires IsPlainLetter(c)
    ensures IsClean(c)
  {
    if 'a' <= c <= 'z' {
      assert !IsSpace(c);
    } else if c == '-' {
      assert !IsSpace(c);
    } else {
      assert !IsSpace(c);
    }
  }

  lemma PlainWordIsClean(w: string)
    requires |w| > 0 && forall i :: 0 <= i < |w| ==> IsPlainLetter(w[i])
    ensures IsCleanWord(w)
  {
    forall i | 0 <= i < |w| ensures IsClean(w[i]) {
      PlainLetterIsClean(w[i]);
    }
  }

  /** The hyphen is not punctuation here: "well-known" survives whole. */
  lemma NormalizeKeepsHyphen()
    ensures Normalize("well-known") == "well-known"
  {
    var w := "well-known";
    PlainWordIsClean(w);
    NotArticle(w);
    assert DropArticles([w]) == [w];
    NormalizeJoin([w]);
  }

  /** An article is dropped, in English and in Tigrinya. */
  lemma NormalizeDropsEnglishArticle()
    ensures Normalize("the cat") == Normalize("cat") == "cat"
  {
    PlainWordIsClean("the");
    PlainWordIsClean("cat");
    assert Join(["the", "cat"]) == "the cat";
    NormalizeJoin(["the", "cat"]);
    NotArticle("cat");
    assert DropArticles(["the", "cat"]) == ["cat"];
    NormalizeJoin(["cat"]);
  }

  /** Punctuation turns into whitespace before articles are dropped, so an
      article followed by a mark normalises to the empty string. */
  lemma NormalizeDropsPunctuatedArticle()
    ensures Normalize("The.") == Normalize("A,") == ""
  {
    CleanArticle("The.", "the");
    CleanArticle("A,", "a");
  }

  /** An article, in any case, followed by one punctuation mark cleans to
      the article, which normalisation then drops. */
  lemma CleanArticle(text: string, article: string)
    requires article in ExcludedArticles && |text| == |article| + 1
    requires IsPunctuation(text[|article|])
    requires Lower(text[..|article|]) == article
    requires forall i :: 0 <= i < |article| ==> IsPlainLetter(article[i])
    ensures Normalize(text) == ""
  {
    PlainWordIsClean(article);
    CleanWordsAreWords([article]);
    var p := ReplacePunctuation(Lower(text));
    assert p == article + " " by {
      assert Lower(text) == Lower(text[..|article|]) + [LowerChar(text[|article|])];
    }
    SplitWordSpace(article);
    assert CleanTokens(text) == [article];
    assert Join([article]) == article;
    assert CleanText(text) == article by {
      JoinShape([article]);
      StripUntrimmed(article);
    }
    SplitJoin([article]);
    assert DropArticles([article]) == [];
  }

  /** A comma with no space around it still splits "big,car" into two tokens. */
  lemma CleanTokensAtPunctuation()
    ensures CleanTokens("big,car") == ["big", "car"]
  {
    PlainWordIsClean("big");
    PlainWordIsClean("car");
    CleanWordTokens("big");
    CleanWordTokens("car");
    assert "big,car" == "big" + [','] + "car";
    PunctuationSeparates("big", ',', "car");
  }

  /** A punctuation mark between two words separates them: "big,car"
      normalises to "big car". */
  lemma NormalizeSplitsAtPunctuation()
    ensures Normalize("big,car") == "big car"
  {
    assert Join(["big", "car"]) == "big car";
    NotArticle("big");
    NotArticle("car");
    assert DropArticles(["big", "car"]) == ["big", "car"];
    CleanTokensAtPunctuation();
    NormalizeIsJoin("big,car");
  }

  lemma NormalizeDropsTigrinyaArticle()
    ensures Normalize("ናይ ከተማ") == Normalize("ከተማ") == "ከተማ"
  {
    PlainWordIsClean("ናይ");
    PlainWordIsClean("ከተማ");
    assert Join(["ናይ", "ከተማ"]) == "ናይ ከተማ";
    NormalizeJoin(["ናይ", "ከተማ"]);
    NotArticle("ከተማ");
    assert DropArticles(["ናይ", "ከተማ"]) == ["ከተማ"];
    NormalizeJoin(["ከተማ"]);
  }
}
