/** The Python string builtins the evaluator relies on: `str.split()` with no
    argument, `" ".join(...)` and `str.strip()` with no argument.  All three
    use the same notion of whitespace, the characters `str.isspace` accepts. */
module Text {

  /** Every character for which Python's `str.isspace` holds. */
  const Whitespace: set<char> := {
    '\t', '\n', '\U{000B}', '\U{000C}', '\r',
    '\U{001C}', '\U{001D}', '\U{001E}', '\U{001F}', ' ',
    '\U{0085}', '\U{00A0}', '\U{1680}',
    '\U{2000}', '\U{2001}', '\U{2002}', '\U{2003}', '\U{2004}', '\U{2005}',
    '\U{2006}', '\U{2007}', '\U{2008}', '\U{2009}', '\U{200A}',
    '\U{2028}', '\U{2029}', '\U{202F}', '\U{205F}', '\U{3000}'
  }

  /** `str.isspace` on one character, as the runs of code points that make up
      `Whitespace`. */
  predicate IsSpace(c: char) {
    || '\t' <= c <= '\r'
    || '\U{001C}' <= c <= ' '
    || c == '\U{0085}' || c == '\U{00A0}' || c == '\U{1680}'
    || '\U{2000}' <= c <= '\U{200A}'
    || c == '\U{2028}' || c == '\U{2029}' || c == '\U{202F}' || c == '\U{205F}' || c == '\U{3000}'
  }

  /** The ranges of `IsSpace` are exactly the whitespace table. */
  lemma WhitespaceTable(c: char)
    ensures IsSpace(c) <==> c in Whitespace
  {
  }

  /** A token as `split()` produces it: non-empty and free of whitespace. */
  predicate IsWord(w: string) {
    |w| > 0 && forall i :: 0 <= i < |w| ==> !IsSpace(w[i])
  }

  predicate AllWords(ws: seq<string>) {
    forall i :: 0 <= i < |ws| ==> IsWord(ws[i])
  }

  /** `s` with every whitespace character deleted: the text that splitting keeps. */
  function Squeeze(s: string): string {
    if |s| == 0 then "" else (if IsSpace(s[0]) then "" else [s[0]]) + Squeeze(s[1..])
  }

  /** The tokens of a list laid end to end. */
  function Concat(ws: seq<string>): string {
    if |ws| == 0 then "" else ws[0] + Concat(ws[1..])
  }

  /** Length of the longest whitespace-free prefix of `s`. */
  function WordLength(s: string): (n: nat)
    ensures n <= |s|
    ensures n == |s| || IsSpace(s[n])
  {
    if |s| == 0 || IsSpace(s[0]) then 0 else 1 + WordLength(s[1..])
  }

  /** The prefix `WordLength` measures holds no whitespace. */
  lemma {:induction false} WordLengthPrefix(s: string)
    ensures forall i :: 0 <= i < WordLength(s) ==> !IsSpace(s[i])
  {
    if |s| > 0 && !IsSpace(s[0]) {
      WordLengthPrefix(s[1..]);
    }
  }

  /** `s.split()`: the maximal runs of non-whitespace characters, in order. */
  function Split(s: string): seq<string>
    decreases |s|
  {
    if |s| == 0 then []
    else if IsSpace(s[0]) then Split(s[1..])
    else
      var n := WordLength(s);
      [s[..n]] + Split(s[n..])
  }

  /** `" ".join(ws)`. */
  function Join(ws: seq<string>): string {
    if |ws| == 0 then ""
    else if |ws| == 1 then ws[0]
    else ws[0] + " " + Join(ws[1..])
  }

  /** `s.lstrip()`. */
  function StripLeading(s: string): string {
    if |s| > 0 && IsSpace(s[0]) then StripLeading(s[1..]) else s
  }

  /** `s.rstrip()`. */
  function StripTrailing(s: string): string {
    if |s| > 0 && IsSpace(s[|s| - 1]) then StripTrailing(s[..|s| - 1]) else s
  }

  /** `s.strip()`. */
  function Strip(s: string): string {
    StripTrailing(StripLeading(s))
  }

  /** Every token `split()` returns is a word, made of characters of `s`. */
  lemma {:induction false} SplitWords(s: string)
    ensures AllWords(Split(s))
    ensures forall i, c :: 0 <= i < |Split(s)| && c in Split(s)[i] ==> c in s
    decreases |s|
  {
    if |s| == 0 {
    } else if IsSpace(s[0]) {
      SplitWords(s[1..]);
      assert forall c :: c in s[1..] ==> c in s;
    } else {
      var n := WordLength(s);
      WordLengthPrefix(s);
      SplitWords(s[n..]);
      assert forall c :: c in s[..n] ==> c in s;
      assert forall c :: c in s[n..] ==> c in s;
      var ws := Split(s);
      assert ws == [s[..n]] + Split(s[n..]);
      forall i | 0 <= i < |ws| ensures IsWord(ws[i]) {
        if i > 0 {
          assert ws[i] == Split(s[n..])[i - 1];
        }
      }
      forall i, c | 0 <= i < |ws| && c in ws[i] ensures c in s {
        if i > 0 {
          assert ws[i] == Split(s[n..])[i - 1];
        }
      }
    }
  }

  /** `lstrip()` drops the leading whitespace and nothing else. */
  lemma {:induction false} StripLeadingSpec(s: string)
    ensures var r := StripLeading(s);
      && |r| <= |s| && r == s[|s| - |r|..]
      && (forall k :: 0 <= k < |s| - |r| ==> IsSpace(s[k]))
      && (|r| == 0 || !IsSpace(r[0]))
  {
    if |s| > 0 && IsSpace(s[0]) {
      StripLeadingSpec(s[1..]);
    }
  }

  /** `rstrip()` drops the trailing whitespace and nothing else. */
  lemma {:induction false} StripTrailingSpec(s: string)
    ensures var r := StripTrailing(s);
      && |r| <= |s| && r == s[..|r|]
      && (forall k :: |r| <= k < |s| ==> IsSpace(s[k]))
      && (|r| == 0 || !IsSpace(r[|r| - 1]))
  {
    if |s| > 0 && IsSpace(s[|s| - 1]) {
      StripTrailingSpec(s[..|s| - 1]);
    }
  }

  /** `strip()` leaves no whitespace at either end, and removes nothing but
      whitespace: the result is a slice of `s` with only whitespace around it. */
  lemma StripSpec(s: string)
    ensures var r := Strip(s);
      && (|r| == 0 || (!IsSpace(r[0]) && !IsSpace(r[|r| - 1])))
      && var i := |s| - |StripLeading(s)|;
      && 0 <= i <= |s| - |r| && r == s[i..i + |r|]
      && (forall k :: 0 <= k < i ==> IsSpace(s[k]))
      && (forall k :: i + |r| <= k < |s| ==> IsSpace(s[k]))
  {
    var l := StripLeading(s);
    StripLeadingSpec(s);
    StripTrailingSpec(l);
    var r := Strip(s);
    var i := |s| - |l|;
    assert r == l[..|r|];
    assert r == s[i..i + |r|];
    forall k | i + |r| <= k < |s| ensures IsSpace(s[k]) {
      assert s[k] == l[k - i];
    }
  }

  lemma {:induction false} SqueezeAppend(a: string, b: string)
    ensures Squeeze(a + b) == Squeeze(a) + Squeeze(b)
  {
    if |a| > 0 {
      assert (a + b)[1..] == a[1..] + b;
      SqueezeAppend(a[1..], b);
    } else {
      assert a + b == b;
    }
  }

  lemma {:induction false} SqueezeWord(w: string)
    requires forall i :: 0 <= i < |w| ==> !IsSpace(w[i])
    ensures Squeeze(w) == w
  {
    if |w| > 0 {
      SqueezeWord(w[1..]);
      assert w == [w[0]] + w[1..];
    }
  }

  /** Splitting loses only whitespace: the tokens laid end to end are `s`
      with its whitespace deleted. */
  lemma {:induction false} SplitKeepsText(s: string)
    ensures Concat(Split(s)) == Squeeze(s)
    decreases |s|
  {
    if |s| == 0 {
    } else if IsSpace(s[0]) {
      SplitKeepsText(s[1..]);
    } else {
      var n := WordLength(s);
      var ws := Split(s);
      assert ws == [s[..n]] + Split(s[n..]);
      assert ws[1..] == Split(s[n..]);
      SplitKeepsText(s[n..]);
      assert s == s[..n] + s[n..];
      SqueezeAppend(s[..n], s[n..]);
      WordLengthPrefix(s);
      SqueezeWord(s[..n]);
    }
  }

  /** A word followed by nothing or by whitespace is read back whole. */
  lemma {:induction false} WordLengthOfWord(w: string, rest: string)
    requires IsWord(w)
    requires |rest| == 0 || IsSpace(rest[0])
    ensures WordLength(w + rest) == |w|
    decreases |w|
  {
    assert (w + rest)[0] == w[0];
    if |w| > 1 {
      assert (w + rest)[1..] == w[1..] + rest;
      WordLengthOfWord(w[1..], rest);
    } else {
      assert (w + rest)[1..] == rest;
    }
  }

  /** Appending text does not lengthen the first word when `a` already holds
      whitespace after it, or when the appended text starts with whitespace. */
  lemma {:induction false} WordLengthAppend(a: string, r: string)
    requires WordLength(a) < |a| || |r| == 0 || IsSpace(r[0])
    ensures WordLength(a + r) == WordLength(a)
    decreases |a|
  {
    if |a| == 0 {
      assert a + r == r;
    } else {
      assert (a + r)[0] == a[0];
      if !IsSpace(a[0]) {
        assert (a + r)[1..] == a[1..] + r;
        WordLengthAppend(a[1..], r);
      }
    }
  }

  /** Splitting text that starts with a word, and keeps it whole when more is
      appended, takes that word off first. */
  lemma {:induction false} SplitConsWord(a: string, r: string)
    requires |a| > 0 && !IsSpace(a[0])
    requires WordLength(a) < |a| || |r| == 0 || IsSpace(r[0])
    ensures Split(a + r) == [a[..WordLength(a)]] + Split(a[WordLength(a)..] + r)
  {
    var n := WordLength(a);
    WordLengthAppend(a, r);
    assert (a + r)[0] == a[0];
    assert (a + r)[..n] == a[..n];
    assert (a + r)[n..] == a[n..] + r;
  }

  /** Leading whitespace is skipped. */
  lemma {:induction false} SplitConsSpace(a: string, r: string)
    requires |a| > 0 && IsSpace(a[0])
    ensures Split(a + r) == Split(a[1..] + r)
  {
    assert (a + r)[0] == a[0];
    assert (a + r)[1..] == a[1..] + r;
  }

  /** Every whitespace character separates: splitting at one gives the tokens
      before it followed by the tokens after it, so no two words are ever
      merged, however much whitespace lies between them. */
  lemma {:induction false} SplitAtSpace(a: string, c: char, b: string)
    requires IsSpace(c)
    ensures Split(a + [c] + b) == Split(a) + Split(b)
    decreases |a|
  {
    var r := [c] + b;
    assert a + [c] + b == a + r;
    if |a| == 0 {
      assert a + r == r;
      assert r[1..] == b;
    } else if IsSpace(a[0]) {
      SplitConsSpace(a, r);
      assert a[1..] + r == a[1..] + [c] + b;
      SplitAtSpace(a[1..], c, b);
    } else {
      var n := WordLength(a);
      SplitConsWord(a, r);
      assert a[n..] + r == a[n..] + [c] + b;
      SplitAtSpace(a[n..], c, b);
    }
  }

  /** A word followed by one space splits into that word alone. */
  lemma SplitWordSpace(w: string)
    requires IsWord(w)
    ensures Split(w + " ") == [w]
  {
    var s := w + " ";
    WordLengthOfWord(w, " ");
    assert s[..|w|] == w;
    assert s[|w|..] == " ";
    assert Split(" ") == [];
  }

  /** Splitting undoes joining, for tokens that `split()` could have produced. */
  lemma {:induction false} SplitJoin(ws: seq<string>)
    requires AllWords(ws)
    ensures Split(Join(ws)) == ws
  {
    if |ws| == 1 {
      WordLengthOfWord(ws[0], "");
      assert ws[0] + "" == ws[0];
      assert ws[0][|ws[0]|..] == "";
    } else if |ws| > 1 {
      var w := ws[0];
      var rest := Join(ws[1..]);
      var s := w + " " + rest;
      assert s == w + (" " + rest);
      WordLengthOfWord(w, " " + rest);
      assert s[..|w|] == w;
      assert s[|w|..] == " " + rest;
      assert (" " + rest)[1..] == rest;
      assert AllWords(ws[1..]) by {
        forall i | 0 <= i < |ws[1..]| ensures IsWord(ws[1..][i]) {
          assert ws[1..][i] == ws[i + 1];
        }
      }
      SplitJoin(ws[1..]);
      assert ws == [w] + ws[1..];
    }
  }

  lemma {:induction false} WordsTail(ws: seq<string>)
    requires AllWords(ws) && |ws| > 0
    ensures AllWords(ws[1..])
  {
    forall i | 0 <= i < |ws| - 1 ensures IsWord(ws[1..][i]) {
      assert ws[1..][i] == ws[i + 1];
    }
  }

  /** The pieces of a `Join` of two or more tokens. */
  lemma JoinCons(ws: seq<string>)
    requires |ws| > 1
    ensures var s := Join(ws); var w := ws[0]; var rest := Join(ws[1..]);
      && |s| == |w| + 1 + |rest|
      && (forall i :: 0 <= i < |w| ==> s[i] == w[i])
      && s[|w|] == ' '
      && (forall i :: |w| < i < |s| ==> s[i] == rest[i - |w| - 1])
  {
  }

  /** A `Join` of whitespace-free tokens is empty exactly when there are no
      tokens, and has no whitespace at either end. */
  lemma {:induction false} JoinEnds(ws: seq<string>)
    requires AllWords(ws)
    ensures |Join(ws)| == 0 <==> |ws| == 0
    ensures |Join(ws)| > 0 ==> !IsSpace(Join(ws)[0]) && !IsSpace(Join(ws)[|Join(ws)| - 1])
  {
    if |ws| > 1 {
      WordsTail(ws);
      JoinEnds(ws[1..]);
      JoinCons(ws);
    }
  }

  /** The only whitespace in a `Join` of whitespace-free tokens is the
      separating space, and it never comes twice in a row. */
  lemma {:induction false} JoinSpaces(ws: seq<string>)
    requires AllWords(ws)
    ensures forall i :: 0 <= i < |Join(ws)| && IsSpace(Join(ws)[i]) ==> Join(ws)[i] == ' '
    ensures forall i :: 0 <= i < |Join(ws)| - 1 && IsSpace(Join(ws)[i]) ==> !IsSpace(Join(ws)[i + 1])
  {
    if |ws| > 1 {
      WordsTail(ws);
      JoinSpaces(ws[1..]);
      JoinEnds(ws[1..]);
      JoinCons(ws);
    }
  }

  /** Every character of a `Join` other than a space comes from one of the tokens. */
  lemma {:induction false} JoinChars(ws: seq<string>)
    ensures forall i :: 0 <= i < |Join(ws)| && Join(ws)[i] != ' ' ==>
      exists j :: 0 <= j < |ws| && Join(ws)[i] in ws[j]
  {
    var s := Join(ws);
    if |ws| == 1 {
      forall i | 0 <= i < |s| && s[i] != ' ' ensures exists j :: 0 <= j < |ws| && s[i] in ws[j] {
        assert s[i] in ws[0];
      }
    } else if |ws| > 1 {
      var w := ws[0];
      var tail := ws[1..];
      var rest := Join(tail);
      JoinChars(tail);
      JoinCons(ws);
      forall i | 0 <= i < |s| && s[i] != ' ' ensures exists j :: 0 <= j < |ws| && s[i] in ws[j] {
        if i < |w| {
          assert s[i] in ws[0];
        } else {
          var j :| 0 <= j < |tail| && rest[i - |w| - 1] in tail[j];
          assert tail[j] == ws[j + 1];
        }
      }
    }
  }

  /** What `" ".join` of whitespace-free tokens looks like: empty exactly when
      there are no tokens, no whitespace at either end, the only whitespace is
      the single separating space, and never two whitespace characters in a row;
      every other character comes from one of the tokens. */
  lemma JoinShape(ws: seq<string>)
    requires AllWords(ws)
    ensures var s := Join(ws);
      && (|s| == 0 <==> |ws| == 0)
      && (|s| > 0 ==> !IsSpace(s[0]) && !IsSpace(s[|s| - 1]))
      && (forall i :: 0 <= i < |s| && IsSpace(s[i]) ==> s[i] == ' ')
      && (forall i :: 0 <= i < |s| - 1 && IsSpace(s[i]) ==> !IsSpace(s[i + 1]))
      && (forall i :: 0 <= i < |s| && s[i] != ' ' ==> exists j :: 0 <= j < |ws| && s[i] in ws[j])
  {
    JoinEnds(ws);
    JoinSpaces(ws);
    JoinChars(ws);
  }

  /** `strip()` leaves alone a string with no whitespace at either end. */
  lemma StripUntrimmed(s: string)
    requires |s| == 0 || (!IsSpace(s[0]) && !IsSpace(s[|s| - 1]))
    ensures Strip(s) == s
  {
    assert StripLeading(s) == s;
  }
}
