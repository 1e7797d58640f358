/** Character-level helpers: ASCII case folding (the behaviour of
    `ToLowerInvariant` and `StringComparison.OrdinalIgnoreCase` on ASCII text)
    and `bool.TryParse`. */
module Text {
  import opened Wrappers

  function LowerChar(c: char): char {
    if 'A' <= c <= 'Z' then (c as int + 32) as char else c
  }

  /** `s.ToLowerInvariant()` restricted to ASCII letters. */
  function Lower(s: string): (r: string)
    ensures |r| == |s|
    ensures forall i :: 0 <= i < |s| ==> r[i] == LowerChar(s[i])
  {
    seq(|s|, i requires 0 <= i < |s| => LowerChar(s[i]))
  }

  /** `a.Equals(b, StringComparison.OrdinalIgnoreCase)`. */
  predicate EqualsIgnoreCase(a: string, b: string) {
    Lower(a) == Lower(b)
  }

  /** `Char.IsWhiteSpace`: the control characters from tab to carriage
      return, next line, and the space, line and paragraph separators of
      Unicode. */
  predicate WhiteSpace(c: char) {
    || ('\t' <= c <= '\r') || c == ' ' || c == '\U{0085}' || c == '\U{00A0}'
    || c == '\U{1680}' || ('\U{2000}' <= c <= '\U{200A}') || c == '\U{2028}' || c == '\U{2029}'
    || c == '\U{202F}' || c == '\U{205F}' || c == '\U{3000}'
  }

  /** The characters `bool.TryParse` trims: white space and NUL. */
  predicate Trimmable(c: char) {
    WhiteSpace(c) || c == '\0'
  }

  /** Every character of `s` is trimmable. */
  predicate AllTrimmable(s: string) {
    forall k :: 0 <= k < |s| ==> Trimmable(s[k])
  }

  /** `w` starts and ends with an ASCII letter. */
  predicate LetterEnds(w: string) {
    w != [] && ('A' <= w[0] <= 'Z' || 'a' <= w[0] <= 'z') && ('A' <= w[|w| - 1] <= 'Z' || 'a' <= w[|w| - 1] <= 'z')
  }

  /** Removes the longest trimmable prefix: what it drops is all trimmable,
      and what it keeps does not start with a trimmable character. */
  function TrimStart(s: string): (r: string)
    ensures |r| <= |s| && r == s[|s| - |r|..]
    ensures AllTrimmable(s[..|s| - |r|])
    ensures r == [] || !Trimmable(r[0])
  {
    if s != [] && Trimmable(s[0]) then TrimStart(s[1..]) else s
  }

  /** Removes the longest trimmable suffix. */
  function TrimEnd(s: string): (r: string)
    ensures |r| <= |s| && r == s[..|r|]
    ensures AllTrimmable(s[|r|..])
    ensures r == [] || !Trimmable(r[|r| - 1])
  {
    if s != [] && Trimmable(s[|s| - 1]) then TrimEnd(s[..|s| - 1]) else s
  }

  /** `s` is `word` in some letter case, with nothing but trimmable
      characters before and after it. */
  predicate PaddedWord(s: string, word: string) {
    exists i, j :: 0 <= i <= j <= |s| && AllTrimmable(s[..i]) && AllTrimmable(s[j..]) && EqualsIgnoreCase(s[i..j], word)
  }

  /** `bool.TryParse(s, out b)`: "true" or "false" in any letter case, after
      trimming whitespace and NUL at both ends; anything else fails. */
  function TryParseBool(s: string): (r: Option<bool>)
    ensures r == Some(true) <==> Lower(TrimEnd(TrimStart(s))) == "true"
    ensures r == Some(false) <==> Lower(TrimEnd(TrimStart(s))) == "false"
    ensures r == Some(true) <==> PaddedWord(s, "true")
    ensures r == Some(false) <==> PaddedWord(s, "false")
  {
    TrimmedBoolWord(s);
    var t := Lower(TrimEnd(TrimStart(s)));
    if t == "true" then Some(true) else if t == "false" then Some(false) else None
  }

  /** `b.ToString()`: how a boolean request property reads back as text. */
  function BoolText(b: bool): string {
    if b then "True" else "False"
  }

  /** ASCII letters are never trimmed. */
  lemma LetterNotTrimmable(c: char)
    requires 'A' <= c <= 'Z' || 'a' <= c <= 'z'
    ensures !Trimmable(c)
  {
  }

  /** A character that lower-cases to an ASCII letter is one, and so is never trimmed. */
  lemma LowerLetterNotTrimmable(c: char)
    requires 'a' <= LowerChar(c) <= 'z'
    ensures !Trimmable(c)
  {
    LetterNotTrimmable(c);
  }

  /** `TrimStart` stops at the first character that is not trimmable. */
  lemma {:induction false} TrimStartStopsAt(s: string, i: nat)
    requires i < |s| && AllTrimmable(s[..i]) && !Trimmable(s[i])
    ensures TrimStart(s) == s[i..]
    decreases i
  {
    if i > 0 {
      assert s[..i][0] == s[0];
      var q := s[1..][..i - 1];
      assert AllTrimmable(q) by {
        forall k | 0 <= k < |q| ensures Trimmable(q[k]) {
          assert q[k] == s[..i][k + 1];
        }
      }
      TrimStartStopsAt(s[1..], i - 1);
      assert s[1..][i - 1..] == s[i..];
    }
  }

  /** `TrimEnd` stops after the last character that is not trimmable. */
  lemma {:induction false} TrimEndStopsAt(s: string, j: nat)
    requires 0 < j <= |s| && AllTrimmable(s[j..]) && !Trimmable(s[j - 1])
    ensures TrimEnd(s) == s[..j]
    decreases |s| - j
  {
    if j < |s| {
      var p := s[..|s| - 1];
      assert s[j..][|s| - 1 - j] == s[|s| - 1];
      assert p[j..] == s[j..|s| - 1];
      assert AllTrimmable(p[j..]) by {
        forall k | 0 <= k < |p[j..]| ensures Trimmable(p[j..][k]) {
          assert p[j..][k] == s[j..][k];
        }
      }
      TrimEndStopsAt(p, j);
      assert p[..j] == s[..j];
    }
  }

  /** Text equal to a word of letters up to case starts and ends with a
      character that is not trimmable. */
  lemma WordEndsNotTrimmable(w: string, word: string)
    requires LetterEnds(word) && EqualsIgnoreCase(w, word)
    ensures w != [] && !Trimmable(w[0]) && !Trimmable(w[|w| - 1])
  {
    assert |w| == |Lower(w)| == |Lower(word)| == |word|;
    LetterNotTrimmable(word[0]);
    LetterNotTrimmable(word[|word| - 1]);
    assert LowerChar(w[0]) == Lower(word)[0] == LowerChar(word[0]);
    assert LowerChar(w[|w| - 1]) == Lower(word)[|word| - 1] == LowerChar(word[|word| - 1]);
    LowerLetterNotTrimmable(w[0]);
    LowerLetterNotTrimmable(w[|w| - 1]);
  }

  /** What the two trims keep sits inside the text: a suffix `u` of `s`
      and a prefix `t` of `u` place `t` in `s`, followed by what `u` has
      after `t`. */
  lemma PaddedSlices(s: string, u: string, t: string)
    requires |u| <= |s| && u == s[|s| - |u|..]
    requires |t| <= |u| && t == u[..|t|] && AllTrimmable(u[|t|..])
    ensures var i := |s| - |u|;
            && i + |t| <= |s| && t == s[i..i + |t|] && AllTrimmable(s[i + |t|..])
  {
    var i := |s| - |u|;
    assert s[i + |t|..] == u[|t|..];
  }

  /** A padded word is what the trims keep. */
  lemma PaddedWordTrimmed(s: string, word: string, i: nat, j: nat)
    requires LetterEnds(word)
    requires i <= j <= |s| && AllTrimmable(s[..i]) && AllTrimmable(s[j..]) && EqualsIgnoreCase(s[i..j], word)
    ensures TrimEnd(TrimStart(s)) == s[i..j]
  {
    WordEndsNotTrimmable(s[i..j], word);
    TrimStartStopsAt(s, i);
    var u := s[i..];
    assert u[j - i..] == s[j..];
    TrimEndStopsAt(u, j - i);
    assert u[..j - i] == s[i..j];
  }

  /** Trimming both ends finds a word exactly when the text is that word
      padded with trimmable characters. */
  lemma TrimmedIsPaddedWord(s: string, word: string)
    requires LetterEnds(word)
    ensures EqualsIgnoreCase(TrimEnd(TrimStart(s)), word) <==> PaddedWord(s, word)
  {
    var u := TrimStart(s);
    PaddedSlices(s, u, TrimEnd(u));
    if PaddedWord(s, word) {
      var i, j :| 0 <= i <= j <= |s| && AllTrimmable(s[..i]) && AllTrimmable(s[j..]) && EqualsIgnoreCase(s[i..j], word);
      PaddedWordTrimmed(s, word, i, j);
    }
  }

  /** The trims find "true" (or "false") in any letter case exactly when the
      text is that word padded with trimmable characters. */
  lemma TrimmedBoolWord(s: string)
    ensures Lower(TrimEnd(TrimStart(s))) == "true" <==> PaddedWord(s, "true")
    ensures Lower(TrimEnd(TrimStart(s))) == "false" <==> PaddedWord(s, "false")
  {
    LowerBoolWords();
    TrimmedIsPaddedWord(s, "true");
    TrimmedIsPaddedWord(s, "false");
  }

  /** The two words `bool.TryParse` looks for are already lower case. */
  lemma LowerBoolWords()
    ensures Lower("true") == "true" && Lower("false") == "false"
    ensures LetterEnds("true") && LetterEnds("false")
  {
  }

  /** A boolean stored in the property bag reads back as itself. */
  lemma ParseBoolText(b: bool)
    ensures TryParseBool(BoolText(b)) == Some(b)
  {
    var t := BoolText(b);
    LetterNotTrimmable(t[0]);
    LetterNotTrimmable(t[|t| - 1]);
    assert TrimStart(t) == t;
    assert TrimEnd(t) == t;
    assert Lower(t) == if b then "true" else "false";
  }

  /** `bool.TryParse` trims Unicode white space too: a value ending in a
      no-break space still reads as true. */
  lemma NoBreakSpaceTrimmed()
    ensures TryParseBool("true\U{00A0}") == Some(true)
    ensures TryParseBool("\U{3000}False\0") == Some(false)
  {
    var s := "true\U{00A0}";
    LetterNotTrimmable(s[0]);
    assert TrimStart(s) == s;
    assert s[..4] == "true";
    LetterNotTrimmable(s[3]);
    assert TrimEnd(s[..4]) == "true";
    assert TrimEnd(s) == "true";
    assert Lower("true") == "true";
    var u := "\U{3000}False\0";
    assert u[1..] == "False\0";
    LetterNotTrimmable(u[1]);
    assert TrimStart(u[1..]) == "False\0";
    assert TrimStart(u) == "False\0";
    var f := "False\0";
    assert f[..5] == "False";
    LetterNotTrimmable(f[4]);
    assert TrimEnd(f[..5]) == "False";
    assert TrimEnd(f) == "False";
    assert Lower("False") == "false";
  }

}
