/**
 * Character classes and the whitespace normaliser `limpiar_espacios`
 * (App_recorte.py:11-17).
 *
 * Whitespace is the set of characters Python's `str.isspace()` accepts, which is
 * also what `str.strip()` removes and what the `\s` class of `re` matches.
 * Digits are the ASCII digits. Lower-casing covers ASCII and the Latin-1
 * capitals, the letters the stop words of the item indexer use.
 */
module Text {

  predicate IsSpace(c: char) {
    || c == ' ' || c == '\t' || c == '\n' || c == '\r' || c == '\U{B}' || c == '\U{C}'
    || ('\U{1C}' <= c <= '\U{1F}') || c == '\U{85}' || c == '\U{A0}' || c == '\U{1680}'
    || ('\U{2000}' <= c <= '\U{200A}') || c == '\U{2028}' || c == '\U{2029}'
    || c == '\U{202F}' || c == '\U{205F}' || c == '\U{3000}'
  }

  predicate IsDigit(c: char) {
    '0' <= c <= '9'
  }

  predicate AllDigits(s: string) {
    forall k | 0 <= k < |s| :: IsDigit(s[k])
  }

  predicate AllSpace(s: string) {
    forall k | 0 <= k < |s| :: IsSpace(s[k])
  }

  /** The value of a decimal numeral, as Python's `int()` reads it (leading zeros allowed). */
  function DigitsValue(ds: string): (v: nat)
    requires AllDigits(ds)
    decreases |ds|
  {
    if ds == [] then 0
    else DigitsValue(ds[..|ds| - 1]) * 10 + (ds[|ds| - 1] as int - '0' as int)
  }

  function Pow10(n: nat): (p: nat)
  {
    if n == 0 then 1 else 10 * Pow10(n - 1)
  }

  /** A numeral of n digits is below 10^n, so one of at most three digits is below 1000. */
  lemma {:induction false} DigitsValueBound(ds: string)
    requires AllDigits(ds)
    ensures DigitsValue(ds) < Pow10(|ds|)
    ensures |ds| <= 3 ==> DigitsValue(ds) < 1000
    decreases |ds|
  {
    if ds != [] {
      DigitsValueBound(ds[..|ds| - 1]);
    }
    if |ds| <= 3 {
      assert Pow10(|ds|) <= 1000 by {
        assert Pow10(0) == 1 && Pow10(1) == 10 && Pow10(2) == 100 && Pow10(3) == 1000;
      }
    }
  }

  // ---------------------------------------------------------------------------
  // str.strip()

  function StripLeft(s: string): (r: string)
    ensures |r| <= |s|
    decreases |s|
  {
    if s != [] && IsSpace(s[0]) then StripLeft(s[1..]) else s
  }

  function StripRight(s: string): (r: string)
    ensures |r| <= |s|
    decreases |s|
  {
    if s != [] && IsSpace(s[|s| - 1]) then StripRight(s[..|s| - 1]) else s
  }

  /** Stripping the left end removes a prefix of whitespace and nothing more. */
  lemma {:induction false} StripLeftSpec(s: string)
    ensures StripLeft(s) == s[|s| - |StripLeft(s)|..]
    ensures AllSpace(s[..|s| - |StripLeft(s)|])
    ensures StripLeft(s) == [] || !IsSpace(StripLeft(s)[0])
    decreases |s|
  {
    if s != [] && IsSpace(s[0]) {
      StripLeftSpec(s[1..]);
      var k := |s| - |StripLeft(s)|;
      forall m | 0 <= m < k ensures IsSpace(s[..k][m]) {
        if m == 0 {
          assert s[..k][m] == s[0];
        } else {
          assert s[..k][m] == s[1..][..k - 1][m - 1];
        }
      }
    }
  }

  /** Stripping the right end removes a suffix of whitespace and nothing more. */
  lemma {:induction false} StripRightSpec(s: string)
    ensures StripRight(s) == s[..|StripRight(s)|]
    ensures AllSpace(s[|StripRight(s)|..])
    ensures StripRight(s) == [] || !IsSpace(StripRight(s)[|StripRight(s)| - 1])
    decreases |s|
  {
    if s != [] && IsSpace(s[|s| - 1]) {
      var t := s[..|s| - 1];
      StripRightSpec(t);
      var k := |StripRight(s)|;
      var suffix := s[k..];
      forall m | 0 <= m < |suffix| ensures IsSpace(suffix[m]) {
        if k + m < |s| - 1 { assert suffix[m] == t[k..][m]; }
      }
    }
  }

  function Strip(s: string): string
  {
    StripRight(StripLeft(s))
  }

  lemma {:induction false} StripIsSlice(s: string)
    ensures exists i, j | 0 <= i <= j <= |s| ::
      Strip(s) == s[i..j] && AllSpace(s[..i]) && AllSpace(s[j..])
    ensures Strip(s) == [] || (!IsSpace(Strip(s)[0]) && !IsSpace(Strip(s)[|Strip(s)| - 1]))
  {
    var l := StripLeft(s);
    var r := StripRight(l);
    StripLeftSpec(s);
    StripRightSpec(l);
    var i, j := |s| - |l|, |s| - |l| + |r|;
    assert r == s[i..j];
    assert s[j..] == l[|r|..];
  }

  /** Stripping leaves nothing exactly when the text is all whitespace. */
  lemma {:induction false} StripEmpty(s: string)
    ensures Strip(s) == [] <==> AllSpace(s)
  {
    StripIsSlice(s);
    var i, j :| 0 <= i <= j <= |s| && Strip(s) == s[i..j] && AllSpace(s[..i]) && AllSpace(s[j..]);
    if Strip(s) == [] {
      assert i == j;
      forall k | 0 <= k < |s| ensures IsSpace(s[k]) {
        if k < i { assert s[..i][k] == s[k]; } else { assert s[j..][k - j] == s[k]; }
      }
    } else {
      assert Strip(s)[0] == s[i] && !IsSpace(s[i]);
    }
  }

  // ---------------------------------------------------------------------------
  // str.lower()

  /** Lower-casing of ASCII capitals and of the Latin-1 capitals À..Þ (except ×). */
  function LowerChar(c: char): char
  {
    if 'A' <= c <= 'Z' || ('\U{C0}' <= c <= '\U{DE}' && c != '\U{D7}') then
      (c as int + 32) as char
    else c
  }

  function Lower(s: string): (r: string)
  {
    seq(|s|, k requires 0 <= k < |s| => LowerChar(s[k]))
  }

  /** Python's `w in s` for strings: w occurs as a contiguous part of s. */
  predicate Contains(s: string, w: string)
    decreases |s|
  {
    |w| <= |s| && (s[..|w|] == w || Contains(s[1..], w))
  }

  // ---------------------------------------------------------------------------
  // limpiar_espacios

  /** The characters of s that are not whitespace, in order. */
  function NonSpace(s: string): string
    decreases |s|
  {
    if s == [] then []
    else (if IsSpace(s[0]) then [] else [s[0]]) + NonSpace(s[1..])
  }

  /** The three `str.replace` calls: no-break space, newline and tab become a space. */
  function ReplaceBreaks(s: string): (r: string)
  {
    seq(|s|, k requires 0 <= k < |s| =>
      if s[k] == '\U{A0}' || s[k] == '\n' || s[k] == '\t' then ' ' else s[k])
  }

  /** Every whitespace character is a plain space and no two whitespace characters are adjacent. */
  predicate SingleSpaced(s: string) {
    && (forall k | 0 <= k < |s| :: IsSpace(s[k]) ==> s[k] == ' ')
    && (forall k | 0 <= k < |s| - 1 :: IsSpace(s[k]) ==> !IsSpace(s[k + 1]))
  }

  /** `re.sub(r"\s+", " ", s)`: every maximal run of whitespace becomes one space. */
  function Collapse(s: string): (r: string)
    ensures SingleSpaced(r)
    ensures r != [] <==> s != []
    ensures r != [] ==> (IsSpace(r[0]) <==> IsSpace(s[0]))
    decreases |s|
  {
    if s == [] then []
    else if IsSpace(s[0]) then
      StripLeftSpec(s[1..]);
      var c := Collapse(StripLeft(s[1..]));
      assert forall k | 1 <= k < |c| + 1 :: ([' '] + c)[k] == c[k - 1];
      [' '] + c
    else
      var c := Collapse(s[1..]);
      assert forall k | 1 <= k < |c| + 1 :: ([s[0]] + c)[k] == c[k - 1];
      [s[0]] + c
  }

  /** Collapsing runs of whitespace keeps every other character, in order. */
  lemma {:induction false} CollapseKeepsNonSpace(s: string)
    ensures NonSpace(Collapse(s)) == NonSpace(s)
    decreases |s|
  {
    if s != [] {
      if IsSpace(s[0]) {
        var rest := StripLeft(s[1..]);
        StripLeftSpec(s[1..]);
        var w := s[1..][..|s| - 1 - |rest|];
        assert s[1..] == w + rest;
        NonSpaceOfSpaces(w, rest);
        CollapseKeepsNonSpace(rest);
        assert NonSpace(Collapse(s)) == NonSpace(Collapse(rest));
      } else {
        CollapseKeepsNonSpace(s[1..]);
        assert NonSpace(Collapse(s)) == [s[0]] + NonSpace(Collapse(s[1..]));
      }
    }
  }

  lemma {:induction false} NonSpaceOfSpaces(w: string, t: string)
    requires AllSpace(w)
    ensures NonSpace(w + t) == NonSpace(t)
    decreases |w|
  {
    if w == [] {
      assert w + t == t;
    } else {
      assert (w + t)[0] == w[0] && (w + t)[1..] == w[1..] + t;
      assert AllSpace(w[1..]) by {
        forall k | 0 <= k < |w| - 1 ensures IsSpace(w[1..][k]) { assert w[1..][k] == w[k + 1]; }
      }
      NonSpaceOfSpaces(w[1..], t);
    }
  }

  /** The output of the normaliser: single-spaced and without whitespace at either end. */
  predicate IsClean(t: string) {
    SingleSpaced(t) && (t != [] ==> !IsSpace(t[0]) && !IsSpace(t[|t| - 1]))
  }

  /**
   * `limpiar_espacios` (App_recorte.py:11-17). Unicode NFKC normalisation
   * (line 12) is taken as the identity: the text is taken to be in NFKC form already.
   */
  function CleanSpaces(s: string): (r: string)
  {
    Strip(Collapse(ReplaceBreaks(s)))
  }

  lemma {:induction false} NonSpaceAppend(a: string, b: string)
    ensures NonSpace(a + b) == NonSpace(a) + NonSpace(b)
    decreases |a|
  {
    if a == [] {
      assert a + b == b;
    } else {
      assert (a + b)[0] == a[0] && (a + b)[1..] == a[1..] + b;
      NonSpaceAppend(a[1..], b);
    }
  }

  lemma {:induction false} ReplaceBreaksKeepsNonSpace(s: string)
    ensures NonSpace(ReplaceBreaks(s)) == NonSpace(s)
    decreases |s|
  {
    if s != [] {
      assert ReplaceBreaks(s)[1..] == ReplaceBreaks(s[1..]);
      ReplaceBreaksKeepsNonSpace(s[1..]);
    }
  }

  /** The slice of a single-spaced string that strip leaves is clean. */
  lemma {:induction false} StripSingleSpaced(s: string)
    requires SingleSpaced(s)
    ensures IsClean(Strip(s))
  {
    StripIsSlice(s);
    var i, j :| 0 <= i <= j <= |s| && Strip(s) == s[i..j] && AllSpace(s[..i]) && AllSpace(s[j..]);
    var r := Strip(s);
    forall k | 0 <= k < |r| - 1 ensures IsSpace(r[k]) ==> !IsSpace(r[k + 1]) {
      assert r[k] == s[i + k] && r[k + 1] == s[i + k + 1];
    }
    forall k | 0 <= k < |r| ensures IsSpace(r[k]) ==> r[k] == ' ' {
      assert r[k] == s[i + k];
    }
  }

  /** Normalised text is single-spaced and has no whitespace at either end. */
  lemma {:induction false} CleanSpacesIsClean(s: string)
    ensures IsClean(CleanSpaces(s))
    ensures forall k | 0 <= k < |CleanSpaces(s)| ::
      CleanSpaces(s)[k] != '\t' && CleanSpaces(s)[k] != '\n' && CleanSpaces(s)[k] != '\U{A0}'
  {
    StripSingleSpaced(Collapse(ReplaceBreaks(s)));
  }

  /** Cutting whitespace off both ends removes whitespace only. */
  lemma {:induction false} NonSpaceTrim(c: string, i: nat, j: nat)
    requires i <= j <= |c| && AllSpace(c[..i]) && AllSpace(c[j..])
    ensures NonSpace(c[i..j]) == NonSpace(c)
  {
    var left, mid, right := c[..i], c[i..j], c[j..];
    assert mid + right == c[i..];
    assert left + c[i..] == c;
    NonSpaceOfSpaces(left, c[i..]);
    NonSpaceAppend(mid, right);
    assert right + [] == right;
    NonSpaceOfSpaces(right, []);
  }

  /** Stripping removes whitespace only. */
  lemma {:induction false} NonSpaceStrip(c: string)
    ensures NonSpace(Strip(c)) == NonSpace(c)
  {
    StripIsSlice(c);
    var i, j :| 0 <= i <= j <= |c| && Strip(c) == c[i..j] && AllSpace(c[..i]) && AllSpace(c[j..]);
    NonSpaceTrim(c, i, j);
  }

  /** Normalising changes only whitespace: the other characters stay, in order. */
  lemma {:induction false} CleanSpacesKeepsText(s: string)
    ensures NonSpace(CleanSpaces(s)) == NonSpace(s)
  {
    NonSpaceStrip(Collapse(ReplaceBreaks(s)));
    CollapseKeepsNonSpace(ReplaceBreaks(s));
    ReplaceBreaksKeepsNonSpace(s);
  }

  lemma {:induction false} CollapseSingleSpaced(s: string)
    requires SingleSpaced(s)
    ensures Collapse(s) == s
    decreases |s|
  {
    if s != [] {
      if IsSpace(s[0]) {
        assert |s| > 1 ==> !IsSpace(s[1]);
        assert StripLeft(s[1..]) == s[1..];
      }
      assert SingleSpaced(s[1..]) by {
        forall k | 0 <= k < |s[1..]| - 1 ensures IsSpace(s[1..][k]) ==> !IsSpace(s[1..][k + 1]) {
          assert s[1..][k] == s[k + 1] && s[1..][k + 1] == s[k + 2];
        }
      }
      CollapseSingleSpaced(s[1..]);
    }
  }

  /** Clean text is a fixed point of the normaliser. */
  lemma {:induction false} CleanIsFixedPoint(t: string)
    requires IsClean(t)
    ensures CleanSpaces(t) == t
  {
    assert ReplaceBreaks(t) == t;
    CollapseSingleSpaced(t);
    assert StripLeft(t) == t;
    assert StripRight(t) == t;
  }

  /** Normalising twice gives the same result as normalising once. */
  lemma {:induction false} CleanSpacesIdempotent(s: string)
    ensures CleanSpaces(CleanSpaces(s)) == CleanSpaces(s)
  {
    CleanSpacesIsClean(s);
    CleanIsFixedPoint(CleanSpaces(s));
  }

  // ---------------------------------------------------------------------------
  // limpiar_espacios as `" ".join(s.split())`

  /** The length of the run of non-whitespace characters at the start of t. */
  function WordLen(t: string): (n: nat)
    ensures n <= |t|
    ensures forall k | 0 <= k < n :: !IsSpace(t[k])
    ensures n < |t| ==> IsSpace(t[n])
    decreases |t|
  {
    if t != [] && !IsSpace(t[0]) then
      var n := WordLen(t[1..]);
      assert forall k | 1 <= k < 1 + n :: t[k] == t[1..][k - 1];
      1 + n
    else 0
  }

  /** Python's `s.split()`: the maximal runs of non-whitespace characters of s, in order. */
  function Words(s: string): (ws: seq<string>)
    decreases |s|
  {
    StripLeftSpec(s);
    var t := StripLeft(s);
    if t == [] then []
    else
      var n := WordLen(t);
      [t[..n]] + Words(t[n..])
  }

  /** Python's `" ".join(ws)`. */
  function JoinSpaced(ws: seq<string>): string
  {
    if ws == [] then []
    else if |ws| == 1 then ws[0]
    else ws[0] + [' '] + JoinSpaced(ws[1..])
  }

  /** Every word is non-empty and holds no whitespace. */
  lemma {:induction false} WordsSpec(s: string)
    ensures forall w | w in Words(s) :: w != [] && forall k | 0 <= k < |w| :: !IsSpace(w[k])
    decreases |s|
  {
    StripLeftSpec(s);
    var t := StripLeft(s);
    if t != [] {
      var n := WordLen(t);
      WordsSpec(t[n..]);
      assert Words(s) == [t[..n]] + Words(t[n..]);
    }
  }

  /** A text has no words exactly when stripping its left end leaves nothing. */
  lemma {:induction false} WordsEmpty(s: string)
    ensures Words(s) == [] <==> StripLeft(s) == []
  {
  }

  /** Joining words, the first of which is not empty, gives a non-empty text. */
  lemma {:induction false} JoinSpacedNonEmpty(ws: seq<string>)
    requires ws != [] && ws[0] != []
    ensures JoinSpaced(ws) != []
  {
  }

  /** Collapsing a text that starts with n non-whitespace characters copies them. */
  lemma {:induction false} CollapseWord(t: string, n: nat)
    requires n <= |t| && forall k | 0 <= k < n :: !IsSpace(t[k])
    ensures Collapse(t) == t[..n] + Collapse(t[n..])
    decreases n
  {
    if n > 0 {
      var w, rest := t[1..][..n - 1], t[n..];
      assert Collapse(t) == [t[0]] + Collapse(t[1..]);
      CollapseWord(t[1..], n - 1);
      assert t[1..][n - 1..] == rest;
      assert Collapse(t[1..]) == w + Collapse(rest);
      assert [t[0]] + w == t[..n];
      assert [t[0]] + (w + Collapse(rest)) == ([t[0]] + w) + Collapse(rest);
    } else {
      assert t[..0] + Collapse(t[0..]) == Collapse(t);
    }
  }

  /** Stripping the left end commutes with collapsing. */
  lemma {:induction false} StripLeftCollapse(s: string)
    ensures StripLeft(Collapse(s)) == Collapse(StripLeft(s))
  {
    if s != [] && IsSpace(s[0]) {
      StripLeftSpec(s[1..]);
      var c := Collapse(StripLeft(s[1..]));
      assert ([' '] + c)[1..] == c;
    }
  }

  /** Stripping the right end of a + b cuts only into b while b keeps something. */
  lemma {:induction false} StripRightAppend(a: string, b: string)
    requires StripRight(b) != []
    ensures StripRight(a + b) == a + StripRight(b)
    decreases |b|
  {
    var ab := a + b;
    if IsSpace(b[|b| - 1]) {
      assert ab[..|ab| - 1] == a + b[..|b| - 1];
      StripRightAppend(a, b[..|b| - 1]);
    }
  }

  /** A text that ends with a non-whitespace character is left as it is by right stripping. */
  lemma {:induction false} StripRightKeeps(w: string)
    requires w != [] && !IsSpace(w[|w| - 1])
    ensures StripRight(w) == w && StripRight(w + [' ']) == w
  {
    assert (w + [' '])[..|w|] == w;
  }

  /** Collapsing a text that starts with an n-character word copies the word, then a single space for the whitespace after it. */
  lemma {:induction false} CollapseAfterWord(t: string, n: nat)
    requires n < |t| && (forall k | 0 <= k < n :: !IsSpace(t[k])) && IsSpace(t[n])
    ensures Collapse(t) == t[..n] + [' '] + Collapse(StripLeft(t[n..]))
  {
    var rest := t[n..];
    CollapseWord(t, n);
    assert IsSpace(rest[0]);
    assert StripLeft(rest) == StripLeft(rest[1..]);
    assert Collapse(rest) == [' '] + Collapse(StripLeft(rest));
  }

  lemma {:induction false} JoinSpacedCons(w: string, ws: seq<string>)
    requires ws != []
    ensures JoinSpaced([w] + ws) == w + [' '] + JoinSpaced(ws)
  {
    assert ([w] + ws)[1..] == ws;
  }

  /** Right stripping keeps something of a text that starts with a non-whitespace character. */
  lemma {:induction false} StripRightNonEmpty(g: string)
    requires g != [] && !IsSpace(g[0])
    ensures StripRight(g) != []
    decreases |g|
  {
    if |g| > 1 && IsSpace(g[|g| - 1]) {
      StripRightNonEmpty(g[..|g| - 1]);
    }
  }

  /** A text holding one word of n characters and then only whitespace collapses and strips to that word. */
  lemma {:induction false} LastWord(t: string, n: nat)
    requires 1 <= n <= |t| && (forall k | 0 <= k < n :: !IsSpace(t[k])) && (n < |t| ==> IsSpace(t[n]))
    requires StripLeft(t[n..]) == []
    ensures StripRight(Collapse(t)) == t[..n]
  {
    StripRightKeeps(t[..n]);
    if n < |t| {
      CollapseAfterWord(t, n);
    } else {
      CollapseWord(t, n);
      assert t[..n] == t;
    }
  }

  /** Before a further word, the collapsed text keeps the first word, of n characters, and one space. */
  lemma {:induction false} NotLastWord(t: string, n: nat)
    requires 1 <= n <= |t| && (forall k | 0 <= k < n :: !IsSpace(t[k])) && (n < |t| ==> IsSpace(t[n]))
    requires StripLeft(t[n..]) != []
    ensures StripRight(Collapse(t)) == t[..n] + [' '] + StripRight(Collapse(StripLeft(t[n..])))
  {
    var rest := StripLeft(t[n..]);
    StripLeftSpec(t[n..]);
    CollapseAfterWord(t, n);
    StripRightNonEmpty(Collapse(rest));
    StripRightAppend(t[..n] + [' '], Collapse(rest));
  }

  /** Collapsing a left-stripped text and stripping its right end joins its words with single spaces. */
  lemma {:induction false} CollapsedWords(s: string)
    ensures StripRight(Collapse(StripLeft(s))) == JoinSpaced(Words(s))
    decreases |s|
  {
    StripLeftSpec(s);
    var t := StripLeft(s);
    if t != [] {
      var n := WordLen(t);
      var w, rest := t[..n], t[n..];
      assert Words(s) == [w] + Words(rest);
      if StripLeft(rest) == [] {
        LastWord(t, n);
      } else {
        NotLastWord(t, n);
        CollapsedWords(rest);
        JoinSpacedCons(w, Words(rest));
      }
    }
  }

  /** Replacing breaks by spaces and stripping the left end commute. */
  lemma {:induction false} StripLeftReplaceBreaks(s: string)
    ensures StripLeft(ReplaceBreaks(s)) == ReplaceBreaks(StripLeft(s))
    decreases |s|
  {
    if s != [] && IsSpace(s[0]) {
      assert ReplaceBreaks(s)[1..] == ReplaceBreaks(s[1..]);
      StripLeftReplaceBreaks(s[1..]);
    }
  }

  /** Replacing breaks by spaces changes neither the words nor where they stop. */
  lemma {:induction false} WordLenReplaceBreaks(t: string)
    ensures WordLen(ReplaceBreaks(t)) == WordLen(t)
    ensures ReplaceBreaks(t)[..WordLen(t)] == t[..WordLen(t)]
    decreases |t|
  {
    if t != [] && !IsSpace(t[0]) {
      assert ReplaceBreaks(t)[1..] == ReplaceBreaks(t[1..]);
      WordLenReplaceBreaks(t[1..]);
      var n := WordLen(t);
      assert ReplaceBreaks(t)[..n] == [t[0]] + ReplaceBreaks(t[1..])[..n - 1];
      assert t[..n] == [t[0]] + t[1..][..n - 1];
    }
  }

  /** `s.split()` does not see which whitespace characters separate the words. */
  lemma {:induction false} WordsReplaceBreaks(s: string)
    ensures Words(ReplaceBreaks(s)) == Words(s)
    decreases |s|
  {
    StripLeftSpec(s);
    StripLeftReplaceBreaks(s);
    var t := StripLeft(s);
    if t != [] {
      var n := WordLen(t);
      WordLenReplaceBreaks(t);
      assert ReplaceBreaks(t)[n..] == ReplaceBreaks(t[n..]);
      WordsReplaceBreaks(t[n..]);
    }
  }

  /**
   * `limpiar_espacios` is `" ".join(s.split())`: the words of the text, joined by
   * single spaces, so every run of whitespace between two words becomes exactly
   * one space and the whitespace at either end goes.
   */
  lemma {:induction false} CleanSpacesIsJoinedWords(s: string)
    ensures CleanSpaces(s) == JoinSpaced(Words(s))
  {
    var r := ReplaceBreaks(s);
    StripLeftCollapse(r);
    CollapsedWords(r);
    WordsReplaceBreaks(s);
  }
}
