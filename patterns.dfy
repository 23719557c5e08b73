/**
 * The two regular expressions of App_recorte.py, as hand-written scanners:
 *  - `^(\d{1,3})\.` applied with `re.match` to the stripped block text (line 21);
 *  - `RESPOND[AE]\s+LAS\s+PREGUNTAS\s+(\d{1,3})\s+A\s+(\d{1,3})` with
 *    `re.IGNORECASE`, applied with `search` to the normalised text (line 43).
 * Every `\s+` in the second pattern is followed by a letter or a digit, so its
 * greedy run is never shortened by backtracking; `(\d{1,3})\s+` only matches a
 * run of one to three digits, and the final `(\d{1,3})` takes at most three
 * digits of a longer run.
 */
module Patterns {
  import opened Wrappers
  import opened Text

  /** Position k of s holds a digit. */
  predicate DigitAt(s: string, k: nat)
  {
    k < |s| && IsDigit(s[k])
  }

  /** Position k of s holds whitespace. */
  predicate SpaceAt(s: string, k: nat)
  {
    k < |s| && IsSpace(s[k])
  }

  /** Positions i..j-1 of s are digits. */
  predicate DigitsBetween(s: string, i: nat, j: nat)
  {
    j <= |s| && forall k | i <= k < j :: DigitAt(s, k)
  }

  /** Positions i..j-1 of s are whitespace. */
  predicate SpacesBetween(s: string, i: nat, j: nat)
  {
    j <= |s| && forall k | i <= k < j :: SpaceAt(s, k)
  }

  lemma {:induction false} DigitsSlice(s: string, i: nat, j: nat)
    requires i <= j && DigitsBetween(s, i, j)
    ensures AllDigits(s[i..j])
  {
    var t := s[i..j];
    forall k | 0 <= k < |t| ensures IsDigit(t[k]) {
      assert DigitAt(s, i + k) && t[k] == s[i + k];
    }
  }

  /** The number of consecutive digits of s starting at position i. */
  function DigitRun(s: string, i: nat): (n: nat)
    requires i <= |s|
    ensures DigitsBetween(s, i, i + n) && !DigitAt(s, i + n)
    decreases |s| - i
  {
    if DigitAt(s, i) then
      var n := DigitRun(s, i + 1);
      assert forall k | i < k < i + 1 + n :: DigitAt(s, k);
      1 + n
    else 0
  }

  /** The number of consecutive whitespace characters of s starting at position i. */
  function SpaceRun(s: string, i: nat): (n: nat)
    requires i <= |s|
    ensures SpacesBetween(s, i, i + n) && !SpaceAt(s, i + n)
    decreases |s| - i
  {
    if SpaceAt(s, i) then
      var n := SpaceRun(s, i + 1);
      assert forall k | i < k < i + 1 + n :: SpaceAt(s, k);
      1 + n
    else 0
  }

  /** The digit run starting at i ends exactly where the digits stop. */
  lemma {:induction false} DigitRunExact(s: string, i: nat, k: nat)
    requires i <= k && DigitsBetween(s, i, k) && !DigitAt(s, k)
    ensures DigitRun(s, i) == k - i
    decreases k - i
  {
    if i < k {
      assert DigitAt(s, i);
      DigitRunExact(s, i + 1, k);
    }
  }

  /** The whitespace run starting at i ends exactly where the whitespace stops. */
  lemma {:induction false} SpaceRunExact(s: string, i: nat, k: nat)
    requires i <= k && SpacesBetween(s, i, k) && !SpaceAt(s, k)
    ensures SpaceRun(s, i) == k - i
    decreases k - i
  {
    if i < k {
      assert SpaceAt(s, i);
      SpaceRunExact(s, i + 1, k);
    }
  }

  /** The digits at position e are at least m long when the first m are digits. */
  lemma {:induction false} DigitRunAtLeast(s: string, e: nat, m: nat)
    requires e <= |s| && DigitsBetween(s, e, e + m)
    ensures DigitRun(s, e) >= m
  {
  }

  /**
   * `int()` of the n digits at position i of s, read left to right: below 10^n,
   * so below 1000 when n is at most 3.
   */
  function NumeralAt(s: string, i: nat, n: nat): (v: nat)
    requires DigitsBetween(s, i, i + n)
    ensures v < Pow10(n)
    ensures n <= 3 ==> v < 1000
    decreases n
  {
    if n == 0 then 0
    else
      assert DigitAt(s, i + n - 1);
      NumeralAt(s, i, n - 1) * 10 + (s[i + n - 1] as int - '0' as int)
  }

  /** The positional reading agrees with `int()` of the slice. */
  lemma {:induction false} NumeralAtValue(s: string, i: nat, n: nat)
    requires DigitsBetween(s, i, i + n)
    ensures AllDigits(s[i..i + n]) && NumeralAt(s, i, n) == DigitsValue(s[i..i + n])
    decreases n
  {
    DigitsSlice(s, i, i + n);
    if n > 0 {
      NumeralAtValue(s, i, n - 1);
      assert s[i..i + n][..n - 1] == s[i..i + n - 1];
    }
  }

  // ---------------------------------------------------------------------------
  // Item start: ^(\d{1,3})\.

  /** `re.match(r"^(\d{1,3})\.", t)`, giving `int(group(1))` on a match. */
  function ItemNumber(t: string): Option<nat>
  {
    var n := DigitRun(t, 0);
    if 1 <= n <= 3 && n < |t| && t[n] == '.' then Some(NumeralAt(t, 0, n)) else None
  }

  /** The literal reading of the pattern: one to three digits, then a period. */
  predicate NumberedAt(t: string, k: nat)
  {
    1 <= k <= 3 && k < |t| && AllDigits(t[..k]) && t[k] == '.'
  }

  /**
   * A text opens an item exactly when it starts with one to three digits directly
   * followed by a period; the number is the value of those digits, below 1000.
   */
  lemma {:induction false} ItemNumberSpec(t: string)
    ensures ItemNumber(t).Some? <==> exists k: nat :: NumberedAt(t, k)
    ensures forall k: nat | NumberedAt(t, k) :: ItemNumber(t) == Some(DigitsValue(t[..k]))
    ensures ItemNumber(t).Some? ==> ItemNumber(t).value < 1000
  {
    var n := DigitRun(t, 0);
    assert t[0..n] == t[..n];
    forall k: nat | NumberedAt(t, k) ensures n == k {
      assert forall j | 0 <= j < k :: t[..k][j] == t[j];
      DigitRunExact(t, 0, k);
    }
    NumeralAtValue(t, 0, n);
    if ItemNumber(t).Some? {
      assert NumberedAt(t, n);
    }
  }

  /** Four leading digits are never an item start: `1234.` does not match. */
  lemma {:induction false} FourDigitsNoItem(t: string)
    requires |t| >= 4 && AllDigits(t[..4])
    ensures ItemNumber(t).None?
  {
    assert forall j | 0 <= j < 4 :: t[..4][j] == t[j];
    DigitRunAtLeast(t, 0, 4);
  }

  // ---------------------------------------------------------------------------
  // Context marker: RESPOND[AE]\s+LAS\s+PREGUNTAS\s+(\d{1,3})\s+A\s+(\d{1,3})

  /** Upper-casing of ASCII letters, with which keywords are compared ignoring case. */
  function UpperChar(c: char): char
  {
    if 'a' <= c <= 'z' then (c as int - 32) as char else c
  }

  /** The upper-case word w occurs at position i of s, ignoring case. */
  predicate KeywordAt(s: string, i: nat, w: string)
  {
    i + |w| <= |s| && forall k | 0 <= k < |w| :: UpperChar(s[i + k]) == w[k]
  }

  /**
   * `w\s+` at position i: it matches when w occurs there, ignoring case, followed
   * by whitespace, and ends after the whole whitespace run.
   */
  function AfterKeyword(s: string, i: nat, w: string): (r: Option<nat>)
    ensures r.Some? <==> KeywordAt(s, i, w) && SpaceAt(s, i + |w|)
    ensures r.Some? ==> i + |w| < r.value && SpacesBetween(s, i + |w|, r.value)
    ensures r.Some? ==> !SpaceAt(s, r.value)
  {
    if !KeywordAt(s, i, w) then None
    else
      var g := SpaceRun(s, i + |w|);
      if g == 0 then None else Some(i + |w| + g)
  }

  /** A keyword followed by a whitespace run of length g that something else ends. */
  lemma {:induction false} AfterKeywordExact(s: string, i: nat, w: string, g: nat)
    requires KeywordAt(s, i, w) && 1 <= g
    requires SpacesBetween(s, i + |w|, i + |w| + g) && !SpaceAt(s, i + |w| + g)
    ensures AfterKeyword(s, i, w) == Some(i + |w| + g)
  {
    SpaceRunExact(s, i + |w|, i + |w| + g);
  }

  /** `RESPOND[AE]\s+` at position i: either spelling, then at least one whitespace character. */
  function Opener(s: string, i: nat): (r: Option<nat>)
    ensures r.Some? <==> (KeywordAt(s, i, "RESPONDA") || KeywordAt(s, i, "RESPONDE")) && SpaceAt(s, i + 8)
    ensures r.Some? ==> i + 8 < r.value && SpacesBetween(s, i + 8, r.value)
    ensures r.Some? ==> !SpaceAt(s, r.value)
  {
    if KeywordAt(s, i, "RESPONDA") then AfterKeyword(s, i, "RESPONDA")
    else AfterKeyword(s, i, "RESPONDE")
  }

  /**
   * The context pattern anchored at position i of s: `(desde, hasta)` when it
   * matches there.
   */
  function RangeAt(s: string, i: nat): (r: Option<(nat, nat)>)
    requires i <= |s|
    ensures r.Some? ==> r.value.0 < 1000 && r.value.1 < 1000
  {
    var b :- Opener(s, i);
    var c :- AfterKeyword(s, b, "LAS");
    var d :- AfterKeyword(s, c, "PREGUNTAS");
    Numbers(s, d)
  }

  /** The smaller of a digit run's length and 3: how many digits the greedy `\d{1,3}` takes. */
  function AtMostThree(n: nat): nat
  {
    if n < 3 then n else 3
  }

  /**
   * `(\d{1,3})\s+A\s+(\d{1,3})` at position d; both numbers are below 1000. The
   * scan goes in stages, one per run: the first digits, the whitespace before
   * `A`, the `A` with the whitespace after it, and the second digits.
   */
  function Numbers(s: string, d: nat): (r: Option<(nat, nat)>)
    requires d <= |s|
    ensures r.Some? ==> r.value.0 < 1000 && r.value.1 < 1000
  {
    NumbersFirst(s, d, DigitRun(s, d))
  }

  /** The first group: a run of n1 digits at d, which must be one to three long. */
  function NumbersFirst(s: string, d: nat, n1: nat): Option<(nat, nat)>
    requires DigitsBetween(s, d, d + n1)
  {
    if n1 < 1 || 3 < n1 then None
    else NumbersGap(s, d, n1, SpaceRun(s, d + n1))
  }

  /** The `\s+A\s+` after the first group, whose leading whitespace run is g long. */
  function NumbersGap(s: string, d: nat, n1: nat, g: nat): Option<(nat, nat)>
    requires DigitsBetween(s, d, d + n1)
  {
    if g == 0 then None
    else match AfterKeyword(s, d + n1 + g, "A")
      case None => None
      case Some(e) => NumbersSecond(s, d, n1, e, DigitRun(s, e))
  }

  /** The second group: the first at most three of the n2 digits at e. */
  function NumbersSecond(s: string, d: nat, n1: nat, e: nat, n2: nat): Option<(nat, nat)>
    requires DigitsBetween(s, d, d + n1) && DigitsBetween(s, e, e + n2)
  {
    if n2 == 0 then None
    else Some((NumeralAt(s, d, n1), NumeralAt(s, e, AtMostThree(n2))))
  }

  /** The lengths a match of `(\d{1,3})\s+A\s+(\d{1,3})` reads: digits, whitespace, whitespace, digits. */
  datatype NumbersShape = NumbersShape(first: nat, gapBefore: nat, gapAfter: nat, second: nat)

  /** Where the `A` of a numbers reading starting at d stands. */
  function LetterA(d: nat, r: NumbersShape): nat
  {
    d + r.first + r.gapBefore
  }

  /** Where the second number of a numbers reading starting at d begins. */
  function SecondAt(d: nat, r: NumbersShape): nat
  {
    LetterA(d, r) + 1 + r.gapAfter
  }

  /**
   * The literal reading of `(\d{1,3})\s+A\s+(\d{1,3})` at position d with the
   * lengths of r: one to three digits, at least one whitespace character, an `A`
   * in either case, at least one whitespace character, then one to three digits
   * that stop only at the third digit or where the digits stop (the greedy
   * `\d{1,3}`).
   */
  predicate NumbersReadAt(s: string, d: nat, r: NumbersShape)
  {
    var a, e := LetterA(d, r), SecondAt(d, r);
    && 1 <= r.first <= 3 && DigitsBetween(s, d, d + r.first)
    && 1 <= r.gapBefore && SpacesBetween(s, d + r.first, a)
    && a < |s| && UpperChar(s[a]) == 'A'
    && 1 <= r.gapAfter && SpacesBetween(s, a + 1, e)
    && 1 <= r.second <= 3 && DigitsBetween(s, e, e + r.second)
    && (r.second == 3 || !DigitAt(s, e + r.second))
  }

  /** `(int(group(1)), int(group(2)))` of a numbers reading. */
  function NumbersValues(s: string, d: nat, r: NumbersShape): (nat, nat)
    requires NumbersReadAt(s, d, r)
  {
    (NumeralAt(s, d, r.first), NumeralAt(s, SecondAt(d, r), r.second))
  }

  /** The whitespace gaps after RESPOND[AE], LAS and PREGUNTAS, and the numbers part. */
  datatype MarkerShape = MarkerShape(gapOpen: nat, gapLas: nat, gapPreguntas: nat, numbers: NumbersShape)

  function LasAt(i: nat, r: MarkerShape): nat
  {
    i + 8 + r.gapOpen
  }

  function PreguntasAt(i: nat, r: MarkerShape): nat
  {
    LasAt(i, r) + 3 + r.gapLas
  }

  /** Where the numbers part of a marker reading starting at i begins. */
  function NumbersAt(i: nat, r: MarkerShape): nat
  {
    PreguntasAt(i, r) + 9 + r.gapPreguntas
  }

  /**
   * The literal reading of the whole context pattern at position i with the
   * lengths of r: RESPONDA or RESPONDE, LAS and PREGUNTAS in any case, each
   * followed by at least one whitespace character, then the numbers part.
   */
  predicate MarkerReadAt(s: string, i: nat, r: MarkerShape)
  {
    var b, c, d := LasAt(i, r), PreguntasAt(i, r), NumbersAt(i, r);
    && (KeywordAt(s, i, "RESPONDA") || KeywordAt(s, i, "RESPONDE"))
    && 1 <= r.gapOpen && SpacesBetween(s, i + 8, b)
    && KeywordAt(s, b, "LAS")
    && 1 <= r.gapLas && SpacesBetween(s, b + 3, c)
    && KeywordAt(s, c, "PREGUNTAS")
    && 1 <= r.gapPreguntas && SpacesBetween(s, c + 9, d)
    && NumbersReadAt(s, d, r.numbers)
  }

  /**
   * The first hit of a matcher f at positions i..n: f(i) when it hits or when i
   * is the last position, otherwise the first hit from i + 1 on.
   */
  function FirstHit<T>(f: nat -> Option<T>, i: nat, n: nat): Option<T>
    decreases n - i
  {
    if f(i).Some? || n <= i then f(i) else FirstHit(f, i + 1, n)
  }

  lemma {:induction false} FirstHitIsLeftmost<T>(f: nat -> Option<T>, i: nat, n: nat)
    requires i <= n
    ensures FirstHit(f, i, n).None? <==> forall j | i <= j <= n :: f(j).None?
    ensures FirstHit(f, i, n).Some? ==>
      exists j | i <= j <= n :: FirstHit(f, i, n) == f(j) && forall l | i <= l < j :: f(l).None?
    decreases n - i
  {
    if f(i).None? && i < n {
      FirstHitIsLeftmost(f, i + 1, n);
      if FirstHit(f, i, n).Some? {
        var j :| i + 1 <= j <= n && FirstHit(f, i + 1, n) == f(j) && forall l | i + 1 <= l < j :: f(l).None?;
        assert forall l | i <= l < j :: f(l).None?;
      }
    }
  }

  /** The context pattern tried at every position of s (none beyond its end). */
  function Matcher(s: string): nat -> Option<(nat, nat)>
  {
    (j: nat) => if j <= |s| then RangeAt(s, j) else None
  }

  /** `pattern.search(s)`: the match at the leftmost position where the pattern matches. */
  function SearchRange(s: string): Option<(nat, nat)>
  {
    FirstHit(Matcher(s), 0, |s|)
  }

  /** Both numbers a search reports are below 1000. */
  lemma {:induction false} SearchRangeBounds(s: string)
    ensures SearchRange(s).Some? ==> SearchRange(s).value.0 < 1000 && SearchRange(s).value.1 < 1000
  {
    SearchRangeIsLeftmost(s);
    if SearchRange(s).Some? {
      var j :| 0 <= j <= |s| && SearchRange(s) == RangeAt(s, j);
    }
  }

  /**
   * The search finds a marker exactly when the pattern matches somewhere, and
   * then reports the match at the leftmost such position.
   */
  lemma {:induction false} SearchRangeIsLeftmost(s: string)
    ensures SearchRange(s).None? <==> forall j | 0 <= j <= |s| :: RangeAt(s, j).None?
    ensures SearchRange(s).Some? ==>
      exists j | 0 <= j <= |s| :: SearchRange(s) == RangeAt(s, j)
        && forall l | 0 <= l < j :: RangeAt(s, l).None?
  {
    var f := Matcher(s);
    FirstHitIsLeftmost(f, 0, |s|);
    assert forall j | 0 <= j <= |s| :: f(j) == RangeAt(s, j);
  }
}
