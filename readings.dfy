/**
 * Proofs about the literal readings of the context pattern
 * `RESPOND[AE]\s+LAS\s+PREGUNTAS\s+(\d{1,3})\s+A\s+(\d{1,3})` (App_recorte.py:43):
 * the scanners of module Patterns match exactly the readings, and report the
 * values of their digit groups. Each proof goes stage by stage, one lemma per
 * run of the pattern, so that no proof sees more of the scanner than one stage.
 */
module Readings {
  import opened Wrappers
  import opened Text
  import opened Patterns

  // ---------------------------------------------------------------------------
  // From a match of the numbers part to its reading

  lemma {:induction false} NumbersFirstSome(s: string, d: nat, n1: nat)
    requires DigitsBetween(s, d, d + n1) && NumbersFirst(s, d, n1).Some?
    ensures 1 <= n1 <= 3 && NumbersFirst(s, d, n1) == NumbersGap(s, d, n1, SpaceRun(s, d + n1))
  {
  }

  lemma {:induction false} NumbersGapSome(s: string, d: nat, n1: nat, g: nat) returns (e: nat)
    requires DigitsBetween(s, d, d + n1) && NumbersGap(s, d, n1, g).Some?
    ensures 1 <= g && AfterKeyword(s, d + n1 + g, "A") == Some(e) && e <= |s|
    ensures NumbersGap(s, d, n1, g) == NumbersSecond(s, d, n1, e, DigitRun(s, e))
  {
    e := AfterKeyword(s, d + n1 + g, "A").value;
  }

  lemma {:induction false} NumbersSecondSome(s: string, d: nat, n1: nat, e: nat, n2: nat)
    requires DigitsBetween(s, d, d + n1) && DigitsBetween(s, e, e + n2)
    requires NumbersSecond(s, d, n1, e, n2).Some?
    ensures 1 <= n2
  {
  }

  /** The runs the scanner measured form a reading. */
  lemma {:induction false} RunsMakeReading(s: string, d: nat, n1: nat, g: nat, e: nat, n2: nat)
    requires 1 <= n1 <= 3 && DigitsBetween(s, d, d + n1)
    requires 1 <= g && SpacesBetween(s, d + n1, d + n1 + g)
    requires KeywordAt(s, d + n1 + g, "A") && d + n1 + g + 1 < e && SpacesBetween(s, d + n1 + g + 1, e)
    requires 1 <= n2 && DigitsBetween(s, e, e + n2) && !DigitAt(s, e + n2)
    ensures NumbersReadAt(s, d, NumbersShape(n1, g, e - (d + n1 + g) - 1, AtMostThree(n2)))
  {
    assert UpperChar(s[d + n1 + g + 0]) == "A"[0];
  }

  lemma {:induction false} GapHasReading(s: string, d: nat, n1: nat, g: nat) returns (r: NumbersShape)
    requires 1 <= n1 <= 3 && DigitsBetween(s, d, d + n1) && SpacesBetween(s, d + n1, d + n1 + g)
    requires NumbersGap(s, d, n1, g).Some?
    ensures NumbersReadAt(s, d, r)
  {
    var e := NumbersGapSome(s, d, n1, g);
    var n2 := DigitRun(s, e);
    NumbersSecondSome(s, d, n1, e, n2);
    RunsMakeReading(s, d, n1, g, e, n2);
    r := NumbersShape(n1, g, e - (d + n1 + g) - 1, AtMostThree(n2));
  }

  lemma {:induction false} FirstHasReading(s: string, d: nat, n1: nat) returns (r: NumbersShape)
    requires DigitsBetween(s, d, d + n1) && NumbersFirst(s, d, n1).Some?
    ensures NumbersReadAt(s, d, r)
  {
    NumbersFirstSome(s, d, n1);
    r := GapHasReading(s, d, n1, SpaceRun(s, d + n1));
  }

  /** A match of the numbers part has a literal reading. */
  lemma {:induction false} NumbersHasReading(s: string, d: nat) returns (r: NumbersShape)
    requires d <= |s| && Numbers(s, d).Some?
    ensures NumbersReadAt(s, d, r)
  {
    r := FirstHasReading(s, d, DigitRun(s, d));
  }

  // ---------------------------------------------------------------------------
  // From a reading of the numbers part to what the scanner returns

  lemma {:induction false} SecondOfReading(s: string, d: nat, r: NumbersShape)
    requires NumbersReadAt(s, d, r)
    ensures NumbersSecond(s, d, r.first, SecondAt(d, r), DigitRun(s, SecondAt(d, r))) == Some(NumbersValues(s, d, r))
  {
    var e := SecondAt(d, r);
    DigitRunAtLeast(s, e, r.second);
    if r.second < 3 {
      DigitRunExact(s, e, e + r.second);
    }
  }

  lemma {:induction false} GapOfReading(s: string, d: nat, r: NumbersShape)
    requires NumbersReadAt(s, d, r)
    ensures NumbersGap(s, d, r.first, r.gapBefore) == Some(NumbersValues(s, d, r))
  {
    assert KeywordAt(s, LetterA(d, r), "A");
    assert DigitAt(s, SecondAt(d, r));
    AfterKeywordExact(s, LetterA(d, r), "A", r.gapAfter);
    SecondOfReading(s, d, r);
  }

  lemma {:induction false} FirstOfReading(s: string, d: nat, r: NumbersShape)
    requires NumbersReadAt(s, d, r)
    ensures NumbersFirst(s, d, r.first) == Some(NumbersValues(s, d, r))
  {
    SpaceRunExact(s, d + r.first, LetterA(d, r));
    GapOfReading(s, d, r);
  }

  /** A literal reading determines what the numbers scanner returns. */
  lemma {:induction false} NumbersOfReading(s: string, d: nat, r: NumbersShape)
    requires d <= |s| && NumbersReadAt(s, d, r)
    ensures Numbers(s, d) == Some(NumbersValues(s, d, r))
  {
    assert SpaceAt(s, d + r.first);
    DigitRunExact(s, d, d + r.first);
    FirstOfReading(s, d, r);
  }

  /**
   * `(\d{1,3})\s+A\s+(\d{1,3})` matches at d exactly when it has a literal
   * reading there, and then the scanner reports the values of the two digit groups.
   */
  lemma {:induction false} NumbersSpec(s: string, d: nat)
    requires d <= |s|
    ensures Numbers(s, d).Some? <==> exists r :: NumbersReadAt(s, d, r)
    ensures forall r | NumbersReadAt(s, d, r) :: Numbers(s, d) == Some(NumbersValues(s, d, r))
  {
    if Numbers(s, d).Some? {
      var r := NumbersHasReading(s, d);
    }
    forall r | NumbersReadAt(s, d, r) ensures Numbers(s, d) == Some(NumbersValues(s, d, r)) {
      NumbersOfReading(s, d, r);
    }
  }

  // ---------------------------------------------------------------------------
  // The whole context pattern

  /** The keywords of a match, and where the numbers part starts. */
  lemma {:induction false} RangeAtSome(s: string, i: nat) returns (b: nat, c: nat, d: nat)
    requires i <= |s| && RangeAt(s, i).Some?
    ensures Opener(s, i) == Some(b) && AfterKeyword(s, b, "LAS") == Some(c)
    ensures AfterKeyword(s, c, "PREGUNTAS") == Some(d) && d <= |s| && RangeAt(s, i) == Numbers(s, d)
  {
    b := Opener(s, i).value;
    c := AfterKeyword(s, b, "LAS").value;
    d := AfterKeyword(s, c, "PREGUNTAS").value;
  }

  /** What the keyword scanners found, followed by a numbers reading, is a marker reading. */
  lemma {:induction false} KeywordsMakeReading(s: string, i: nat, b: nat, c: nat, d: nat, nr: NumbersShape)
    requires (KeywordAt(s, i, "RESPONDA") || KeywordAt(s, i, "RESPONDE")) && i + 8 < b && SpacesBetween(s, i + 8, b)
    requires KeywordAt(s, b, "LAS") && b + 3 < c && SpacesBetween(s, b + 3, c)
    requires KeywordAt(s, c, "PREGUNTAS") && c + 9 < d && SpacesBetween(s, c + 9, d)
    requires NumbersReadAt(s, d, nr)
    ensures MarkerReadAt(s, i, MarkerShape(b - i - 8, c - b - 3, d - c - 9, nr))
  {
  }

  /** A match of the context pattern has a literal reading. */
  lemma {:induction false} RangeAtHasReading(s: string, i: nat) returns (r: MarkerShape)
    requires i <= |s| && RangeAt(s, i).Some?
    ensures MarkerReadAt(s, i, r)
  {
    var b, c, d := RangeAtSome(s, i);
    var nr := NumbersHasReading(s, d);
    KeywordsMakeReading(s, i, b, c, d, nr);
    r := MarkerShape(b - i - 8, c - b - 3, d - c - 9, nr);
  }

  /** The context pattern at i, once its keywords are found, is the numbers part at d. */
  lemma {:induction false} RangeAtStage(s: string, i: nat, b: nat, c: nat, d: nat)
    requires i <= |s| && d <= |s|
    requires Opener(s, i) == Some(b) && AfterKeyword(s, b, "LAS") == Some(c)
    requires AfterKeyword(s, c, "PREGUNTAS") == Some(d)
    ensures RangeAt(s, i) == Numbers(s, d)
  {
  }

  lemma {:induction false} OpenerOfReading(s: string, i: nat, r: MarkerShape)
    requires MarkerReadAt(s, i, r)
    ensures Opener(s, i) == Some(LasAt(i, r))
  {
    assert UpperChar(s[LasAt(i, r) + 0]) == "LAS"[0];
    if KeywordAt(s, i, "RESPONDA") {
      AfterKeywordExact(s, i, "RESPONDA", r.gapOpen);
    } else {
      AfterKeywordExact(s, i, "RESPONDE", r.gapOpen);
    }
  }

  lemma {:induction false} LasOfReading(s: string, i: nat, r: MarkerShape)
    requires MarkerReadAt(s, i, r)
    ensures AfterKeyword(s, LasAt(i, r), "LAS") == Some(PreguntasAt(i, r))
  {
    assert UpperChar(s[PreguntasAt(i, r) + 0]) == "PREGUNTAS"[0];
    AfterKeywordExact(s, LasAt(i, r), "LAS", r.gapLas);
  }

  lemma {:induction false} PreguntasOfReading(s: string, i: nat, r: MarkerShape)
    requires MarkerReadAt(s, i, r)
    ensures AfterKeyword(s, PreguntasAt(i, r), "PREGUNTAS") == Some(NumbersAt(i, r))
  {
    assert DigitAt(s, NumbersAt(i, r));
    AfterKeywordExact(s, PreguntasAt(i, r), "PREGUNTAS", r.gapPreguntas);
  }

  /** A literal reading determines what the context pattern reports at i. */
  lemma {:induction false} RangeAtOfReading(s: string, i: nat, r: MarkerShape)
    requires i <= |s| && MarkerReadAt(s, i, r)
    ensures RangeAt(s, i) == Some(NumbersValues(s, NumbersAt(i, r), r.numbers))
  {
    OpenerOfReading(s, i, r);
    LasOfReading(s, i, r);
    PreguntasOfReading(s, i, r);
    RangeAtStage(s, i, LasAt(i, r), PreguntasAt(i, r), NumbersAt(i, r));
    NumbersOfReading(s, NumbersAt(i, r), r.numbers);
  }

  /**
   * The context pattern matches at i exactly when it has a literal reading there,
   * and then `desde` and `hasta` are the values of its two digit groups.
   */
  lemma {:induction false} RangeAtSpec(s: string, i: nat)
    requires i <= |s|
    ensures RangeAt(s, i).Some? <==> exists r :: MarkerReadAt(s, i, r)
    ensures forall r | MarkerReadAt(s, i, r) :: RangeAt(s, i) == Some(NumbersValues(s, NumbersAt(i, r), r.numbers))
  {
    if RangeAt(s, i).Some? {
      var r := RangeAtHasReading(s, i);
    }
    forall r | MarkerReadAt(s, i, r) ensures RangeAt(s, i) == Some(NumbersValues(s, NumbersAt(i, r), r.numbers)) {
      RangeAtOfReading(s, i, r);
    }
  }
}
