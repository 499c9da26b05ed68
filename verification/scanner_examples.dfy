/** Worked instances of the scanner's rules, pinning down what the jurisdiction
    pattern does and does not match. */
module ScannerExamples {
  import opened Text
  import opened Scanner
  import opened Issues

  /** The class `[ae]` matches one letter: the word "uae" is not matched. */
  lemma UaeIsNotMatched()
    ensures !JurisdictionPattern("uae")
  {
    var t := "uae";
    forall a, k | 0 <= a < |JurisdictionAlternatives| && 0 <= k <= |t|
      ensures !JurisdictionMatchAt(t, JurisdictionAlternatives[a], k)
    {
      if a < 2 && k == 0 {
        assert !AtWordBoundary(t, 2);
      }
    }
  }

  /** The words "ua" and "ue" are matched. */
  lemma UaAndUeAreMatched()
    ensures JurisdictionPattern("ua") && JurisdictionPattern("ue")
  {
    assert JurisdictionMatchAt("ua", JurisdictionAlternatives[0], 0);
    assert JurisdictionMatchAt("ue", JurisdictionAlternatives[1], 0);
  }

  /** The trailing boundary rejects the plural "federal courts". */
  lemma FederalCourtsIsNotMatched()
    ensures !JurisdictionPattern("federal courts")
  {
    var t := "federal courts";
    forall k | 0 <= k <= |t| && AtWordBoundary(t, k) ensures k == 0 || k == 7 || k == 8 || k == 14 {
      assert IsWordChar(t[6]) && !IsWordChar(t[7]) && IsWordChar(t[8]) && IsWordChar(t[13]);
    }
    assert forall a :: 0 <= a < |JurisdictionAlternatives| ==> |JurisdictionAlternatives[a]| in {2, 20, 13};
  }

  /** "federal court" followed by a full stop is matched, so a paragraph that
      names it and not ADGM raises the High-severity jurisdiction issue. */
  lemma FederalCourtSentence()
    ensures FlagsJurisdiction("governed by the federal court.")
  {
    var t := "governed by the federal court.";
    assert t[16..29] == "federal court";
    assert JurisdictionMatchAt(t, JurisdictionAlternatives[3], 16);
    AbsentCharExcludes(t, "adgm", 3);
  }

  /** "best efforts" in a paragraph yields exactly one ambiguous-phrase issue,
      naming that phrase, with the Low severity. */
  lemma BestEffortsExample(i: nat)
    ensures AmbiguousFlags(i, "we use best efforts.", AmbiguousPhrases)
         == [AmbiguousFlag(i, "best efforts")]
    ensures AmbiguousFlag(i, "best efforts").severity == Low
  {
    var t := "we use best efforts.";
    BestEffortsOnly();
    OnlyFirstPhrase(i, t);
  }

  /** The example text contains the first listed phrase and none of the others. */
  lemma BestEffortsOnly()
    ensures Contains("we use best efforts.", AmbiguousPhrases[0])
    ensures forall r :: 1 <= r < |AmbiguousPhrases| ==> !Contains("we use best efforts.", AmbiguousPhrases[r])
  {
    var t, ps := "we use best efforts.", AmbiguousPhrases;
    assert t[7..19] == "best efforts" == ps[0];
    assert OccursAt(t, ps[0], 7);
    assert 'n' !in t;
    AbsentCharExcludes(t, ps[1], 18);
    AbsentCharExcludes(t, ps[2], 5);
    AbsentCharExcludes(t, ps[3], 6);
  }

  /** Rule 3 on a text containing the first phrase only. */
  lemma OnlyFirstPhrase(i: nat, t: string)
    requires Contains(t, AmbiguousPhrases[0])
    requires forall r :: 1 <= r < |AmbiguousPhrases| ==> !Contains(t, AmbiguousPhrases[r])
    ensures AmbiguousFlags(i, t, AmbiguousPhrases) == [AmbiguousFlag(i, AmbiguousPhrases[0])]
  {
    var ps := AmbiguousPhrases;
    assert ps[..1][..0] == [] && ps[..2][..1] == ps[..1] && ps[..3][..2] == ps[..2] && ps[..4][..3] == ps[..3];
    assert AmbiguousFlags(i, t, ps[..1]) == [AmbiguousFlag(i, ps[0])];
    assert AmbiguousFlags(i, t, ps[..2]) == [AmbiguousFlag(i, ps[0])];
    assert AmbiguousFlags(i, t, ps[..3]) == [AmbiguousFlag(i, ps[0])];
    assert ps[..4] == ps;
  }
}
