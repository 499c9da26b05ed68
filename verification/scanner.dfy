/** The red-flag scanner: three per-paragraph rules (jurisdiction, missing
    signature near the end, ambiguous obligation phrases), then deduplication. */
module Scanner {
  import opened Text
  import opened Issues
  import opened Sequences

  const JurisdictionIssue: string :=
    "Potential incorrect jurisdiction reference (mentions UAE federal courts or ambiguous jurisdiction)"
  const JurisdictionSuggestion: string := "Specify ADGM Courts as jurisdiction where required."
  const SignatureIssue: string := "Possible missing signature block near end of document"
  const SignatureSuggestion: string := "Ensure signatory name, designation, and signature block present."

  const AmbiguousPhrases: seq<string> :=
    ["best efforts", "commercially reasonable", "reasonable endeavours", "best endeavours"]

  /** The alternatives of the pattern `\b(u[ae]\b|united arab emirates|federal court)\b`:
      the class `[ae]` makes the first alternative the two words "ua" and "ue". */
  const JurisdictionAlternatives: seq<string> := ["ua", "ue", "united arab emirates", "federal court"]

  /** The alternatives of the pattern `(signature|signed by|__________________)`. */
  const SignatureMarkers: seq<string> := ["signature", "signed by", "__________________"]

  /** Alternative `alt` matches at `k` with a word boundary on both sides. */
  predicate JurisdictionMatchAt(text: string, alt: string, k: int) {
    OccursAt(text, alt, k) && AtWordBoundary(text, k) && AtWordBoundary(text, k + |alt|)
  }

  /** The jurisdiction pattern finds a match somewhere in `text`. */
  predicate JurisdictionPattern(text: string) {
    exists a, k :: 0 <= a < |JurisdictionAlternatives| && 0 <= k <= |text|
      && JurisdictionMatchAt(text, JurisdictionAlternatives[a], k)
  }

  /** The signature pattern finds a match somewhere in `text`. */
  predicate HasSignatureMarker(text: string) {
    exists m :: 0 <= m < |SignatureMarkers| && Contains(text, SignatureMarkers[m])
  }

  /** Rule 1, on the lower-cased paragraph. */
  predicate FlagsJurisdiction(text: string) {
    JurisdictionPattern(text) && !Contains(text, "adgm")
  }

  /** Rule 2, on the lower-cased paragraph `i` of `n`. */
  predicate FlagsSignature(text: string, i: int, n: int) {
    !HasSignatureMarker(text) && i >= n - 3
  }

  /** `f"para_{i}"` */
  function Section(i: nat): string {
    "para_" + NatToString(i)
  }

  function AmbiguousDescription(phrase: string): string {
    "Ambiguous phrase '" + phrase + "' found"
  }

  function AmbiguousSuggestion(phrase: string): string {
    "Consider replacing '" + phrase + "' with a specific, binding obligation."
  }

  function JurisdictionFlag(i: nat): Issue {
    Issue(Section(i), JurisdictionIssue, High, JurisdictionSuggestion, Some(i))
  }

  function SignatureFlag(i: nat): Issue {
    Issue(Section(i), SignatureIssue, Medium, SignatureSuggestion, Some(i))
  }

  function AmbiguousFlag(i: nat, phrase: string): Issue {
    Issue(Section(i), AmbiguousDescription(phrase), Low, AmbiguousSuggestion(phrase), Some(i))
  }

  /** Rule 3: one issue per phrase of `phrases` that `text` contains, in list order. */
  function AmbiguousFlags(i: nat, text: string, phrases: seq<string>): seq<Issue> {
    if phrases == [] then []
    else
      var init, last := phrases[..|phrases| - 1], phrases[|phrases| - 1];
      AmbiguousFlags(i, text, init) + (if Contains(text, last) then [AmbiguousFlag(i, last)] else [])
  }

  /** Rules 1 and 2 for paragraph `i` of `n`. */
  function FixedRuleFlags(i: nat, text: string, n: int): seq<Issue> {
    (if FlagsJurisdiction(text) then [JurisdictionFlag(i)] else [])
    + (if FlagsSignature(text, i, n) then [SignatureFlag(i)] else [])
  }

  /** Everything the three rules report for paragraph `i` of `n`, in rule order. */
  function ParagraphFlags(i: nat, p: string, n: int): seq<Issue> {
    var text := Lower(p);
    FixedRuleFlags(i, text, n) + AmbiguousFlags(i, text, AmbiguousPhrases)
  }

  /** One block of issues per paragraph, in paragraph order. */
  function ParagraphBlocks(paragraphs: seq<string>): (b: seq<seq<Issue>>)
    ensures |b| == |paragraphs|
  {
    seq(|paragraphs|, i requires 0 <= i < |paragraphs| => ParagraphFlags(i, paragraphs[i], |paragraphs|))
  }

  /** The blocks one after the other. */
  function Concat(blocks: seq<seq<Issue>>): seq<Issue> {
    if blocks == [] then [] else Concat(blocks[..|blocks| - 1]) + blocks[|blocks| - 1]
  }

  /** All issues the rules report, before deduplication. */
  function RawIssues(paragraphs: seq<string>): seq<Issue> {
    Concat(ParagraphBlocks(paragraphs))
  }

  /** What detect_red_flags returns. */
  function Scan(paragraphs: seq<string>): seq<Issue> {
    Dedup(RawIssues(paragraphs))
  }

  /** detect_red_flags: a pass over the paragraphs appending issues, then the
      deduplication pass. */
  method DetectRedFlags(paragraphs: seq<string>) returns (dedup: seq<Issue>)
    ensures dedup == Scan(paragraphs)
  {
    var issues: seq<Issue> := [];
    var n := |paragraphs|;
    ghost var blocks := ParagraphBlocks(paragraphs);
    for i := 0 to n
      invariant issues == Concat(blocks[..i])
    {
      assert blocks[..i + 1][..i] == blocks[..i];
      var flags := FlagParagraph(i, paragraphs[i], n);
      issues := issues + flags;
    }
    assert blocks[..n] == blocks;
    dedup := Deduplicate(issues);
  }

  /** The body of the pass over the paragraphs: the issues the three rules
      append for paragraph `i` of `n`. */
  method FlagParagraph(i: nat, p: string, n: int) returns (flags: seq<Issue>)
    ensures flags == ParagraphFlags(i, p, n)
  {
    var text := Lower(p);
    flags := [];
    if JurisdictionPattern(text) && !Contains(text, "adgm") {
      flags := flags + [JurisdictionFlag(i)];
    }
    if !HasSignatureMarker(text) && i >= n - 3 {
      flags := flags + [SignatureFlag(i)];
    }
    ghost var fixed := flags;
    assert fixed == FixedRuleFlags(i, text, n);
    for q := 0 to |AmbiguousPhrases|
      invariant flags == fixed + AmbiguousFlags(i, text, AmbiguousPhrases[..q])
    {
      var phrase := AmbiguousPhrases[q];
      assert AmbiguousPhrases[..q + 1][..q] == AmbiguousPhrases[..q];
      if Contains(text, phrase) {
        flags := flags + [AmbiguousFlag(i, phrase)];
      }
    }
    assert AmbiguousPhrases[..|AmbiguousPhrases|] == AmbiguousPhrases;
  }

  // ---------------------------------------------------------------------------
  // Blocks: facts about one paragraph's issues carry over to the whole list

  /** Every issue of block `i` names paragraph `i`. */
  predicate BlocksIndexed(blocks: seq<seq<Issue>>) {
    forall i, x :: 0 <= i < |blocks| && x in blocks[i] ==> x.paraIndex == Some(i)
  }

  lemma {:induction false} ConcatMembership(blocks: seq<seq<Issue>>, x: Issue)
    ensures x in Concat(blocks) <==> exists i :: 0 <= i < |blocks| && x in blocks[i]
  {
    if blocks != [] {
      var init := blocks[..|blocks| - 1];
      ConcatMembership(init, x);
      forall i | 0 <= i < |init| ensures init[i] == blocks[i] {}
    }
  }

  lemma {:induction false} ConcatDistinct(blocks: seq<seq<Issue>>)
    requires BlocksIndexed(blocks)
    requires forall i :: 0 <= i < |blocks| ==> DistinctKeys(blocks[i])
    ensures DistinctKeys(Concat(blocks))
  {
    if blocks != [] {
      var init, last := blocks[..|blocks| - 1], blocks[|blocks| - 1];
      assert BlocksIndexed(init) by {
        forall i | 0 <= i < |init| ensures init[i] == blocks[i] {}
      }
      ConcatDistinct(init);
      var prev := Concat(init);
      var all := prev + last;
      forall a, b | 0 <= a < b < |all| ensures Key(all[a]) != Key(all[b]) {
        if b < |prev| {
          assert all[a] == prev[a] && all[b] == prev[b];
        } else if a >= |prev| {
          assert all[a] == last[a - |prev|] && all[b] == last[b - |prev|];
        } else {
          ConcatMembership(init, all[a]);
          var i :| 0 <= i < |init| && all[a] in init[i];
          assert all[a] in blocks[i];
          assert all[b] in last;
        }
      }
    }
  }

  lemma {:induction false} ConcatSorted(blocks: seq<seq<Issue>>)
    requires BlocksIndexed(blocks)
    ensures SortedByParagraph(Concat(blocks))
  {
    if blocks != [] {
      var init, last := blocks[..|blocks| - 1], blocks[|blocks| - 1];
      assert BlocksIndexed(init) by {
        forall i | 0 <= i < |init| ensures init[i] == blocks[i] {}
      }
      ConcatSorted(init);
      var prev := Concat(init);
      var all := prev + last;
      forall a, b | 0 <= a < b < |all| && all[a].paraIndex.Some? && all[b].paraIndex.Some?
        ensures all[a].paraIndex.value <= all[b].paraIndex.value
      {
        if b < |prev| {
          assert all[a] == prev[a] && all[b] == prev[b];
        } else if a >= |prev| {
          assert all[a] in last && all[b] in last;
        } else {
          ConcatMembership(init, all[a]);
          var i :| 0 <= i < |init| && all[a] in init[i];
          assert all[a] in blocks[i];
          assert all[b] in last;
        }
      }
    }
  }

  // ---------------------------------------------------------------------------
  // One paragraph

  /** `x` is one of the three kinds of record, for paragraph `i`, labelled
      "para_<i>", with the severity and suggestion of its kind. */
  predicate WellFormed(x: Issue, i: nat) {
    x.paraIndex == Some(i) && x.documentSection == Section(i)
    && ((x.issue == JurisdictionIssue && x.severity == High && x.suggestion == JurisdictionSuggestion)
        || (x.issue == SignatureIssue && x.severity == Medium && x.suggestion == SignatureSuggestion)
        || (exists p :: p in AmbiguousPhrases && x.issue == AmbiguousDescription(p)
              && x.severity == Low && x.suggestion == AmbiguousSuggestion(p)))
  }

  /** The jurisdiction and signature descriptions differ (their lengths are 98 and 53). */
  lemma FixedDescriptionsDistinct()
    ensures JurisdictionIssue != SignatureIssue
  {
    assert |JurisdictionIssue| == 98 && |SignatureIssue| == 53;
  }

  /** No phrase description equals the jurisdiction or the signature
      description, and a phrase description determines its phrase. */
  lemma DescriptionsDistinct(p: string, p': string)
    ensures AmbiguousDescription(p) != JurisdictionIssue && AmbiguousDescription(p) != SignatureIssue
    ensures AmbiguousDescription(p) == AmbiguousDescription(p') <==> p == p'
  {
    var d, d' := AmbiguousDescription(p), AmbiguousDescription(p');
    assert d[|d| - 1] == 'd' && JurisdictionIssue[97] == ')' && SignatureIssue[52] == 't';
    if d == d' {
      assert d[18..18 + |p|] == p;
      assert d'[18..18 + |p'|] == p';
    }
  }

  /** Rule 3 reports, for each listed phrase the text contains, the issue naming
      that phrase, and nothing else. */
  lemma {:induction false} AmbiguousFlagsMembers(i: nat, text: string, phrases: seq<string>, x: Issue)
    ensures x in AmbiguousFlags(i, text, phrases)
        <==> exists p :: p in phrases && Contains(text, p) && x == AmbiguousFlag(i, p)
  {
    if phrases != [] {
      var init, last := phrases[..|phrases| - 1], phrases[|phrases| - 1];
      AmbiguousFlagsMembers(i, text, init, x);
      assert phrases == init + [last];
    }
  }

  /** With no phrase listed twice, rule 3 never repeats a key. */
  lemma {:induction false} AmbiguousFlagsDistinct(i: nat, text: string, phrases: seq<string>)
    requires Distinct(phrases)
    ensures DistinctKeys(AmbiguousFlags(i, text, phrases))
  {
    if phrases != [] {
      var n := |phrases|;
      var init, last := phrases[..n - 1], phrases[n - 1];
      assert Distinct(init) by {
        forall a, b | 0 <= a < b < |init| ensures init[a] != init[b] {
          assert init[a] == phrases[a] && init[b] == phrases[b];
        }
      }
      AmbiguousFlagsDistinct(i, text, init);
      var prev := AmbiguousFlags(i, text, init);
      if Contains(text, last) {
        var y := AmbiguousFlag(i, last);
        forall x | x in prev ensures Key(x) != Key(y) {
          AmbiguousFlagsMembers(i, text, init, x);
          var p :| p in init && Contains(text, p) && x == AmbiguousFlag(i, p);
          var a :| 0 <= a < |init| && init[a] == p;
          assert phrases[a] == p && phrases[n - 1] == last;
          DescriptionsDistinct(p, last);
        }
        DistinctKeysAppend(prev, y);
      }
    }
  }

  /** Every issue of one paragraph is well formed for it, and no two share a
      description. */
  lemma ParagraphFlagsSpec(i: nat, p: string, n: int)
    ensures forall x :: x in ParagraphFlags(i, p, n) ==> WellFormed(x, i)
    ensures DistinctKeys(ParagraphFlags(i, p, n))
  {
    var text := Lower(p);
    var fixed, amb := FixedRuleFlags(i, text, n), AmbiguousFlags(i, text, AmbiguousPhrases);
    assert Distinct(AmbiguousPhrases);
    AmbiguousFlagsDistinct(i, text, AmbiguousPhrases);
    forall x | x in amb
      ensures WellFormed(x, i) && x.issue != JurisdictionIssue && x.issue != SignatureIssue
    {
      AmbiguousFlagsMembers(i, text, AmbiguousPhrases, x);
      var q :| q in AmbiguousPhrases && Contains(text, q) && x == AmbiguousFlag(i, q);
      DescriptionsDistinct(q, q);
    }
    FixedDescriptionsDistinct();
    var all := fixed + amb;
    forall a, b | 0 <= a < b < |all| ensures Key(all[a]) != Key(all[b]) {
      if b < |fixed| {
      } else if a >= |fixed| {
        assert all[a] == amb[a - |fixed|] && all[b] == amb[b - |fixed|];
      } else {
        assert all[b] in amb;
      }
    }
  }

  lemma BlocksSpec(paragraphs: seq<string>)
    ensures BlocksIndexed(ParagraphBlocks(paragraphs))
    ensures forall i :: 0 <= i < |paragraphs| ==> DistinctKeys(ParagraphBlocks(paragraphs)[i])
    ensures forall i, x :: 0 <= i < |paragraphs| && x in ParagraphBlocks(paragraphs)[i] ==> WellFormed(x, i)
  {
    forall i | 0 <= i < |paragraphs| {
      ParagraphFlagsSpec(i, paragraphs[i], |paragraphs|);
    }
  }

  // ---------------------------------------------------------------------------
  // Properties of the scanner's result

  /** Deduplication is the identity on the rules' output: the rules never give
      one paragraph the same description twice. */
  lemma ScanIsRaw(paragraphs: seq<string>)
    ensures DistinctKeys(RawIssues(paragraphs))
    ensures Scan(paragraphs) == RawIssues(paragraphs)
  {
    var raw := RawIssues(paragraphs);
    BlocksSpec(paragraphs);
    ConcatDistinct(ParagraphBlocks(paragraphs));
    DedupOfDistinct(raw, |raw|);
    assert raw[..|raw|] == raw;
  }

  /** Every reported issue names a paragraph of the input, is labelled
      "para_<index>", and has the severity and suggestion of its rule. */
  lemma ScanShape(paragraphs: seq<string>)
    ensures forall x :: x in Scan(paragraphs) ==>
      x.paraIndex.Some? && 0 <= x.paraIndex.value < |paragraphs| && WellFormed(x, x.paraIndex.value)
  {
    ScanIsRaw(paragraphs);
    BlocksSpec(paragraphs);
    forall x | x in Scan(paragraphs)
      ensures x.paraIndex.Some? && 0 <= x.paraIndex.value < |paragraphs| && WellFormed(x, x.paraIndex.value)
    {
      ConcatMembership(ParagraphBlocks(paragraphs), x);
    }
  }

  /** No two reported issues share paragraph and description, and paragraph
      indices never decrease along the result. */
  lemma ScanDistinctAndSorted(paragraphs: seq<string>)
    ensures DistinctKeys(Scan(paragraphs))
    ensures SortedByParagraph(Scan(paragraphs))
  {
    ScanIsRaw(paragraphs);
    BlocksSpec(paragraphs);
    ConcatSorted(ParagraphBlocks(paragraphs));
  }

  /** Some issue of `s` is about paragraph `i` and has description `desc`. */
  predicate Reports(s: seq<Issue>, i: int, desc: string) {
    exists x :: x in s && x.paraIndex == Some(i) && x.issue == desc
  }

  /** Reports about paragraph `i` are exactly those the rules give for it. */
  lemma ScanReportsIff(paragraphs: seq<string>, i: int, desc: string)
    ensures Reports(Scan(paragraphs), i, desc)
        <==> 0 <= i < |paragraphs| && exists x :: x in ParagraphFlags(i, paragraphs[i], |paragraphs|) && x.issue == desc
  {
    var blocks := ParagraphBlocks(paragraphs);
    ScanIsRaw(paragraphs);
    BlocksSpec(paragraphs);
    forall x | x in Scan(paragraphs) && x.paraIndex == Some(i)
      ensures 0 <= i < |paragraphs| && x in ParagraphFlags(i, paragraphs[i], |paragraphs|)
    {
      ConcatMembership(blocks, x);
    }
    if 0 <= i < |paragraphs| {
      forall x | x in ParagraphFlags(i, paragraphs[i], |paragraphs|)
        ensures x in Scan(paragraphs) && x.paraIndex == Some(i)
      {
        assert x in blocks[i];
        ConcatMembership(blocks, x);
      }
    }
  }

  /** A "missing signature" issue is reported for paragraph `i` exactly when
      it is one of the last three and contains no signature marker. */
  lemma SignatureIff(paragraphs: seq<string>, i: int)
    ensures Reports(Scan(paragraphs), i, SignatureIssue)
        <==> 0 <= i < |paragraphs| && i >= |paragraphs| - 3 && !HasSignatureMarker(Lower(paragraphs[i]))
  {
    ScanReportsIff(paragraphs, i, SignatureIssue);
    if 0 <= i < |paragraphs| {
      var text := Lower(paragraphs[i]);
      FixedDescriptionsDistinct();
      forall x | x in AmbiguousFlags(i, text, AmbiguousPhrases) ensures x.issue != SignatureIssue {
        AmbiguousFlagsMembers(i, text, AmbiguousPhrases, x);
        var q :| q in AmbiguousPhrases && Contains(text, q) && x == AmbiguousFlag(i, q);
        DescriptionsDistinct(q, q);
      }
      if FlagsSignature(text, i, |paragraphs|) {
        assert SignatureFlag(i) in ParagraphFlags(i, paragraphs[i], |paragraphs|);
      }
    }
  }

  /** When none of the last three paragraphs holds a signature marker, each of
      them gets its own "missing signature" issue and no other paragraph does. */
  lemma LastThreeUnsigned(paragraphs: seq<string>)
    requires |paragraphs| >= 3
    requires forall i :: |paragraphs| - 3 <= i < |paragraphs| ==> !HasSignatureMarker(Lower(paragraphs[i]))
    ensures forall i :: Reports(Scan(paragraphs), i, SignatureIssue) <==> |paragraphs| - 3 <= i < |paragraphs|
  {
    forall i ensures Reports(Scan(paragraphs), i, SignatureIssue) <==> |paragraphs| - 3 <= i < |paragraphs| {
      SignatureIff(paragraphs, i);
    }
  }

  /** A jurisdiction issue is reported for paragraph `i` exactly when the
      pattern matches and the paragraph does not mention "adgm"; so never for
      a paragraph that mentions it. */
  lemma JurisdictionIff(paragraphs: seq<string>, i: int)
    ensures Reports(Scan(paragraphs), i, JurisdictionIssue)
        <==> 0 <= i < |paragraphs| && JurisdictionPattern(Lower(paragraphs[i]))
             && !Contains(Lower(paragraphs[i]), "adgm")
  {
    ScanReportsIff(paragraphs, i, JurisdictionIssue);
    if 0 <= i < |paragraphs| {
      var text := Lower(paragraphs[i]);
      FixedDescriptionsDistinct();
      forall x | x in AmbiguousFlags(i, text, AmbiguousPhrases) ensures x.issue != JurisdictionIssue {
        AmbiguousFlagsMembers(i, text, AmbiguousPhrases, x);
        var q :| q in AmbiguousPhrases && Contains(text, q) && x == AmbiguousFlag(i, q);
        DescriptionsDistinct(q, q);
      }
      if FlagsJurisdiction(text) {
        assert JurisdictionFlag(i) in ParagraphFlags(i, paragraphs[i], |paragraphs|);
      }
    }
  }

  /** A paragraph whose lower-cased text mentions "adgm" never gets the
      jurisdiction issue, whatever else it says. */
  lemma AdgmSilences(paragraphs: seq<string>, i: int)
    requires 0 <= i < |paragraphs| && Contains(Lower(paragraphs[i]), "adgm")
    ensures !Reports(Scan(paragraphs), i, JurisdictionIssue)
  {
    JurisdictionIff(paragraphs, i);
  }

  /** Rule 3 gives an issue describing phrase `p` exactly when `p` is listed
      and the text contains it. */
  lemma AmbiguousFlagsIff(i: nat, text: string, phrases: seq<string>, p: string)
    ensures (exists x :: x in AmbiguousFlags(i, text, phrases) && x.issue == AmbiguousDescription(p))
        <==> p in phrases && Contains(text, p)
  {
    if exists x :: x in AmbiguousFlags(i, text, phrases) && x.issue == AmbiguousDescription(p) {
      var x :| x in AmbiguousFlags(i, text, phrases) && x.issue == AmbiguousDescription(p);
      AmbiguousFlagsMembers(i, text, phrases, x);
      var q :| q in phrases && Contains(text, q) && x == AmbiguousFlag(i, q);
      DescriptionsDistinct(q, p);
    }
    if p in phrases && Contains(text, p) {
      AmbiguousFlagsMembers(i, text, phrases, AmbiguousFlag(i, p));
    }
  }

  /** Paragraph `i` gets a Low issue naming phrase `p` exactly when `p` is one of
      the listed ambiguous phrases and the paragraph's lower-cased text contains
      it; by `ScanDistinctAndSorted` there is never more than one. */
  lemma AmbiguousIff(paragraphs: seq<string>, i: int, p: string)
    ensures Reports(Scan(paragraphs), i, AmbiguousDescription(p))
        <==> p in AmbiguousPhrases && 0 <= i < |paragraphs| && Contains(Lower(paragraphs[i]), p)
  {
    ScanReportsIff(paragraphs, i, AmbiguousDescription(p));
    if 0 <= i < |paragraphs| {
      AmbiguousFlagsIff(i, Lower(paragraphs[i]), AmbiguousPhrases, p);
      DescriptionsDistinct(p, p);
    }
  }
}
