/** Keyword-based classification of a document into known document types. */
module Classifier {
  import opened Text
  import opened Sequences

  /** One row of the keyword table: a type label and the keywords that reveal it. */
  datatype DocType = DocType(name: string, keywords: seq<string>)

  /** The keyword table, in the order types are reported. */
  const DocTypeKeywords: seq<DocType> := [
    DocType("Articles of Association", ["articles of association", "aoa"]),
    DocType("Memorandum of Association", ["memorandum of association", "moa", "memorandum"]),
    DocType("Incorporation Application Form", ["incorporation application", "application form"]),
    DocType("UBO Declaration Form", ["ubo", "ultimate beneficial owner", "ubo declaration"]),
    DocType("Register of Members and Directors",
            ["register of members", "register of directors", "register of members and directors"])
  ]

  const UnknownLabel: string := "Unknown"

  /** The text searched: the paragraphs joined by single spaces, lower-cased. */
  function SearchText(paragraphs: seq<string>): string {
    Lower(Join(paragraphs, " "))
  }

  /** Some keyword of `t` is a substring of `text`. */
  predicate Mentions(text: string, t: DocType) {
    exists j :: 0 <= j < |t.keywords| && Contains(text, t.keywords[j])
  }

  /** The type labels of the rows, in row order. */
  function Labels(types: seq<DocType>): seq<string> {
    seq(|types|, k requires 0 <= k < |types| => types[k].name)
  }

  /** The labels of the rows of `types` that `text` mentions, in row order. */
  function Matching(text: string, types: seq<DocType>): (r: seq<string>)
    ensures IsSubsequence(r, Labels(types))
  {
    if types == [] then []
    else
      var init, last := types[..|types| - 1], types[|types| - 1];
      var found := Matching(text, init);
      assert Labels(types) == Labels(init) + [last.name];
      if Mentions(text, last) then
        SubsequenceAppendBoth(found, Labels(init), last.name);
        found + [last.name]
      else
        SubsequenceAppendRight(found, Labels(init), last.name);
        found
  }

  /** The reported value: the found labels joined by ", ", or "Unknown". */
  function Render(found: seq<string>): (r: string)
    ensures found == [] ==> r == UnknownLabel
    ensures |found| == 1 ==> r == found[0]
    ensures found != [] ==> |r| >= |found[0]| && r[..|found[0]|] == found[0]
    ensures |found| >= 2 ==> |r| >= |found[0]| + 2 + |found[1]|
  {
    if found == [] then UnknownLabel
    else
      JoinStartsWith(found, ", ");
      if |found| >= 2 then
        JoinStartsWith(found[1..], ", ");
        Join(found, ", ")
      else
        Join(found, ", ")
  }

  /** detect_doc_type: one pass over the table, stopping at a type's first
      keyword that occurs in the text. */
  method DetectDocType(paragraphs: seq<string>) returns (docType: string)
    ensures docType == Render(Matching(SearchText(paragraphs), DocTypeKeywords))
  {
    var text := Lower(Join(paragraphs, " "));
    var found: seq<string> := [];
    for i := 0 to |DocTypeKeywords|
      invariant found == Matching(text, DocTypeKeywords[..i])
    {
      var t := DocTypeKeywords[i];
      assert DocTypeKeywords[..i + 1][..i] == DocTypeKeywords[..i];
      var j := 0;
      while j < |t.keywords|
        invariant 0 <= j <= |t.keywords|
        invariant found == Matching(text, DocTypeKeywords[..i])
        invariant forall m :: 0 <= m < j ==> !Contains(text, t.keywords[m])
      {
        if Contains(text, t.keywords[j]) {
          found := found + [t.name];
          break;
        }
        j := j + 1;
      }
    }
    assert DocTypeKeywords[..|DocTypeKeywords|] == DocTypeKeywords;
    if found == [] {
      docType := UnknownLabel;
    } else {
      docType := Join(found, ", ");
    }
  }

  /** A label is reported iff its row is mentioned. */
  lemma {:induction false} MatchingMembership(text: string, types: seq<DocType>, k: nat)
    requires k < |types|
    requires forall a, b :: 0 <= a < b < |types| ==> types[a].name != types[b].name
    ensures types[k].name in Matching(text, types) <==> Mentions(text, types[k])
  {
    var init, last := types[..|types| - 1], types[|types| - 1];
    if k < |types| - 1 {
      MatchingMembership(text, init, k);
      assert types[k].name != last.name;
    } else {
      MatchingExcludes(text, init, last.name);
    }
  }

  /** Every reported label is the label of some mentioned row. */
  lemma {:induction false} MatchingSound(text: string, types: seq<DocType>, x: string)
    requires x in Matching(text, types)
    ensures exists k :: 0 <= k < |types| && types[k].name == x && Mentions(text, types[k])
  {
    var init, last := types[..|types| - 1], types[|types| - 1];
    if x in Matching(text, init) {
      MatchingSound(text, init, x);
      var k :| 0 <= k < |init| && init[k].name == x && Mentions(text, init[k]);
      assert types[k] == init[k];
    } else {
      assert types[|types| - 1] == last;
    }
  }

  /** A label that no row of `types` carries is never reported. */
  lemma {:induction false} MatchingExcludes(text: string, types: seq<DocType>, x: string)
    requires forall k :: 0 <= k < |types| ==> types[k].name != x
    ensures x !in Matching(text, types)
  {
    if types != [] {
      MatchingExcludes(text, types[..|types| - 1], x);
    }
  }

  /** Nothing is found exactly when no keyword of any row occurs. */
  lemma {:induction false} MatchingEmptyIff(text: string, types: seq<DocType>)
    ensures Matching(text, types) == []
        <==> forall k, j :: 0 <= k < |types| && 0 <= j < |types[k].keywords| ==> !Contains(text, types[k].keywords[j])
  {
    if types != [] {
      var init, last := types[..|types| - 1], types[|types| - 1];
      MatchingEmptyIff(text, init);
      forall k | 0 <= k < |init| ensures init[k] == types[k] {}
    }
  }

  lemma DistinctLabels()
    ensures forall a, b :: 0 <= a < b < |DocTypeKeywords| ==> DocTypeKeywords[a].name != DocTypeKeywords[b].name
  {
  }

  /** The classifier reports "Unknown" exactly when no keyword of any type occurs
      in the lower-cased, space-joined paragraphs. */
  lemma DetectUnknownIff(paragraphs: seq<string>)
    ensures Render(Matching(SearchText(paragraphs), DocTypeKeywords)) == UnknownLabel
        <==> forall k, j :: 0 <= k < |DocTypeKeywords| && 0 <= j < |DocTypeKeywords[k].keywords|
               ==> !Contains(SearchText(paragraphs), DocTypeKeywords[k].keywords[j])
  {
    var text := SearchText(paragraphs);
    var found := Matching(text, DocTypeKeywords);
    MatchingEmptyIff(text, DocTypeKeywords);
    if found != [] {
      JoinStartsWith(found, ", ");
      assert found[0] in found;
      MatchingSound(text, DocTypeKeywords, found[0]);
      var k :| 0 <= k < |DocTypeKeywords| && DocTypeKeywords[k].name == found[0];
      assert |found[0]| > |UnknownLabel|;
    }
  }

  /** Type `k` is among the reported labels iff one of its keywords occurs. */
  lemma DetectsTypeIff(paragraphs: seq<string>, k: nat)
    requires k < |DocTypeKeywords|
    ensures DocTypeKeywords[k].name in Matching(SearchText(paragraphs), DocTypeKeywords)
        <==> exists j :: 0 <= j < |DocTypeKeywords[k].keywords|
               && Contains(SearchText(paragraphs), DocTypeKeywords[k].keywords[j])
  {
    DistinctLabels();
    MatchingMembership(SearchText(paragraphs), DocTypeKeywords, k);
  }

  /** Reported labels come in table order, each at most once. */
  lemma DetectedInTableOrder(paragraphs: seq<string>)
    ensures IsSubsequence(Matching(SearchText(paragraphs), DocTypeKeywords), Labels(DocTypeKeywords))
    ensures Distinct(Matching(SearchText(paragraphs), DocTypeKeywords))
  {
    DistinctLabels();
    SubsequenceDistinct(Matching(SearchText(paragraphs), DocTypeKeywords), Labels(DocTypeKeywords));
  }
}
