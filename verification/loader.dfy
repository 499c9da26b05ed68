/** The text side of loading a document: the container parser itself is not
    modelled, a document is the sequence of its paragraph texts. */
module Loader {
  import opened Text
  import opened Sequences

  /** The paragraphs the classifier and the scanner see: every paragraph whose
      text is not whitespace only, in document order. */
  function Paragraphs(raw: seq<string>): (r: seq<string>)
    ensures IsSubsequence(r, raw)
    ensures forall p :: p in r <==> p in raw && !IsBlank(p)
    ensures forall p :: multiset(r)[p] == if IsBlank(p) then 0 else multiset(raw)[p]
    ensures |r| <= |raw|
  {
    if raw == [] then []
    else
      var init, last := raw[..|raw| - 1], raw[|raw| - 1];
      assert raw == init + [last];
      var kept := Paragraphs(init);
      if IsBlank(last) then
        SubsequenceAppendRight(kept, init, last);
        kept
      else
        SubsequenceAppendBoth(kept, init, last);
        kept + [last]
  }

  /** A document without blank paragraphs is passed on whole, so paragraph
      positions agree with the document's own. */
  lemma {:induction false} ParagraphsOfNonBlank(raw: seq<string>)
    requires forall k :: 0 <= k < |raw| ==> !IsBlank(raw[k])
    ensures Paragraphs(raw) == raw
  {
    if raw != [] {
      var init := raw[..|raw| - 1];
      ParagraphsOfNonBlank(init);
      assert raw == init + [raw[|raw| - 1]];
    }
  }

  /** A document whose only blank paragraph is its first is passed on without
      it, so every later paragraph moves down one position. */
  lemma {:induction false} ParagraphsOfLeadingBlank(raw: seq<string>)
    requires |raw| > 0 && IsBlank(raw[0])
    requires forall k :: 1 <= k < |raw| ==> !IsBlank(raw[k])
    ensures Paragraphs(raw) == raw[1..]
  {
    var n := |raw|;
    var init, last := raw[..n - 1], raw[n - 1];
    if n == 1 {
      assert Paragraphs(raw) == Paragraphs(init) && init == [];
    } else {
      assert forall k :: 1 <= k < |init| ==> init[k] == raw[k];
      ParagraphsOfLeadingBlank(init);
      assert !IsBlank(last);
      assert Paragraphs(raw) == Paragraphs(init) + [last];
      DropFirstOfSnoc(raw);
    }
  }
}
