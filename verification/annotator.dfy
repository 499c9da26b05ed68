/** The reviewer's annotations: each issue's suggestion is appended, behind a
    fixed marker, to the paragraph its index names. The document's paragraphs
    are an array of texts updated in place. */
module Annotator {
  import opened Issues

  const Marker: string := "\n[REVIEW SUGGESTION] "

  /** The run appended for one issue. */
  function Note(it: Issue): string {
    Marker + it.suggestion
  }

  /** The issue names a paragraph of a document with `n` paragraphs. */
  predicate Targets(it: Issue, n: int) {
    it.paraIndex.Some? && 0 <= it.paraIndex.value < n
  }

  /** One issue applied to the paragraph texts: skipped when its index is
      absent or out of range. */
  function ApplyOne(ps: seq<string>, it: Issue): (r: seq<string>)
    ensures |r| == |ps|
  {
    if Targets(it, |ps|) then ps[it.paraIndex.value := ps[it.paraIndex.value] + Note(it)] else ps
  }

  /** The paragraph texts after every issue has been applied, in list order. */
  function Annotated(ps: seq<string>, issues: seq<Issue>): (r: seq<string>)
    ensures |r| == |ps|
  {
    if |issues| == 0 then ps
    else ApplyOne(Annotated(ps, issues[..|issues| - 1]), issues[|issues| - 1])
  }

  /** The notes paragraph `j` receives: those of the issues indexed `j`, in list order. */
  function NotesFor(issues: seq<Issue>, j: int): string {
    if |issues| == 0 then ""
    else
      var last := issues[|issues| - 1];
      NotesFor(issues[..|issues| - 1], j) + (if last.paraIndex == Some(j) then Note(last) else "")
  }

  /** Annotating the paragraphs of `doc`, in place. */
  method AddComments(doc: array<string>, issues: seq<Issue>)
    modifies doc
    ensures doc[..] == Annotated(old(doc[..]), issues)
  {
    ghost var original := doc[..];
    for k := 0 to |issues|
      invariant doc[..] == Annotated(original, issues[..k])
    {
      var it := issues[k];
      assert issues[..k + 1][..k] == issues[..k];
      match it.paraIndex
      case None =>
      case Some(idx) =>
        if 0 <= idx < doc.Length {
          doc[idx] := doc[idx] + Note(it);
        }
    }
    assert issues[..|issues|] == issues;
  }

  /** Each paragraph ends up as its original text followed by the notes of the
      issues indexed to it, in the order of the issue list; nothing else changes. */
  lemma {:induction false} AnnotatedSpec(ps: seq<string>, issues: seq<Issue>)
    ensures forall j :: 0 <= j < |ps| ==> Annotated(ps, issues)[j] == ps[j] + NotesFor(issues, j)
  {
    if |issues| > 0 {
      var init, last := issues[..|issues| - 1], issues[|issues| - 1];
      AnnotatedSpec(ps, init);
      forall j | 0 <= j < |ps|
        ensures Annotated(ps, issues)[j] == ps[j] + NotesFor(issues, j)
      {
        if last.paraIndex == Some(j) {
          assert Annotated(ps, issues)[j] == (ps[j] + NotesFor(init, j)) + Note(last);
        }
      }
    }
  }

  /** A paragraph receives no note exactly when no issue is indexed to it. */
  lemma {:induction false} NotesForEmptyIff(issues: seq<Issue>, j: int)
    ensures NotesFor(issues, j) == "" <==> forall k :: 0 <= k < |issues| ==> issues[k].paraIndex != Some(j)
  {
    if |issues| > 0 {
      var init, last := issues[..|issues| - 1], issues[|issues| - 1];
      NotesForEmptyIff(init, j);
      assert |Note(last)| >= |Marker| > 0;
      if last.paraIndex == Some(j) {
        assert |NotesFor(issues, j)| > 0;
      } else {
        assert forall k :: 0 <= k < |init| ==> init[k] == issues[k];
      }
    }
  }

  /** A paragraph keeps its text exactly when no issue is indexed to it:
      issues without an index, or with one outside the document, change nothing. */
  lemma UnchangedIff(ps: seq<string>, issues: seq<Issue>, j: nat)
    requires j < |ps|
    ensures Annotated(ps, issues)[j] == ps[j] <==> forall k :: 0 <= k < |issues| ==> issues[k].paraIndex != Some(j)
  {
    AnnotatedSpec(ps, issues);
    NotesForEmptyIff(issues, j);
    assert |ps[j] + NotesFor(issues, j)| == |ps[j]| + |NotesFor(issues, j)|;
  }
}
