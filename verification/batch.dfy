/** One review of a batch of uploaded files: every file is classified,
    scanned and annotated, and a report combines the checklist comparison of
    the classified types with every file's issues. */
module Batch {
  import opened Text
  import opened Sequences
  import opened Issues
  import opened Loader
  import opened Classifier
  import opened Checklist
  import opened Scanner
  import opened Annotator

  /** An uploaded file: its name and the texts of all its paragraphs, blank ones included. */
  datatype UploadedFile = UploadedFile(name: string, raw: seq<string>)

  /** An issue of the report, tagged with the name of the file it was found in. */
  datatype FileIssue = FileIssue(file: string, issue: Issue)

  /** What the loop body produces for one file. */
  datatype FileReview = FileReview(
    name: string,
    docType: string,
    issues: seq<Issue>,
    reviewed: seq<string>)

  /** The structured report. */
  datatype Report = Report(
    timestamp: string,
    process: string,
    documentsUploaded: nat,
    requiredDocuments: nat,
    missingDocuments: seq<string>,
    issuesFound: seq<FileIssue>)

  /** The type label the classifier reports for a file. */
  function DocTypeOf(f: UploadedFile): string {
    Render(Matching(SearchText(Paragraphs(f.raw)), DocTypeKeywords))
  }

  /** The issues the scanner reports for a file. */
  function IssuesOf(f: UploadedFile): seq<Issue> {
    Scan(Paragraphs(f.raw))
  }

  /** The reviewed paragraphs of a file: the scanner runs on the non-blank
      paragraphs, but the notes are applied to the document's full paragraph
      list, blank paragraphs included. */
  function ReviewedOf(f: UploadedFile): seq<string> {
    Annotated(f.raw, IssuesOf(f))
  }

  function ReviewOf(f: UploadedFile): FileReview {
    FileReview(f.name, DocTypeOf(f), IssuesOf(f), ReviewedOf(f))
  }

  /** The reviews of the files, in upload order. */
  function Reviews(files: seq<UploadedFile>): (r: seq<FileReview>)
    ensures |r| == |files|
  {
    seq(|files|, k requires 0 <= k < |files| => ReviewOf(files[k]))
  }

  /** The type labels of the reviewed files, in upload order. */
  function DetectedTypes(reviews: seq<FileReview>): (r: seq<string>)
    ensures |r| == |reviews|
  {
    seq(|reviews|, k requires 0 <= k < |reviews| => reviews[k].docType)
  }

  /** The reviewed paragraphs of the files, in upload order. */
  function ReviewedDocs(reviews: seq<FileReview>): (r: seq<seq<string>>)
    ensures |r| == |reviews|
  {
    seq(|reviews|, k requires 0 <= k < |reviews| => reviews[k].reviewed)
  }

  /** The labels other than "Unknown", in order. */
  function KnownTypes(types: seq<string>): (r: seq<string>)
    ensures IsSubsequence(r, types)
    ensures forall t :: t in r <==> t in types && t != UnknownLabel
    ensures |r| == |types| - multiset(types)[UnknownLabel]
  {
    if types == [] then []
    else
      var init, last := types[..|types| - 1], types[|types| - 1];
      assert types == init + [last];
      var kept := KnownTypes(init);
      if last == UnknownLabel then
        SubsequenceAppendRight(kept, init, last);
        kept
      else
        SubsequenceAppendBoth(kept, init, last);
        kept + [last]
  }

  /** The issues of one file, each tagged with the file's name. */
  function Tag(name: string, issues: seq<Issue>): seq<FileIssue> {
    seq(|issues|, k requires 0 <= k < |issues| => FileIssue(name, issues[k]))
  }

  /** The number of issues found in all files together. */
  function IssueCount(reviews: seq<FileReview>): nat {
    if reviews == [] then 0 else IssueCount(reviews[..|reviews| - 1]) + |reviews[|reviews| - 1].issues|
  }

  /** The tagged issues of all files, file after file: one entry per issue found. */
  function AllIssues(reviews: seq<FileReview>): (r: seq<FileIssue>)
    ensures |r| == IssueCount(reviews)
  {
    if reviews == [] then []
    else
      var last := reviews[|reviews| - 1];
      AllIssues(reviews[..|reviews| - 1]) + Tag(last.name, last.issues)
  }

  /** The checklist comparison of the labels other than "Unknown". */
  function BatchChecklist(reviews: seq<FileReview>): ChecklistResult {
    ChecklistVerify(KnownTypes(DetectedTypes(reviews)))
  }

  /** The report for the reviewed files, stamped with clock reading `now`:
      the count of files with a known label, the required documents no file is
      labelled with, and one entry per issue found. */
  function SummaryOf(reviews: seq<FileReview>, now: string): (r: Report)
    ensures r.timestamp == now + "Z"
    ensures r.process == "Company Incorporation" && r.requiredDocuments == 5
    ensures r.documentsUploaded == |reviews| - multiset(DetectedTypes(reviews))[UnknownLabel]
    ensures forall d :: d in r.missingDocuments <==>
                   (d in CompanyIncorpChecklist && forall k :: 0 <= k < |reviews| ==> reviews[k].docType != d)
    ensures r.issuesFound == AllIssues(reviews) && |r.issuesFound| == IssueCount(reviews)
  {
    UploadedCount(reviews);
    assert forall d :: d in BatchChecklist(reviews).missingDocuments <==>
                   (d in CompanyIncorpChecklist && forall k :: 0 <= k < |reviews| ==> reviews[k].docType != d)
    by {
      forall d {
        MissingIff(reviews, d);
      }
    }
    var c := BatchChecklist(reviews);
    Report(now + "Z", c.process, c.documentsUploaded, c.requiredDocuments, c.missingDocuments,
           AllIssues(reviews))
  }

  /** The report for a batch of uploaded files. */
  function Summary(files: seq<UploadedFile>, now: string): Report {
    SummaryOf(Reviews(files), now)
  }

  /** The work done for one file: classification, scan and annotation of a
      fresh copy of its paragraphs. */
  method ReviewFile(file: UploadedFile) returns (r: FileReview)
    ensures r == ReviewOf(file)
  {
    var paragraphs := Paragraphs(file.raw);
    var docType := DetectDocType(paragraphs);
    var issues := DetectRedFlags(paragraphs);
    var doc := new string[|file.raw|](k requires 0 <= k < |file.raw| => file.raw[k]);
    assert doc[..] == file.raw;
    AddComments(doc, issues);
    r := FileReview(file.name, docType, issues, doc[..]);
  }

  /** The loop over the uploaded files: the labels, the tagged issues and the
      reviewed paragraphs of every file, in upload order. */
  method ReviewFiles(files: seq<UploadedFile>)
    returns (detected: seq<string>, all: seq<FileIssue>, reviewed: seq<seq<string>>)
    ensures detected == DetectedTypes(Reviews(files))
    ensures all == AllIssues(Reviews(files))
    ensures reviewed == ReviewedDocs(Reviews(files))
  {
    ghost var revs: seq<FileReview> := [];
    detected, all, reviewed := [], [], [];
    for f := 0 to |files|
      invariant revs == Reviews(files[..f])
      invariant detected == DetectedTypes(revs)
      invariant all == AllIssues(revs)
      invariant reviewed == ReviewedDocs(revs)
    {
      var r := ReviewFile(files[f]);
      ReviewsPrefix(files, f);
      AppendReview(revs, r);
      detected := detected + [r.docType];
      all := all + Tag(r.name, r.issues);
      reviewed := reviewed + [r.reviewed];
      revs := revs + [r];
    }
    assert files[..|files|] == files;
  }

  lemma ReviewsPrefix(files: seq<UploadedFile>, f: nat)
    requires f < |files|
    ensures Reviews(files[..f + 1]) == Reviews(files[..f]) + [ReviewOf(files[f])]
  {
    assert files[..f + 1] == files[..f] + [files[f]];
    ReviewsAppend(files[..f], files[f]);
  }

  lemma ReviewsAppend(files: seq<UploadedFile>, file: UploadedFile)
    ensures Reviews(files + [file]) == Reviews(files) + [ReviewOf(file)]
  {
  }

  /** One more review extends each accumulated list by that file's part. */
  lemma AppendReview(revs: seq<FileReview>, r: FileReview)
    ensures DetectedTypes(revs + [r]) == DetectedTypes(revs) + [r.docType]
    ensures AllIssues(revs + [r]) == AllIssues(revs) + Tag(r.name, r.issues)
    ensures ReviewedDocs(revs + [r]) == ReviewedDocs(revs) + [r.reviewed]
  {
    assert (revs + [r])[..|revs|] == revs;
  }

  /** The review of a batch: nothing when no file was uploaded; otherwise the
      report, stamped with the clock reading `now`, and per file its reviewed
      paragraph texts. */
  method ReviewBatch(files: seq<UploadedFile>, now: string)
    returns (report: Option<Report>, reviewed: seq<seq<string>>)
    ensures files == [] ==> report == None && reviewed == []
    ensures files != [] ==> report == Some(Summary(files, now))
    ensures files != [] ==> reviewed == ReviewedDocs(Reviews(files))
  {
    if files == [] {
      return None, [];
    }
    var detected, all;
    detected, all, reviewed := ReviewFiles(files);
    var result := ChecklistVerify(KnownTypes(detected));
    report := Some(Report(now + "Z", result.process, result.documentsUploaded,
                          result.requiredDocuments, result.missingDocuments, all));
  }

  /** The count of uploaded documents is the number of files classified as
      something other than "Unknown". */
  lemma UploadedCount(reviews: seq<FileReview>)
    ensures BatchChecklist(reviews).documentsUploaded
         == |reviews| - multiset(DetectedTypes(reviews))[UnknownLabel]
    ensures BatchChecklist(reviews).documentsUploaded == |reviews|
        <==> forall k :: 0 <= k < |reviews| ==> reviews[k].docType != UnknownLabel
  {
    var types := DetectedTypes(reviews);
    assert (UnknownLabel in multiset(types)) == (UnknownLabel in types);
    if UnknownLabel in types {
      var k :| 0 <= k < |types| && types[k] == UnknownLabel;
    } else {
      forall k | 0 <= k < |reviews| ensures reviews[k].docType != UnknownLabel {
        assert types[k] in types;
      }
    }
  }

  /** A required document is reported missing exactly when no file's label is
      that document's name: a file labelled with several types joined by ", "
      satisfies none of them. */
  lemma MissingIff(reviews: seq<FileReview>, d: string)
    ensures d in BatchChecklist(reviews).missingDocuments
        <==> d in CompanyIncorpChecklist && forall k :: 0 <= k < |reviews| ==> reviews[k].docType != d
  {
    var types := DetectedTypes(reviews);
    assert UnknownLabel !in CompanyIncorpChecklist;
    if d in types {
      var k :| 0 <= k < |types| && types[k] == d;
    }
    if exists k :: 0 <= k < |reviews| && reviews[k].docType == d {
      var k :| 0 <= k < |reviews| && reviews[k].docType == d;
      assert types[k] == d;
    }
  }

  /** Every reported issue is an issue found in a file of that name, and every
      issue found in any file is reported, tagged with the file's name. */
  lemma {:induction false} AllIssuesIff(reviews: seq<FileReview>, name: string, it: Issue)
    ensures FileIssue(name, it) in AllIssues(reviews)
        <==> exists k :: 0 <= k < |reviews| && reviews[k].name == name && it in reviews[k].issues
  {
    if reviews != [] {
      var n := |reviews|;
      var init, last := reviews[..n - 1], reviews[n - 1];
      AllIssuesIff(init, name, it);
      var tagged := Tag(last.name, last.issues);
      assert AllIssues(reviews) == AllIssues(init) + tagged;
      if FileIssue(name, it) in tagged {
        var m :| 0 <= m < |tagged| && tagged[m] == FileIssue(name, it);
        assert reviews[n - 1].name == name && it in reviews[n - 1].issues;
      }
      if exists k :: 0 <= k < n && reviews[k].name == name && it in reviews[k].issues {
        var k :| 0 <= k < n && reviews[k].name == name && it in reviews[k].issues;
        if k < n - 1 {
          assert init[k] == reviews[k];
        } else {
          var m :| 0 <= m < |last.issues| && last.issues[m] == it;
          assert tagged[m] == FileIssue(name, it);
        }
      }
    }
  }

  /** In a file without blank paragraphs, each paragraph receives the notes of
      exactly the issues the scanner reported for it. */
  lemma NotesLandOnScannedParagraph(f: UploadedFile, j: nat)
    requires j < |f.raw|
    requires forall k :: 0 <= k < |f.raw| ==> !IsBlank(f.raw[k])
    ensures ReviewedOf(f)[j] == f.raw[j] + NotesFor(Scan(f.raw), j)
  {
    ParagraphsOfNonBlank(f.raw);
    AnnotatedSpec(f.raw, Scan(f.raw));
  }

  /** When the first paragraph is blank and no other is, the notes shift by
      one: paragraph `j` of the document receives the notes of the issues the
      scanner reported for its paragraph `j`, which is the document's
      paragraph `j + 1`. */
  lemma NotesShiftPastLeadingBlank(f: UploadedFile, j: nat)
    requires |f.raw| > 0 && IsBlank(f.raw[0])
    requires forall k :: 1 <= k < |f.raw| ==> !IsBlank(f.raw[k])
    requires j < |f.raw|
    ensures ReviewedOf(f)[j] == f.raw[j] + NotesFor(Scan(f.raw[1..]), j)
  {
    ParagraphsOfLeadingBlank(f.raw);
    AnnotatedSpec(f.raw, Scan(f.raw[1..]));
  }

  /** A document matched to two or more types carries their ", "-joined label,
      which is longer than every required document's name, so it satisfies no
      checklist entry. */
  lemma MultiTypeLabelSatisfiesNothing(found: seq<string>)
    requires |found| >= 2
    requires forall k :: 0 <= k < |found| ==> found[k] in CompanyIncorpChecklist
    ensures Render(found) !in CompanyIncorpChecklist
  {
    assert forall d :: d in CompanyIncorpChecklist ==> 20 <= |d| <= 33;
    assert found[0] in CompanyIncorpChecklist && found[1] in CompanyIncorpChecklist;
  }

  /** A blank first paragraph shifts the notes: the scanner numbers the
      paragraphs without it, so the note for its paragraph 0 ("x") lands on
      the document's paragraph 0, the blank one. */
  lemma BlankParagraphShiftsNotes()
    ensures ReviewedOf(UploadedFile("a.docx", ["", "x"])) == [Note(SignatureFlag(0)), "x"]
  {
    var raw := ["", "x"];
    BlankThenX();
    LoneParagraphScan();
    var issues := [SignatureFlag(0)];
    assert issues[..0] == [];
    assert Annotated(raw, issues) == ApplyOne(raw, SignatureFlag(0));
    assert Targets(SignatureFlag(0), |raw|);
    assert raw[0] + Note(SignatureFlag(0)) == Note(SignatureFlag(0));
  }

  lemma BlankThenX()
    ensures Paragraphs(["", "x"]) == ["x"]
  {
    var raw := ["", "x"];
    assert IsBlank(raw[0]);
    assert !IsSpace(raw[1][0]);
    assert raw[..1][..0] == [] && raw[..2][..1] == raw[..1] && raw[..2] == raw;
    assert Paragraphs(raw[..1]) == [];
  }

  /** The scan of the single paragraph "x": one signature issue. */
  lemma LoneParagraphScan()
    ensures Scan(["x"]) == [SignatureFlag(0)]
  {
    LoneParagraphFlags();
    var issues := [SignatureFlag(0)];
    assert ParagraphBlocks(["x"]) == [issues];
    var blocks: seq<seq<Issue>> := [issues];
    assert blocks[..0] == [];
    assert RawIssues(["x"]) == issues;
    DedupOfDistinct(issues, 1);
    assert issues[..1] == issues;
  }

  /** The only rule that fires on a single paragraph "x" is the signature rule. */
  lemma LoneParagraphFlags()
    ensures ParagraphFlags(0, "x", 1) == [SignatureFlag(0)]
  {
    var text := Lower("x");
    assert text == "x";
    assert !JurisdictionPattern(text);
    assert !HasSignatureMarker(text);
    assert AmbiguousFlags(0, text, AmbiguousPhrases) == [] by {
      var ps := AmbiguousPhrases;
      assert ps[..4] == ps && ps[..4][..3] == ps[..3] && ps[..3][..2] == ps[..2]
        && ps[..2][..1] == ps[..1] && ps[..1][..0] == [];
      assert AmbiguousFlags(0, text, ps[..1]) == [];
      assert AmbiguousFlags(0, text, ps[..2]) == [];
      assert AmbiguousFlags(0, text, ps[..3]) == [];
    }
  }
}
