# Corporate agent document review — a Dafny model

This project models the review pipeline of a small ADGM company-incorporation
helper (`app.py`). The pipeline works on a batch of uploaded Word documents, each
seen here as the list of its paragraph texts. For every file it does four things:

- it classifies the document by keyword (`detect_doc_type`);
- it scans the paragraphs for red flags with three rules (`detect_red_flags`):
  a jurisdiction reference without ADGM, a missing signature block near the end,
  and ambiguous "best efforts"-style phrases;
- it deduplicates those issues on (paragraph index, description);
- it appends a review suggestion to each flagged paragraph (`add_comments_to_docx`).

The batch then compares the detected types with the five-document
incorporation checklist (`checklist_verify`). It produces a report that carries
every issue, tagged with its file name.

Modules, one per concern:

- `Text`: the string built-ins the program relies on. These are `lower`,
  the substring test, `join`, `str` of an integer, `strip` emptiness, and the
  regular-expression word boundary.
- `Sequences`: the subsequence relation. It is used to state "filtered, order kept".
- `Loader`: the whitespace-only paragraph filter applied when a document is opened.
- `Classifier`: the keyword table and the classifier. The classifier is a
  method with the source's loop and early `break`, proved against a
  specification function.
- `Checklist`: the required list and the comparison against it.
- `Issues`: issue records, plus the deduplication loop over a set of seen keys,
  proved against a first-occurrence specification.
- `Scanner`: the three rules and the scanning loop. `ScannerExamples` pins down
  the jurisdiction pattern on concrete text.
- `Annotator`: the in-place annotation of an array of paragraph texts.
- `Batch`: the per-file loop and the report.

Several behaviours of the program are reproduced as written:

- **Whole-string checklist matching.** A file that mentions two types is
  labelled with both names joined by ", ". That single label satisfies neither
  checklist entry (`Batch.MultiTypeLabelSatisfiesNothing`, `Batch.MissingIff`).
- **The jurisdiction pattern `\b(u[ae]\b|united arab emirates|federal court)\b`.**
  It matches the words "ua" and "ue", but not "uae". Its trailing boundary
  rejects "federal courts". See `ScannerExamples`.
- **Index mismatch between scanning and annotating.** The scanner numbers
  only the non-blank paragraphs. The annotator indexes the document's full
  paragraph list. So a blank paragraph before a flagged one moves that
  paragraph's note onto an earlier paragraph (`Batch.NotesShiftPastLeadingBlank`,
  `Batch.BlankParagraphShiftsNotes`).
  In a document without blank paragraphs the notes land where the scanner
  found the issue (`Batch.NotesLandOnScannedParagraph`).

## Model

| member | source | states |
|---|---|---|
| Text.IsBlank | app.py:26 | `not text.strip()`: every character is one that Python's `strip` removes (definition, no contract) |
| Text.AtWordBoundary | app.py:55 | `\b`: a word character on exactly one side of the position (definition, no contract) |
| Loader.Paragraphs | app.py:24-27 | the paragraphs kept are a subsequence of the document; each non-blank text occurs as often as in the document and each blank one not at all |
| Loader.ParagraphsOfNonBlank | app.py:26 | a document with no whitespace-only paragraph is passed on whole, so positions agree |
| Loader.ParagraphsOfLeadingBlank | app.py:26 | a document whose only blank paragraph is the first is passed on without it, so every position moves down by one |
| Classifier.Matching | app.py:32-36 | the labels found are a subsequence of the table's labels, so they come in table order |
| Classifier.Render | app.py:37-39 | no labels give "Unknown"; one label gives that label; otherwise the result starts with the first label, and with two or more it is at least as long as the first two plus the ", " between them |
| Classifier.DetectDocType | app.py:29-39 | the loop with its early `break` computes the found labels rendered as ", "-joined text or "Unknown" |
| Classifier.DetectUnknownIff | app.py:30-38 | the result is "Unknown" exactly when no keyword of any type is a substring of the lower-cased, space-joined paragraphs |
| Classifier.DetectsTypeIff | app.py:32-36 | a type's label is found exactly when one of its keywords occurs in that text |
| Classifier.MatchingMembership | app.py:32-36 | with distinct labels, a row's label is found iff some keyword of that row occurs |
| Classifier.MatchingSound | app.py:32-36 | every found label belongs to a row whose keyword occurs |
| Classifier.MatchingEmptyIff | app.py:37-38 | nothing is found exactly when no row is mentioned |
| Classifier.DetectedInTableOrder | app.py:32-39 | the found labels follow the table order and none appears twice |
| Checklist.Missing | app.py:44 | the missing entries are the required entries, in required order, that are not elements of the uploaded list |
| Checklist.ChecklistVerify | app.py:41-48 | process "Company Incorporation", count = input length (duplicates included), required = 5, missing as in `Missing` |
| Checklist.NothingMissingIff | app.py:44 | nothing is missing exactly when every required label is in the input |
| Checklist.JoinedLabelSatisfiesNothing | app.py:39-44 | the label "Articles of Association, Memorandum of Association" alone leaves all five checklist entries missing |
| Checklist.MissingOnlyUbo | app.py:41-48 | any upload holding the other four required labels, in any order and among any other labels, but not the UBO declaration reports exactly the UBO declaration missing |
| Checklist.MissingSingle | app.py:44 | with distinct required entries of which only x was not uploaded, the missing list is exactly [x] |
| Issues.Deduplicate | app.py:80-86 | the loop over a seen-key set returns the first-occurrence filter `Dedup` of its input |
| Issues.FirstIndicesSpec | app.py:80-86 | the kept positions are strictly increasing and are exactly the positions whose key did not occur earlier |
| Issues.DedupSelectsFirst | app.py:80-86 | the output is the input at the first-occurrence positions, in increasing order |
| Issues.DedupDistinctKeys | app.py:80-86 | no two output issues share (paragraph index, description) |
| Issues.DedupKeepsEveryKey | app.py:80-86 | every input key survives, carried by its first occurrence |
| Issues.DedupOfDistinct | app.py:80-86 | input whose keys are already distinct comes back unchanged |
| Issues.DedupIdempotent | app.py:80-86 | deduplicating twice equals deduplicating once |
| Issues.DedupKeepsOrder | app.py:80-86 | input ordered by paragraph index stays ordered |
| Scanner.JurisdictionMatchAt | app.py:55 | one alternative of the pattern occurs at a position with `\b` on both sides (definition, no contract) |
| Scanner.JurisdictionPattern | app.py:55 | `re.search` of `\b(u[ae]\b\|united arab emirates\|federal court)\b` succeeds: some alternative matches at some position (definition, no contract) |
| Scanner.HasSignatureMarker | app.py:63 | `re.search` of `(signature\|signed by\|__________________)` succeeds: some marker is a substring (definition, no contract) |
| Scanner.DetectRedFlags | app.py:50-86 | the scanning loop followed by deduplication returns `Scan` of the paragraphs |
| Scanner.FlagParagraph | app.py:53-79 | one paragraph's loop body yields the jurisdiction, signature and ambiguous-phrase issues in rule and phrase order |
| Scanner.AmbiguousFlagsMembers | app.py:71-79 | rule 3's issues are exactly the Low records naming a listed phrase that the text contains |
| Scanner.AmbiguousFlagsDistinct | app.py:71-79 | with no phrase listed twice, no two phrase issues share a description |
| Scanner.FixedDescriptionsDistinct | app.py:58-67 | the jurisdiction and signature descriptions differ |
| Scanner.DescriptionsDistinct | app.py:58-75 | no phrase description equals the jurisdiction or signature description, and a phrase description determines its phrase |
| Scanner.ParagraphFlagsSpec | app.py:53-79 | every issue for paragraph i is well formed for i and their keys are distinct |
| Scanner.BlocksSpec | app.py:53-79 | the per-paragraph issue lists are indexed by their paragraph, well formed and key-distinct |
| Scanner.ConcatMembership | app.py:53-79 | an issue is in the scan before dedup iff it is in some paragraph's list |
| Scanner.ConcatDistinct | app.py:53-79 | per-paragraph lists with distinct keys, indexed by paragraph, concatenate to a key-distinct list |
| Scanner.ConcatSorted | app.py:53-79 | lists indexed by paragraph concatenate to a list ordered by paragraph index |
| Scanner.ScanIsRaw | app.py:80-86 | the rules never repeat a key, so deduplication returns their output unchanged |
| Scanner.ScanShape | app.py:53-79 | every issue has 0 <= para_index < len(paragraphs), section "para_" + str(index), and the severity and suggestion of its rule |
| Scanner.ScanDistinctAndSorted | app.py:50-86 | the result has distinct keys and non-decreasing paragraph indices |
| Scanner.ScanReportsIff | app.py:53-86 | an issue about paragraph i with a given description is reported iff one of the rules gives it for paragraph i |
| Scanner.JurisdictionIff | app.py:55-62 | a jurisdiction issue for i iff the lower-cased paragraph matches the pattern and does not contain "adgm" |
| Scanner.SignatureIff | app.py:63-70 | a signature issue for i iff i is among the last three and the lower-cased paragraph holds no signature marker |
| Scanner.LastThreeUnsigned | app.py:63-70 | with no marker in the last three paragraphs, exactly those three get the signature issue |
| Scanner.AdgmSilences | app.py:55-62 | no paragraph whose lower-cased text contains "adgm" gets the jurisdiction issue |
| Scanner.AmbiguousFlagsIff | app.py:71-79 | rule 3 gives an issue describing phrase p iff p is listed and the text contains it |
| Scanner.AmbiguousIff | app.py:71-79 | paragraph i gets an issue naming phrase p iff p is one of the four listed phrases and the paragraph's lower-cased text contains it |
| ScannerExamples.UaeIsNotMatched | app.py:55 | "uae" does not match the pattern |
| ScannerExamples.UaAndUeAreMatched | app.py:55 | "ua" and "ue" match |
| ScannerExamples.FederalCourtsIsNotMatched | app.py:55 | "federal courts" does not match |
| ScannerExamples.FederalCourtSentence | app.py:55-62 | "governed by the federal court." raises the jurisdiction rule |
| ScannerExamples.BestEffortsExample | app.py:71-79 | "we use best efforts." yields one Low issue, naming "best efforts" |
| ScannerExamples.BestEffortsOnly | app.py:52 | that text contains the first listed phrase and none of the other three |
| ScannerExamples.OnlyFirstPhrase | app.py:71-79 | a text containing only the first phrase gets exactly that phrase's issue |
| Annotator.ApplyOne | app.py:90-95 | one issue leaves the number of paragraphs unchanged |
| Annotator.Annotated | app.py:89-95 | annotating keeps the number of paragraphs |
| Annotator.AddComments | app.py:88-98 | the in-place loop leaves the array equal to `Annotated` of its old contents |
| Annotator.AnnotatedSpec | app.py:89-95 | each paragraph becomes its original text followed by marker + suggestion of each issue indexed to it, in issue order |
| Annotator.NotesForEmptyIff | app.py:89-95 | a paragraph receives no note exactly when no issue is indexed to it |
| Annotator.UnchangedIff | app.py:90-93 | a paragraph keeps its text iff no issue targets it; absent or out-of-range indices change nothing |
| Batch.KnownTypes | app.py:137 | dropping "Unknown" keeps the other labels in order, and removes exactly as many entries as there are "Unknown" labels |
| Batch.DetectedTypes | app.py:115-116 | one label per reviewed file |
| Batch.ReviewFile | app.py:111-118 | one file is classified, scanned and annotated as the specification functions say |
| Batch.ReviewFiles | app.py:110-135 | the loop's accumulated labels, tagged issues and reviewed documents are those of the files' reviews, file after file |
| Batch.SummaryOf | app.py:137-148 | the report carries the clock reading + "Z", process "Company Incorporation", 5 required documents, the number of files not labelled "Unknown", exactly the required documents no file is labelled with, and as issues_found the tagged issue list `AllIssues` (one entry per issue found) |
| Batch.ReviewBatch | app.py:104-148 | no report for an empty upload; otherwise the summary with the clock reading + "Z", and each file's reviewed paragraphs |
| Batch.UploadedCount | app.py:137-144 | documents_uploaded is the number of reviewed files not labelled "Unknown", and equals the file count iff no file is "Unknown" |
| Batch.MissingIff | app.py:137-146 | a required document is missing iff no reviewed file's label is exactly its name |
| Batch.AllIssuesIff | app.py:135 | a tagged issue is reported iff some reviewed file of that name has that issue |
| Batch.AllIssues | app.py:135 | the tagged issue list has as many entries as the reviewed files' issue lists together |
| Batch.NotesLandOnScannedParagraph | app.py:113-118 | without blank paragraphs, each paragraph receives exactly the notes of its own issues |
| Batch.NotesShiftPastLeadingBlank | app.py:113-118 | when only the first paragraph is blank, document paragraph j receives the notes the scanner filed under its index j, i.e. those about document paragraph j + 1 |
| Batch.MultiTypeLabelSatisfiesNothing | app.py:37-44 | the ", "-joined label of a document matched to two or more checklist types is none of the checklist entries |
| Batch.BlankParagraphShiftsNotes | app.py:113-118 | for the document ["", "x"], the note for the scanner's paragraph 0 ("x") lands on the blank paragraph |
| Batch.BlankThenX | app.py:26 | the blank paragraph is dropped before scanning |
| Batch.LoneParagraphScan | app.py:63-70 | a lone paragraph "x" gets only the signature issue |
| Batch.LoneParagraphFlags | app.py:53-79 | only the signature rule fires on "x" |

## Left out

- The Streamlit interface is not modelled: title, uploader, `st.write`, `st.markdown`, `st.json`, the download buttons, and the idle message (app.py:100-105, 124-128, 138-139, 149-154). It is presentation and I/O. An empty upload yields no report.
- Opening the Word file and saving the reviewed one are not modelled (app.py:24-25, 112, 120-122). A document is the list of its paragraph texts. A parse failure, which would abort the run, is not modelled.
- The per-file `processed` list (app.py:130-134) is not modelled, because nothing reads it.
- The clock (`datetime.utcnow()`, app.py:142) is a parameter of the report. JSON serialisation (app.py:152) is not modelled.
- Lower-casing covers ASCII letters only. The regular-expression `\w` is restricted to ASCII word characters. Unicode case mapping and Unicode word characters are not modelled.
- The `try`/`except` around `add_run` (app.py:94-97) is not modelled; every in-range append succeeds. A document run is modelled as plain text appended to the paragraph's text.
- Regular expressions in general are not modelled. The two patterns at app.py:55 and app.py:63 are stated as explicit predicates.
