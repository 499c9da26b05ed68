/** The checklist of documents required for company incorporation, and the
    comparison of the detected type labels against it. */
module Checklist {
  import opened Sequences

  /** Required document types, in the order they are reported. */
  const CompanyIncorpChecklist: seq<string> := [
    "Articles of Association",
    "Memorandum of Association",
    "Incorporation Application Form",
    "UBO Declaration Form",
    "Register of Members and Directors"
  ]

  const ProcessName: string := "Company Incorporation"

  datatype ChecklistResult = ChecklistResult(
    process: string,
    documentsUploaded: nat,
    requiredDocuments: nat,
    missingDocuments: seq<string>)

  /** The entries of `required`, in order, that are not elements of `uploaded`. */
  function Missing(required: seq<string>, uploaded: seq<string>): (r: seq<string>)
    ensures IsSubsequence(r, required)
    ensures forall d :: d in r <==> d in required && d !in uploaded
  {
    if required == [] then []
    else
      var init, last := required[..|required| - 1], required[|required| - 1];
      assert required == init + [last];
      var m := Missing(init, uploaded);
      if last in uploaded then
        SubsequenceAppendRight(m, init, last);
        m
      else
        SubsequenceAppendBoth(m, init, last);
        m + [last]
  }

  /** Labels are compared as whole strings: `uploaded` holds one entry per
      classified file, duplicates included. */
  function ChecklistVerify(uploaded: seq<string>): (r: ChecklistResult)
    ensures r.process == ProcessName
    ensures r.documentsUploaded == |uploaded|
    ensures r.requiredDocuments == 5
    ensures IsSubsequence(r.missingDocuments, CompanyIncorpChecklist)
    ensures forall d :: d in r.missingDocuments <==> d in CompanyIncorpChecklist && d !in uploaded
  {
    ChecklistResult(ProcessName, |uploaded|, |CompanyIncorpChecklist|,
                    Missing(CompanyIncorpChecklist, uploaded))
  }

  /** Nothing is missing exactly when every required label was uploaded. */
  lemma NothingMissingIff(uploaded: seq<string>)
    ensures ChecklistVerify(uploaded).missingDocuments == []
        <==> forall d :: d in CompanyIncorpChecklist ==> d in uploaded
  {
    var m := ChecklistVerify(uploaded).missingDocuments;
    if m != [] {
      assert m[0] in m;
    }
  }

  /** A document that matched two types carries the single joined label, which
      satisfies neither of the two required entries it names. */
  lemma JoinedLabelSatisfiesNothing()
    ensures ChecklistVerify(["Articles of Association, Memorandum of Association"]).missingDocuments
         == CompanyIncorpChecklist
  {
    var uploaded := ["Articles of Association, Memorandum of Association"];
    var m := ChecklistVerify(uploaded).missingDocuments;
    forall d | d in CompanyIncorpChecklist ensures d !in uploaded {
      assert |d| < |uploaded[0]|;
    }
    MissingAll(CompanyIncorpChecklist, uploaded);
  }

  /** When no required entry was uploaded, all of them are missing. */
  lemma {:induction false} MissingAll(required: seq<string>, uploaded: seq<string>)
    requires forall d :: d in required ==> d !in uploaded
    ensures Missing(required, uploaded) == required
  {
    if required != [] {
      var init := required[..|required| - 1];
      assert required == init + [required[|required| - 1]];
      MissingAll(init, uploaded);
    }
  }

  /** An upload that holds the other four required labels, in any order and
      among any other labels, but not the UBO declaration reports exactly the
      UBO declaration as missing. */
  lemma MissingOnlyUbo(uploaded: seq<string>)
    requires "Articles of Association" in uploaded && "Memorandum of Association" in uploaded
    requires "Incorporation Application Form" in uploaded && "Register of Members and Directors" in uploaded
    requires "UBO Declaration Form" !in uploaded
    ensures ChecklistVerify(uploaded).missingDocuments == ["UBO Declaration Form"]
  {
    var c := CompanyIncorpChecklist;
    assert Distinct(c);
    assert c[0] in uploaded && c[1] in uploaded && c[2] in uploaded && c[4] in uploaded;
    forall d | d in c && d !in uploaded ensures d == c[3] {
      var k :| 0 <= k < |c| && c[k] == d;
    }
    MissingSingle(c, uploaded, c[3]);
  }

  /** With distinct required entries of which only `x` was not uploaded, the
      missing list is `[x]`. */
  lemma MissingSingle(required: seq<string>, uploaded: seq<string>, x: string)
    requires Distinct(required)
    requires x in required && x !in uploaded
    requires forall d :: d in required && d !in uploaded ==> d == x
    ensures Missing(required, uploaded) == [x]
  {
    var m := Missing(required, uploaded);
    SubsequenceDistinct(m, required);
    assert x in m;
    forall k | 0 <= k < |m| ensures m[k] == x {
      assert m[k] in m;
    }
  }
}
