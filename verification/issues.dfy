/** Issue records produced by the red-flag scanner, and their deduplication on
    the pair (paragraph index, issue description), keeping first occurrences. */
module Issues {

  datatype Option<T> = None | Some(value: T)

  datatype Severity = High | Medium | Low

  /** One finding. `paraIndex` is optional because the annotator accepts
      records that lack it. */
  datatype Issue = Issue(
    documentSection: string,
    issue: string,
    severity: Severity,
    suggestion: string,
    paraIndex: Option<int>)

  type IssueKey = (Option<int>, string)

  function Key(it: Issue): IssueKey {
    (it.paraIndex, it.issue)
  }

  /** No earlier issue of `s` has the key of `s[k]`. */
  predicate IsFirst(s: seq<Issue>, k: int)
    requires 0 <= k < |s|
  {
    forall j :: 0 <= j < k ==> Key(s[j]) != Key(s[k])
  }

  /** No two issues share a key. */
  predicate DistinctKeys(s: seq<Issue>) {
    forall a, b :: 0 <= a < b < |s| ==> Key(s[a]) != Key(s[b])
  }

  /** An issue whose key no earlier issue has keeps the keys distinct. */
  lemma DistinctKeysAppend(s: seq<Issue>, y: Issue)
    requires DistinctKeys(s)
    requires forall x :: x in s ==> Key(x) != Key(y)
    ensures DistinctKeys(s + [y])
  {
    var t := s + [y];
    forall a, b | 0 <= a < b < |t| ensures Key(t[a]) != Key(t[b]) {
      if b < |s| {
        assert t[a] == s[a] && t[b] == s[b];
      } else {
        assert t[a] in s;
      }
    }
  }

  ghost function KeysUpTo(s: seq<Issue>, n: nat): set<IssueKey>
    requires n <= |s|
  {
    set j | 0 <= j < n :: Key(s[j])
  }

  /** The first occurrences among the first `n` issues, in order. */
  function DedupPrefix(s: seq<Issue>, n: nat): seq<Issue>
    requires n <= |s|
  {
    if n == 0 then [] else DedupPrefix(s, n - 1) + (if IsFirst(s, n - 1) then [s[n - 1]] else [])
  }

  /** Every issue whose key has not been seen before, in input order. */
  function Dedup(s: seq<Issue>): seq<Issue> {
    DedupPrefix(s, |s|)
  }

  /** The positions `DedupPrefix` keeps, in increasing order. */
  ghost function FirstIndices(s: seq<Issue>, n: nat): seq<nat>
    requires n <= |s|
  {
    if n == 0 then [] else FirstIndices(s, n - 1) + (if IsFirst(s, n - 1) then [n - 1] else [])
  }

  /** The deduplication loop: a set of seen keys and the list of kept issues. */
  method Deduplicate(issues: seq<Issue>) returns (dedup: seq<Issue>)
    ensures dedup == Dedup(issues)
  {
    var seen: set<IssueKey> := {};
    dedup := [];
    for i := 0 to |issues|
      invariant seen == KeysUpTo(issues, i)
      invariant dedup == DedupPrefix(issues, i)
    {
      var key := Key(issues[i]);
      assert key !in seen <==> IsFirst(issues, i);
      if key !in seen {
        dedup := dedup + [issues[i]];
        seen := seen + {key};
      }
      assert KeysUpTo(issues, i + 1) == KeysUpTo(issues, i) + {key};
    }
  }

  /** The first-occurrence positions among the first `n`, strictly increasing. */
  lemma {:induction false} FirstIndicesSpec(s: seq<Issue>, n: nat)
    requires n <= |s|
    ensures var idx := FirstIndices(s, n);
      (forall m :: 0 <= m < |idx| ==> idx[m] < n)
      && (forall a, b :: 0 <= a < b < |idx| ==> idx[a] < idx[b])
      && (forall k :: 0 <= k < n ==> (k in idx <==> IsFirst(s, k)))
  {
    if n > 0 {
      FirstIndicesSpec(s, n - 1);
      var prev := FirstIndices(s, n - 1);
      assert n - 1 !in prev;
    }
  }

  /** The kept issues are exactly the issues at the first-occurrence positions,
      taken in increasing position order. */
  lemma {:induction false} DedupSelectsFirst(s: seq<Issue>, n: nat)
    requires n <= |s|
    ensures var idx := FirstIndices(s, n);
      |DedupPrefix(s, n)| == |idx|
      && (forall m :: 0 <= m < |idx| ==> idx[m] < n && DedupPrefix(s, n)[m] == s[idx[m]])
      && (forall a, b :: 0 <= a < b < |idx| ==> idx[a] < idx[b])
      && (forall k :: 0 <= k < n ==> (k in idx <==> IsFirst(s, k)))
  {
    FirstIndicesSpec(s, n);
    if n > 0 {
      DedupSelectsFirst(s, n - 1);
    }
  }

  /** The deduplicated list has no two issues with the same key. */
  lemma DedupDistinctKeys(s: seq<Issue>)
    ensures DistinctKeys(Dedup(s))
  {
    var r, idx := Dedup(s), FirstIndices(s, |s|);
    DedupSelectsFirst(s, |s|);
    forall a, b | 0 <= a < b < |r| ensures Key(r[a]) != Key(r[b]) {
      assert idx[b] in idx;
    }
  }

  /** Every key of the input survives, carried by its first occurrence. */
  lemma {:induction false} DedupKeepsEveryKey(s: seq<Issue>, k: nat)
    requires k < |s|
    ensures exists m :: 0 <= m < |Dedup(s)| && Dedup(s)[m] == s[FirstWithKey(s, k)]
    ensures FirstWithKey(s, k) <= k && Key(s[FirstWithKey(s, k)]) == Key(s[k])
  {
    var f := FirstWithKey(s, k);
    DedupSelectsFirst(s, |s|);
    var idx := FirstIndices(s, |s|);
    assert f in idx;
    var m :| 0 <= m < |idx| && idx[m] == f;
    assert Dedup(s)[m] == s[f];
  }

  /** The position of the first issue with the key of `s[k]`. */
  ghost function FirstWithKey(s: seq<Issue>, k: nat): (f: nat)
    requires k < |s|
    ensures f <= k && Key(s[f]) == Key(s[k]) && IsFirst(s, f)
  {
    if IsFirst(s, k) then k
    else
      var j :| 0 <= j < k && Key(s[j]) == Key(s[k]);
      FirstWithKey(s, j)
  }

  /** Input whose keys are already distinct comes back unchanged. */
  lemma {:induction false} DedupOfDistinct(s: seq<Issue>, n: nat)
    requires n <= |s| && DistinctKeys(s)
    ensures DedupPrefix(s, n) == s[..n]
  {
    if n > 0 {
      DedupOfDistinct(s, n - 1);
      assert s[..n] == s[..n - 1] + [s[n - 1]];
    }
  }

  /** Deduplicating twice gives the same list as deduplicating once. */
  lemma DedupIdempotent(s: seq<Issue>)
    ensures Dedup(Dedup(s)) == Dedup(s)
  {
    var r := Dedup(s);
    DedupDistinctKeys(s);
    DedupOfDistinct(r, |r|);
  }

  /** Paragraph indices never decrease along `s`. */
  predicate SortedByParagraph(s: seq<Issue>) {
    forall a, b :: 0 <= a < b < |s| && s[a].paraIndex.Some? && s[b].paraIndex.Some?
      ==> s[a].paraIndex.value <= s[b].paraIndex.value
  }

  /** Deduplication keeps the input order, so sorted input stays sorted. */
  lemma DedupKeepsOrder(s: seq<Issue>)
    requires SortedByParagraph(s)
    ensures SortedByParagraph(Dedup(s))
  {
    var r, idx := Dedup(s), FirstIndices(s, |s|);
    DedupSelectsFirst(s, |s|);
    forall a, b | 0 <= a < b < |r| && r[a].paraIndex.Some? && r[b].paraIndex.Some?
      ensures r[a].paraIndex.value <= r[b].paraIndex.value
    {
      assert r[a] == s[idx[a]] && r[b] == s[idx[b]] && idx[a] < idx[b];
    }
  }
}
