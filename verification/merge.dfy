/**
 Collecting the hits of every language edition into one list: each hit is
 tagged with the locale code of the request that produced it, and hits are
 appended in language order, then in response order.
 */
module Merge {
  import opened Results

  /** The hits of one response, tagged with that response's locale code, in response order. */
  function Tag(lang: string, hits: seq<Hit>): (rs: seq<SearchResult>)
    ensures |rs| == |hits|
    ensures forall j :: 0 <= j < |hits| ==> rs[j] == Tagged(hits[j], lang)
  {
    seq(|hits|, j requires 0 <= j < |hits| => Tagged(hits[j], lang))
  }

  /** The combined list, `responses[i]` being the response for `langs[i]`. */
  function Merged(langs: seq<string>, responses: seq<seq<Hit>>): seq<SearchResult>
    requires |responses| == |langs|
  {
    if |langs| == 0 then []
    else Merged(langs[..|langs| - 1], responses[..|langs| - 1])
         + Tag(langs[|langs| - 1], responses[|langs| - 1])
  }

  /** Number of hits over all responses. */
  function TotalHits(responses: seq<seq<Hit>>): nat
  {
    if |responses| == 0 then 0
    else TotalHits(responses[..|responses| - 1]) + |responses[|responses| - 1]|
  }

  /** Position in the combined list of the first hit of `responses[i]`. */
  function Offset(responses: seq<seq<Hit>>, i: nat): nat
    requires i <= |responses|
  {
    TotalHits(responses[..i])
  }

  /**
   The loop of the search function: for each locale, append every hit of its
   response, tagged with that locale.
   */
  method CollectResults(langs: seq<string>, responses: seq<seq<Hit>>) returns (results: seq<SearchResult>)
    requires |responses| == |langs|
    ensures results == Merged(langs, responses)
  {
    results := [];
    var i := 0;
    while i < |langs|
      invariant 0 <= i <= |langs|
      invariant results == Merged(langs[..i], responses[..i])
    {
      var lang := langs[i];
      var hits := responses[i];
      var j := 0;
      while j < |hits|
        invariant 0 <= j <= |hits|
        invariant results == Merged(langs[..i], responses[..i]) + Tag(lang, hits[..j])
      {
        results := results + [Tagged(hits[j], lang)];
        j := j + 1;
        assert Tag(lang, hits[..j]) == Tag(lang, hits[..j - 1]) + [Tagged(hits[j - 1], lang)];
      }
      assert hits[..j] == hits;
      assert langs[..i + 1][..i] == langs[..i];
      assert responses[..i + 1][..i] == responses[..i];
      i := i + 1;
    }
    assert langs[..i] == langs && responses[..i] == responses;
  }

  /** The combined list has one entry per hit. */
  lemma {:induction false} MergedLength(langs: seq<string>, responses: seq<seq<Hit>>)
    requires |responses| == |langs|
    ensures |Merged(langs, responses)| == TotalHits(responses)
  {
    if |langs| > 0 {
      MergedLength(langs[..|langs| - 1], responses[..|langs| - 1]);
    }
  }

  /** Blocks follow one another: the block of response `i` ends where that of `i + 1` starts. */
  lemma OffsetStep(responses: seq<seq<Hit>>, i: nat)
    requires i < |responses|
    ensures Offset(responses, i + 1) == Offset(responses, i) + |responses[i]|
  {
    assert responses[..i + 1][..i] == responses[..i];
  }

  /**
   Hit `j` of the response for `langs[i]` sits at `Offset(responses, i) + j`
   of the combined list, tagged with `langs[i]` and nothing else.
   */
  lemma {:induction false} MergedAt(langs: seq<string>, responses: seq<seq<Hit>>, i: nat, j: nat)
    requires |responses| == |langs|
    requires i < |langs| && j < |responses[i]|
    ensures Offset(responses, i) + j < |Merged(langs, responses)|
    ensures Merged(langs, responses)[Offset(responses, i) + j] == Tagged(responses[i][j], langs[i])
  {
    var n := |langs| - 1;
    var front := Merged(langs[..n], responses[..n]);
    MergedLength(langs[..n], responses[..n]);
    MergedLength(langs, responses);
    if i == n {
      assert responses[..i] == responses[..n];
    } else {
      MergedAt(langs[..n], responses[..n], i, j);
      assert responses[..n][..i] == responses[..i];
      OffsetStep(responses[..n], i);
      OffsetStep(responses, i);
      assert responses[..n][..i + 1] == responses[..i + 1];
      OffsetMonotone(responses[..n], i + 1, n);
      assert responses[..n][..n] == responses[..n];
    }
  }

  /** Later responses start later. */
  lemma {:induction false} OffsetMonotone(responses: seq<seq<Hit>>, i: nat, k: nat)
    requires i <= k <= |responses|
    ensures Offset(responses, i) <= Offset(responses, k)
  {
    if i < k {
      OffsetMonotone(responses, i, k - 1);
      OffsetStep(responses, k - 1);
    }
  }

  /**
   Every entry of the combined list is some hit `j` of some response `i`,
   tagged with `langs[i]`: no result is invented and none is cross-tagged.
   */
  lemma {:induction false} MergedOrigin(langs: seq<string>, responses: seq<seq<Hit>>, k: nat)
    returns (i: nat, j: nat)
    requires |responses| == |langs|
    requires k < |Merged(langs, responses)|
    ensures i < |langs| && j < |responses[i]|
    ensures k == Offset(responses, i) + j
    ensures Merged(langs, responses)[k] == Tagged(responses[i][j], langs[i])
  {
    var n := |langs| - 1;
    MergedLength(langs[..n], responses[..n]);
    assert responses[..n + 1] == responses;
    if k < |Merged(langs[..n], responses[..n])| {
      i, j := MergedOrigin(langs[..n], responses[..n], k);
      assert responses[..n][..i] == responses[..i];
    } else {
      i, j := n, k - |Merged(langs[..n], responses[..n])|;
    }
  }

  /** If the API honours `srlimit`, the combined list holds at most `pages_limit` hits per language. */
  lemma {:induction false} TotalHitsBound(responses: seq<seq<Hit>>, pagesLimit: nat)
    requires forall i :: 0 <= i < |responses| ==> |responses[i]| <= pagesLimit
    ensures TotalHits(responses) <= |responses| * pagesLimit
  {
    if |responses| > 0 {
      TotalHitsBound(responses[..|responses| - 1], pagesLimit);
    }
  }
}
