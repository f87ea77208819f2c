/**
 The whole `wikipedia_search` pipeline with its network calls replaced by
 their answers: quote the query, tag and merge every language's hits, sort
 them descending on the chosen field, keep the first `results_limit`, and
 render one line per kept result.
 */
module WikiSearch {
  import opened Results
  import Query
  import Merge
  import Ranking
  import Render
  import Lex
  import Decimal

  /**
   The arguments of `wikipedia_search`, with its defaults `sort="size"` and
   `exact=True`. `query`, `exact` and `pagesLimit` only shape the API requests
   (`SrSearch` is the `srsearch` text, `pagesLimit` is sent as `srlimit`); the
   responses passed alongside stand for the API's answers. `resultsLimit` is a
   Python `int` and may be negative.
   */
  datatype SearchRequest = SearchRequest(
    query: string,
    languages: seq<string>,
    pagesLimit: int,
    resultsLimit: int,
    sort: SortField := Size,
    exact: bool := true)

  /** The `srsearch` text every language edition is asked for. */
  function SrSearch(req: SearchRequest): (text: string)
    ensures req.exact ==> Query.Unquote(text) == req.query && |text| == |req.query| + 2
    ensures !req.exact ==> text == req.query
  {
    Query.QuoteRoundTrip(req.query);
    Query.SearchText(req.query, req.exact)
  }

  /** Left to their defaults, `sort` and `exact` rank by size and search for the exact phrase. */
  lemma Defaults(query: string, languages: seq<string>, pagesLimit: int, resultsLimit: int)
    ensures SearchRequest(query, languages, pagesLimit, resultsLimit).sort == Size
    ensures SrSearch(SearchRequest(query, languages, pagesLimit, resultsLimit)) == "\"" + query + "\""
  {
  }

  function Min(a: int, b: int): int
  {
    if a <= b then a else b
  }

  /** Python's `s[:n]`: a non-negative `n` keeps at most `n` entries, a negative one drops `-n` from the end. */
  function SliceTo<T>(s: seq<T>, n: int): (r: seq<T>)
    ensures |r| <= |s| && r == s[..|r|]
    ensures n >= 0 ==> |r| == Min(n, |s|)
    ensures n < 0 ==> |r| == if |s| + n < 0 then 0 else |s| + n
  {
    if n >= 0 then
      if n <= |s| then s[..n] else s
    else if |s| + n <= 0 then []
    else s[..|s| + n]
  }

  /** All hits, tagged and merged in language order, then sorted descending on `req.sort`. */
  function Sorted(req: SearchRequest, responses: seq<seq<Hit>>): seq<SearchResult>
    requires |responses| == |req.languages|
  {
    Ranking.SortDesc(req.sort, Merge.Merged(req.languages, responses))
  }

  /**
   The results that are printed. `responses[i]` is the `query.search` list
   the API returned for `req.languages[i]`.
   */
  function Ranked(req: SearchRequest, responses: seq<seq<Hit>>): (r: seq<SearchResult>)
    requires |responses| == |req.languages|
    ensures Ranking.Descending(req.sort, r)
    ensures multiset(r) <= multiset(Merge.Merged(req.languages, responses))
    ensures req.resultsLimit >= 0 ==> |r| == Min(req.resultsLimit, Merge.TotalHits(responses))
  {
    var sorted := Sorted(req, responses);
    Merge.MergedLength(req.languages, responses);
    var r := SliceTo(sorted, req.resultsLimit);
    PrefixFacts(req.sort, sorted, |r|);
    r
  }

  /** The printed lines. */
  function Search(req: SearchRequest, responses: seq<seq<Hit>>): (lines: seq<string>)
    requires |responses| == |req.languages|
    ensures req.resultsLimit >= 0 ==> |lines| == Min(req.resultsLimit, Merge.TotalHits(responses))
    ensures |lines| == |Ranked(req, responses)|
    ensures forall i :: 0 <= i < |lines| ==> lines[i] == Render.Line(Ranked(req, responses)[i])
  {
    Render.Lines(Ranked(req, responses))
  }

  /** A prefix of a descending list is descending and holds no more of anything than the list. */
  lemma PrefixFacts(f: SortField, s: seq<SearchResult>, n: nat)
    requires Ranking.Descending(f, s) && n <= |s|
    ensures Ranking.Descending(f, s[..n])
    ensures multiset(s[..n]) <= multiset(s)
  {
    assert s == s[..n] + s[n..];
  }

  /**
   The kept results are the top of the ranking: a merged result whose key is
   larger than that of some kept result is itself kept.
   */
  lemma TopResultsKept(req: SearchRequest, responses: seq<seq<Hit>>, i: nat, y: SearchResult)
    requires |responses| == |req.languages|
    requires i < |Ranked(req, responses)|
    requires y in Merge.Merged(req.languages, responses)
    requires KeyLess(req.sort, Ranked(req, responses)[i], y)
    ensures y in Ranked(req, responses)
  {
    var sorted := Sorted(req, responses);
    var r := Ranked(req, responses);
    assert r == sorted[..|r|];
    assert y in multiset(sorted);
    var j :| 0 <= j < |sorted| && sorted[j] == y;
    if j >= |r| {
      Ranking.DescendingPairwise(req.sort, sorted, i, j);
    }
    assert r[j] == y;
  }

  /**
   Every kept result is a hit of the response for its own language: its
   `lang` is the locale code of the request that returned it.
   */
  lemma RankedOrigin(req: SearchRequest, responses: seq<seq<Hit>>, k: nat)
    returns (i: nat, j: nat)
    requires |responses| == |req.languages|
    requires k < |Ranked(req, responses)|
    ensures i < |req.languages| && j < |responses[i]|
    ensures Ranked(req, responses)[k] == Tagged(responses[i][j], req.languages[i])
  {
    var merged := Merge.Merged(req.languages, responses);
    var y := Ranked(req, responses)[k];
    assert y in multiset(merged);
    var m :| 0 <= m < |merged| && merged[m] == y;
    i, j := Merge.MergedOrigin(req.languages, responses, m);
  }

  /** Sorting on `lang`, results from `jp` are printed before results from `en`, whatever their size. */
  lemma JpBeforeEn(req: SearchRequest, responses: seq<seq<Hit>>, i: nat, j: nat)
    requires |responses| == |req.languages| && req.sort == Lang
    requires i < |Ranked(req, responses)| && j < |Ranked(req, responses)|
    requires Ranked(req, responses)[i].lang == "jp" && Ranked(req, responses)[j].lang == "en"
    ensures i < j
  {
    var r := Ranked(req, responses);
    assert Lex.Less("en", "jp");
    if j <= i {
      Ranking.DescendingPairwise(Lang, r, j, i);
    }
  }

  /**
   Two languages with one hit each, sorted on size with room for both: the
   larger Japanese page comes first.
   */
  lemma SizeExample()
    ensures Search(SearchRequest("絵文字", ["en", "jp"], 100, 2, Size, true),
                   [[Hit("Emoji", 5000)], [Hit("絵文字", 8000)]])
         == ["Title: 絵文字, Size: 8000, Language: jp",
             "Title: Emoji, Size: 5000, Language: en"]
  {
    var req := SearchRequest("絵文字", ["en", "jp"], 100, 2, Size, true);
    var responses := [[Hit("Emoji", 5000)], [Hit("絵文字", 8000)]];
    var en := SearchResult("Emoji", 5000, "en");
    var jp := SearchResult("絵文字", 8000, "jp");
    ExampleRanked(req, responses, en, jp);
    ExampleLines(jp, en);
  }

  lemma ExampleRanked(req: SearchRequest, responses: seq<seq<Hit>>, en: SearchResult, jp: SearchResult)
    requires req == SearchRequest("絵文字", ["en", "jp"], 100, 2, Size, true)
    requires responses == [[Hit("Emoji", 5000)], [Hit("絵文字", 8000)]]
    requires en == SearchResult("Emoji", 5000, "en") && jp == SearchResult("絵文字", 8000, "jp")
    ensures Ranked(req, responses) == [jp, en]
  {
    ExampleMerged(req.languages, responses, en, jp);
    assert Ranking.SortDesc(Size, [jp]) == [jp];
    assert Ranking.SortDesc(Size, [en, jp]) == [jp, en];
  }

  lemma ExampleMerged(langs: seq<string>, responses: seq<seq<Hit>>, en: SearchResult, jp: SearchResult)
    requires langs == ["en", "jp"]
    requires responses == [[Hit("Emoji", 5000)], [Hit("絵文字", 8000)]]
    requires en == SearchResult("Emoji", 5000, "en") && jp == SearchResult("絵文字", 8000, "jp")
    ensures Merge.Merged(langs, responses) == [en, jp]
  {
    assert langs[..1] == ["en"] && responses[..1] == [[Hit("Emoji", 5000)]];
    assert langs[..1][..0] == [] && responses[..1][..0] == [];
    assert Merge.Merged(langs[..1], responses[..1]) == [en];
  }

  lemma ExampleLines(jp: SearchResult, en: SearchResult)
    requires en == SearchResult("Emoji", 5000, "en") && jp == SearchResult("絵文字", 8000, "jp")
    ensures Render.Lines([jp, en]) == ["Title: 絵文字, Size: 8000, Language: jp", "Title: Emoji, Size: 5000, Language: en"]
  {
    ExampleLineJp();
    ExampleLineEn();
    assert [jp, en][1..] == [en];
    assert Render.Lines([en]) == [Render.Line(en)];
  }

  lemma ExampleLineJp()
    ensures Render.Line(SearchResult("絵文字", 8000, "jp")) == "Title: 絵文字, Size: 8000, Language: jp"
  {
    ExampleSizes();
  }

  lemma ExampleLineEn()
    ensures Render.Line(SearchResult("Emoji", 5000, "en")) == "Title: Emoji, Size: 5000, Language: en"
  {
    ExampleSizes();
  }

  lemma ExampleSizes()
    ensures Decimal.IntText(8000) == "8000" && Decimal.IntText(5000) == "5000"
  {
    assert Decimal.Digits(8) == "8" && Decimal.Digits(5) == "5";
    assert Decimal.Digits(80) == "80" && Decimal.Digits(50) == "50";
    assert Decimal.Digits(800) == "800" && Decimal.Digits(500) == "500";
  }
}
