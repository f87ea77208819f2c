/**
 The search text sent as `srsearch`: the query itself, or the query wrapped
 in double quotes when an exact-phrase search is asked for.
 */
module Query {

  /** The text sent to every language edition. */
  function SearchText(query: string, exact: bool): (text: string)
    ensures exact ==> |text| == |query| + 2 && text[0] == '"' && text[|text| - 1] == '"'
    ensures exact ==> text[1..|text| - 1] == query
    ensures !exact ==> text == query
  {
    if exact then "\"" + query + "\"" else query
  }

  /** Drops one pair of surrounding double quotes, if there is one. */
  function Unquote(text: string): string
  {
    if |text| >= 2 && text[0] == '"' && text[|text| - 1] == '"' then text[1..|text| - 1] else text
  }

  /** Exact quoting loses nothing: the original query is recovered from the search text. */
  lemma QuoteRoundTrip(query: string)
    ensures Unquote(SearchText(query, true)) == query
  {
  }
}
