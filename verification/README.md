# WikiSearch ranking pipeline in Dafny

`wikipedia_search` (WikiSearch.py) searches several language editions of
Wikipedia for one query and prints a combined top-N list. This project models
the pure part of that function and proves its properties:

1. **Query quoting** (`Query`): with `exact` set, the `srsearch` text is the
   query wrapped in double quotes; otherwise it is the query unchanged.
2. **Tagging and merging** (`Merge`): every hit of the response for locale
   `languages[i]` becomes a result `{title, size, lang = languages[i]}`. Results
   are appended in language order, then in response order. `CollectResults`
   is the source's nested loop; `Merged` is its functional definition.
3. **Sorting** (`Ranking`): `results.sort(key=itemgetter(sort), reverse=True)`
   is a stable sort into descending key order. Equal keys keep their merged
   order. The key is `title` or `lang` compared as Python compares `str`
   (`Lex`: code point by code point, a prefix first), or `size` compared as an
   integer (`Results.KeyLess`). It is modelled as an insertion sort. The
   lemma `Ranking.SortCharacterised` shows the output is the only descending
   list that keeps every key's entries in input order. So any stable sort,
   CPython's included, returns the same list.
4. **Truncation** (`WikiSearch.SliceTo`): `results[:results_limit]` with
   Python's slice semantics.
5. **Rendering** (`Render`, `Decimal`): one line
   `Title: <title>, Size: <size>, Language: <lang>` per kept result, in order.
   The size is written as `str(int)` writes it.

The HTTP responses are an input: `responses[i]` is the `query.search` list
returned for `languages[i]`, each hit reduced to its `title` and `size`
(`Results.Hit`). `WikiSearch.Search` composes steps 2–5.

Stability is stated per key. For every result `k`, `KeyRun(f, k, s)` is the
subsequence of `s` whose key under field `f` equals `k`'s key. A sort is stable
exactly when it leaves every such subsequence unchanged.

The source does not validate `results_limit`. Its own notes (WikiSearch.py:65)
list negative limits as unchecked input. A negative limit drops that many
results from the end of the sorted list; `SliceTo` models both cases.

`WikiSearch.SearchRequest` holds the arguments of `wikipedia_search`, with the
source's defaults `sort="size"` and `exact=True` (WikiSearch.py:5) as default
constructor values.

## Model

| member | source | states |
|---|---|---|
| `Query.SearchText` | WikiSearch.py:16-18 | with `exact`, the text is two characters longer than the query, starts and ends with `"` and holds the query in between; without `exact` it is the query itself |
| `Query.QuoteRoundTrip` | WikiSearch.py:17-18 | stripping the surrounding quotes from the exact search text gives back the original query |
| `WikiSearch.SrSearch` | WikiSearch.py:17-18 | the `srsearch` text of a request: with `exact`, two characters longer than the query and unquoting back to it; without `exact`, the query itself |
| `WikiSearch.Defaults` | WikiSearch.py:5 | a request that leaves `sort` and `exact` at their defaults sorts on size and searches for the query wrapped in double quotes |
| `Merge.CollectResults` | WikiSearch.py:20-40 | the nested append loop over languages and their hits builds exactly the merged list `Merged(langs, responses)` |
| `Merge.MergedLength` | WikiSearch.py:20-40 | the merged list has one entry per hit: its length is the sum of the response lengths |
| `Merge.MergedAt` | WikiSearch.py:21-40 | hit `j` of the response for `langs[i]` sits at position `Offset(i) + j` (the hits of all earlier languages come first), with its own title and size and with `lang == langs[i]` |
| `Merge.MergedOrigin` | WikiSearch.py:35-40 | conversely, every merged entry is some hit `j` of some response `i` at position `Offset(i) + j`, tagged with `langs[i]`: nothing is invented or cross-tagged |
| `Merge.TotalHitsBound` | WikiSearch.py:21-35 | assuming every response holds at most `pages_limit` hits (the `srlimit` the request asks for), the total number of hits is at most the number of languages times `pages_limit` |
| `Lex.Irreflexive` | WikiSearch.py:43 | no string sorts before itself |
| `Lex.Asymmetric` | WikiSearch.py:43 | of two strings, at most one sorts before the other |
| `Lex.Transitive` | WikiSearch.py:43 | the string order is transitive |
| `Lex.Total` | WikiSearch.py:43 | two different strings are always ordered one way or the other |
| `Results.KeyTrichotomy` | WikiSearch.py:43 | under each sort field, two results have a smaller, equal or larger key, and a smaller key excludes the other two |
| `Results.KeyLessTransitive` | WikiSearch.py:43 | a strictly smaller key is transitive under each sort field |
| `Results.NotLessTransitive` | WikiSearch.py:43 | "key at least as large" is transitive, so descending neighbours make a descending list |
| `Ranking.Insert` | WikiSearch.py:43 | inserting into a descending list keeps it descending and adds exactly the inserted result |
| `Ranking.SortDesc` | WikiSearch.py:43 | the sorted list is descending in the chosen key and is a permutation (equal multiset) of the merged list |
| `Ranking.DescendingPairwise` | WikiSearch.py:43 | in the sorted list, no entry has a smaller key than any entry after it |
| `Ranking.InsertKeyRun` | WikiSearch.py:43 | an inserted result goes ahead of every entry with its key and leaves other keys' entries untouched |
| `Ranking.SortStable` | WikiSearch.py:43 | stability: for every key, the entries carrying it appear in the sorted list in their merged order |
| `Ranking.SortUnique` | WikiSearch.py:43 | two descending lists that agree on the entries of every key, in order, are equal |
| `Ranking.SortCharacterised` | WikiSearch.py:43 | any descending list that keeps every key's entries in input order is the model's sorted list, whatever the sorting algorithm |
| `WikiSearch.SliceTo` | WikiSearch.py:46 | `s[:n]` is a prefix of `s`; its length is `min(n, len(s))` for `n >= 0` and `max(0, len(s) + n)` for negative `n` |
| `WikiSearch.Ranked` | WikiSearch.py:42-46 | the kept results are descending in the key and come from the merged list; for a non-negative limit there are `min(results_limit, total hits)` of them |
| `WikiSearch.TopResultsKept` | WikiSearch.py:42-46 | a merged result whose key is larger than that of some kept result is itself kept: the kept results are the top of the ranking |
| `WikiSearch.RankedOrigin` | WikiSearch.py:21-46 | every kept result is a hit of the response for its own `lang` |
| `WikiSearch.JpBeforeEn` | WikiSearch.py:43 | sorting on `lang`, every `jp` result is printed before every `en` result, whatever the sizes |
| `WikiSearch.Search` | WikiSearch.py:48-50 | one printed line per kept result, in order; for a non-negative limit, `min(results_limit, total hits)` lines |
| `WikiSearch.SizeExample` | WikiSearch.py:5-50 | with an `en` hit of size 5000 and a `jp` hit of size 8000, a limit of 2 and sort on size, the output is the `jp` line, then the `en` line |
| `Render.Lines` | WikiSearch.py:49-50 | there is exactly one line per result, and line `i` is the line of result `i` |
| `Render.LineFields` | WikiSearch.py:50 | a line holds the title right after `Title: `, the language at its end, and, between `, Size: ` and `, Language: `, a decimal text that parses back to the size |
| `Decimal.DigitsRoundTrip` | WikiSearch.py:50 | the decimal digits of a natural number read back to that number |
| `Decimal.IntTextRoundTrip` | WikiSearch.py:50 | the size text, including a leading `-` for negative sizes, reads back to the size |

## Left out

- The HTTP request: URL construction, the parameter dictionary, `requests.get` and `.json()` (WikiSearch.py:22-33). Network I/O against a search engine whose ranking is opaque; each response is an input instead. `pages_limit` only enters `Merge.TotalHitsBound`, as an assumption about the API.
- Missing JSON keys, which raise unhandled `KeyError`s. The model reads hits that already have a title and a size.
- Hit values of other JSON types. The model takes `title` to be a string and `size` to be an integer, as the API returns them; other JSON types are not modelled.
- An unknown `sort` string, which raises `KeyError` in `itemgetter`. The sort field is a closed datatype `{Title, Size, Lang}`.
- The `print` side effect (WikiSearch.py:49-50). `Render.Lines` returns the lines instead.
- The demonstration call and the list of suggested changes (WikiSearch.py:53-71). The first is hard-coded input; the second describes behaviour that is not implemented.
- Strings holding lone surrogate code points. Python `str` can hold them, Dafny `char` cannot; every other string compares the same way in both.
- Escaping of `"` inside the query. The source wraps such a query as is, and so does the model; how the search engine reads the result is outside the model.
