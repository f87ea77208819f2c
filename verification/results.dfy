/**
 The records the search pipeline works on: a hit as the search API returns
 it, a result tagged with the language edition it came from, and the closed
 set of fields a result list can be sorted by.
 */
module Results {
  import Lex

  /** One entry of an API response's `query.search` list: only `title` and `size` are read. */
  datatype Hit = Hit(title: string, size: int)

  /** One combined result: the hit's title and size plus the locale code that produced it. */
  datatype SearchResult = SearchResult(title: string, size: int, lang: string)

  /** The `sort` argument: which result field orders the combined list. */
  datatype SortField = Title | Size | Lang

  /** The result built for hit `h` of the response for locale `lang`. */
  function Tagged(h: Hit, lang: string): SearchResult
  {
    SearchResult(h.title, h.size, lang)
  }

  /** The key of `a` under field `f` is strictly smaller than that of `b`. */
  predicate KeyLess(f: SortField, a: SearchResult, b: SearchResult)
  {
    match f
    case Title => Lex.Less(a.title, b.title)
    case Size => a.size < b.size
    case Lang => Lex.Less(a.lang, b.lang)
  }

  /** `a` and `b` have the same key under field `f`. */
  predicate SameKey(f: SortField, a: SearchResult, b: SearchResult)
  {
    match f
    case Title => a.title == b.title
    case Size => a.size == b.size
    case Lang => a.lang == b.lang
  }

  /** Exactly one of: smaller key, same key, larger key. */
  lemma KeyTrichotomy(f: SortField, a: SearchResult, b: SearchResult)
    ensures KeyLess(f, a, b) || SameKey(f, a, b) || KeyLess(f, b, a)
    ensures KeyLess(f, a, b) ==> !SameKey(f, a, b) && !KeyLess(f, b, a)
  {
    match f
    case Title =>
      Lex.Total(a.title, b.title);
      Lex.Asymmetric(a.title, b.title);
      Lex.Irreflexive(a.title);
    case Size =>
    case Lang =>
      Lex.Total(a.lang, b.lang);
      Lex.Asymmetric(a.lang, b.lang);
      Lex.Irreflexive(a.lang);
  }

  /** A smaller key stays smaller through any chain of smaller keys. */
  lemma KeyLessTransitive(f: SortField, a: SearchResult, b: SearchResult, c: SearchResult)
    requires KeyLess(f, a, b) && KeyLess(f, b, c)
    ensures KeyLess(f, a, c)
  {
    match f
    case Title => Lex.Transitive(a.title, b.title, c.title);
    case Size =>
    case Lang => Lex.Transitive(a.lang, b.lang, c.lang);
  }

  /** "Key at least as large" is transitive: the relation a descending list keeps between neighbours. */
  lemma NotLessTransitive(f: SortField, a: SearchResult, b: SearchResult, c: SearchResult)
    requires !KeyLess(f, a, b) && !KeyLess(f, b, c)
    ensures !KeyLess(f, a, c)
  {
    if KeyLess(f, a, c) {
      KeyTrichotomy(f, b, c);
      if KeyLess(f, c, b) {
        KeyLessTransitive(f, a, c, b);
      }
      assert false;
    }
  }

  /** Results with the same key compare alike against any third result. */
  lemma SameKeyCompares(f: SortField, a: SearchResult, b: SearchResult, c: SearchResult)
    requires SameKey(f, a, b)
    ensures KeyLess(f, a, c) == KeyLess(f, b, c)
    ensures KeyLess(f, c, a) == KeyLess(f, c, b)
  {
  }
}
