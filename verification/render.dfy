/**
 The printed report: one line per result, in list order, of the form
 `Title: <title>, Size: <size>, Language: <lang>`.
 */
module Render {
  import opened Results
  import Decimal

  const TitleLabel := "Title: "
  const SizeLabel := ", Size: "
  const LangLabel := ", Language: "

  /** The line printed for one result. */
  function Line(r: SearchResult): string
  {
    TitleLabel + r.title + SizeLabel + Decimal.IntText(r.size) + LangLabel + r.lang
  }

  /** The lines printed for a list of results. */
  function Lines(rs: seq<SearchResult>): (out: seq<string>)
    ensures |out| == |rs|
    ensures forall i :: 0 <= i < |rs| ==> out[i] == Line(rs[i])
  {
    if |rs| == 0 then [] else [Line(rs[0])] + Lines(rs[1..])
  }

  /**
   Each field of a result can be read back from its line at known positions:
   the title right after `Title: `, the language at the end, and between the
   two labels the decimal size, which parses back to the size itself.
   */
  lemma LineFields(r: SearchResult)
    ensures var l := Line(r);
      var sizeStart := |TitleLabel| + |r.title| + |SizeLabel|;
      var langStart := |l| - |r.lang|;
      && sizeStart <= langStart - |LangLabel|
      && l[..|TitleLabel|] == TitleLabel
      && l[|TitleLabel|..|TitleLabel| + |r.title|] == r.title
      && l[|TitleLabel| + |r.title|..sizeStart] == SizeLabel
      && Decimal.ParseInt(l[sizeStart..langStart - |LangLabel|]) == r.size
      && l[langStart - |LangLabel|..langStart] == LangLabel
      && l[langStart..] == r.lang
  {
    var text := Decimal.IntText(r.size);
    var l := Line(r);
    var sizeStart := |TitleLabel| + |r.title| + |SizeLabel|;
    assert l == TitleLabel + r.title + SizeLabel + text + LangLabel + r.lang;
    assert l[sizeStart..sizeStart + |text|] == text;
    Decimal.IntTextRoundTrip(r.size);
  }
}
