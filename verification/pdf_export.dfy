/**
 * The text logic of the strategy page in frontend/src/StrategyGenerator.jsx:
 * keyword parsing before the request, and the PDF export, which inserts a
 * header, recolours and patches the diagram markup, names the file and
 * removes the header again once saving succeeds.
 */
module PdfExport {
  import opened Wrappers
  import opened Text
  import opened ArabicText
  import opened FixColors
  import opened StrategyRequest

  // ---------------------------------------------------------------------------
  // Keyword parsing: `keywords.split(',').map(k => k.trim()).filter(k => k)`,
  // the map being `StripAll(JsSpace, _)` and the filter `DropEmpty`
  // ---------------------------------------------------------------------------

  /** The keyword list the form sends for the comma-separated input `s`. */
  function ParseKeywords(s: string): seq<string> {
    DropEmpty(StripAll(JsSpace, SplitWhere(s, {','})))
  }

  /** Trimming only removes characters. */
  lemma StripCommaFree(p: string)
    requires ',' !in p
    ensures ',' !in Strip(JsSpace, p)
  {
    StripIsSlice(JsSpace, p);
  }

  /** Every keyword is non-empty, trimmed and free of commas. */
  lemma ParseKeywordsItems(s: string)
    ensures var r := ParseKeywords(s);
      forall j :: 0 <= j < |r| ==> r[j] != [] && IsStripped(JsSpace, r[j]) && ',' !in r[j]
  {
    var pieces := SplitWhere(s, {','});
    var trimmed := StripAll(JsSpace, pieces);
    forall m | 0 <= m < |trimmed|
      ensures IsStripped(JsSpace, trimmed[m]) && ',' !in trimmed[m]
    {
      assert pieces[m] in pieces;
      StripCommaFree(pieces[m]);
    }
  }

  /** Keywords that are already non-empty, trimmed and comma-free come back unchanged from their comma join. */
  lemma ParseKeywordsJoin(ks: seq<string>)
    requires forall j :: 0 <= j < |ks| ==> ks[j] != [] && IsStripped(JsSpace, ks[j]) && ',' !in ks[j]
    ensures ParseKeywords(Join(ks, ",")) == ks
  {
    if ks == [] {
      assert SplitWhere([], {','}) == [[]];
    } else {
      SplitJoin(ks, ',');
      StripAllStripped(JsSpace, ks);
    }
  }

  /** Parsing the comma join of parsed keywords gives the same keywords. */
  lemma ParseKeywordsStable(s: string)
    ensures ParseKeywords(Join(ParseKeywords(s), ",")) == ParseKeywords(s)
  {
    ParseKeywordsItems(s);
    ParseKeywordsJoin(ParseKeywords(s));
  }

  // ---------------------------------------------------------------------------
  // The export's markup patch: `svgContent.replace('<rect', …)`
  // ---------------------------------------------------------------------------

  const RectTag: string := "<rect"

  const RectAttributes: string := " fill=\"white\" stroke=\"black\" stroke-width=\"1\""

  /** A string pattern in `replace` is literal and replaces the first occurrence only. */
  function InjectRect(svg: string): (r: string)
    ensures !Contains(svg, RectTag) ==> r == svg
    ensures Contains(svg, RectTag) ==> |r| == |svg| + |RectAttributes|
  {
    match IndexOf(svg, RectTag)
    case None => svg
    case Some(i) =>
      IndexFromIsFirst(svg, RectTag, 0);
      svg[..i + |RectTag|] + RectAttributes + svg[i + |RectTag|..]
  }

  /**
   * The attributes land right after the first `<rect`; cutting them out
   * gives back the input, and that `<rect` is still the first one.
   */
  lemma InjectRectAt(svg: string)
    requires Contains(svg, RectTag)
    ensures var e := IndexOf(svg, RectTag).value + |RectTag|; var r := InjectRect(svg);
      e + |RectAttributes| <= |r|
      && r[..e] == svg[..e]
      && r[e..e + |RectAttributes|] == RectAttributes
      && r[e + |RectAttributes|..] == svg[e..]
      && IndexOf(r, RectTag) == IndexOf(svg, RectTag)
  {
    var i := IndexOf(svg, RectTag).value;
    var e := i + |RectTag|;
    var r := InjectRect(svg);
    IndexFromIsFirst(svg, RectTag, 0);
    assert r[..e] == svg[..e];
    assert r[e..e + |RectAttributes|] == RectAttributes;
    assert r[e + |RectAttributes|..] == svg[e..];
    ContainsPrefix(svg, RectTag, e);
    IndexOfPrefix(svg, RectTag, e);
    IndexOfPrefix(r, RectTag, e);
  }

  /** The markup written back into the diagram container before rendering the PDF. */
  function PrintMarkup(svg: string): string {
    InjectRect(FixColors.FixColors(Print, svg))
  }

  // ---------------------------------------------------------------------------
  // Header and filename
  // ---------------------------------------------------------------------------

  /** `value?.name.xx` interpolated into a template: a missing type shows as `undefined`. */
  function ShownName(info: Option<TypeInfo>, lang: Language): string {
    match info
    case None => "undefined"
    case Some(t) => if lang == Arabic then t.nameAr else t.nameEn
  }

  /** The heading text of the inserted header (the creation date is not modelled). */
  function HeaderTitle(lang: Language, info: Option<TypeInfo>, industry: string): string {
    if lang == Arabic then ShownName(info, lang) + " استراتيجية لـ " + industry
    else ShownName(info, lang) + " Strategy for " + industry
  }

  /** The `filename` option handed to the PDF writer. */
  function PdfFilename(lang: Language, info: Option<TypeInfo>, industry: string): (r: string)
    ensures |r| > 4 && r[|r| - 4..] == ".pdf"
  {
    (if lang == Arabic then "استراتيجية_" else "Strategy_") + ShownName(info, lang) + "_" + industry + ".pdf"
  }

  /**
   * For a known type the filename carries the type's name in the page
   * language, and it determines the industry.
   */
  lemma PdfFilenameOfType(t: StrategyType, lang: Language, industry: string, other: string)
    ensures PdfFilename(lang, Some(InfoOf(t)), industry)
      == (if lang == Arabic then "استراتيجية_" else "Strategy_") + NameIn(t, lang) + "_" + industry + ".pdf"
    ensures PdfFilename(lang, Some(InfoOf(t)), industry) == PdfFilename(lang, Some(InfoOf(t)), other) ==> industry == other
  {
    var f := PdfFilename(lang, Some(InfoOf(t)), industry);
    var g := PdfFilename(lang, Some(InfoOf(t)), other);
    var head := (if lang == Arabic then "استراتيجية_" else "Strategy_") + NameIn(t, lang) + "_";
    assert f == head + industry + ".pdf";
    assert g == head + other + ".pdf";
    if f == g {
      assert industry == f[|head|..|f| - 4];
      assert other == g[|head|..|g| - 4];
    }
  }

  /** The general type, the Technology industry and English give `Strategy_General_Technology.pdf`. */
  lemma PdfFilenameExample()
    ensures PdfFilename(English, Some(InfoOf(General)), "Technology") == "Strategy_General_Technology.pdf"
  {
    PdfFilenameOfType(General, English, "Technology", "Technology");
  }

  // ---------------------------------------------------------------------------
  // `generatePDF`
  // ---------------------------------------------------------------------------

  /** A DOM element, compared by identity. */
  class DomNode {
    const text: string

    constructor(text: string)
      ensures this.text == text
    {
      this.text := text;
    }
  }

  /** `parent.removeChild(node)`: the children without the first occurrence of `node`. */
  function Without(children: seq<DomNode>, node: DomNode): (r: seq<DomNode>)
    ensures node in children ==> |r| == |children| - 1
    ensures node !in children ==> r == children
  {
    if children == [] then []
    else if children[0] == node then children[1..]
    else [children[0]] + Without(children[1..], node)
  }

  /** Removing the child at `i`, the first occurrence of `node`, from `children` gives `r`. */
  predicate RemovedFirstAt(children: seq<DomNode>, node: DomNode, i: nat, r: seq<DomNode>) {
    i < |children| && children[i] == node && (forall k :: 0 <= k < i ==> children[k] != node)
    && r == children[..i] + children[i + 1..]
  }

  /**
   * `Without` removes exactly the first occurrence of a child and keeps the
   * others in their order.
   */
  lemma {:induction false} WithoutRemovesFirst(children: seq<DomNode>, node: DomNode)
    requires node in children
    ensures exists i: nat :: RemovedFirstAt(children, node, i, Without(children, node))
  {
    if children[0] == node {
      assert RemovedFirstAt(children, node, 0, Without(children, node));
    } else {
      var rest := children[1..];
      WithoutRemovesFirst(rest, node);
      var i: nat :| RemovedFirstAt(rest, node, i, Without(rest, node));
      assert children[..i + 1] == [children[0]] + rest[..i];
      assert children[i + 2..] == rest[i + 1..];
      assert Without(children, node) == [children[0]] + Without(rest, node);
      assert RemovedFirstAt(children, node, i + 1, Without(children, node));
    }
  }

  /** The page state `generatePDF` reads and changes. */
  class StrategyPage {
    /** The children of the `strategy-content` element. */
    var children: seq<DomNode>
    /** The serialized diagram inside the `.mermaid-svg` container, if one is rendered. */
    var diagramMarkup: Option<string>
    var hasResponse: bool
    var loading: bool
    var error: Option<string>

    constructor(children: seq<DomNode>, diagramMarkup: Option<string>, hasResponse: bool)
      ensures this.children == children && this.diagramMarkup == diagramMarkup
      ensures this.hasResponse == hasResponse && !loading && error == None
    {
      this.children := children;
      this.diagramMarkup := diagramMarkup;
      this.hasResponse := hasResponse;
      loading := false;
      error := None;
    }

    method RemoveChild(node: DomNode)
      modifies this
      ensures children == Without(old(children), node)
      ensures diagramMarkup == old(diagramMarkup) && hasResponse == old(hasResponse)
      ensures loading == old(loading) && error == old(error)
    {
      children := Without(children, node);
    }

    /**
     * `generatePDF`, with the outcome of `save()` as `saveOk`. Without a
     * response nothing happens. Otherwise a header is put first, the diagram
     * markup is recoloured for print and patched, and the header is removed
     * again only when saving succeeds; on failure it stays and an error is
     * shown. The recoloured markup is never restored.
     */
    method GeneratePdf(lang: Language, info: Option<TypeInfo>, industry: string, saveOk: bool)
      returns (header: DomNode?, filename: Option<string>)
      modifies this
      ensures !old(hasResponse) ==>
        header == null && filename == None
        && children == old(children) && diagramMarkup == old(diagramMarkup)
        && loading == old(loading) && error == old(error)
      ensures old(hasResponse) ==>
        header != null && fresh(header) && header.text == HeaderTitle(lang, info, industry)
        && filename == Some(PdfFilename(lang, info, industry))
        && children == (if saveOk then old(children) else [header] + old(children))
        && diagramMarkup == (if old(diagramMarkup).Some? then Some(PrintMarkup(old(diagramMarkup).value)) else None)
        && !loading
        && error == (if saveOk then old(error) else Some("Error occurred while generating PDF"))
      ensures hasResponse == old(hasResponse)
    {
      if !hasResponse {
        return null, None;
      }
      loading := true;
      var title := new DomNode(HeaderTitle(lang, info, industry));
      header := title;
      children := [title] + children;
      if diagramMarkup.Some? {
        var svg := FixColors.FixColors(Print, diagramMarkup.value);
        svg := InjectRect(svg);
        diagramMarkup := Some(svg);
      }
      filename := Some(PdfFilename(lang, info, industry));
      if saveOk {
        RemoveChild(title);
      } else {
        error := Some("Error occurred while generating PDF");
      }
      loading := false;
    }
  }

  /** Each failed export leaves one more header in front of the content; a successful one leaves none. */
  lemma HeadersAccumulate(children: seq<DomNode>, header: DomNode, saveOk: bool)
    requires header !in children
    ensures var after := if saveOk then children else [header] + children;
      |after| == |children| + (if saveOk then 0 else 1)
      && Without(after, header) == children
  {
  }
}
