/**
 * The pure parts of the `/generate-strategy` endpoint of backend/main.py:
 * the strategy-type table, request validation and language detection, and
 * the splitting of the model's reply into a strategy paragraph and KPIs.
 * The model's reply is an input here; the call that produces it is not
 * modelled.
 */
module StrategyRequest {
  import opened Wrappers
  import opened Text
  import opened ArabicText
  import opened WorkflowComponents
  import opened WorkflowDiagram

  // ---------------------------------------------------------------------------
  // The strategy-type table
  // ---------------------------------------------------------------------------

  datatype StrategyType = Tax | Employment | Marketing | Finance | General

  /** The display name and the extra keywords of a strategy type, per language. */
  datatype TypeInfo = TypeInfo(nameAr: string, nameEn: string, keywordsAr: seq<string>, keywordsEn: seq<string>)

  function InfoOf(t: StrategyType): TypeInfo {
    match t
    case Tax => TypeInfo("الضرائب", "Tax",
      ["ضريبة", "إقرار ضريبي", "تخفيض ضريبي"], ["tax", "tax filing", "tax reduction"])
    case Employment => TypeInfo("التوظيف", "Employment",
      ["توظيف", "توظيف العمالة", "سياسة التوظيف"], ["employment", "hiring", "recruitment policy"])
    case Marketing => TypeInfo("التسويق", "Marketing",
      ["تسويق", "حملة تسويقية", "استراتيجية تسويق"], ["marketing", "campaign", "marketing strategy"])
    case Finance => TypeInfo("التمويل", "Finance",
      ["تمويل", "إدارة مالية", "استثمار"], ["finance", "financial management", "investment"])
    case General => TypeInfo("عام", "General",
      ["استراتيجية", "خطة عمل", "تطوير أعمال"], ["strategy", "business plan", "business development"])
  }

  /** `strategy_info["name"]["ar" if Arabic else "en"]`. */
  function NameIn(t: StrategyType, lang: Language): string {
    if lang == Arabic then InfoOf(t).nameAr else InfoOf(t).nameEn
  }

  /** `strategy_info["keywords"]["ar" if Arabic else "en"]`. */
  function TypeKeywords(t: StrategyType, lang: Language): seq<string> {
    if lang == Arabic then InfoOf(t).keywordsAr else InfoOf(t).keywordsEn
  }

  /** Every type has three keywords per language, and its name is in the language asked for. */
  lemma TypeTableShape(t: StrategyType, lang: Language)
    ensures |TypeKeywords(t, lang)| == 3
    ensures IsArabic(NameIn(t, lang)) <==> lang == Arabic
  {
    var n := NameIn(t, lang);
    if lang == Arabic {
      assert IsArabicChar(n[0]);
    } else {
      forall i | 0 <= i < |n|
        ensures !IsArabicChar(n[i])
      {
        assert 'A' <= n[i] <= 'z';
      }
    }
  }

  // ---------------------------------------------------------------------------
  // Validation and language detection
  // ---------------------------------------------------------------------------

  /** The values of `AVAILABLE_MODELS`, in declaration order. */
  const AvailableModels: seq<string> := ["llama3-70b-8192", "llama3-8b-8192", "gemma-7b-it"]

  /** `MODEL = AVAILABLE_MODELS["llama3-70b"]`. */
  const DefaultModel: string := "llama3-70b-8192"

  datatype HttpError = HttpError(status: nat, detail: string)

  /** The fields of `StrategyRequest` that validation reads; `preferred_model` may be absent. */
  datatype Request = Request(
    strategyType: StrategyType, stage: string, industry: string,
    keywords: seq<string>, preferredModel: Option<string>)

  /** What the endpoint knows once the request is accepted. */
  datatype Accepted = Accepted(
    model: string, language: Language, enhancedKeywords: seq<string>, strategyName: string)

  /** `combined_input = request.industry + " " + " ".join(request.keywords)`. */
  function CombinedInput(r: Request): string {
    r.industry + " " + Join(r.keywords, " ")
  }

  /** The three checks of `generate_strategy` in their order, then the derived settings. */
  function Validate(r: Request): Result<Accepted, HttpError> {
    if r.stage == [] || r.industry == [] then
      Err(HttpError(400, "Stage and industry are required"))
    else if |r.keywords| > 10 then
      Err(HttpError(400, "Maximum 10 keywords allowed"))
    else if r.preferredModel.Some? && r.preferredModel.value != [] && r.preferredModel.value !in AvailableModels then
      Err(HttpError(400, "Model not available. Options: " + ModelOptions))
    else
      Ok(Accept(r))
  }

  /** `", ".join(AVAILABLE_MODELS.values())`. */
  const ModelOptions: string := Join(AvailableModels, ", ")

  /** The settings of an accepted request: model, reply language, keywords and type name. */
  function Accept(r: Request): Accepted {
    var model := if r.preferredModel.Some? && r.preferredModel.value != [] then r.preferredModel.value else DefaultModel;
    var lang := LanguageOf(CombinedInput(r));
    Accepted(model, lang, r.keywords + TypeKeywords(r.strategyType, lang), NameIn(r.strategyType, lang))
  }

  /**
   * Validation rejects exactly the empty stage or industry, more than ten
   * keywords, and an unknown non-empty model, each with status 400 and in
   * that order; otherwise it accepts.
   */
  lemma ValidateErrors(r: Request)
    ensures Validate(r).Err? <==>
      r.stage == [] || r.industry == [] || |r.keywords| > 10
      || (r.preferredModel.Some? && r.preferredModel.value != [] && r.preferredModel.value !in AvailableModels)
    ensures Validate(r).Err? ==> Validate(r).error.status == 400
    ensures (r.stage == [] || r.industry == []) ==> Validate(r) == Err(HttpError(400, "Stage and industry are required"))
    ensures r.stage != [] && r.industry != [] && |r.keywords| > 10 ==>
      Validate(r) == Err(HttpError(400, "Maximum 10 keywords allowed"))
    ensures Validate(r).Err? && r.stage != [] && r.industry != [] && |r.keywords| <= 10 ==>
      Validate(r) == Err(HttpError(400, "Model not available. Options: " + ModelOptions))
  {
  }

  /** The option list in the error message names the three models in declaration order. */
  lemma ModelOptionsText()
    ensures ModelOptions == AvailableModels[0] + ", " + AvailableModels[1] + ", " + AvailableModels[2]
  {
    var tail := AvailableModels[1..];
    assert Join(tail[1..], ", ") == AvailableModels[2];
    assert Join(tail, ", ") == AvailableModels[1] + ", " + AvailableModels[2];
  }

  /**
   * An accepted request runs on one of the available models: the preferred
   * one when given and non-empty, the default otherwise. The reply language
   * is detected from the industry and keywords. The keywords are the user's
   * followed by the three of its type in that language, so at most thirteen.
   */
  lemma ValidateAccepts(r: Request)
    requires Validate(r).Ok?
    ensures var a := Validate(r).value;
      a.model in AvailableModels
      && (r.preferredModel.None? || r.preferredModel.value == [] ==> a.model == DefaultModel)
      && (r.preferredModel.Some? && r.preferredModel.value != [] ==> a.model == r.preferredModel.value)
      && a.language == LanguageOf(CombinedInput(r))
      && a.enhancedKeywords == r.keywords + TypeKeywords(r.strategyType, a.language)
      && a.enhancedKeywords[..|r.keywords|] == r.keywords
      && |a.enhancedKeywords| <= 13
      && a.strategyName == NameIn(r.strategyType, a.language)
  {
    var a := Validate(r).value;
    TypeTableShape(r.strategyType, a.language);
    assert a.enhancedKeywords[..|r.keywords|] == r.keywords;
  }

  /** A join with a non-Arabic glue holds an Arabic character exactly when some part does. */
  lemma {:induction false} JoinIsArabic(parts: seq<string>, glue: string)
    requires !IsArabic(glue)
    ensures IsArabic(Join(parts, glue)) <==> exists j :: 0 <= j < |parts| && IsArabic(parts[j])
    decreases |parts|
  {
    if |parts| >= 2 {
      JoinIsArabic(parts[1..], glue);
      AppendIsArabic(parts[0], glue);
      AppendIsArabic(parts[0] + glue, Join(parts[1..], glue));
      assert forall j :: 1 <= j < |parts| ==> parts[j] == parts[1..][j - 1];
      if IsArabic(Join(parts[1..], glue)) {
        var j :| 0 <= j < |parts[1..]| && IsArabic(parts[1..][j]);
        assert IsArabic(parts[j + 1]);
      }
    }
  }

  lemma AppendIsArabic(a: string, b: string)
    ensures IsArabic(a + b) <==> IsArabic(a) || IsArabic(b)
  {
    if IsArabic(a + b) {
      var i :| 0 <= i < |a + b| && IsArabicChar((a + b)[i]);
      if i >= |a| {
        assert b[i - |a|] == (a + b)[i];
      }
    }
    if IsArabic(b) {
      var i :| 0 <= i < |b| && IsArabicChar(b[i]);
      assert (a + b)[|a| + i] == b[i];
    }
    if IsArabic(a) {
      var i :| 0 <= i < |a| && IsArabicChar(a[i]);
      assert (a + b)[i] == a[i];
    }
  }

  /** The reply language is Arabic exactly when the industry or some keyword holds an Arabic character. */
  lemma LanguageFromInput(r: Request)
    ensures LanguageOf(CombinedInput(r)) == Arabic <==>
      IsArabic(r.industry) || exists j :: 0 <= j < |r.keywords| && IsArabic(r.keywords[j])
  {
    assert !IsArabicChar(" "[0]);
    JoinIsArabic(r.keywords, " ");
    AppendIsArabic(r.industry, " ");
    AppendIsArabic(r.industry + " ", Join(r.keywords, " "));
  }

  // ---------------------------------------------------------------------------
  // Python's `str.split(sep)` with a multi-character separator
  // ---------------------------------------------------------------------------

  /** `s.split(sep)`: the pieces between the non-overlapping occurrences of `sep`, found left to right. */
  function PySplit(s: string, sep: string): (r: seq<string>)
    requires sep != []
    ensures |r| >= 1
    ensures |r| >= 2 <==> Contains(s, sep)
    decreases |s|
  {
    match IndexOf(s, sep)
    case None => [s]
    case Some(i) =>
      IndexOfOccurs(s, sep);
      [s[..i]] + PySplit(s[i + |sep|..], sep)
  }

  /** Joining the pieces with the separator gives back the input. */
  lemma {:induction false} PySplitJoin(s: string, sep: string)
    requires sep != []
    ensures Join(PySplit(s, sep), sep) == s
    decreases |s|
  {
    match IndexOf(s, sep)
    case None =>
    case Some(i) =>
      IndexOfOccurs(s, sep);
      var rest := s[i + |sep|..];
      PySplitJoin(rest, sep);
      var parts := PySplit(s, sep);
      assert parts == [s[..i]] + PySplit(rest, sep);
      assert parts[1..] == PySplit(rest, sep);
      assert Join(parts, sep) == s[..i] + sep + rest;
      assert s == s[..i] + sep + rest;
  }

  /** No piece contains the separator, so the split is the finest one. */
  lemma {:induction false} PySplitPiecesFree(s: string, sep: string)
    requires sep != []
    ensures forall p :: p in PySplit(s, sep) ==> !Contains(p, sep)
    decreases |s|
  {
    IndexFromIsFirst(s, sep, 0);
    match IndexOf(s, sep)
    case None =>
    case Some(i) =>
      var rest := s[i + |sep|..];
      PySplitPiecesFree(rest, sep);
      ContainsPrefix(s, sep, i);
      assert !Contains(s[..i], sep);
      assert PySplit(s, sep) == [s[..i]] + PySplit(rest, sep);
  }

  /** The first piece is everything before the first occurrence. */
  lemma PySplitFirst(s: string, sep: string)
    requires sep != [] && Contains(s, sep)
    ensures PySplit(s, sep)[0] == s[..IndexOf(s, sep).value]
  {
  }

  /**
   * The first piece is a prefix of the input free of the separator: it runs
   * up to the first occurrence, or to the end when there is none.
   */
  lemma PySplitHead(s: string, sep: string)
    requires sep != []
    ensures var p := PySplit(s, sep)[0];
      |p| <= |s| && p == s[..|p|] && !Contains(p, sep)
      && p == Between(s, sep, 0, |s|)
    ensures var p := PySplit(s, sep)[0]; |p| == |s| || OccursAt(s, sep, |p|)
  {
    PySplitPiecesFree(s, sep);
    assert PySplit(s, sep)[0] in PySplit(s, sep);
    PieceEndWhole(s, sep, 0);
    assert s[0..|s|] == s;
    BetweenIs(s, sep, 0, |s|, PySplit(s, sep)[0]);
  }

  /**
   * The second piece starts right after the first occurrence and runs up to
   * the next occurrence after it, or to the end when there is none.
   */
  lemma PySplitSecond(s: string, sep: string)
    requires sep != [] && Contains(s, sep)
    ensures var i := IndexOf(s, sep).value; var p := PySplit(s, sep)[1];
      i + |sep| + |p| <= |s| && p == s[i + |sep|..i + |sep| + |p|] && !Contains(p, sep)
      && p == Between(s, sep, i + |sep|, |s|)
    ensures var i := IndexOf(s, sep).value; var p := PySplit(s, sep)[1];
      i + |sep| + |p| == |s| || OccursAt(s, sep, i + |sep| + |p|)
  {
    var i := IndexOf(s, sep).value;
    var p := PySplit(s, sep)[1];
    assert i + |sep| <= |s| && p == Between(s, sep, i + |sep|, |s|) by { PySplitSecondBetween(s, sep); }
    assert !Contains(p, sep) by {
      PySplitPiecesFree(s, sep);
      assert p in PySplit(s, sep);
    }
    BetweenIs(s, sep, i + |sep|, |s|, p);
  }

  lemma PySplitSecondBetween(s: string, sep: string)
    requires sep != [] && Contains(s, sep)
    ensures IndexOf(s, sep).value + |sep| <= |s|
    ensures PySplit(s, sep)[1] == Between(s, sep, IndexOf(s, sep).value + |sep|, |s|)
  {
    var a := IndexOf(s, sep).value + |sep|;
    IndexOfOccurs(s, sep);
    var rest := s[a..];
    assert PySplit(s, sep)[1] == PySplit(rest, sep)[0];
    assert PySplit(rest, sep)[0] == Between(rest, sep, 0, |rest|) by {
      PySplitHead(rest, sep);
    }
    BetweenSuffix(s, sep, a);
  }

  // ---------------------------------------------------------------------------
  // Splitting the reply
  // ---------------------------------------------------------------------------

  /** The section headers the prompt asks for, per language. */
  function StrategyHeader(lang: Language): string {
    if lang == Arabic then "### الاستراتيجية" else "### Strategy"
  }

  function KpiHeader(lang: Language): string {
    if lang == Arabic then "### مؤشرات الأداء الرئيسية" else "### KPIs"
  }

  datatype Reply = Reply(strategy: string, kpis: seq<string>)

  /** The test of the comprehension: `kpi.strip()` is not empty. */
  predicate NotBlank(line: string) {
    Strip(PySpace, line) != []
  }

  /** The text a kept line contributes: `kpi.strip("- ").strip()`. */
  function KpiText(line: string): (r: string)
    ensures IsStripped(PySpace, r)
  {
    Strip(PySpace, Strip(DashOrSpace, line))
  }

  /** `[kpi.strip("- ").strip() for kpi in lines if kpi.strip()]`. */
  function KpiLines(lines: seq<string>): (r: seq<string>)
    ensures |r| <= |lines|
    ensures forall j :: 0 <= j < |r| ==> IsStripped(PySpace, r[j])
  {
    Map(KpiText, Filter(NotBlank, lines))
  }

  /** One line gives a KPI, stripped of dashes and spaces and then of whitespace, exactly when it is not blank. */
  lemma KpiLinesOne(line: string)
    ensures KpiLines([line]) ==
      if Strip(PySpace, line) == [] then [] else [Strip(PySpace, Strip(DashOrSpace, line))]
  {
    FilterOne(NotBlank, line);
  }

  /** The KPI lines keep their order: the lines of a concatenation are the lines of its parts. */
  lemma KpiLinesAppend(a: seq<string>, b: seq<string>)
    ensures KpiLines(a + b) == KpiLines(a) + KpiLines(b)
  {
    FilterAppend(NotBlank, a, b);
    MapAppend(KpiText, Filter(NotBlank, a), Filter(NotBlank, b));
  }

  /** There is one KPI per non-blank line. */
  lemma {:induction false} KpiLinesLength(lines: seq<string>)
    ensures |KpiLines(lines)| == |NonBlank(lines)|
  {
    if lines != [] {
      KpiLinesLength(lines[1..]);
      assert lines == [lines[0]] + lines[1..];
      NonBlankAppend([lines[0]], lines[1..]);
      NonBlankOne(lines[0]);
      FilterAppend(NotBlank, [lines[0]], lines[1..]);
      FilterOne(NotBlank, lines[0]);
    }
  }

  /** `items[:3]`. */
  function TakeThree(items: seq<string>): (r: seq<string>)
    ensures |r| <= 3 && |r| <= |items| && r == items[..|r|]
    ensures |items| >= 3 ==> |r| == 3
    ensures |items| < 3 ==> r == items
  {
    if |items| <= 3 then items else items[..3]
  }

  /** The KPIs of the KPI section: its first three non-blank lines, each stripped. */
  function KpisOf(kpisPart: string): (r: seq<string>)
    ensures |r| <= 3
    ensures forall j :: 0 <= j < |r| ==> IsStripped(PySpace, r[j])
  {
    TakeThree(KpiLines(SplitWhere(Strip(PySpace, kpisPart), {'\n'})))
  }

  /**
   * The KPIs are the first of the KPI lines of the section: three of them,
   * or all when fewer than three lines are non-blank.
   */
  lemma KpisOfLines(kpisPart: string)
    ensures var lines := SplitWhere(Strip(PySpace, kpisPart), {'\n'}); var r := KpisOf(kpisPart);
      && |r| == (if |NonBlank(lines)| < 3 then |NonBlank(lines)| else 3)
      && r == KpiLines(lines)[..|r|]
  {
    KpiLinesLength(SplitWhere(Strip(PySpace, kpisPart), {'\n'}));
  }

  /** The three KPIs used when the reply lacks either header. */
  function FallbackKpis(lang: Language, name: string): (r: seq<string>)
    ensures |r| == 3
  {
    if lang == Arabic then [
      "معدل رضا العملاء في " + name + ": يتم قياسه من خلال استطلاعات الرأي",
      "معدل تحسين الأداء في " + name + ": يتم قياسه بتتبع المقاييس الرئيسية",
      "معدل توفير التكاليف في " + name + ": يتم قياسه بتحليل بيانات التكلفة"]
    else [
      "Customer satisfaction rate in " + Lower(name) + ": Measured through surveys",
      "Performance improvement rate in " + Lower(name) + ": Tracked via key metrics",
      "Cost savings rate in " + Lower(name) + ": Analyzed through cost data"]
  }

  /** `[clean_arabic_text(kpi) for kpi in kpis]`. */
  function CleanAll(kpis: seq<string>): (r: seq<string>)
    ensures |r| == |kpis| && forall j :: 0 <= j < |r| ==> r[j] == CleanArabicText(kpis[j])
  {
    seq(|kpis|, j requires 0 <= j < |kpis| => CleanArabicText(kpis[j]))
  }

  /** The post-processing of both paths: cleaning (Arabic only) and sentence completion. */
  function Finish(lang: Language, strategy: string, kpis: seq<string>): (r: Reply)
    ensures EndsSentence(r.strategy, lang)
    ensures |r.kpis| == |kpis|
    ensures lang == English ==> r.kpis == kpis
  {
    if lang == Arabic then Reply(EnsureCompleteSentence(CleanArabicText(strategy), Arabic), CleanAll(kpis))
    else Reply(EnsureCompleteSentence(strategy, English), kpis)
  }

  /** How the reply splits into its two sections. */
  datatype Sections = Missing | Broken | Found(strategyPart: string, kpisPart: string)

  /**
   * With both headers present: the text before the first KPI header, split
   * on the strategy header, must have a second piece; it is the strategy,
   * and the text after the first KPI header (up to a second one) holds the
   * KPIs.
   */
  function SplitSections(content: string, sh: string, kh: string): Sections
    requires sh != [] && kh != []
  {
    if Contains(content, sh) && Contains(content, kh) then
      var byKpi := PySplit(content, kh);
      var pieces := PySplit(byKpi[0], sh);
      if |pieces| < 2 then Broken else Found(pieces[1], byKpi[1])
    else Missing
  }

  /**
   * The split is missing exactly when a header is absent, and broken exactly
   * when the first strategy header does not end before the first KPI header.
   */
  lemma SplitSectionsCases(content: string, sh: string, kh: string)
    requires sh != [] && kh != []
    ensures SplitSections(content, sh, kh).Missing? <==> !Contains(content, sh) || !Contains(content, kh)
    ensures SplitSections(content, sh, kh).Broken? <==>
      Contains(content, sh) && Contains(content, kh)
      && IndexOf(content, sh).value + |sh| > IndexOf(content, kh).value
  {
    if Contains(content, sh) && Contains(content, kh) {
      var k := IndexOf(content, kh).value;
      IndexFromIsFirst(content, kh, 0);
      IndexFromIsFirst(content, sh, 0);
      PySplitFirst(content, kh);
      ContainsPrefix(content, sh, k);
    }
  }

  /**
   * A successful split takes the strategy from right after the first
   * strategy header up to the first KPI header or the next strategy header
   * that ends before it, whichever comes first, and the KPI text from right
   * after the first KPI header up to the next KPI header or the end of the
   * reply. No header occurrence starts inside a part, even one overlapping
   * the header before it.
   */
  lemma SplitSectionsFound(content: string, sh: string, kh: string)
    requires sh != [] && kh != []
    requires SplitSections(content, sh, kh).Found?
    ensures var f := SplitSections(content, sh, kh);
      var i := IndexOf(content, sh).value; var k := IndexOf(content, kh).value;
      var sp := f.strategyPart; var kp := f.kpisPart;
      i + |sh| + |sp| <= k && sp == content[i + |sh|..i + |sh| + |sp|] && !Contains(sp, sh)
      && k + |kh| + |kp| <= |content| && kp == content[k + |kh|..k + |kh| + |kp|] && !Contains(kp, kh)
    ensures var f := SplitSections(content, sh, kh);
      var i := IndexOf(content, sh).value; var k := IndexOf(content, kh).value;
      var sp := f.strategyPart; var kp := f.kpisPart;
      i + |sh| <= k && sp == Between(content, sh, i + |sh|, k)
      && k + |kh| <= |content| && kp == Between(content, kh, k + |kh|, |content|)
    ensures var f := SplitSections(content, sh, kh);
      var i := IndexOf(content, sh).value; var k := IndexOf(content, kh).value;
      var sp := f.strategyPart; var kp := f.kpisPart;
      && (i + |sh| + |sp| == k || OccursAt(content, sh, i + |sh| + |sp|))
      && (forall j :: i + |sh| <= j < i + |sh| + |sp| && j + |sh| <= k ==> !OccursAt(content, sh, j))
    ensures var f := SplitSections(content, sh, kh);
      var k := IndexOf(content, kh).value; var kp := f.kpisPart;
      && (k + |kh| + |kp| == |content| || OccursAt(content, kh, k + |kh| + |kp|))
      && (forall j :: k + |kh| <= j < k + |kh| + |kp| ==> !OccursAt(content, kh, j))
  {
    var i := IndexOf(content, sh).value;
    var k := IndexOf(content, kh).value;
    FoundStrategyPart(content, sh, kh);
    FoundKpisPart(content, sh, kh);
    var f := SplitSections(content, sh, kh);
    BetweenBoth(content, sh, kh, i, k, f.strategyPart, f.kpisPart);
  }

  /** What `BetweenIs` says about the two parts, apart from how the split found them. */
  lemma BetweenBoth(content: string, sh: string, kh: string, i: nat, k: nat, sp: string, kp: string)
    requires i + |sh| <= k && k + |kh| <= |content|
    requires sp == Between(content, sh, i + |sh|, k) && kp == Between(content, kh, k + |kh|, |content|)
    ensures i + |sh| + |sp| <= k && sp == content[i + |sh|..i + |sh| + |sp|]
    ensures k + |kh| + |kp| <= |content| && kp == content[k + |kh|..k + |kh| + |kp|]
    ensures && (i + |sh| + |sp| == k || OccursAt(content, sh, i + |sh| + |sp|))
      && (forall j :: i + |sh| <= j < i + |sh| + |sp| && j + |sh| <= k ==> !OccursAt(content, sh, j))
    ensures && (k + |kh| + |kp| == |content| || OccursAt(content, kh, k + |kh| + |kp|))
      && (forall j :: k + |kh| <= j < k + |kh| + |kp| ==> !OccursAt(content, kh, j))
  {
    BetweenIs(content, sh, i + |sh|, k, sp);
    BetweenIs(content, kh, k + |kh|, |content|, kp);
  }

  /** When the strategy header ends before the KPI header, the split finds the two pieces `Between` describes. */
  lemma SplitSectionsBetween(content: string, sh: string, kh: string)
    requires sh != [] && kh != []
    ensures (Contains(content, sh) && Contains(content, kh)
      && IndexOf(content, sh).value + |sh| <= IndexOf(content, kh).value) ==>
        var i := IndexOf(content, sh).value; var k := IndexOf(content, kh).value;
        k + |kh| <= |content|
        && SplitSections(content, sh, kh)
           == Found(Between(content, sh, i + |sh|, k), Between(content, kh, k + |kh|, |content|))
  {
    SplitSectionsCases(content, sh, kh);
    if SplitSections(content, sh, kh).Found? {
      FoundStrategyPart(content, sh, kh);
      FoundKpisPart(content, sh, kh);
    }
  }

  lemma FoundStrategyPart(content: string, sh: string, kh: string)
    requires sh != [] && kh != []
    requires SplitSections(content, sh, kh).Found?
    ensures var i := IndexOf(content, sh).value; var k := IndexOf(content, kh).value;
      var sp := SplitSections(content, sh, kh).strategyPart;
      i + |sh| <= k && sp == Between(content, sh, i + |sh|, k) && !Contains(sp, sh)
  {
    var k := IndexOf(content, kh).value;
    PySplitFirst(content, kh);
    assert SplitSections(content, sh, kh).strategyPart == PySplit(content[..k], sh)[1];
    PrefixSecondPiece(content, sh, k, content[..k]);
  }

  /** The second piece of a prefix `t` holding the separator, placed in the whole text. */
  lemma PrefixSecondPiece(content: string, sep: string, k: nat, t: string)
    requires sep != [] && k <= |content| && t == content[..k] && Contains(t, sep)
    ensures Contains(content, sep)
    ensures var i := IndexOf(content, sep).value; var p := PySplit(t, sep)[1];
      i + |sep| <= k && p == Between(content, sep, i + |sep|, k) && !Contains(p, sep)
  {
    IndexOfPrefix(content, sep, k);
    PrefixSecondBetween(content, sep, k, t);
    assert !Contains(PySplit(t, sep)[1], sep) by {
      PySplitPiecesFree(t, sep);
      assert PySplit(t, sep)[1] in PySplit(t, sep);
    }
  }

  lemma PrefixSecondBetween(content: string, sep: string, k: nat, t: string)
    requires sep != [] && k <= |content| && t == content[..k] && Contains(t, sep)
    ensures IndexOf(t, sep).value + |sep| <= k
    ensures PySplit(t, sep)[1] == Between(content, sep, IndexOf(t, sep).value + |sep|, k)
  {
    PySplitSecondBetween(t, sep);
    BetweenPrefix(content, sep, IndexOf(t, sep).value + |sep|, k);
  }

  lemma FoundKpisPart(content: string, sh: string, kh: string)
    requires sh != [] && kh != []
    requires SplitSections(content, sh, kh).Found?
    ensures var k := IndexOf(content, kh).value; var kp := SplitSections(content, sh, kh).kpisPart;
      k + |kh| <= |content| && kp == Between(content, kh, k + |kh|, |content|) && !Contains(kp, kh)
  {
    assert SplitSections(content, sh, kh).kpisPart == PySplit(content, kh)[1];
    PySplitSecond(content, kh);
  }

  /**
   * The reply handling of `generate_strategy`. A broken split is Python's
   * `IndexError`, which the endpoint's `except` turns into status 500.
   */
  function ParseReply(content: string, lang: Language, name: string): Result<Reply, HttpError> {
    match SplitSections(content, StrategyHeader(lang), KpiHeader(lang))
    case Broken => Err(HttpError(500, "System error: list index out of range"))
    case Missing => Ok(Finish(lang, content, FallbackKpis(lang, name)))
    case Found(strategyPart, kpisPart) => Ok(Finish(lang, Strip(PySpace, strategyPart), KpisOf(kpisPart)))
  }

  /**
   * Parsing fails exactly when both headers are present and the first
   * strategy header does not end before the first KPI header.
   */
  lemma ParseReplyFails(content: string, lang: Language, name: string)
    ensures ParseReply(content, lang, name).Err? <==>
      Contains(content, StrategyHeader(lang)) && Contains(content, KpiHeader(lang))
      && IndexOf(content, StrategyHeader(lang)).value + |StrategyHeader(lang)| > IndexOf(content, KpiHeader(lang)).value
    ensures ParseReply(content, lang, name).Err? ==> ParseReply(content, lang, name).error.status == 500
  {
    SplitSectionsCases(content, StrategyHeader(lang), KpiHeader(lang));
  }

  /** At most three KPIs, exactly three from the fallback; the strategy always ends a sentence. */
  lemma ParseReplyShape(content: string, lang: Language, name: string)
    requires ParseReply(content, lang, name).Ok?
    ensures var r := ParseReply(content, lang, name).value;
      |r.kpis| <= 3
      && EndsSentence(r.strategy, lang)
      && (!Contains(content, StrategyHeader(lang)) || !Contains(content, KpiHeader(lang)) ==> |r.kpis| == 3)
      && (lang == English ==> forall j :: 0 <= j < |r.kpis| ==> IsStripped(PySpace, r.kpis[j]))
  {
    var sh := StrategyHeader(lang);
    var kh := KpiHeader(lang);
    SplitSectionsCases(content, sh, kh);
  }

  /** Without both headers the whole reply becomes the strategy, next to the three fallback KPIs. */
  lemma ParseReplyMissing(content: string, lang: Language, name: string)
    requires !Contains(content, StrategyHeader(lang)) || !Contains(content, KpiHeader(lang))
    ensures ParseReply(content, lang, name) == Ok(Finish(lang, content, FallbackKpis(lang, name)))
  {
    SplitSectionsCases(content, StrategyHeader(lang), KpiHeader(lang));
  }

  /**
   * With the strategy header ending before the KPI header, the strategy is
   * the stripped text `sp` between the two headers (cut at a repeated
   * strategy header), and the KPIs come from the text `kp` after the KPI
   * header (cut at a repeated KPI header).
   */
  lemma ParseReplyBetween(content: string, lang: Language, name: string, sp: string, kp: string)
    requires Contains(content, StrategyHeader(lang)) && Contains(content, KpiHeader(lang))
    requires IndexOf(content, StrategyHeader(lang)).value + |StrategyHeader(lang)| <= IndexOf(content, KpiHeader(lang)).value
    requires var sh := StrategyHeader(lang); var kh := KpiHeader(lang);
      var i := IndexOf(content, sh).value; var k := IndexOf(content, kh).value;
      k + |kh| <= |content| && sp == Between(content, sh, i + |sh|, k) && kp == Between(content, kh, k + |kh|, |content|)
    ensures ParseReply(content, lang, name) == Ok(Finish(lang, Strip(PySpace, sp), KpisOf(kp)))
  {
    SplitSectionsBetween(content, StrategyHeader(lang), KpiHeader(lang));
    ParseReplyFound(content, lang, name, sp, kp);
  }

  /** A split into two parts gives the stripped first part and the KPIs of the second. */
  lemma ParseReplyFound(content: string, lang: Language, name: string, sp: string, kp: string)
    requires SplitSections(content, StrategyHeader(lang), KpiHeader(lang)) == Found(sp, kp)
    ensures ParseReply(content, lang, name) == Ok(Finish(lang, Strip(PySpace, sp), KpisOf(kp)))
  {
  }

  /** In the Arabic path the strategy and every KPI are cleaned text. */
  lemma ArabicReplyIsClean(content: string, name: string)
    requires ParseReply(content, Arabic, name).Ok?
    ensures var r := ParseReply(content, Arabic, name).value;
      (forall i :: 0 <= i < |r.strategy| ==> KeptByCleaning(r.strategy[i]))
      && forall j :: 0 <= j < |r.kpis| ==>
           IsStripped(PySpace, r.kpis[j]) && forall i :: 0 <= i < |r.kpis[j]| ==> KeptByCleaning(r.kpis[j][i])
  {
    match SplitSections(content, StrategyHeader(Arabic), KpiHeader(Arabic))
    case Missing => CompletedCleanTextStaysClean(content);
    case Found(strategyPart, _) => CompletedCleanTextStaysClean(Strip(PySpace, strategyPart));
  }

  // ---------------------------------------------------------------------------
  // The endpoint
  // ---------------------------------------------------------------------------

  /** The body of a successful `StrategyResponse`. */
  datatype Response = Response(
    strategy: string, kpis: seq<string>, workflowDiagram: string, modelUsed: string, strategyType: string)

  /**
   * What `generate_strategy` answers for a request, a diagram style and the
   * model's reply `content`: a validation error, the 500 of a malformed
   * reply, or the response built from the parsed reply.
   */
  function ResponseOf(req: Request, style: string, content: string): Result<Response, HttpError> {
    match Validate(req)
    case Err(e) => Err(e)
    case Ok(a) =>
      match ParseReply(content, a.language, a.strategyName)
      case Err(e) => Err(e)
      case Ok(reply) =>
        Ok(Response(reply.strategy, reply.kpis, DiagramOf(reply.strategy, style, a.language), a.model, a.strategyName))
  }

  /** `generate_strategy`, with the model's reply given instead of requested. */
  method GenerateStrategy(req: Request, style: string, content: string) returns (res: Result<Response, HttpError>)
    ensures res == ResponseOf(req, style, content)
  {
    var v := Validate(req);
    if v.Err? {
      return Err(v.error);
    }
    var a := v.value;
    var parsed := ParseReply(content, a.language, a.strategyName);
    if parsed.Err? {
      return Err(parsed.error);
    }
    var reply := parsed.value;
    var diagram := GenerateDynamicWorkflow(reply.strategy, style, a.language);
    res := Ok(Response(reply.strategy, reply.kpis, diagram, a.model, a.strategyName));
  }

  /**
   * A successful response runs on an available model, carries at most three
   * KPIs and a strategy that ends a sentence, and its diagram starts with
   * the requested direction and ends with the styling block.
   */
  lemma ResponseShape(req: Request, style: string, content: string)
    requires ResponseOf(req, style, content).Ok?
    ensures var r := ResponseOf(req, style, content).value;
      var header := "graph " + style + "\n";
      r.modelUsed in AvailableModels
      && |r.kpis| <= 3
      && EndsSentence(r.strategy, Validate(req).value.language)
      && |header| <= |r.workflowDiagram| && r.workflowDiagram[..|header|] == header
      && |StylingBlock| <= |r.workflowDiagram|
      && r.workflowDiagram[|r.workflowDiagram| - |StylingBlock|..] == StylingBlock
  {
    var a := Validate(req).value;
    ValidateAccepts(req);
    ParseReplyShape(content, a.language, a.strategyName);
    var reply := ParseReply(content, a.language, a.strategyName).value;
    DiagramFrame(ComponentsOf(reply.strategy, a.language), LabelsOf(a.language), style);
  }
}
