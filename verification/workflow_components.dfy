/**
 * `extract_workflow_components` of backend/main.py: the strategy paragraph is
 * cut into sentences, each sentence is given to the first phase (research,
 * development, execution, evaluation) one of whose keywords occurs in its
 * lower-cased text, only the first sentence of each phase is kept, every
 * empty phase gets a fallback label, and sentences of no phase are collected,
 * without repeats, as "additional" steps.
 */
module WorkflowComponents {
  import opened Wrappers
  import opened Text
  import opened ArabicText

  datatype Phase = Research | Development | Execution | Evaluation

  /** Position of a phase in the `if`/`elif` chain. */
  function Rank(ph: Phase): nat {
    match ph
    case Research => 0
    case Development => 1
    case Execution => 2
    case Evaluation => 3
  }

  /** The four keyword lists of one language. */
  datatype Vocabulary = Vocabulary(
    research: seq<string>, development: seq<string>, execution: seq<string>, evaluation: seq<string>)

  /** The keyword lists of each language. */
  function VocabularyOf(lang: Language): Vocabulary {
    match lang
    case Arabic =>
      Vocabulary(
        ["تحليل", "دراسة", "بحث", "استكشاف", "جمع", "مراجعة", "تحديد"],
        ["تطوير", "بناء", "تصميم", "خطة", "صياغة", "وضع"],
        ["تنفيذ", "إطلاق", "تطبيق", "بدء", "تشغيل"],
        ["تقييم", "قياس", "مراجعة", "تقييم", "متابعة", "تعليقات"])
    case English =>
      Vocabulary(
        ["analysis", "study", "research", "explore", "gather", "review", "identify"],
        ["develop", "build", "design", "plan", "formulate", "outline"],
        ["implement", "launch", "execute", "apply", "start", "rollout"],
        ["evaluate", "measure", "review", "assess", "monitor", "feedback"])
  }

  function Keywords(ph: Phase, v: Vocabulary): seq<string> {
    match ph
    case Research => v.research
    case Development => v.development
    case Execution => v.execution
    case Evaluation => v.evaluation
  }

  /** The label an empty phase receives. */
  function Fallback(ph: Phase, lang: Language): string {
    match lang
    case Arabic =>
      (match ph
       case Research => "تحليل السوق"
       case Development => "تطوير الخطة"
       case Execution => "مرحلة التنفيذ"
       case Evaluation => "التقييم")
    case English =>
      match ph
      case Research => "Market analysis"
      case Development => "Develop the plan"
      case Execution => "Implementation phase"
      case Evaluation => "Evaluation"
  }

  /**
   * Python's `str.lower()` on one character, as far as keyword matching can
   * see it: ASCII letters and the Kelvin sign fold to lower-case ASCII; no
   * other character lowers onto an ASCII or Arabic letter.
   */
  function LowerChar(c: char): char {
    if 'A' <= c <= 'Z' then (c as int + 32) as char
    else if c == '\U{212A}' then 'k'
    else c
  }

  function Lower(s: string): (r: string)
    ensures |r| == |s| && forall i :: 0 <= i < |s| ==> r[i] == LowerChar(s[i])
  {
    seq(|s|, i requires 0 <= i < |s| => LowerChar(s[i]))
  }

  /** The Kelvin sign lowers to an ASCII `k`, so it completes an English keyword. */
  lemma LowerKelvinSign()
    ensures Lower("feedbac\U{212A}") == "feedback"
  {
  }

  /** `any(keyword in lowered for keyword in keywords)`. */
  predicate AnyKeyword(lowered: string, keywords: seq<string>) {
    keywords != [] && (Contains(lowered, keywords[0]) || AnyKeyword(lowered, keywords[1..]))
  }

  /** Whether `sentence` mentions a keyword of phase `ph`. */
  predicate Mentions(sentence: string, ph: Phase, v: Vocabulary) {
    AnyKeyword(Lower(sentence), Keywords(ph, v))
  }

  /** The branch of the `if`/`elif` chain a sentence takes; `None` is the `else` branch. */
  function PhaseOf(sentence: string, v: Vocabulary): Option<Phase> {
    if Mentions(sentence, Research, v) then Some(Research)
    else if Mentions(sentence, Development, v) then Some(Development)
    else if Mentions(sentence, Execution, v) then Some(Execution)
    else if Mentions(sentence, Evaluation, v) then Some(Evaluation)
    else None
  }

  /**
   * A sentence goes to the first phase in chain order whose keywords it
   * mentions, and to the `else` branch exactly when it mentions none.
   */
  lemma PhaseOfIsFirstMentioned(sentence: string, v: Vocabulary)
    ensures var r := PhaseOf(sentence, v);
      && (r.Some? ==> Mentions(sentence, r.value, v))
      && (r.Some? ==> forall ph :: Rank(ph) < Rank(r.value) ==> !Mentions(sentence, ph, v))
      && (r.None? <==> forall ph :: !Mentions(sentence, ph, v))
  {
  }

  /** Every item is non-empty and stripped. */
  predicate AllStripped(items: seq<string>) {
    forall i :: 0 <= i < |items| ==> items[i] != [] && IsStripped(PySpace, items[i])
  }

  /** `[s.strip() for s in pieces if s.strip()]`. */
  function NonBlank(pieces: seq<string>): (r: seq<string>)
    ensures |r| <= |pieces|
    ensures AllStripped(r)
  {
    var stripped := StripAll(PySpace, pieces);
    var r := DropEmpty(stripped);
    assert forall i :: 0 <= i < |r| ==> exists j :: 0 <= j < |stripped| && r[i] == stripped[j];
    r
  }

  /** One piece is kept, stripped, exactly when it is not blank. */
  lemma NonBlankOne(p: string)
    ensures NonBlank([p]) == if Strip(PySpace, p) == [] then [] else [Strip(PySpace, p)]
  {
    var stripped := StripAll(PySpace, [p]);
    assert stripped == [Strip(PySpace, p)];
    assert stripped[1..] == [];
  }

  /** The filter keeps the order: filtering a concatenation concatenates the filtered parts. */
  lemma NonBlankAppend(a: seq<string>, b: seq<string>)
    ensures NonBlank(a + b) == NonBlank(a) + NonBlank(b)
  {
    assert StripAll(PySpace, a + b) == StripAll(PySpace, a) + StripAll(PySpace, b);
    DropEmptyAppend(StripAll(PySpace, a), StripAll(PySpace, b));
  }

  /** The sentence terminators `re.split(r'[.!?]', ...)` cuts at. */
  const Terminators: set<char> := {'.', '!', '?'}

  /** The non-blank, stripped sentences of the paragraph. */
  function Sentences(strategy: string): (r: seq<string>)
    ensures forall i :: 0 <= i < |r| ==> r[i] != [] && IsStripped(PySpace, r[i])
  {
    NonBlank(SplitWhere(strategy, Terminators))
  }

  /** A paragraph without a terminator is one sentence, unless it is blank. */
  lemma SentencesOfOnePiece(a: string)
    requires forall i :: 0 <= i < |a| ==> a[i] !in Terminators
    ensures Sentences(a) == NonBlank([a])
  {
    SplitNoSep(a, Terminators);
  }

  /**
   * The text before the first terminator, stripped, is the first sentence
   * unless it is blank; the sentences of the rest follow in order.
   */
  lemma SentencesAppend(a: string, t: char, b: string)
    requires t in Terminators
    requires forall i :: 0 <= i < |a| ==> a[i] !in Terminators
    ensures Sentences(a + [t] + b) == NonBlank([a]) + Sentences(b)
  {
    SplitAppend(a, t, b, Terminators);
    NonBlankAppend([a], SplitWhere(b, Terminators));
  }

  /** Index of the first sentence that takes the branch of `ph`, if any. */
  function FirstOfPhase(ss: seq<string>, ph: Phase, v: Vocabulary): (r: Option<nat>)
    ensures r.Some? ==> r.value < |ss|
  {
    if ss == [] then None
    else
      var r := FirstOfPhase(ss[..|ss| - 1], ph, v);
      if r.Some? then r
      else if PhaseOf(ss[|ss| - 1], v) == Some(ph) then Some(|ss| - 1)
      else None
  }

  /** `FirstOfPhase` finds the earliest sentence of the phase, and only misses when there is none. */
  lemma {:induction false} FirstOfPhaseIsFirst(ss: seq<string>, ph: Phase, v: Vocabulary)
    ensures var r := FirstOfPhase(ss, ph, v);
      && (r.Some? ==> PhaseOf(ss[r.value], v) == Some(ph))
      && (r.Some? ==> forall j :: 0 <= j < r.value ==> PhaseOf(ss[j], v) != Some(ph))
      && (r.None? ==> forall j :: 0 <= j < |ss| ==> PhaseOf(ss[j], v) != Some(ph))
  {
    if ss != [] {
      FirstOfPhaseIsFirst(ss[..|ss| - 1], ph, v);
      assert forall j :: 0 <= j < |ss| - 1 ==> ss[j] == ss[..|ss| - 1][j];
    }
  }

  /**
   * The sentences of the `else` branch, each once, in the order of their
   * first occurrence.
   */
  function Unmatched(ss: seq<string>, v: Vocabulary): seq<string> {
    if ss == [] then []
    else
      var prev := Unmatched(ss[..|ss| - 1], v);
      var s := ss[|ss| - 1];
      if PhaseOf(s, v).None? && s !in prev then prev + [s] else prev
  }

  /** Index of the first occurrence of `x` in `ss`, or `|ss|` when there is none. */
  function FirstIndex(ss: seq<string>, x: string): (r: nat)
    ensures r <= |ss|
    ensures r < |ss| ==> ss[r] == x
    ensures forall k :: 0 <= k < r ==> ss[k] != x
    ensures r == |ss| <==> x !in ss
  {
    if ss == [] then 0
    else if ss[0] == x then 0
    else
      var r := 1 + FirstIndex(ss[1..], x);
      assert forall k :: 1 <= k < r ==> ss[k] == ss[1..][k - 1];
      r
  }

  /** Appending an element keeps the first index of anything already present. */
  lemma FirstIndexSnoc(ss: seq<string>, s: string, x: string)
    requires x in ss
    ensures FirstIndex(ss + [s], x) == FirstIndex(ss, x)
  {
    var m := FirstIndex(ss, x);
    var n := FirstIndex(ss + [s], x);
    assert (ss + [s])[m] == x;
    if n < m {
      assert ss[n] == (ss + [s])[n];
    }
  }

  /**
   * The additional steps are exactly the sentences of no phase, without
   * repeats, in the order of their first occurrence: a sentence of an
   * already filled phase never lands there.
   */
  lemma {:induction false} UnmatchedSpec(ss: seq<string>, v: Vocabulary)
    ensures var r := Unmatched(ss, v);
      && (forall i :: 0 <= i < |r| ==> r[i] in ss && PhaseOf(r[i], v).None?)
      && (forall j :: 0 <= j < |ss| && PhaseOf(ss[j], v).None? ==> ss[j] in r)
      && (forall i, j :: 0 <= i < j < |r| ==> r[i] != r[j])
      && (forall i, j :: 0 <= i < j < |r| ==> FirstIndex(ss, r[i]) < FirstIndex(ss, r[j]))
  {
    UnmatchedMembers(ss, v);
    UnmatchedOrder(ss, v);
  }

  lemma {:induction false} UnmatchedMembers(ss: seq<string>, v: Vocabulary)
    ensures var r := Unmatched(ss, v);
      && (forall i :: 0 <= i < |r| ==> r[i] in ss && PhaseOf(r[i], v).None?)
      && (forall j :: 0 <= j < |ss| && PhaseOf(ss[j], v).None? ==> ss[j] in r)
      && (forall i, j :: 0 <= i < j < |r| ==> r[i] != r[j])
  {
    if ss != [] {
      UnmatchedMembers(ss[..|ss| - 1], v);
      assert forall j :: 0 <= j < |ss| - 1 ==> ss[j] == ss[..|ss| - 1][j];
    }
  }

  lemma {:induction false} UnmatchedOrder(ss: seq<string>, v: Vocabulary)
    ensures var r := Unmatched(ss, v);
      forall i, j :: 0 <= i < j < |r| ==> FirstIndex(ss, r[i]) < FirstIndex(ss, r[j])
  {
    if ss != [] {
      var front, s := ss[..|ss| - 1], ss[|ss| - 1];
      var prev := Unmatched(front, v);
      var appended := PhaseOf(s, v).None? && s !in prev;
      var r := Unmatched(ss, v);
      assert r == if appended then prev + [s] else prev;
      UnmatchedOrder(front, v);
      UnmatchedMembers(front, v);
      assert ss == front + [s];
      forall i, j | 0 <= i < j < |r|
        ensures FirstIndex(ss, r[i]) < FirstIndex(ss, r[j])
      {
        assert r[i] == prev[i] && prev[i] in front;
        FirstIndexSnoc(front, s, r[i]);
        if j < |prev| {
          assert r[j] == prev[j] && prev[j] in front;
          FirstIndexSnoc(front, s, r[j]);
        } else {
          assert r[j] == s && s !in front;
          FirstIndexLast(front, s);
        }
      }
    }
  }

  /** An element appended to a sequence that lacks it first occurs at the end. */
  lemma FirstIndexLast(ss: seq<string>, s: string)
    requires s !in ss
    ensures FirstIndex(ss + [s], s) == |ss|
  {
    assert (ss + [s])[|ss|] == s;
  }

  /** What a phase slot holds at the end: its first sentence, or the fallback label. */
  function Slot(ss: seq<string>, ph: Phase, lang: Language): string {
    var found := Filled(ss, ph, VocabularyOf(lang));
    if found == [] then Fallback(ph, lang) else found[0]
  }

  /**
   * A slot holds the first sentence that takes the branch of its phase, or
   * the fallback label when no sentence does.
   */
  lemma SlotIsFirstMatchOrFallback(ss: seq<string>, ph: Phase, lang: Language)
    ensures var v := VocabularyOf(lang);
      || (Slot(ss, ph, lang) == Fallback(ph, lang) && forall j :: 0 <= j < |ss| ==> PhaseOf(ss[j], v) != Some(ph))
      || exists i :: 0 <= i < |ss| && Slot(ss, ph, lang) == ss[i] && PhaseOf(ss[i], v) == Some(ph)
                  && forall j :: 0 <= j < i ==> PhaseOf(ss[j], v) != Some(ph)
  {
    FirstOfPhaseIsFirst(ss, ph, VocabularyOf(lang));
  }

  /** The returned dictionary: four single-entry phase lists and the additional steps. */
  datatype Components = Components(
    research: seq<string>,
    development: seq<string>,
    execution: seq<string>,
    evaluation: seq<string>,
    additional: seq<string>)

  /** The components the extraction produces for a paragraph, stated declaratively. */
  function ComponentsOf(strategy: string, lang: Language): (c: Components)
    ensures |c.research| == 1 && |c.development| == 1 && |c.execution| == 1 && |c.evaluation| == 1
  {
    var ss := Sentences(strategy);
    Components([Slot(ss, Research, lang)], [Slot(ss, Development, lang)],
               [Slot(ss, Execution, lang)], [Slot(ss, Evaluation, lang)], Unmatched(ss, VocabularyOf(lang)))
  }

  /** The list of phase `ph` after the loop has seen the sentences `ss`: empty, or their first sentence of `ph`. */
  function Filled(ss: seq<string>, ph: Phase, v: Vocabulary): (r: seq<string>)
    ensures |r| <= 1
  {
    match FirstOfPhase(ss, ph, v)
    case Some(j) => [ss[j]]
    case None => []
  }

  lemma FilledStep(ss: seq<string>, i: nat, ph: Phase, v: Vocabulary)
    requires i < |ss|
    ensures Filled(ss[..i + 1], ph, v) ==
      if Filled(ss[..i], ph, v) == [] && PhaseOf(ss[i], v) == Some(ph) then [ss[i]]
      else Filled(ss[..i], ph, v)
  {
    assert ss[..i + 1][..i] == ss[..i];
  }

  lemma UnmatchedStep(ss: seq<string>, i: nat, v: Vocabulary)
    requires i < |ss|
    ensures Unmatched(ss[..i + 1], v) ==
      if PhaseOf(ss[i], v).None? && ss[i] !in Unmatched(ss[..i], v)
      then Unmatched(ss[..i], v) + [ss[i]]
      else Unmatched(ss[..i], v)
  {
    assert ss[..i + 1][..i] == ss[..i];
  }

  /** A sentence of phase `ph` can fill only the `ph` slot and never becomes an additional step. */
  lemma StepInto(ss: seq<string>, i: nat, v: Vocabulary, ph: Phase)
    requires i < |ss| && PhaseOf(ss[i], v) == Some(ph)
    ensures Filled(ss[..i + 1], Research, v) == Advanced(ss, i, v, ph, Research)
    ensures Filled(ss[..i + 1], Development, v) == Advanced(ss, i, v, ph, Development)
    ensures Filled(ss[..i + 1], Execution, v) == Advanced(ss, i, v, ph, Execution)
    ensures Filled(ss[..i + 1], Evaluation, v) == Advanced(ss, i, v, ph, Evaluation)
    ensures Unmatched(ss[..i + 1], v) == Unmatched(ss[..i], v)
  {
    FilledStep(ss, i, Research, v);
    FilledStep(ss, i, Development, v);
    FilledStep(ss, i, Execution, v);
    FilledStep(ss, i, Evaluation, v);
    UnmatchedStep(ss, i, v);
  }

  /** The slot of `q` after sentence `i` goes to phase `ph`: filled with it if it was the empty slot of `ph`. */
  function Advanced(ss: seq<string>, i: nat, v: Vocabulary, ph: Phase, q: Phase): seq<string>
    requires i < |ss|
  {
    if q == ph && Filled(ss[..i], q, v) == [] then [ss[i]] else Filled(ss[..i], q, v)
  }

  /** A sentence of no phase leaves every slot as it was and may become an additional step. */
  lemma StepNone(ss: seq<string>, i: nat, v: Vocabulary)
    requires i < |ss| && PhaseOf(ss[i], v).None?
    ensures Filled(ss[..i + 1], Research, v) == Filled(ss[..i], Research, v)
    ensures Filled(ss[..i + 1], Development, v) == Filled(ss[..i], Development, v)
    ensures Filled(ss[..i + 1], Execution, v) == Filled(ss[..i], Execution, v)
    ensures Filled(ss[..i + 1], Evaluation, v) == Filled(ss[..i], Evaluation, v)
    ensures Unmatched(ss[..i + 1], v) ==
      if ss[i] !in Unmatched(ss[..i], v) then Unmatched(ss[..i], v) + [ss[i]] else Unmatched(ss[..i], v)
  {
    FilledStep(ss, i, Research, v);
    FilledStep(ss, i, Development, v);
    FilledStep(ss, i, Execution, v);
    FilledStep(ss, i, Evaluation, v);
    UnmatchedStep(ss, i, v);
  }

  /** `sum([any(...), any(...), any(...), any(...)])`: how many phases a lowered sentence mentions. */
  function PhaseCount(lowered: string, v: Vocabulary): (n: nat)
    ensures n <= 4
  {
    (if AnyKeyword(lowered, Keywords(Research, v)) then 1 else 0)
    + (if AnyKeyword(lowered, Keywords(Development, v)) then 1 else 0)
    + (if AnyKeyword(lowered, Keywords(Execution, v)) then 1 else 0)
    + (if AnyKeyword(lowered, Keywords(Evaluation, v)) then 1 else 0)
  }

  /** In the `else` branch every test has failed, so the count is 0 and `phase_count <= 1` always holds. */
  lemma ElseBranchCountsNoPhase(lowered: string, v: Vocabulary)
    requires !AnyKeyword(lowered, Keywords(Research, v)) && !AnyKeyword(lowered, Keywords(Development, v))
    requires !AnyKeyword(lowered, Keywords(Execution, v)) && !AnyKeyword(lowered, Keywords(Evaluation, v))
    ensures PhaseCount(lowered, v) == 0
  {
  }

  /**
   * The sentence loop of `extract_workflow_components`: each sentence is
   * tested against the keyword lists in chain order.
   */
  method SortSentences(sentences: seq<string>, v: Vocabulary)
    returns (research: seq<string>, development: seq<string>, execution: seq<string>,
             evaluation: seq<string>, additional: seq<string>)
    requires forall j :: 0 <= j < |sentences| ==> IsStripped(PySpace, sentences[j])
    ensures research == Filled(sentences, Research, v)
    ensures development == Filled(sentences, Development, v)
    ensures execution == Filled(sentences, Execution, v)
    ensures evaluation == Filled(sentences, Evaluation, v)
    ensures additional == Unmatched(sentences, v)
  {
    var researchKeywords := Keywords(Research, v);
    var developmentKeywords := Keywords(Development, v);
    var executionKeywords := Keywords(Execution, v);
    var evaluationKeywords := Keywords(Evaluation, v);
    research, development, execution, evaluation, additional := [], [], [], [], [];
    var i := 0;
    while i < |sentences|
      invariant 0 <= i <= |sentences|
      invariant research == Filled(sentences[..i], Research, v)
      invariant development == Filled(sentences[..i], Development, v)
      invariant execution == Filled(sentences[..i], Execution, v)
      invariant evaluation == Filled(sentences[..i], Evaluation, v)
      invariant additional == Unmatched(sentences[..i], v)
    {
      var sentence := sentences[i];
      // `sentence.strip()` on append is `sentence`: every sentence is already stripped.
      var lowered := Lower(sentence);
      if AnyKeyword(lowered, researchKeywords) {
        StepInto(sentences, i, v, Research);
        if research == [] {
          research := research + [sentence];
        }
      } else if AnyKeyword(lowered, developmentKeywords) {
        StepInto(sentences, i, v, Development);
        if development == [] {
          development := development + [sentence];
        }
      } else if AnyKeyword(lowered, executionKeywords) {
        StepInto(sentences, i, v, Execution);
        if execution == [] {
          execution := execution + [sentence];
        }
      } else if AnyKeyword(lowered, evaluationKeywords) {
        StepInto(sentences, i, v, Evaluation);
        if evaluation == [] {
          evaluation := evaluation + [sentence];
        }
      } else {
        var phaseCount := PhaseCount(lowered, v);
        ElseBranchCountsNoPhase(lowered, v);
        StepNone(sentences, i, v);
        if phaseCount <= 1 && sentence !in additional {
          additional := additional + [sentence];
        }
      }
      i := i + 1;
    }
    assert sentences[..i] == sentences;
  }

  /** `extract_workflow_components(strategy, target_language)`. */
  method ExtractWorkflowComponents(strategy: string, lang: Language) returns (c: Components)
    ensures c.research == [Slot(Sentences(strategy), Research, lang)]
    ensures c.development == [Slot(Sentences(strategy), Development, lang)]
    ensures c.execution == [Slot(Sentences(strategy), Execution, lang)]
    ensures c.evaluation == [Slot(Sentences(strategy), Evaluation, lang)]
    ensures c.additional == Unmatched(Sentences(strategy), VocabularyOf(lang))
  {
    var sentences := Sentences(strategy);
    var v := VocabularyOf(lang);
    var research, development, execution, evaluation, additional := SortSentences(sentences, v);
    if research == [] {
      research := research + [Fallback(Research, lang)];
    }
    if development == [] {
      development := development + [Fallback(Development, lang)];
    }
    if execution == [] {
      execution := execution + [Fallback(Execution, lang)];
    }
    if evaluation == [] {
      evaluation := evaluation + [Fallback(Evaluation, lang)];
    }
    c := Components(research, development, execution, evaluation, additional);
  }
}
