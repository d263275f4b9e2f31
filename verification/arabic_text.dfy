/**
 * The backend's language test and its two normalisations of the strategy
 * paragraph (backend/main.py, `is_arabic`, `clean_arabic_text` and
 * `ensure_complete_sentence`).
 */
module ArabicText {
  import opened Text

  /** The two target languages the backend distinguishes. */
  datatype Language = Arabic | English

  /** A character of the Arabic block, U+0600 to U+06FF. */
  predicate IsArabicChar(c: char) {
    '؀' <= c <= 'ۿ'
  }

  /** `is_arabic(text)`: a search for any character of the Arabic block. */
  function IsArabic(s: string): (r: bool)
    ensures r <==> exists i :: 0 <= i < |s| && IsArabicChar(s[i])
  {
    if s == [] then false
    else if IsArabicChar(s[0]) then true
    else
      assert forall i :: 1 <= i < |s| ==> s[i] == s[1..][i - 1];
      IsArabic(s[1..])
  }

  /** Language detection: Arabic exactly when the text holds an Arabic character. */
  function LanguageOf(s: string): (l: Language)
    ensures l == Arabic <==> exists i :: 0 <= i < |s| && IsArabicChar(s[i])
  {
    if IsArabic(s) then Arabic else English
  }

  /** The characters `[؀-ۿ\s.,:;0-9-]` lets through. */
  predicate KeptByCleaning(c: char) {
    IsArabicChar(c) || IsPySpace(c) || c == '.' || c == ',' || c == ':' || c == ';'
    || ('0' <= c <= '9') || c == '-'
  }

  /** Every character of `s` is one the cleaning keeps. */
  predicate AllKept(s: string) {
    forall i :: 0 <= i < |s| ==> KeptByCleaning(s[i])
  }

  /** `re.sub(r'[^...]', '', text)`: every character outside the class deleted, the rest kept in order. */
  function KeepAllowed(s: string): (r: string)
    ensures |r| <= |s|
    ensures AllKept(r)
    ensures AllKept(s) ==> r == s
  {
    if s == [] then []
    else if KeptByCleaning(s[0]) then [s[0]] + KeepAllowed(s[1..])
    else KeepAllowed(s[1..])
  }

  /** A single character is kept exactly when the class allows it. */
  lemma KeepAllowedOne(c: char)
    ensures KeepAllowed([c]) == if KeptByCleaning(c) then [c] else []
  {
    assert [c][1..] == [];
  }

  /** Cleaning a text that starts with `c` deals with `c` first. */
  lemma KeepAllowedCons(c: char, s: string)
    ensures KeepAllowed([c] + s) == (if KeptByCleaning(c) then [c] else []) + KeepAllowed(s)
  {
    assert ([c] + s)[1..] == s;
  }

  /** The deletion keeps the order: cleaning a concatenation concatenates the cleaned parts. */
  lemma {:induction false} KeepAllowedAppend(a: string, b: string)
    ensures KeepAllowed(a + b) == KeepAllowed(a) + KeepAllowed(b)
  {
    if a == [] {
      assert a + b == b;
    } else {
      var c, rest := a[0], a[1..];
      var head := if KeptByCleaning(c) then [c] else [];
      SplitHead(a, b);
      KeepAllowedCons(c, rest + b);
      KeepAllowedAppend(rest, b);
      KeepAllowedCons(c, rest);
      AssocThree(head, KeepAllowed(rest), KeepAllowed(b));
    }
  }

  /** `clean_arabic_text(text)`. */
  function CleanArabicText(s: string): (r: string)
    ensures forall i :: 0 <= i < |r| ==> KeptByCleaning(r[i])
    ensures IsStripped(PySpace, r)
  {
    Strip(PySpace, KeepAllowed(s))
  }

  /** Cleaning an already cleaned text changes nothing. */
  lemma CleanIdempotent(s: string)
    ensures CleanArabicText(CleanArabicText(s)) == CleanArabicText(s)
  {
    var r := CleanArabicText(s);
    assert KeepAllowed(r) == r;
    StripOfStripped(PySpace, r);
  }

  /**
   * Arabic characters are never deleted or stripped: the cleaned text holds
   * an Arabic character exactly when the input does.
   */
  lemma CleanKeepsArabic(s: string)
    ensures IsArabic(CleanArabicText(s)) == IsArabic(s)
  {
    KeepAllowedKeepsArabic(s);
    StripKeepsArabic(KeepAllowed(s));
  }

  /** Arabic characters are not whitespace, so stripping keeps every one of them. */
  lemma StripKeepsArabic(k: string)
    ensures IsArabic(Strip(PySpace, k)) == IsArabic(k)
  {
    if IsArabic(k) {
      ArabicSurvivesStrip(k);
    }
    if IsArabic(Strip(PySpace, k)) {
      ArabicBeforeStrip(k);
    }
  }

  lemma ArabicSurvivesStrip(k: string)
    requires IsArabic(k)
    ensures IsArabic(Strip(PySpace, k))
  {
    var j :| 0 <= j < |k| && IsArabicChar(k[j]);
    assert !IsPySpace(k[j]);
    StripKeepsInner(PySpace, k, j);
    assert IsArabicChar(Strip(PySpace, k)[j - LeadCount(PySpace, k)]);
  }

  lemma ArabicBeforeStrip(k: string)
    requires IsArabic(Strip(PySpace, k))
    ensures IsArabic(k)
  {
    var r := Strip(PySpace, k);
    var m :| 0 <= m < |r| && IsArabicChar(r[m]);
    StripIsSlice(PySpace, k);
    assert r[m] == k[LeadCount(PySpace, k) + m];
  }

  lemma {:induction false} KeepAllowedKeepsArabic(s: string)
    ensures IsArabic(KeepAllowed(s)) == IsArabic(s)
  {
    if s != [] {
      KeepAllowedKeepsArabic(s[1..]);
      assert IsArabic(s) == (IsArabicChar(s[0]) || IsArabic(s[1..]));
      if KeptByCleaning(s[0]) {
        var k := [s[0]] + KeepAllowed(s[1..]);
        assert k[1..] == KeepAllowed(s[1..]);
        assert IsArabic(k) == (IsArabicChar(k[0]) || IsArabic(k[1..]));
      }
    }
  }

  /** The sentence terminators `ensure_complete_sentence` accepts for Arabic text. */
  predicate IsArabicTerminator(c: char) {
    c == '،' || c == '۔' || c == '.'
  }

  /** Whether `t` already ends as a sentence of language `lang` must end. */
  predicate EndsSentence(t: string, lang: Language) {
    t != [] && (if lang == Arabic then IsArabicTerminator(t[|t| - 1]) else t[|t| - 1] == '.')
  }

  /**
   * `ensure_complete_sentence(text, lang)`: the stripped text, with `۔`
   * (Arabic) or `.` (otherwise) appended unless it already ends a sentence.
   */
  function EnsureCompleteSentence(s: string, lang: Language): (r: string)
    ensures var t := Strip(PySpace, s);
      && EndsSentence(r, lang)
      && (EndsSentence(t, lang) ==> r == t)
      && (!EndsSentence(t, lang) ==> r == t + [if lang == Arabic then '۔' else '.'])
  {
    var t := Strip(PySpace, s);
    if EndsSentence(t, lang) then t
    else t + [if lang == Arabic then '۔' else '.']
  }

  /** Completing a completed sentence changes nothing. */
  lemma CompleteSentenceIdempotent(s: string, lang: Language)
    ensures EnsureCompleteSentence(EnsureCompleteSentence(s, lang), lang) == EnsureCompleteSentence(s, lang)
  {
    var r := EnsureCompleteSentence(s, lang);
    var t := Strip(PySpace, s);
    if !EndsSentence(t, lang) {
      AppendKeepsStripped(t, if lang == Arabic then '۔' else '.');
    }
    StripOfStripped(PySpace, r);
  }

  lemma AppendKeepsStripped(t: string, c: char)
    requires IsStripped(PySpace, t) && !IsPySpace(c)
    ensures IsStripped(PySpace, t + [c])
  {
    if t != [] {
      assert (t + [c])[0] == t[0];
    }
  }

  /**
   * Completion keeps the cleaned Arabic text within the cleaning character
   * set: the appended `۔` (U+06D4) lies in the Arabic block.
   */
  lemma CompletedCleanTextStaysClean(s: string)
    ensures var r := EnsureCompleteSentence(CleanArabicText(s), Arabic);
      forall i :: 0 <= i < |r| ==> KeptByCleaning(r[i])
  {
    var c := CleanArabicText(s);
    StripOfStripped(PySpace, c);
  }
}
