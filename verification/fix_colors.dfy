/**
 * The two `fixColors` rewrite chains of frontend/src/StrategyGenerator.jsx:
 * the print chain applied before PDF export (lines 137-142) and the screen
 * chain applied after every diagram render, parameterised by dark mode
 * (lines 227-232). Both run the same four regexes in the same order and
 * differ only in the replacement texts, kept here as one table.
 */
module FixColors {
  import opened Wrappers
  import opened MarkupRules

  datatype Palette = Print | Screen(dark: bool)

  /** The replacement text each chain gives each regex. */
  function Replacement(p: Palette, rule: Rule): (r: string)
    ensures StartsCi(r, Anchor(rule))
  {
    match p
    case Print => PrintReplacement(rule)
    case Screen(dark) => ScreenReplacement(dark, rule)
  }

  /** The print chain of `generatePDF`: black on white. */
  function PrintReplacement(rule: Rule): (r: string)
    ensures StartsCi(r, Anchor(rule))
  {
    match rule
    case FillHex => "fill=\"#000000\""
    case FillWhite => "fill=\"#000000\""
    case StyleColor => "style=\"color: black\""
    case StyleFill => "style=\"fill: #000000\""
  }

  /** The screen chain after rendering: grey and white in dark mode, black and white in light mode. */
  function ScreenReplacement(dark: bool, rule: Rule): (r: string)
    ensures StartsCi(r, Anchor(rule))
  {
    match rule
    case FillHex => if dark then "fill=\"#374151\"" else "fill=\"#000000\""
    case FillWhite => if dark then "fill=\"#374151\"" else "fill=\"#ffffff\""
    case StyleColor => if dark then "style=\"color: #ffffff\"" else "style=\"color: #000000\""
    case StyleFill => if dark then "style=\"fill: #374151\"" else "style=\"fill: #ffffff\""
  }

  /** The four global replacements, in source order, with the given replacement texts. */
  function Chain(r1: string, r2: string, r3: string, r4: string, svg: string): string {
    ReplaceAll(StyleFill, r4, ReplaceAll(StyleColor, r3, ReplaceAll(FillWhite, r2, ReplaceAll(FillHex, r1, svg))))
  }

  /** `fixColors(svg)` of one palette. */
  function FixColors(p: Palette, svg: string): string {
    Chain(Replacement(p, FillHex), Replacement(p, FillWhite),
          Replacement(p, StyleColor), Replacement(p, StyleFill), svg)
  }

  /** No replacement text of either chain is matched by any of the four regexes. */
  lemma ReplacementInert(p: Palette, rule: Rule)
    ensures Inert(Replacement(p, rule))
  {
    var r := Replacement(p, rule);
    match rule
    case FillHex | FillWhite =>
      FillRepInert(r);
    case StyleColor =>
      if p.Print? { ColorBlackInert(); }
      else if p.dark { ColorWhiteHexInert(); }
      else { ColorBlackHexInert(); }
    case StyleFill =>
      if p.Print? { FillBlackHexInert(); }
      else if p.dark { FillGreyHexInert(); }
      else { FillWhiteHexInert(); }
  }

  lemma ColorBlackInert()
    ensures Inert("style=\"color: black\"")
  {
    StyleRepInert("style=\"color: black\"");
  }

  lemma ColorWhiteHexInert()
    ensures Inert("style=\"color: #ffffff\"")
  {
    StyleRepInert("style=\"color: #ffffff\"");
  }

  lemma ColorBlackHexInert()
    ensures Inert("style=\"color: #000000\"")
  {
    StyleRepInert("style=\"color: #000000\"");
  }

  lemma FillBlackHexInert()
    ensures Inert("style=\"fill: #000000\"")
  {
    StyleRepInert("style=\"fill: #000000\"");
  }

  lemma FillGreyHexInert()
    ensures Inert("style=\"fill: #374151\"")
  {
    StyleRepInert("style=\"fill: #374151\"");
  }

  lemma FillWhiteHexInert()
    ensures Inert("style=\"fill: #ffffff\"")
  {
    StyleRepInert("style=\"fill: #ffffff\"");
  }

  /**
   * The four replacements in order, with any replacement texts that begin
   * with their regex's attribute name and that no regex matches, leave
   * nothing any regex matches.
   */
  lemma {:induction false} ChainLeavesNoMatch(r1: string, r2: string, r3: string, r4: string, svg: string)
    requires StartsCi(r1, Anchor(FillHex)) && Inert(r1)
    requires StartsCi(r2, Anchor(FillWhite)) && Inert(r2)
    requires StartsCi(r3, Anchor(StyleColor)) && Inert(r3)
    requires StartsCi(r4, Anchor(StyleFill)) && Inert(r4)
    ensures var out := Chain(r1, r2, r3, r4, svg);
            NoMatch(FillHex, out) && NoMatch(FillWhite, out) && NoMatch(StyleColor, out) && NoMatch(StyleFill, out)
  {
    var s1 := ReplaceAll(FillHex, r1, svg);
    var s2 := ReplaceAll(FillWhite, r2, s1);
    var s3 := ReplaceAll(StyleColor, r3, s2);
    ReplacePreserves(FillHex, FillHex, r1, svg);
    ReplacePreserves(FillHex, FillWhite, r2, s1);
    ReplacePreserves(FillWhite, FillWhite, r2, s1);
    ReplacePreserves(FillHex, StyleColor, r3, s2);
    ReplacePreserves(FillWhite, StyleColor, r3, s2);
    ReplacePreserves(StyleColor, StyleColor, r3, s2);
    ReplacePreserves(FillHex, StyleFill, r4, s3);
    ReplacePreserves(FillWhite, StyleFill, r4, s3);
    ReplacePreserves(StyleColor, StyleFill, r4, s3);
    ReplacePreserves(StyleFill, StyleFill, r4, s3);
  }

  /** After either chain, no regex of the chain matches anywhere in the markup. */
  lemma FixColorsLeavesNoMatch(p: Palette, svg: string)
    ensures var out := FixColors(p, svg);
            NoMatch(FillHex, out) && NoMatch(FillWhite, out) && NoMatch(StyleColor, out) && NoMatch(StyleFill, out)
  {
    ReplacementInert(p, FillHex);
    ReplacementInert(p, FillWhite);
    ReplacementInert(p, StyleColor);
    ReplacementInert(p, StyleFill);
    ChainLeavesNoMatch(Replacement(p, FillHex), Replacement(p, FillWhite),
                       Replacement(p, StyleColor), Replacement(p, StyleFill), svg);
  }

  /** Each chain is idempotent for a fixed palette: a second pass changes nothing. */
  lemma {:induction false} FixColorsIdempotent(p: Palette, svg: string)
    ensures FixColors(p, FixColors(p, svg)) == FixColors(p, svg)
  {
    FixColorsLeavesNoMatch(p, svg);
  }

  // ---------------------------------------------------------------------------
  // What one chain does to a single attribute.
  // ---------------------------------------------------------------------------

  /** `v` is the lower-case literal `lit` up to ASCII case. */
  predicate SameCi(v: string, lit: string) {
    |v| == |lit| && StartsCi(v, lit)
  }

  /** The attribute values `#?fff(f)?` accepts, case-insensitively. */
  predicate WhiteHexValue(v: string) {
    SameCi(v, "fff") || SameCi(v, "ffff") || SameCi(v, "#fff") || SameCi(v, "#ffff")
  }

  /** A quoted attribute starts with a quoted literal exactly when its value is that literal. */
  lemma AttrStartsCi(a: string, v: string, val: string, y: string)
    requires StartsCi(a, a) && '"' !in v && '"' !in val
    ensures StartsCi(a + v + "\"" + y, a + val + "\"") <==> SameCi(v, val)
  {
    var x := a + v + "\"" + y;
    var lit := a + val + "\"";
    if |val| < |v| {
      assert x[|a| + |val|] == v[|val|];
      NotStartsCi(x, lit, |a| + |val|);
    } else if |val| > |v| {
      assert lit[|a| + |v|] == val[|v|];
      NotStartsCi(x, lit, |a| + |v|);
    } else {
      assert forall k :: 0 <= k < |v| ==> x[|a| + k] == v[k] && lit[|a| + k] == val[k];
      assert forall k :: 0 <= k < |a| ==> x[k] == a[k] && lit[k] == a[k];
      assert x[|a| + |v|] == '"';
    }
  }

  /** Inside a quoted attribute, no regex match begins after its first character. */
  lemma LaterMatchNone(rule: Rule, a: string, v: string, i: nat)
    requires a == "fill=\"" || a == "style=\""
    requires '"' !in v
    requires 1 <= i <= |a + v + "\""|
    ensures MatchLen(rule, (a + v + "\"")[i..]).None?
  {
    var x := a + v + "\"";
    var t := x[i..];
    var k := |Anchor(rule)| - 1;
    if i + k >= |x| {
      NotStartsCi(t, Anchor(rule), k);
    } else if i + k == |a| - 1 {
      NotStartsCi(t, Anchor(rule), 0);
    } else if i + k < |x| - 1 {
      assert t[k] == v[i + k - |a|];
      NotStartsCi(t, Anchor(rule), k);
    }
  }

  /** A text in which no position starts a match has no match. */
  lemma {:induction false} NoMatchFrom(rule: Rule, t: string, i: nat)
    requires i <= |t|
    requires forall j :: i <= j <= |t| ==> MatchLen(rule, t[j..]).None?
    ensures NoMatch(rule, t[i..])
    decreases |t| - i
  {
    if i < |t| {
      NoMatchFrom(rule, t, i + 1);
      assert t[i..][1..] == t[i + 1..];
    }
  }

  /** A replacement text no regex matches inside contains no match of its own. */
  lemma InertNoMatch(rule: Rule, r: string)
    requires Inert(r)
    ensures NoMatch(rule, r)
  {
    forall j | 0 <= j <= |r|
      ensures MatchLen(rule, r[j..]).None?
    {
      if j < |r| {
        assert r[j..] + [] == r[j..];
      } else {
        NotStartsCi(r[j..], Anchor(rule), 0);
      }
    }
    NoMatchFrom(rule, r, 0);
  }

  /** The later steps of a chain leave an already replaced attribute alone. */
  lemma ReplaceInert(rule: Rule, rep: string, r: string)
    requires Inert(r)
    ensures ReplaceAll(rule, rep, r) == r
  {
    InertNoMatch(rule, r);
  }

  /** A whole-text match is replaced by the replacement text alone. */
  lemma ReplaceWhole(rule: Rule, rep: string, x: string)
    requires MatchLen(rule, x) == Some(|x|)
    ensures ReplaceAll(rule, rep, x) == rep
  {
    assert x[|x|..] == [];
  }

  /** No regex match begins after the first character of a quoted attribute. */
  lemma NoLaterMatch(a: string, v: string)
    requires a == "fill=\"" || a == "style=\""
    requires '"' !in v
    ensures forall rule: Rule, i :: 1 <= i <= |a + v + "\""| ==> MatchLen(rule, (a + v + "\"")[i..]).None?
  {
    forall rule: Rule, i | 1 <= i <= |a + v + "\""|
      ensures MatchLen(rule, (a + v + "\"")[i..]).None?
    {
      LaterMatchNone(rule, a, v, i);
    }
  }

  /** Which regexes match a `fill="v"` attribute at its start, and how far. */
  lemma FillAttrMatches(v: string, y: string)
    requires '"' !in v
    ensures var x := "fill=\"" + v + "\"";
      && MatchLen(FillHex, x + y) == (if WhiteHexValue(v) then Some(|x|) else None)
      && MatchLen(FillWhite, x + y) == (if SameCi(v, "white") then Some(|x|) else None)
      && MatchLen(StyleColor, x + y).None? && MatchLen(StyleFill, x + y).None?
  {
    FillHexAttrMatch(v, y);
    var x := "fill=\"" + v + "\"";
    assert "fill=\"" + "white" + "\"" == "fill=\"white\"";
    AttrStartsCi("fill=\"", v, "white", y);
    assert (x + y)[0] == 'f';
    NotStartsCi(x + y, "style=\"", 0);
  }

  lemma FillHexAttrMatch(v: string, y: string)
    requires '"' !in v
    ensures var x := "fill=\"" + v + "\"";
      MatchLen(FillHex, x + y) == (if WhiteHexValue(v) then Some(|x|) else None)
  {
    assert "fill=\"" + "fff" + "\"" == "fill=\"fff\"";
    assert "fill=\"" + "ffff" + "\"" == "fill=\"ffff\"";
    assert "fill=\"" + "#fff" + "\"" == "fill=\"#fff\"";
    assert "fill=\"" + "#ffff" + "\"" == "fill=\"#ffff\"";
    AttrStartsCi("fill=\"", v, "fff", y);
    AttrStartsCi("fill=\"", v, "ffff", y);
    AttrStartsCi("fill=\"", v, "#fff", y);
    AttrStartsCi("fill=\"", v, "#ffff", y);
  }

  /** The first quote at or after `i` is at `j`. */
  lemma {:induction false} QuoteFromIs(t: string, i: nat, j: nat)
    requires i <= j < |t| && t[j] == '"'
    requires forall k :: i <= k < j ==> t[k] != '"'
    ensures QuoteFrom(t, i) == Some(j)
    decreases j - i
  {
    if i < j {
      QuoteFromIs(t, i + 1, j);
    }
  }

  /** Which regexes match a `style="v"` attribute at its start, and how far. */
  lemma StyleAttrMatches(v: string, y: string)
    requires '"' !in v
    ensures var x := "style=\"" + v + "\"";
      && MatchLen(FillHex, x + y).None? && MatchLen(FillWhite, x + y).None?
      && MatchLen(StyleColor, x + y) == (if HasWhiteDecl("color:", v) then Some(|x|) else None)
      && MatchLen(StyleFill, x + y) == (if HasWhiteDecl("fill:", v) then Some(|x|) else None)
  {
    var x := "style=\"" + v + "\"";
    var t := x + y;
    assert t[0] == 's';
    NotStartsCi(t, "fill=\"", 0);
    assert forall k :: 0 <= k < 7 ==> t[k] == x[k];
    assert StartsCi(t, "style=\"");
    assert forall j :: 7 <= j < |x| - 1 ==> t[j] == v[j - 7];
    assert t[|x| - 1] == '"';
    QuoteFromIs(t, 7, |x| - 1);
    assert t[7..|x| - 1] == v;
  }

  lemma {:induction false} ChainFillAttribute(r1: string, r2: string, r3: string, r4: string, v: string)
    requires StartsCi(r1, Anchor(FillHex)) && Inert(r1)
    requires StartsCi(r2, Anchor(FillWhite)) && Inert(r2)
    requires '"' !in v
    ensures Chain(r1, r2, r3, r4, "fill=\"" + v + "\"") ==
      if WhiteHexValue(v) then r1 else if SameCi(v, "white") then r2 else "fill=\"" + v + "\""
  {
    var x := "fill=\"" + v + "\"";
    FillAttrMatches(v, []);
    assert x + [] == x;
    NoLaterMatch("fill=\"", v);
    if WhiteHexValue(v) {
      ReplaceWhole(FillHex, r1, x);
      ReplaceInert(FillWhite, r2, r1);
      ReplaceInert(StyleColor, r3, r1);
      ReplaceInert(StyleFill, r4, r1);
    } else {
      NoMatchFrom(FillHex, x, 0);
      if SameCi(v, "white") {
        ReplaceWhole(FillWhite, r2, x);
        ReplaceInert(StyleColor, r3, r2);
        ReplaceInert(StyleFill, r4, r2);
      } else {
        NoMatchFrom(FillWhite, x, 0);
        NoMatchFrom(StyleColor, x, 0);
        NoMatchFrom(StyleFill, x, 0);
      }
    }
  }

  lemma {:induction false} ChainStyleAttribute(r1: string, r2: string, r3: string, r4: string, v: string)
    requires StartsCi(r3, Anchor(StyleColor)) && Inert(r3)
    requires '"' !in v
    ensures Chain(r1, r2, r3, r4, "style=\"" + v + "\"") ==
      if HasWhiteDecl("color:", v) then r3
      else if HasWhiteDecl("fill:", v) then r4
      else "style=\"" + v + "\""
  {
    var x := "style=\"" + v + "\"";
    StyleAttrMatches(v, []);
    assert x + [] == x;
    NoLaterMatch("style=\"", v);
    NoMatchFrom(FillHex, x, 0);
    NoMatchFrom(FillWhite, x, 0);
    if HasWhiteDecl("color:", v) {
      ReplaceWhole(StyleColor, r3, x);
      ReplaceInert(StyleFill, r4, r3);
    } else {
      NoMatchFrom(StyleColor, x, 0);
      if HasWhiteDecl("fill:", v) {
        ReplaceWhole(StyleFill, r4, x);
      } else {
        NoMatchFrom(StyleFill, x, 0);
      }
    }
  }

  /**
   * A `fill="v"` attribute becomes the chain's hex replacement when `v` is
   * `fff`, `ffff`, `#fff` or `#ffff` in any case, its `white` replacement when
   * `v` is `white` in any case, and is left as it is otherwise (`#ffffff`
   * among others).
   */
  lemma FixColorsFillAttribute(p: Palette, v: string)
    requires '"' !in v
    ensures FixColors(p, "fill=\"" + v + "\"") ==
      if WhiteHexValue(v) then Replacement(p, FillHex)
      else if SameCi(v, "white") then Replacement(p, FillWhite)
      else "fill=\"" + v + "\""
  {
    ReplacementInert(p, FillHex);
    ReplacementInert(p, FillWhite);
    ChainFillAttribute(Replacement(p, FillHex), Replacement(p, FillWhite),
                       Replacement(p, StyleColor), Replacement(p, StyleFill), v);
  }

  /**
   * A `style="v"` attribute is replaced whole, other declarations included, by
   * the chain's colour replacement when some `color:` declaration in `v` is
   * white, otherwise by its fill replacement when some `fill:` declaration is
   * white, and is left as it is when neither is.
   */
  lemma FixColorsStyleAttribute(p: Palette, v: string)
    requires '"' !in v
    ensures FixColors(p, "style=\"" + v + "\"") ==
      if HasWhiteDecl("color:", v) then Replacement(p, StyleColor)
      else if HasWhiteDecl("fill:", v) then Replacement(p, StyleFill)
      else "style=\"" + v + "\""
  {
    ReplacementInert(p, StyleColor);
    ChainStyleAttribute(Replacement(p, FillHex), Replacement(p, FillWhite),
                        Replacement(p, StyleColor), Replacement(p, StyleFill), v);
  }

  /** A six-digit `#ffffff` fill is not recognised as white and survives either chain. */
  lemma SixDigitWhiteKept(p: Palette)
    ensures FixColors(p, "fill=\"#ffffff\"") == "fill=\"#ffffff\""
  {
    assert "fill=\"#ffffff\"" == "fill=\"" + "#ffffff" + "\"";
    FixColorsFillAttribute(p, "#ffffff");
  }

  /** The light screen palette recolours a hex white fill to black... */
  lemma LightScreenHexWhiteToBlack()
    ensures FixColors(Screen(false), "fill=\"#FFF\"") == "fill=\"#000000\""
  {
    var v := "#FFF";
    assert "fill=\"#FFF\"" == "fill=\"" + v + "\"";
    assert SameCi(v, "#fff");
    FixColorsFillAttribute(Screen(false), v);
  }

  /** ...but a named `white` fill to white. */
  lemma LightScreenNamedWhiteKeptWhite()
    ensures FixColors(Screen(false), "fill=\"White\"") == "fill=\"#ffffff\""
  {
    var v := "White";
    assert "fill=\"White\"" == "fill=\"" + v + "\"";
    NotStartsCi(v, "#ffff", 0);
    assert SameCi(v, "white");
    FixColorsFillAttribute(Screen(false), v);
  }

  // ---------------------------------------------------------------------------
  // The chains inside longer markup.
  // ---------------------------------------------------------------------------

  /** No regex of the chain has a match starting at a position of `x` in `x + y`. */
  predicate CleanBefore(x: string, y: string) {
    NoMatchBefore(FillHex, x, y) && NoMatchBefore(FillWhite, x, y)
    && NoMatchBefore(StyleColor, x, y) && NoMatchBefore(StyleFill, x, y)
  }

  /**
   * Markup in which no regex match starts is copied by the four
   * replacements, which go on with what follows it: no replacement made
   * later reaches back into it.
   */
  lemma {:induction false} ChainCopies(r1: string, r2: string, r3: string, r4: string, x: string, y: string)
    requires StartsCi(r1, Anchor(FillHex)) && StartsCi(r2, Anchor(FillWhite)) && StartsCi(r3, Anchor(StyleColor))
    requires CleanBefore(x, y)
    ensures Chain(r1, r2, r3, r4, x + y) == x + Chain(r1, r2, r3, r4, y)
  {
    var y1 := ReplaceAll(FillHex, r1, y);
    var y2 := ReplaceAll(FillWhite, r2, y1);
    var y3 := ReplaceAll(StyleColor, r3, y2);
    ReplaceAllCopies(FillHex, r1, x, y);
    NoMatchBeforeKept(FillWhite, FillHex, r1, x, y);
    ReplaceAllCopies(FillWhite, r2, x, y1);
    NoMatchBeforeKept(StyleColor, FillHex, r1, x, y);
    NoMatchBeforeKept(StyleColor, FillWhite, r2, x, y1);
    ReplaceAllCopies(StyleColor, r3, x, y2);
    NoMatchBeforeKept(StyleFill, FillHex, r1, x, y);
    NoMatchBeforeKept(StyleFill, FillWhite, r2, x, y1);
    NoMatchBeforeKept(StyleFill, StyleColor, r3, x, y2);
    ReplaceAllCopies(StyleFill, r4, x, y3);
  }

  /** `fixColors` copies markup in which no regex match starts and rewrites only what follows it. */
  lemma FixColorsCopies(p: Palette, x: string, y: string)
    requires CleanBefore(x, y)
    ensures FixColors(p, x + y) == x + FixColors(p, y)
  {
    ChainCopies(Replacement(p, FillHex), Replacement(p, FillWhite),
                Replacement(p, StyleColor), Replacement(p, StyleFill), x, y);
  }

  /** A replacement text starts no match of `rule`, whatever follows it. */
  lemma InertBefore(rule: Rule, r: string, z: string)
    requires Inert(r)
    ensures NoMatchBefore(rule, r, z)
  {
    NoMatchBeforeAt(rule, r, z);
  }

  /** `v` ends in `=`, so a closing quote after it could complete an anchor. */
  predicate EndsInEquals(v: string) {
    v != [] && v[|v| - 1] == '='
  }

  /**
   * Inside a quoted attribute whose value has no `"` and does not end in `=`, only its
   * first position can start a match, whatever follows it.
   */
  lemma AttrNoMatchBefore(rule: Rule, a: string, v: string, z: string)
    requires a == "fill=\"" || a == "style=\""
    requires '"' !in v && !EndsInEquals(v)
    requires MatchLen(rule, a + v + "\"" + z).None?
    ensures NoMatchBefore(rule, a + v + "\"", z)
  {
    var x := a + v + "\"";
    assert x[1] == a[1];
    assert forall j :: |a| <= j < |x| - 1 ==> x[j] == v[j - |a|];
    assert QuotedOnlyAt(x, |a| - 1);
    assert x[|x| - 2] != '=' by {
      if v == [] {
        assert x[|x| - 2] == '"';
      } else {
        assert x[|x| - 2] == v[|v| - 1];
      }
    }
    forall i | 0 <= i < |x|
      ensures MatchLen(rule, x[i..] + z).None?
    {
      if i == 0 {
        assert x[0..] == x;
      } else {
        assert x[i..] + z == (x + z)[i..];
        NoAnchorInside(x, |a| - 1, z, i, Anchor(rule));
      }
    }
    NoMatchBeforeAt(rule, x, z);
  }

  lemma {:induction false} ChainFillAttributeIn(r1: string, r2: string, r3: string, r4: string, v: string, y: string)
    requires StartsCi(r1, Anchor(FillHex)) && Inert(r1)
    requires StartsCi(r2, Anchor(FillWhite)) && Inert(r2)
    requires StartsCi(r3, Anchor(StyleColor))
    requires '"' !in v && !EndsInEquals(v)
    ensures Chain(r1, r2, r3, r4, "fill=\"" + v + "\"" + y) ==
      (if WhiteHexValue(v) then r1 else if SameCi(v, "white") then r2 else "fill=\"" + v + "\"")
      + Chain(r1, r2, r3, r4, y)
  {
    var x := "fill=\"" + v + "\"";
    var y1 := ReplaceAll(FillHex, r1, y);
    var y2 := ReplaceAll(FillWhite, r2, y1);
    var y3 := ReplaceAll(StyleColor, r3, y2);
    FillAttrMatches(v, y);
    if WhiteHexValue(v) {
      ReplaceAllHead(FillHex, r1, x, y);
      InertBefore(FillWhite, r1, y1);
      ReplaceAllCopies(FillWhite, r2, r1, y1);
      InertBefore(StyleColor, r1, y2);
      ReplaceAllCopies(StyleColor, r3, r1, y2);
      InertBefore(StyleFill, r1, y3);
      ReplaceAllCopies(StyleFill, r4, r1, y3);
    } else {
      AttrNoMatchBefore(FillHex, "fill=\"", v, y);
      ReplaceAllCopies(FillHex, r1, x, y);
      FillAttrMatches(v, y1);
      if SameCi(v, "white") {
        ReplaceAllHead(FillWhite, r2, x, y1);
        InertBefore(StyleColor, r2, y2);
        ReplaceAllCopies(StyleColor, r3, r2, y2);
        InertBefore(StyleFill, r2, y3);
        ReplaceAllCopies(StyleFill, r4, r2, y3);
      } else {
        AttrNoMatchBefore(FillWhite, "fill=\"", v, y1);
        ReplaceAllCopies(FillWhite, r2, x, y1);
        FillAttrMatches(v, y2);
        AttrNoMatchBefore(StyleColor, "fill=\"", v, y2);
        ReplaceAllCopies(StyleColor, r3, x, y2);
        FillAttrMatches(v, y3);
        AttrNoMatchBefore(StyleFill, "fill=\"", v, y3);
        ReplaceAllCopies(StyleFill, r4, x, y3);
      }
    }
  }

  /**
   * A piece `m` that the chain turns into `res`, whatever follows it, is
   * turned into `res` after clean markup too.
   */
  lemma ChainAround(r1: string, r2: string, r3: string, r4: string, x: string, m: string, y: string, res: string)
    requires StartsCi(r1, Anchor(FillHex)) && StartsCi(r2, Anchor(FillWhite)) && StartsCi(r3, Anchor(StyleColor))
    requires CleanBefore(x, m + y)
    requires Chain(r1, r2, r3, r4, m + y) == res + Chain(r1, r2, r3, r4, y)
    ensures Chain(r1, r2, r3, r4, x + m + y) == x + res + Chain(r1, r2, r3, r4, y)
  {
    assert x + m + y == x + (m + y);
    ChainCopies(r1, r2, r3, r4, x, m + y);
    assert x + (res + Chain(r1, r2, r3, r4, y)) == x + res + Chain(r1, r2, r3, r4, y);
  }

  /**
   * In longer markup, a `fill="v"` attribute before which no regex match
   * starts is rewritten as it is on its own, the text before it is copied,
   * and the chain goes on with the text after it. The value must not
   * end in `=`: after `fill=` or `style=` the closing quote would open a
   * match that runs on into the following text.
   */
  lemma FixColorsFillAttributeIn(p: Palette, x: string, v: string, y: string)
    requires '"' !in v && !EndsInEquals(v)
    requires CleanBefore(x, "fill=\"" + v + "\"" + y)
    ensures FixColors(p, x + ("fill=\"" + v + "\"") + y) ==
      x + (if WhiteHexValue(v) then Replacement(p, FillHex)
           else if SameCi(v, "white") then Replacement(p, FillWhite)
           else "fill=\"" + v + "\"")
      + FixColors(p, y)
  {
    var r1, r2, r3, r4 := Replacement(p, FillHex), Replacement(p, FillWhite),
                          Replacement(p, StyleColor), Replacement(p, StyleFill);
    var attr := "fill=\"" + v + "\"";
    ReplacementInert(p, FillHex);
    ReplacementInert(p, FillWhite);
    ChainFillAttributeIn(r1, r2, r3, r4, v, y);
    ChainAround(r1, r2, r3, r4, x, attr, y,
                if WhiteHexValue(v) then r1 else if SameCi(v, "white") then r2 else attr);
  }

  lemma {:induction false} ChainStyleAttributeIn(r1: string, r2: string, r3: string, r4: string, v: string, y: string)
    requires StartsCi(r1, Anchor(FillHex)) && StartsCi(r2, Anchor(FillWhite))
    requires StartsCi(r3, Anchor(StyleColor)) && Inert(r3) && Inert(r4)
    requires '"' !in v && !EndsInEquals(v)
    ensures Chain(r1, r2, r3, r4, "style=\"" + v + "\"" + y) ==
      (if HasWhiteDecl("color:", v) then r3 else if HasWhiteDecl("fill:", v) then r4 else "style=\"" + v + "\"")
      + Chain(r1, r2, r3, r4, y)
  {
    var x := "style=\"" + v + "\"";
    var y1 := ReplaceAll(FillHex, r1, y);
    var y2 := ReplaceAll(FillWhite, r2, y1);
    var y3 := ReplaceAll(StyleColor, r3, y2);
    StyleAttrMatches(v, y);
    AttrNoMatchBefore(FillHex, "style=\"", v, y);
    ReplaceAllCopies(FillHex, r1, x, y);
    StyleAttrMatches(v, y1);
    AttrNoMatchBefore(FillWhite, "style=\"", v, y1);
    ReplaceAllCopies(FillWhite, r2, x, y1);
    StyleAttrMatches(v, y2);
    if HasWhiteDecl("color:", v) {
      ReplaceAllHead(StyleColor, r3, x, y2);
      InertBefore(StyleFill, r3, y3);
      ReplaceAllCopies(StyleFill, r4, r3, y3);
    } else {
      AttrNoMatchBefore(StyleColor, "style=\"", v, y2);
      ReplaceAllCopies(StyleColor, r3, x, y2);
      StyleAttrMatches(v, y3);
      if HasWhiteDecl("fill:", v) {
        ReplaceAllHead(StyleFill, r4, x, y3);
      } else {
        AttrNoMatchBefore(StyleFill, "style=\"", v, y3);
        ReplaceAllCopies(StyleFill, r4, x, y3);
      }
    }
  }

  /**
   * In longer markup, a `style="v"` attribute before which no regex match
   * starts is rewritten as it is on its own; the text before it is copied
   * and the text after it goes through the chain by itself.
   */
  lemma FixColorsStyleAttributeIn(p: Palette, x: string, v: string, y: string)
    requires '"' !in v && !EndsInEquals(v)
    requires CleanBefore(x, "style=\"" + v + "\"" + y)
    ensures FixColors(p, x + ("style=\"" + v + "\"") + y) ==
      x + (if HasWhiteDecl("color:", v) then Replacement(p, StyleColor)
           else if HasWhiteDecl("fill:", v) then Replacement(p, StyleFill)
           else "style=\"" + v + "\"")
      + FixColors(p, y)
  {
    var r1, r2, r3, r4 := Replacement(p, FillHex), Replacement(p, FillWhite),
                          Replacement(p, StyleColor), Replacement(p, StyleFill);
    var attr := "style=\"" + v + "\"";
    ReplacementInert(p, StyleColor);
    ReplacementInert(p, StyleFill);
    ChainStyleAttributeIn(r1, r2, r3, r4, v, y);
    ChainAround(r1, r2, r3, r4, x, attr, y,
                if HasWhiteDecl("color:", v) then r3 else if HasWhiteDecl("fill:", v) then r4 else attr);
  }
}
