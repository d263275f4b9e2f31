/**
 * The four global, case-insensitive regular expressions that `fixColors` chains
 * (frontend/src/StrategyGenerator.jsx), each written as an explicit matcher that
 * says whether, and how far, the pattern matches at the start of a string, plus
 * the left-to-right scan of `String.prototype.replace` with a global regex.
 */
module MarkupRules {
  import opened Wrappers
  import opened Text

  /**
   * Case folding under the `i` flag without `u`: only ASCII letters fold here,
   * because no non-ASCII character canonicalises onto an ASCII one.
   */
  function Fold(c: char): char {
    if 'A' <= c <= 'Z' then (c as int + 32) as char else c
  }

  /** `t` begins with the lower-case literal `lit`, compared case-insensitively. */
  predicate StartsCi(t: string, lit: string) {
    |lit| <= |t| && forall k :: 0 <= k < |lit| ==> Fold(t[k]) == lit[k]
  }

  /** `\w` without the `u` flag: `[A-Za-z0-9_]`. */
  predicate IsWordChar(c: char) {
    ('a' <= c <= 'z') || ('A' <= c <= 'Z') || ('0' <= c <= '9') || c == '_'
  }

  datatype Rule =
    | FillHex     // /fill="#?fff(f)?"/gi
    | FillWhite   // /fill="white"/gi
    | StyleColor  // /style="[^"]*color:\s*(white|#fff(f)?)\b[^"]*"/gi
    | StyleFill   // /style="[^"]*fill:\s*(white|#fff(f)?)\b[^"]*"/gi

  /** The fixed text every match of `rule` begins with. */
  function Anchor(rule: Rule): string {
    if rule.FillHex? || rule.FillWhite? then "fill=\"" else "style=\""
  }

  /** `\b` after the first `n` characters of `w`, the character before being a word character. */
  predicate BoundaryAt(w: string, n: nat)
    requires n <= |w|
  {
    n == |w| || !IsWordChar(w[n])
  }

  /** `(white|#fff(f)?)\b` at the start of `w`. */
  predicate WhiteToken(w: string) {
    (|w| >= 5 && Fold(w[0]) == 'w' && Fold(w[1]) == 'h' && Fold(w[2]) == 'i'
       && Fold(w[3]) == 't' && Fold(w[4]) == 'e' && BoundaryAt(w, 5))
    || (|w| >= 4 && w[0] == '#' && Fold(w[1]) == 'f' && Fold(w[2]) == 'f' && Fold(w[3]) == 'f'
        && (BoundaryAt(w, 4) || (|w| >= 5 && Fold(w[4]) == 'f' && BoundaryAt(w, 5))))
  }

  /** `\s*(white|#fff(f)?)\b` at the start of `w`. */
  predicate SpacesThenWhite(w: string)
    decreases |w|
  {
    if w != [] && IsJsSpace(w[0]) then SpacesThenWhite(w[1..]) else WhiteToken(w)
  }

  /** `prop\s*(white|#fff(f)?)\b` at the start of `v`, `prop` being `color:` or `fill:`. */
  predicate DeclAt(prop: string, v: string) {
    StartsCi(v, prop) && SpacesThenWhite(v[|prop|..])
  }

  /**
   * Some position of the attribute value `v` declares `prop` white. The value
   * is followed by its closing quote, a non-word character, so `\b` holds at its end.
   */
  predicate HasWhiteDecl(prop: string, v: string)
    decreases |v|
  {
    DeclAt(prop, v) || (v != [] && HasWhiteDecl(prop, v[1..]))
  }

  /** Index of the first `"` of `t` at or after `i`. */
  function QuoteFrom(t: string, i: nat): (r: Option<nat>)
    requires i <= |t|
    ensures r.Some? ==> i <= r.value < |t| && t[r.value] == '"'
    ensures r.Some? ==> forall j :: i <= j < r.value ==> t[j] != '"'
    ensures r.None? ==> forall j :: i <= j < |t| ==> t[j] != '"'
    decreases |t| - i
  {
    if i == |t| then None
    else if t[i] == '"' then Some(i)
    else QuoteFrom(t, i + 1)
  }

  /**
   * `style="[^"]*prop\s*(white|#fff(f)?)\b[^"]*"` at the start of `t`: no `[^"]*`
   * can pass a quote, so every match ends at the first quote after `style="`,
   * whichever way the regex backtracks.
   */
  function StyleMatch(prop: string, t: string): Option<nat> {
    if !StartsCi(t, "style=\"") then None
    else match QuoteFrom(t, 7)
      case None => None
      case Some(j) => if HasWhiteDecl(prop, t[7..j]) then Some(j + 1) else None
  }

  /** Length of the match of `rule` at the start of `t`, if it matches there. */
  function MatchLen(rule: Rule, t: string): (r: Option<nat>)
    ensures r.Some? ==> |Anchor(rule)| < r.value <= |t| && StartsCi(t, Anchor(rule)) && t[r.value - 1] == '"'
  {
    match rule
    case FillHex =>
      if StartsCi(t, "fill=\"fff\"") then Some(10)
      else if StartsCi(t, "fill=\"ffff\"") then Some(11)
      else if StartsCi(t, "fill=\"#fff\"") then Some(11)
      else if StartsCi(t, "fill=\"#ffff\"") then Some(12)
      else None
    case FillWhite =>
      if StartsCi(t, "fill=\"white\"") then Some(12) else None
    case StyleColor => StyleMatch("color:", t)
    case StyleFill => StyleMatch("fill:", t)
  }

  /** No position of `t` starts a match of `rule`. */
  predicate NoMatch(rule: Rule, t: string)
    decreases |t|
  {
    MatchLen(rule, t).None? && (t == [] || NoMatch(rule, t[1..]))
  }

  /**
   * `t.replace(regex, rep)` with a global regex: scanning left to right, each
   * match is replaced by `rep` and scanning resumes after it; every other
   * character is copied.
   */
  function ReplaceAll(rule: Rule, rep: string, t: string): (r: string)
    ensures NoMatch(rule, t) ==> r == t
    decreases |t|
  {
    if t == [] then []
    else match MatchLen(rule, t)
      case Some(n) => rep + ReplaceAll(rule, rep, t[n..])
      case None => [t[0]] + ReplaceAll(rule, rep, t[1..])
  }

  /** No match of `rule` starts at a position of `x` in `x + y`. */
  predicate NoMatchBefore(rule: Rule, x: string, y: string)
    decreases |x|
  {
    x == [] || (MatchLen(rule, x + y).None? && NoMatchBefore(rule, x[1..], y))
  }

  /** `NoMatchBefore` position by position. */
  lemma {:induction false} NoMatchBeforeAt(rule: Rule, x: string, y: string)
    ensures NoMatchBefore(rule, x, y) <==> forall i :: 0 <= i < |x| ==> MatchLen(rule, x[i..] + y).None?
    decreases |x|
  {
    if x != [] {
      NoMatchBeforeAt(rule, x[1..], y);
      assert x[0..] == x;
      assert forall i :: 1 <= i < |x| ==> x[i..] == x[1..][i - 1..];
    }
  }

  /** Where no match starts, the scan copies one character and goes on. */
  lemma ReplaceAllSkip(rule: Rule, rep: string, t: string)
    requires t != [] && MatchLen(rule, t).None?
    ensures ReplaceAll(rule, rep, t) == [t[0]] + ReplaceAll(rule, rep, t[1..])
  {
  }

  /** The scan copies text in which no match starts, then goes on with what follows it. */
  lemma {:induction false} ReplaceAllCopies(rule: Rule, rep: string, x: string, y: string)
    requires NoMatchBefore(rule, x, y)
    ensures ReplaceAll(rule, rep, x + y) == x + ReplaceAll(rule, rep, y)
  {
    if x == [] {
      assert x + y == y;
    } else {
      ReplaceAllCopies(rule, rep, x[1..], y);
      ReplaceAllSkip(rule, rep, x + y);
      ConsAppend(x, y);
      AssocThree([x[0]], x[1..], ReplaceAll(rule, rep, y));
    }
  }

  lemma ConsAppend(x: string, y: string)
    requires x != []
    ensures (x + y)[0] == x[0] && (x + y)[1..] == x[1..] + y && x == [x[0]] + x[1..]
  {
  }

  /**
   * The leftmost match `m`, after text `x` in which no match starts, is
   * replaced by `rep`; `x` is copied and the scan resumes right after `m`.
   */
  lemma ReplaceAllAround(rule: Rule, rep: string, x: string, m: string, y: string)
    requires NoMatchBefore(rule, x, m + y)
    requires MatchLen(rule, m + y) == Some(|m|)
    ensures ReplaceAll(rule, rep, x + m + y) == x + rep + ReplaceAll(rule, rep, y)
  {
    ReplaceAllCopies(rule, rep, x, m + y);
    ReplaceAllHead(rule, rep, m, y);
    AssocThree(x, m, y);
    AssocThree(x, rep, ReplaceAll(rule, rep, y));
  }

  /** A match covering exactly `m` at the start of `m + y` is replaced, and the scan resumes at `y`. */
  lemma ReplaceAllHead(rule: Rule, rep: string, m: string, y: string)
    requires MatchLen(rule, m + y) == Some(|m|)
    ensures ReplaceAll(rule, rep, m + y) == rep + ReplaceAll(rule, rep, y)
  {
    assert (m + y)[|m|..] == y;
  }

  /**
   * Scanning the text after `x` with a replacement that starts with its
   * rule's anchor creates no match of `q` starting inside `x`.
   */
  lemma {:induction false} NoMatchBeforeKept(q: Rule, rule: Rule, rep: string, x: string, y: string)
    requires StartsCi(rep, Anchor(rule))
    requires NoMatchBefore(q, x, y)
    ensures NoMatchBefore(q, x, ReplaceAll(rule, rep, y))
    decreases |x|
  {
    var o := ReplaceAll(rule, rep, y);
    if x != [] && o != y {
      NoMatchBeforeKept(q, rule, rep, x[1..], y);
      var p := ScanAgrees(rule, rep, y);
      TransferAfter(q, Anchor(rule), x, o, y, p);
    }
  }

  /** A match at the start of `x + o` is also one of `x + y` when `o` and `y` agree up to a common anchor. */
  lemma TransferAfter(q: Rule, anchor: string, x: string, o: string, y: string, p: nat)
    requires anchor == "fill=\"" || anchor == "style=\""
    requires x != [] && p <= |o| && p <= |y| && o[..p] == y[..p]
    requires StartsCi(o[p..], anchor) && StartsCi(y[p..], anchor)
    ensures MatchLen(q, x + o).Some? ==> MatchLen(q, x + y).Some?
  {
    SplitAfter(x, o, y, p);
    Transfer(q, x + o, x + y, |x| + p, anchor);
  }

  /** Two texts that agree on their first `p` characters still agree after the same prefix `x`. */
  lemma SplitAfter(x: string, o: string, y: string, p: nat)
    requires p <= |o| && p <= |y| && o[..p] == y[..p]
    ensures (x + o)[..|x| + p] == (x + y)[..|x| + p]
    ensures (x + o)[|x| + p..] == o[p..] && (x + y)[|x| + p..] == y[p..]
  {
    assert (x + o)[..|x| + p] == x + o[..p];
    assert (x + y)[..|x| + p] == x + y[..p];
  }

  // ---------------------------------------------------------------------------
  // Facts about matching used by the idempotence proofs of the fixColors chains.
  // ---------------------------------------------------------------------------

  lemma StartsCiAt(t: string, lit: string, k: nat)
    requires StartsCi(t, lit) && k < |lit|
    ensures Fold(t[k]) == lit[k]
  {
  }

  /** A single mismatching position rules a literal out. */
  lemma NotStartsCi(t: string, lit: string, k: nat)
    requires k < |lit| && (k >= |t| || Fold(t[k]) != lit[k])
    ensures !StartsCi(t, lit)
  {
  }

  lemma StartsCiAppend(t: string, y: string, lit: string)
    requires StartsCi(t, lit)
    ensures StartsCi(t + y, lit)
  {
    assert forall k :: 0 <= k < |lit| ==> (t + y)[k] == t[k];
  }

  /** Characters that fold together agree on every class the matchers test. */
  lemma FoldFacts(c: char, d: char)
    requires Fold(c) == Fold(d)
    ensures IsJsSpace(c) == IsJsSpace(d) && IsWordChar(c) == IsWordChar(d)
    ensures (c == '"') == (d == '"') && (c == '#') == (d == '#')
  {
  }

  /** Equal up to ASCII case. */
  predicate CiEq(a: string, b: string) {
    |a| == |b| && forall k :: 0 <= k < |a| ==> Fold(a[k]) == Fold(b[k])
  }

  lemma CiWhiteToken(v: string, w: string)
    requires CiEq(v, w)
    ensures WhiteToken(v) == WhiteToken(w)
  {
    forall k | 0 <= k < |v|
      ensures IsWordChar(v[k]) == IsWordChar(w[k]) && (v[k] == '#') == (w[k] == '#')
    {
      FoldFacts(v[k], w[k]);
    }
  }

  lemma {:induction false} CiSpacesThenWhite(v: string, w: string)
    requires CiEq(v, w)
    ensures SpacesThenWhite(v) == SpacesThenWhite(w)
    decreases |v|
  {
    if v != [] {
      FoldFacts(v[0], w[0]);
    }
    if v != [] && IsJsSpace(v[0]) {
      CiSpacesThenWhite(v[1..], w[1..]);
    } else {
      CiWhiteToken(v, w);
    }
  }

  /** Whether a style value declares a property white does not depend on letter case. */
  lemma {:induction false} CiHasWhiteDecl(prop: string, v: string, w: string)
    requires CiEq(v, w)
    ensures HasWhiteDecl(prop, v) == HasWhiteDecl(prop, w)
    decreases |v|
  {
    if |prop| <= |v| {
      CiSpacesThenWhite(v[|prop|..], w[|prop|..]);
    }
    if v != [] {
      CiHasWhiteDecl(prop, v[1..], w[1..]);
    }
  }

  lemma {:induction false} NoMatchSuffix(rule: Rule, t: string, n: nat)
    requires NoMatch(rule, t) && n <= |t|
    ensures NoMatch(rule, t[n..])
  {
    if n > 0 {
      NoMatchSuffix(rule, t[1..], n - 1);
      assert t[1..][n - 1..] == t[n..];
    }
  }

  lemma {:induction false} NoMatchConcat(rule: Rule, x: string, y: string)
    requires forall i :: 0 <= i < |x| ==> MatchLen(rule, x[i..] + y).None?
    requires NoMatch(rule, y)
    ensures NoMatch(rule, x + y)
  {
    if x == [] {
      assert x + y == y;
    } else {
      assert x[0..] + y == x + y;
      forall i | 0 <= i < |x[1..]|
        ensures MatchLen(rule, x[1..][i..] + y).None?
      {
        assert x[1..][i..] == x[i + 1..];
      }
      NoMatchConcat(rule, x[1..], y);
      assert (x + y)[1..] == x[1..] + y;
    }
  }

  /** Prefixing the same character keeps two strings in step up to a common anchor. */
  lemma AgreeCons(c: char, u: string, o: string, p: nat, anchor: string)
    requires p <= |u| && p <= |o| && u[..p] == o[..p]
    requires StartsCi(u[p..], anchor) && StartsCi(o[p..], anchor)
    ensures var u', o' := [c] + u, [c] + o;
      p + 1 <= |u'| && p + 1 <= |o'| && u'[..p + 1] == o'[..p + 1]
      && StartsCi(u'[p + 1..], anchor) && StartsCi(o'[p + 1..], anchor)
  {
    var u', o' := [c] + u, [c] + o;
    assert u'[..p + 1] == [c] + u[..p];
    assert o'[..p + 1] == [c] + o[..p];
    assert u'[p + 1..] == u[p..];
    assert o'[p + 1..] == o[p..];
  }

  /** Where the scan matches, both the input and the output start with the anchor. */
  lemma ScanHit(rule: Rule, rep: string, u: string)
    requires StartsCi(rep, Anchor(rule)) && MatchLen(rule, u).Some?
    ensures var o := ReplaceAll(rule, rep, u);
      u[0..] == u && o[0..] == o && StartsCi(u[0..], Anchor(rule)) && StartsCi(o[0..], Anchor(rule))
  {
    var n := MatchLen(rule, u).value;
    StartsCiAppend(rep, ReplaceAll(rule, rep, u[n..]), Anchor(rule));
  }

  /**
   * Where the output of a replacement scan first differs from its input, both
   * continue with the rule's anchor (the match there, and the replacement).
   */
  lemma {:induction false} ScanAgrees(rule: Rule, rep: string, u: string) returns (p: nat)
    requires StartsCi(rep, Anchor(rule))
    ensures var o := ReplaceAll(rule, rep, u);
      o == u
      || (p <= |u| && p <= |o| && u[..p] == o[..p]
          && StartsCi(u[p..], Anchor(rule)) && StartsCi(o[p..], Anchor(rule)))
    decreases |u|
  {
    p := 0;
    if u != [] {
      var o := ReplaceAll(rule, rep, u);
      var m := MatchLen(rule, u);
      if m.Some? {
        ScanHit(rule, rep, u);
      } else {
        var p' := ScanAgrees(rule, rep, u[1..]);
        var o' := ReplaceAll(rule, rep, u[1..]);
        assert o == [u[0]] + o' && u == [u[0]] + u[1..];
        if o' != u[1..] {
          p := p' + 1;
          AgreeCons(u[0], u[1..], o', p', Anchor(rule));
        }
      }
    }
  }


  /** No position of `lit` after the first could begin `anchor`. */
  predicate NoInnerAnchor(lit: string, anchor: string)
    requires |anchor| >= 2
  {
    forall k {:trigger lit[k]} :: 1 <= k < |lit| ==> lit[k] != anchor[0] || (k + 1 < |lit| && lit[k + 1] != anchor[1])
  }

  /** The fixed literals of the four rules have no anchor inside them. */
  lemma LiteralsHaveNoInnerAnchor(anchor: string)
    requires anchor == "fill=\"" || anchor == "style=\""
    ensures NoInnerAnchor("fill=\"fff\"", anchor) && NoInnerAnchor("fill=\"ffff\"", anchor)
    ensures NoInnerAnchor("fill=\"#fff\"", anchor) && NoInnerAnchor("fill=\"#ffff\"", anchor)
    ensures NoInnerAnchor("fill=\"white\"", anchor) && NoInnerAnchor("style=\"", anchor)
  {
  }

  /**
   * A literal that has no anchor starting inside it keeps matching when the
   * text from `p` on is exchanged for other text that starts with that anchor.
   */
  lemma LiteralTransfer(lit: string, a: string, b: string, p: nat, anchor: string)
    requires |anchor| >= 2 && NoInnerAnchor(lit, anchor)
    requires 1 <= p <= |a| && p <= |b| && a[..p] == b[..p]
    requires StartsCi(a[p..], anchor)
    requires StartsCi(a, lit)
    ensures p >= |lit| && StartsCi(b, lit)
  {
    if p < |lit| {
      StartsCiAt(a, lit, p);
      StartsCiAt(a[p..], anchor, 0);
      if p + 1 < |lit| {
        StartsCiAt(a, lit, p + 1);
        StartsCiAt(a[p..], anchor, 1);
      }
      assert false;
    }
    forall k | 0 <= k < |lit|
      ensures Fold(b[k]) == lit[k]
    {
      assert a[..p][k] == b[..p][k];
      StartsCiAt(a, lit, k);
    }
  }

  /** An anchor at `p` ends with its quote, the first one from `p` on. */
  lemma AnchorQuote(a: string, p: nat, anchor: string)
    requires anchor == "fill=\"" || anchor == "style=\""
    requires p <= |a| && StartsCi(a[p..], anchor)
    ensures p + |anchor| <= |a| && a[p + |anchor| - 1] == '"'
    ensures forall j :: p <= j < p + |anchor| - 1 ==> a[j] != '"'
    ensures forall j :: p <= j < p + |anchor| ==> Fold(a[j]) == anchor[j - p]
  {
    forall j | p <= j < p + |anchor|
      ensures Fold(a[j]) == anchor[j - p]
    {
      StartsCiAt(a[p..], anchor, j - p);
    }
  }

  /** Texts with the same first `p` characters agree at each of them. */
  lemma PrefixAgree(a: string, b: string, p: nat)
    requires p <= |a| && p <= |b| && a[..p] == b[..p]
    ensures forall j :: 0 <= j < p ==> a[j] == b[j]
  {
    forall j | 0 <= j < p
      ensures a[j] == b[j]
    {
      assert a[..p][j] == b[..p][j];
    }
  }

  lemma StyleTransfer(prop: string, a: string, b: string, p: nat, anchor: string)
    requires anchor == "fill=\"" || anchor == "style=\""
    requires 1 <= p <= |a| && p <= |b| && a[..p] == b[..p]
    requires StartsCi(a[p..], anchor) && StartsCi(b[p..], anchor)
    requires StyleMatch(prop, a).Some?
    ensures StyleMatch(prop, b).Some?
  {
    LiteralsHaveNoInnerAnchor(anchor);
    LiteralTransfer("style=\"", a, b, p, anchor);
    var q := p + |anchor| - 1;
    AnchorQuote(a, p, anchor);
    AnchorQuote(b, p, anchor);
    PrefixAgree(a, b, p);
    var ja := QuoteFrom(a, 7).value;
    var jb := QuoteFrom(b, 7).value;
    if ja < p {
      assert jb == ja;
      assert a[7..ja] == b[7..ja];
    } else {
      assert ja == q && jb == q;
      forall k | 0 <= k < q - 7
        ensures Fold(a[7..q][k]) == Fold(b[7..q][k])
      {
        assert a[7..q][k] == a[7 + k] && b[7..q][k] == b[7 + k];
      }
      CiHasWhiteDecl(prop, a[7..q], b[7..q]);
    }
  }

  /**
   * Exchanging the text after position `p` for other text that also starts
   * with an anchor at `p` cannot create a match at the start.
   */
  lemma Transfer(rule: Rule, a: string, b: string, p: nat, anchor: string)
    requires anchor == "fill=\"" || anchor == "style=\""
    requires 1 <= p <= |a| && p <= |b| && a[..p] == b[..p]
    requires StartsCi(a[p..], anchor) && StartsCi(b[p..], anchor)
    ensures MatchLen(rule, a).Some? ==> MatchLen(rule, b).Some?
  {
    if MatchLen(rule, a).Some? {
      LiteralsHaveNoInnerAnchor(anchor);
      match rule
      case FillHex =>
        if StartsCi(a, "fill=\"fff\"") {
          LiteralTransfer("fill=\"fff\"", a, b, p, anchor);
        } else if StartsCi(a, "fill=\"ffff\"") {
          LiteralTransfer("fill=\"ffff\"", a, b, p, anchor);
        } else if StartsCi(a, "fill=\"#fff\"") {
          LiteralTransfer("fill=\"#fff\"", a, b, p, anchor);
        } else {
          LiteralTransfer("fill=\"#ffff\"", a, b, p, anchor);
        }
      case FillWhite =>
        LiteralTransfer("fill=\"white\"", a, b, p, anchor);
      case StyleColor =>
        StyleTransfer("color:", a, b, p, anchor);
      case StyleFill =>
        StyleTransfer("fill:", a, b, p, anchor);
    }
  }

  // ---------------------------------------------------------------------------
  // Replacement texts that no rule can match, and what a scan preserves.
  // ---------------------------------------------------------------------------

  /** The quotes of `r` are exactly at `q0` and at its last position. */
  predicate QuotedOnlyAt(r: string, q0: nat) {
    q0 + 1 < |r| && r[q0] == '"' && r[|r| - 1] == '"'
    && forall j :: 0 <= j < |r| - 1 && j != q0 ==> r[j] != '"'
  }

  /** No anchor begins after the first character of `r`, whatever text follows `r`. */
  lemma NoAnchorInside(r: string, q0: nat, y: string, i: nat, anchor: string)
    requires anchor == "fill=\"" || anchor == "style=\""
    requires QuotedOnlyAt(r, q0) && (q0 == 5 || q0 == 6)
    requires r[|r| - 2] != '=' && Fold(r[1]) != 'f'
    requires 1 <= i < |r|
    ensures !StartsCi((r + y)[i..], anchor)
  {
    var t := (r + y)[i..];
    var e := |anchor| - 1;
    if i + e < |r| - 1 && i + e != q0 {
      assert t[e] == r[i + e];
      NotStartsCi(t, anchor, e);
    } else if i + e == |r| - 1 {
      assert t[e - 1] == r[|r| - 2];
      NotStartsCi(t, anchor, e - 1);
    } else if i + e == q0 {
      assert t[0] == r[1];
      NotStartsCi(t, anchor, 0);
    } else {
      assert t[|r| - 1 - i] == '"';
      NotStartsCi(t, anchor, |r| - 1 - i);
    }
  }

  /** `fill="#hhhhhh"`, a six-character colour, starts no match, whatever follows it. */
  lemma FillRepClear(r: string, y: string, rule: Rule)
    requires |r| == 14 && StartsCi(r, "fill=\"") && r[6] == '#' && QuotedOnlyAt(r, 5)
    ensures MatchLen(rule, r + y).None?
  {
    var t := r + y;
    assert t[0] == r[0] && t[6] == '#' && t[10] == r[10] && t[11] == r[11];
    StartsCiAt(r, "fill=\"", 0);
    NotStartsCi(t, "fill=\"fff\"", 6);
    NotStartsCi(t, "fill=\"ffff\"", 6);
    NotStartsCi(t, "fill=\"#fff\"", 10);
    NotStartsCi(t, "fill=\"#ffff\"", 11);
    NotStartsCi(t, "fill=\"white\"", 6);
    NotStartsCi(t, "style=\"", 0);
  }

  /** `style="v"` with a value declaring neither property white starts no match, whatever follows it. */
  lemma StyleRepClear(r: string, y: string, rule: Rule)
    requires StartsCi(r, "style=\"") && QuotedOnlyAt(r, 6)
    requires !HasWhiteDecl("color:", r[7..|r| - 1]) && !HasWhiteDecl("fill:", r[7..|r| - 1])
    ensures MatchLen(rule, r + y).None?
  {
    var t := r + y;
    StartsCiAt(r, "style=\"", 0);
    assert t[0] == r[0];
    NotStartsCi(t, "fill=\"fff\"", 0);
    NotStartsCi(t, "fill=\"ffff\"", 0);
    NotStartsCi(t, "fill=\"#fff\"", 0);
    NotStartsCi(t, "fill=\"#ffff\"", 0);
    NotStartsCi(t, "fill=\"white\"", 0);
    StartsCiAppend(r, y, "style=\"");
    forall j | 7 <= j < |r| - 1
      ensures t[j] != '"'
    {
      assert t[j] == r[j];
    }
    assert t[|r| - 1] == '"';
    assert QuoteFrom(t, 7) == Some(|r| - 1);
    assert t[7..|r| - 1] == r[7..|r| - 1];
  }

  lemma {:induction false} NoSpacesThenWhite(w: string)
    requires forall k :: 0 <= k < |w| ==> !WhiteToken(w[k..])
    ensures !SpacesThenWhite(w)
    decreases |w|
  {
    if w != [] && IsJsSpace(w[0]) {
      forall k | 0 <= k < |w[1..]|
        ensures !WhiteToken(w[1..][k..])
      {
        assert w[1..][k..] == w[k + 1..];
      }
      NoSpacesThenWhite(w[1..]);
    } else if w != [] {
      assert w[0..] == w;
    }
  }

  /** No white colour token begins anywhere in `v`. */
  predicate NoWhiteToken(v: string) {
    forall k :: 0 <= k < |v| ==> !WhiteToken(v[k..])
  }

  /** A value in which no white colour token begins declares nothing white. */
  lemma {:induction false} NoDeclWithoutToken(prop: string, v: string)
    requires forall k :: 0 <= k < |v| ==> !WhiteToken(v[k..])
    ensures !HasWhiteDecl(prop, v)
    decreases |v|
  {
    if |prop| <= |v| {
      forall k | 0 <= k < |v[|prop|..]|
        ensures !WhiteToken(v[|prop|..][k..])
      {
        assert v[|prop|..][k..] == v[|prop| + k..];
      }
      NoSpacesThenWhite(v[|prop|..]);
    }
    if v != [] {
      forall k | 0 <= k < |v[1..]|
        ensures !WhiteToken(v[1..][k..])
      {
        assert v[1..][k..] == v[k + 1..];
      }
      NoDeclWithoutToken(prop, v[1..]);
    }
  }

  /** No rule matches at any position of `rep`, whatever text follows it. */
  ghost predicate Inert(rep: string) {
    forall rule: Rule, y: string, i :: 0 <= i < |rep| ==> MatchLen(rule, rep[i..] + y).None?
  }

  lemma FillRepInert(r: string)
    requires |r| == 14 && StartsCi(r, "fill=\"") && r[6] == '#' && QuotedOnlyAt(r, 5) && r[12] != '='
    ensures Inert(r)
  {
    StartsCiAt(r, "fill=\"", 1);
    forall rule: Rule, y: string, i | 0 <= i < |r|
      ensures MatchLen(rule, r[i..] + y).None?
    {
      if i == 0 {
        assert r[0..] + y == r + y;
        FillRepClear(r, y, rule);
      } else {
        assert r[i..] + y == (r + y)[i..];
        NoAnchorInside(r, 5, y, i, Anchor(rule));
      }
    }
  }

  lemma StyleRepInert(r: string)
    requires StartsCi(r, "style=\"") && QuotedOnlyAt(r, 6) && r[|r| - 2] != '='
    requires NoWhiteToken(r[7..|r| - 1])
    ensures Inert(r)
  {
    StartsCiAt(r, "style=\"", 1);
    var v := r[7..|r| - 1];
    NoDeclWithoutToken("color:", v);
    NoDeclWithoutToken("fill:", v);
    forall rule: Rule, y: string, i | 0 <= i < |r|
      ensures MatchLen(rule, r[i..] + y).None?
    {
      if i == 0 {
        assert r[0..] + y == r + y;
        StyleRepClear(r, y, rule);
      } else {
        assert r[i..] + y == (r + y)[i..];
        NoAnchorInside(r, 6, y, i, Anchor(rule));
      }
    }
  }

  /**
   * A scan with an inert replacement leaves no match of its own rule behind,
   * and creates no match of any other rule in text that had none.
   */
  lemma {:induction false} ReplacePreserves(q: Rule, rule: Rule, rep: string, s: string)
    requires StartsCi(rep, Anchor(rule)) && Inert(rep)
    requires q == rule || NoMatch(q, s)
    ensures NoMatch(q, ReplaceAll(rule, rep, s))
    decreases |s|
  {
    if s != [] {
      match MatchLen(rule, s)
      case Some(n) =>
        if q != rule {
          NoMatchSuffix(q, s, n);
        }
        ReplacePreserves(q, rule, rep, s[n..]);
        var o' := ReplaceAll(rule, rep, s[n..]);
        forall i | 0 <= i < |rep|
          ensures MatchLen(q, rep[i..] + o').None?
        {
        }
        NoMatchConcat(q, rep, o');
      case None =>
        ReplacePreserves(q, rule, rep, s[1..]);
        CopyPreserves(q, rule, rep, s);
    }
  }

  /** Copying a character the scan did not match keeps the output free of `q` matches. */
  lemma CopyPreserves(q: Rule, rule: Rule, rep: string, s: string)
    requires StartsCi(rep, Anchor(rule))
    requires s != [] && MatchLen(rule, s).None? && MatchLen(q, s).None?
    requires NoMatch(q, ReplaceAll(rule, rep, s[1..]))
    ensures NoMatch(q, ReplaceAll(rule, rep, s))
  {
    var o' := ReplaceAll(rule, rep, s[1..]);
    var a := [s[0]] + o';
    ReplaceAllSkip(rule, rep, s);
    SplitHead(s, []);
    var p := ScanAgrees(rule, rep, s[1..]);
    if o' != s[1..] {
      TransferAfter(q, Anchor(rule), [s[0]], o', s[1..], p);
    }
    assert a[1..] == o';
  }
}
