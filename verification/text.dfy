/**
 * String helpers shared by the backend (Python) and frontend (JavaScript) models:
 * the whitespace sets of both runtimes, strip/trim, splitting on separator
 * characters, joining, and first-occurrence search.
 */
module Text {
  import opened Wrappers

  /** Python's `str.isspace()`: the characters `\s` and `strip()` treat as whitespace. */
  predicate IsPySpace(c: char) {
    var n := c as int;
    (0x09 <= n <= 0x0D) || (0x1C <= n <= 0x20) || n == 0x85 || n == 0xA0 || n == 0x1680
    || (0x2000 <= n <= 0x200A) || n == 0x2028 || n == 0x2029 || n == 0x202F || n == 0x205F || n == 0x3000
  }

  /** JavaScript's WhiteSpace and LineTerminator: what `String.prototype.trim` and regex `\s` accept. */
  predicate IsJsSpace(c: char) {
    var n := c as int;
    (0x09 <= n <= 0x0D) || n == 0x20 || n == 0xA0 || n == 0x1680
    || (0x2000 <= n <= 0x200A) || n == 0x2028 || n == 0x2029 || n == 0x202F || n == 0x205F || n == 0x3000
    || n == 0xFEFF
  }

  /** The character sets the source strips from both ends of a string. */
  datatype StripSet =
    | PySpace      // Python `s.strip()`
    | JsSpace      // JavaScript `s.trim()`
    | DashOrSpace  // Python `s.strip("- ")`

  predicate Strips(k: StripSet, c: char) {
    match k
    case PySpace => IsPySpace(c)
    case JsSpace => IsJsSpace(c)
    case DashOrSpace => c == '-' || c == ' '
  }

  /** Neither end of `s` is a character of `k`. */
  predicate IsStripped(k: StripSet, s: string) {
    s == [] || (!Strips(k, s[0]) && !Strips(k, s[|s| - 1]))
  }

  /** How many characters of `k` open `s`. */
  function LeadCount(k: StripSet, s: string): (n: nat)
    ensures n <= |s|
    ensures forall j :: 0 <= j < n ==> Strips(k, s[j])
    ensures n == |s| || !Strips(k, s[n])
  {
    if s != [] && Strips(k, s[0]) then
      var n := 1 + LeadCount(k, s[1..]);
      assert forall j :: 1 <= j < n ==> s[j] == s[1..][j - 1];
      n
    else 0
  }

  /** How many characters of `k` close `s`. */
  function TrailCount(k: StripSet, s: string): (n: nat)
    ensures n <= |s|
    ensures forall j :: |s| - n <= j < |s| ==> Strips(k, s[j])
    ensures n == |s| || !Strips(k, s[|s| - n - 1])
  {
    if s != [] && Strips(k, s[|s| - 1]) then
      var front := s[..|s| - 1];
      var n := 1 + TrailCount(k, front);
      assert forall j :: |s| - n <= j < |s| - 1 ==> s[j] == front[j];
      n
    else 0
  }

  function TrimLeft(k: StripSet, s: string): string {
    s[LeadCount(k, s)..]
  }

  function TrimRight(k: StripSet, s: string): string {
    s[..|s| - TrailCount(k, s)]
  }

  /** Removes every leading and trailing character of `k` and nothing else. */
  function Strip(k: StripSet, s: string): (r: string)
    ensures IsStripped(k, r)
  {
    TrimRight(k, TrimLeft(k, s))
  }

  /** The result of `Strip` is the slice of its input after the leading characters of `k`. */
  lemma StripIsSlice(k: StripSet, s: string)
    ensures var r := Strip(k, s); var i := LeadCount(k, s);
      i + |r| <= |s| && r == s[i..i + |r|]
  {
  }

  /**
   * `Strip` removes only characters of `k`: every other character of the
   * input survives, at its place shifted by the number of leading characters
   * of `k`.
   */
  lemma StripKeepsInner(k: StripSet, s: string, j: nat)
    requires j < |s| && !Strips(k, s[j])
    ensures var r := Strip(k, s); var i := LeadCount(k, s);
      i <= j < i + |r| && r[j - i] == s[j]
  {
    var i := LeadCount(k, s);
    var l := s[i..];
    var t := TrailCount(k, l);
    assert j >= i;
    assert l[j - i] == s[j];
    assert j - i < |l| - t;
  }

  lemma StripOfStripped(k: StripSet, s: string)
    requires IsStripped(k, s)
    ensures Strip(k, s) == s
  {
  }

  lemma {:induction false} StripIdempotent(k: StripSet, s: string)
    ensures Strip(k, Strip(k, s)) == Strip(k, s)
  {
    StripOfStripped(k, Strip(k, s));
  }

  /** Each piece stripped of the characters of `k`: `[p.strip() for p in pieces]`, `pieces.map(p => p.trim())`. */
  function StripAll(k: StripSet, pieces: seq<string>): (r: seq<string>)
    ensures |r| == |pieces|
    ensures forall j :: 0 <= j < |r| ==> r[j] == Strip(k, pieces[j])
  {
    seq(|pieces|, j requires 0 <= j < |pieces| => Strip(k, pieces[j]))
  }

  lemma StripAllStripped(k: StripSet, ps: seq<string>)
    requires forall j :: 0 <= j < |ps| ==> IsStripped(k, ps[j])
    ensures StripAll(k, ps) == ps
  {
    forall j | 0 <= j < |ps|
      ensures Strip(k, ps[j]) == ps[j]
    {
      StripOfStripped(k, ps[j]);
    }
  }

  /** `[p for p in pieces if p]`, `pieces.filter(p => p)`: the empty string is the only falsy string. */
  function DropEmpty(pieces: seq<string>): (r: seq<string>)
    ensures |r| <= |pieces|
    ensures forall j :: 0 <= j < |r| ==> r[j] != [] && r[j] in pieces
    ensures (forall j :: 0 <= j < |pieces| ==> pieces[j] != []) ==> r == pieces
  {
    if pieces == [] then []
    else if pieces[0] == [] then DropEmpty(pieces[1..])
    else [pieces[0]] + DropEmpty(pieces[1..])
  }

  /** Dropping keeps the order: dropping from a concatenation concatenates what each part keeps. */
  lemma {:induction false} DropEmptyAppend(a: seq<string>, b: seq<string>)
    ensures DropEmpty(a + b) == DropEmpty(a) + DropEmpty(b)
  {
    if a != [] {
      DropEmptyAppend(a[1..], b);
      assert (a + b)[0] == a[0];
      assert (a + b)[1..] == a[1..] + b;
      if a[0] == [] {
        assert DropEmpty(a + b) == DropEmpty(a[1..] + b);
      } else {
        assert DropEmpty(a + b) == [a[0]] + DropEmpty(a[1..] + b);
      }
    } else {
      assert a + b == b;
    }
  }

  /** `f` applied to each item, in order: a comprehension's expression. */
  function Map<T, U>(f: T -> U, xs: seq<T>): (r: seq<U>)
    ensures |r| == |xs|
    ensures forall j :: 0 <= j < |r| ==> r[j] == f(xs[j])
  {
    seq(|xs|, j requires 0 <= j < |xs| => f(xs[j]))
  }

  lemma MapAppend<T, U>(f: T -> U, a: seq<T>, b: seq<T>)
    ensures Map(f, a + b) == Map(f, a) + Map(f, b)
  {
  }

  /** The items of `xs` that pass `keep`, in order: a comprehension's `if` clause. */
  function Filter<T>(keep: T -> bool, xs: seq<T>): (r: seq<T>)
    ensures |r| <= |xs|
    ensures forall j :: 0 <= j < |r| ==> r[j] in xs && keep(r[j])
  {
    if xs == [] then []
    else if keep(xs[0]) then [xs[0]] + Filter(keep, xs[1..])
    else Filter(keep, xs[1..])
  }

  lemma FilterOne<T>(keep: T -> bool, x: T)
    ensures Filter(keep, [x]) == if keep(x) then [x] else []
  {
    assert [x][1..] == [];
  }

  /** A slice inside a prefix is the same slice of the whole. */
  lemma SliceOfPrefix<T>(s: seq<T>, k: nat, a: nat, b: nat)
    requires a <= b <= k <= |s|
    ensures s[..k][a..b] == s[a..b]
  {
  }

  /** Filtering a sequence that starts with `x` deals with `x` first. */
  lemma FilterCons<T>(keep: T -> bool, x: T, xs: seq<T>)
    ensures Filter(keep, [x] + xs) == (if keep(x) then [x] else []) + Filter(keep, xs)
  {
    assert ([x] + xs)[1..] == xs;
  }

  /** A non-empty `a` is its head before its tail, and so is `a + b`. */
  lemma SplitHead<T>(a: seq<T>, b: seq<T>)
    requires a != []
    ensures a == [a[0]] + a[1..] && a + b == [a[0]] + (a[1..] + b)
  {
  }

  lemma AssocThree<T>(a: seq<T>, b: seq<T>, c: seq<T>)
    ensures a + (b + c) == (a + b) + c
  {
  }

  /** Filtering keeps the order: filtering a concatenation concatenates the filtered parts. */
  lemma {:induction false} FilterAppend<T>(keep: T -> bool, a: seq<T>, b: seq<T>)
    ensures Filter(keep, a + b) == Filter(keep, a) + Filter(keep, b)
  {
    if a == [] {
      assert a + b == b;
    } else {
      var x, rest := a[0], a[1..];
      SplitHead(a, b);
      FilterCons(keep, x, rest + b);
      FilterAppend(keep, rest, b);
      FilterCons(keep, x, rest);
      AssocThree(if keep(x) then [x] else [], Filter(keep, rest), Filter(keep, b));
    }
  }

  /**
   * The pieces between occurrences of separator characters, as Python's
   * `re.split(r'[...]', s)` and JavaScript's `s.split(',')` return them:
   * one more piece than separators, empty pieces kept.
   */
  function SplitWhere(s: string, seps: set<char>): (r: seq<string>)
    ensures |r| == 1 + CountIn(s, seps)
    ensures forall p, c :: p in r && c in p ==> c !in seps
  {
    if s == [] then [[]]
    else
      var rest := SplitWhere(s[1..], seps);
      if s[0] in seps then [[]] + rest
      else [[s[0]] + rest[0]] + rest[1..]
  }

  /** Number of characters of `s` in `seps`. */
  function CountIn(s: string, seps: set<char>): nat {
    if s == [] then 0 else (if s[0] in seps then 1 else 0) + CountIn(s[1..], seps)
  }

  /** `glue.join(parts)` in Python, `parts.join(glue)` in JavaScript. */
  function Join(parts: seq<string>, glue: string): string {
    if |parts| == 0 then []
    else if |parts| == 1 then parts[0]
    else parts[0] + glue + Join(parts[1..], glue)
  }

  /** Splitting on one separator and joining again with it gives back the input. */
  lemma {:induction false} JoinSplit(s: string, sep: char)
    ensures Join(SplitWhere(s, {sep}), [sep]) == s
  {
    if s != [] {
      JoinSplit(s[1..], sep);
      var rest := SplitWhere(s[1..], {sep});
      if s[0] != sep {
        assert [s[0]] + Join(rest, [sep]) == s;
        if |rest| > 1 {
          assert Join([[s[0]] + rest[0]] + rest[1..], [sep])
              == [s[0]] + rest[0] + [sep] + Join(rest[1..], [sep]);
        }
      } else {
        assert [sep] + Join(rest, [sep]) == s;
      }
    }
  }

  /** Joining separator-free pieces and splitting again gives back the pieces. */
  lemma {:induction false} SplitJoin(parts: seq<string>, sep: char)
    requires |parts| >= 1
    requires forall i :: 0 <= i < |parts| ==> sep !in parts[i]
    ensures SplitWhere(Join(parts, [sep]), {sep}) == parts
  {
    if |parts| == 1 {
      SplitNoSep(parts[0], {sep});
    } else {
      SplitJoin(parts[1..], sep);
      SplitAppend(parts[0], sep, Join(parts[1..], [sep]), {sep});
      assert parts == [parts[0]] + parts[1..];
    }
  }

  /** A text without separators is a single piece. */
  lemma {:induction false} SplitNoSep(s: string, seps: set<char>)
    requires forall i :: 0 <= i < |s| ==> s[i] !in seps
    ensures SplitWhere(s, seps) == [s]
  {
    if s != [] {
      SplitNoSep(s[1..], seps);
      assert [s[0]] + s[1..] == s;
    }
  }

  /**
   * The first piece ends at the first separator, whichever of `seps` it is,
   * and the pieces of the rest follow.
   */
  lemma {:induction false} SplitAppend(a: string, sep: char, b: string, seps: set<char>)
    requires sep in seps
    requires forall i :: 0 <= i < |a| ==> a[i] !in seps
    ensures SplitWhere(a + [sep] + b, seps) == [a] + SplitWhere(b, seps)
  {
    if a == [] {
      assert a + [sep] + b == [sep] + b;
      assert ([sep] + b)[1..] == b;
    } else {
      SplitAppend(a[1..], sep, b, seps);
      assert (a + [sep] + b)[1..] == a[1..] + [sep] + b;
      assert [a[0]] + a[1..] == a;
    }
  }

  /** `pat` occurs in `s` starting at index `i`. */
  predicate OccursAt(s: string, pat: string, i: nat) {
    i + |pat| <= |s| && s[i..i + |pat|] == pat
  }

  /** Index of the first occurrence of `pat` in `s` at or after `from`. */
  function IndexFrom(s: string, pat: string, from: nat): (r: Option<nat>)
    requires from <= |s|
    ensures r.Some? ==> from <= r.value <= |s|
    decreases |s| - from
  {
    if OccursAt(s, pat, from) then Some(from)
    else if from == |s| then None
    else IndexFrom(s, pat, from + 1)
  }

  /** `IndexFrom` finds the first occurrence at or after `from`, and only misses when there is none. */
  lemma {:induction false} IndexFromIsFirst(s: string, pat: string, from: nat)
    requires from <= |s|
    ensures var r := IndexFrom(s, pat, from);
      && (r.Some? ==> OccursAt(s, pat, r.value))
      && (r.Some? ==> forall i :: from <= i < r.value ==> !OccursAt(s, pat, i))
      && (r.None? ==> forall i :: from <= i <= |s| ==> !OccursAt(s, pat, i))
    decreases |s| - from
  {
    if !OccursAt(s, pat, from) && from < |s| {
      IndexFromIsFirst(s, pat, from + 1);
    }
  }

  /** Python's `s.find(pat)` / JavaScript's `s.indexOf(pat)`, with no match as `None`. */
  function IndexOf(s: string, pat: string): Option<nat> {
    IndexFrom(s, pat, 0)
  }

  /** Python's `pat in s`. */
  predicate Contains(s: string, pat: string) {
    IndexOf(s, pat).Some?
  }

  /** A found index is an occurrence. */
  lemma IndexOfOccurs(s: string, pat: string)
    requires Contains(s, pat)
    ensures OccursAt(s, pat, IndexOf(s, pat).value)
  {
    IndexFromIsFirst(s, pat, 0);
  }

  /** An occurrence with none before it is the one found. */
  lemma IndexOfIs(s: string, pat: string, j: nat)
    requires OccursAt(s, pat, j)
    requires forall i :: 0 <= i < j ==> !OccursAt(s, pat, i)
    ensures IndexOf(s, pat) == Some(j)
  {
    IndexFromIsFirst(s, pat, 0);
  }

  /** An occurrence inside a prefix is an occurrence in the whole string. */
  lemma ContainsPrefix(s: string, pat: string, m: nat)
    requires m <= |s|
    ensures Contains(s[..m], pat) <==> exists j: nat :: j + |pat| <= m && OccursAt(s, pat, j)
  {
    IndexFromIsFirst(s[..m], pat, 0);
    if j: nat :| j + |pat| <= m && OccursAt(s, pat, j) {
      assert s[..m][j..j + |pat|] == s[j..j + |pat|];
      assert OccursAt(s[..m], pat, j);
    }
    if Contains(s[..m], pat) {
      var j := IndexOf(s[..m], pat).value;
      assert s[..m][j..j + |pat|] == s[j..j + |pat|];
      assert OccursAt(s, pat, j);
    }
  }

  /** The first occurrence in a prefix that holds one is the first occurrence overall. */
  lemma IndexOfPrefix(s: string, pat: string, m: nat)
    requires m <= |s| && Contains(s[..m], pat)
    ensures IndexOf(s[..m], pat) == IndexOf(s, pat)
  {
    var t := s[..m];
    var j := IndexOf(t, pat).value;
    IndexFromIsFirst(t, pat, 0);
    assert t[j..j + |pat|] == s[j..j + |pat|];
    forall i | 0 <= i < j
      ensures !OccursAt(s, pat, i)
    {
      if OccursAt(s, pat, i) {
        assert t[i..i + |pat|] == s[i..i + |pat|];
        assert OccursAt(t, pat, i);
      }
    }
    IndexOfIs(s, pat, j);
  }

  /** An occurrence in a prefix is an occurrence in the whole text that ends within the prefix. */
  lemma OccursInPrefix(s: string, pat: string, limit: nat, j: nat)
    requires limit <= |s|
    ensures OccursAt(s[..limit], pat, j) <==> j + |pat| <= limit && OccursAt(s, pat, j)
  {
    if j + |pat| <= limit {
      assert s[..limit][j..j + |pat|] == s[j..j + |pat|];
    }
  }

  /** An occurrence in a suffix is an occurrence in the whole text, shifted by where the suffix starts. */
  lemma OccursInSuffix(s: string, pat: string, a: nat, j: nat)
    requires a <= |s|
    ensures OccursAt(s[a..], pat, j) <==> OccursAt(s, pat, a + j)
  {
    if a + j + |pat| <= |s| {
      assert s[a..][j..j + |pat|] == s[a + j..a + j + |pat|];
    }
  }

  /**
   * Where the piece of `s` that starts at `from` ends: at the first
   * occurrence of `pat` at or after `from` that lies within `limit`, or at
   * `limit` when there is none.
   */
  function PieceEnd(s: string, pat: string, from: nat, limit: nat): (e: nat)
    requires from <= limit <= |s|
    ensures from <= e <= limit
    decreases limit - from
  {
    if from + |pat| <= limit && OccursAt(s, pat, from) then from
    else if from == limit then limit
    else PieceEnd(s, pat, from + 1, limit)
  }

  /** The text from `from` up to the end `PieceEnd` finds: one piece of a split. */
  function Between(s: string, pat: string, from: nat, limit: nat): string
    requires from <= limit <= |s|
  {
    s[from..PieceEnd(s, pat, from, limit)]
  }

  /** `PieceEnd` stops at an occurrence within `limit` or at `limit`, and skips none. */
  lemma {:induction false} PieceEndIs(s: string, pat: string, from: nat, limit: nat)
    requires from <= limit <= |s|
    ensures var e := PieceEnd(s, pat, from, limit);
      && (e == limit || (e + |pat| <= limit && OccursAt(s, pat, e)))
      && (forall j :: from <= j < e && j + |pat| <= limit ==> !OccursAt(s, pat, j))
    decreases limit - from
  {
    if !(from + |pat| <= limit && OccursAt(s, pat, from)) && from < limit {
      PieceEndIs(s, pat, from + 1, limit);
    }
  }

  /**
   * The piece is a slice starting at `from`; it ends at `limit` or where an
   * occurrence of `pat` lying within `limit` starts, and no such occurrence
   * starts inside it.
   */
  lemma BetweenIs(s: string, pat: string, from: nat, limit: nat, r: string)
    requires from <= limit <= |s| && r == Between(s, pat, from, limit)
    ensures && from + |r| <= limit && r == s[from..from + |r|]
      && (from + |r| == limit || (from + |r| + |pat| <= limit && OccursAt(s, pat, from + |r|)))
      && (forall j :: from <= j < from + |r| && j + |pat| <= limit ==> !OccursAt(s, pat, j))
  {
    PieceEndIs(s, pat, from, limit);
  }

  /** Over the whole text, the piece ends where `IndexFrom` finds `pat`, or at the end. */
  lemma {:induction false} PieceEndWhole(s: string, pat: string, from: nat)
    requires from <= |s|
    ensures PieceEnd(s, pat, from, |s|) == match IndexFrom(s, pat, from) case Some(e) => e case None => |s|
    decreases |s| - from
  {
    if !OccursAt(s, pat, from) && from < |s| {
      PieceEndWhole(s, pat, from + 1);
    }
  }

  /** Searching the suffix that starts at `a` finds the same end, shifted by `a`. */
  lemma {:induction false} PieceEndSuffix(s: string, pat: string, a: nat, j: nat)
    requires a + j <= |s|
    ensures a + PieceEnd(s[a..], pat, j, |s| - a) == PieceEnd(s, pat, a + j, |s|)
    decreases |s| - a - j
  {
    OccursInSuffix(s, pat, a, j);
    if !(j + |pat| <= |s| - a && OccursAt(s[a..], pat, j)) && j < |s| - a {
      PieceEndSuffix(s, pat, a, j + 1);
    }
  }

  /** Searching the prefix up to `limit` finds the same end. */
  lemma {:induction false} PieceEndPrefix(s: string, pat: string, from: nat, limit: nat)
    requires from <= limit <= |s|
    ensures PieceEnd(s[..limit], pat, from, limit) == PieceEnd(s, pat, from, limit)
    decreases limit - from
  {
    OccursInPrefix(s, pat, limit, from);
    if !(from + |pat| <= limit && OccursAt(s, pat, from)) && from < limit {
      PieceEndPrefix(s, pat, from + 1, limit);
    }
  }

  /** The piece after `a` is the same piece of the suffix that starts at `a`. */
  lemma BetweenSuffix(s: string, pat: string, a: nat)
    requires a <= |s|
    ensures Between(s[a..], pat, 0, |s| - a) == Between(s, pat, a, |s|)
  {
    PieceEndSuffix(s, pat, a, 0);
    var e := PieceEnd(s[a..], pat, 0, |s| - a);
    assert s[a..][0..e] == s[a..a + e];
  }

  /** A piece that ends by `limit` is the same piece of the prefix up to `limit`. */
  lemma BetweenPrefix(s: string, pat: string, from: nat, limit: nat)
    requires from <= limit <= |s|
    ensures Between(s[..limit], pat, from, limit) == Between(s, pat, from, limit)
  {
    PieceEndPrefix(s, pat, from, limit);
    var e := PieceEnd(s, pat, from, limit);
    assert s[..limit][from..e] == s[from..e];
  }
}
