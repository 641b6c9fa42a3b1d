/**
 * String helpers shared by the model: the whitespace classes of the two regex engines involved
 * (JavaScript and Python), substring search, `trim`, `split`/`join` on a separator, whitespace
 * collapsing (`replace(/\s+/g, ' ')`) and ASCII lower-casing.
 */
module Text {
  import opened Wrappers

  /** JavaScript truthiness of an optional string: present and not `''`. */
  predicate Truthy(s: Option<string>) {
    s.Some? && s.value != []
  }

  /** `s || d` for an optional string. */
  function OrElse(s: Option<string>, d: string): (r: string)
    ensures Truthy(s) ==> r == s.value
    ensures !Truthy(s) ==> r == d
  {
    if Truthy(s) then s.value else d
  }

  /** `s || null`: a falsy string becomes null. */
  function OrNull(s: Option<string>): (r: Option<string>)
    ensures r.Some? <==> Truthy(s)
    ensures r.Some? ==> r == s
  {
    if Truthy(s) then s else None
  }

  /** JavaScript `\s`, which is also the set `String.prototype.trim` removes. */
  predicate IsJsSpace(c: char) {
    c in JsSpaces
  }

  const JsSpaces: set<char> := {
    '\t', '\n', '\U{B}', '\U{C}', '\r', ' ', '\U{A0}', '\U{1680}',
    '\U{2000}', '\U{2001}', '\U{2002}', '\U{2003}', '\U{2004}', '\U{2005}', '\U{2006}',
    '\U{2007}', '\U{2008}', '\U{2009}', '\U{200A}',
    '\U{2028}', '\U{2029}', '\U{202F}', '\U{205F}', '\U{3000}', '\U{FEFF}'}


  /** Python's `\s` for `str` patterns (Unicode whitespace). */
  predicate IsPySpace(c: char) {
    c == '\t' || c == '\n' || c == '\U{B}' || c == '\U{C}' || c == '\r'
    || ('\U{1C}' <= c <= '\U{1F}') || c == ' ' || c == '\U{85}' || c == '\U{A0}'
    || c == '\U{1680}' || ('\U{2000}' <= c <= '\U{200A}') || c == '\U{2028}'
    || c == '\U{2029}' || c == '\U{202F}' || c == '\U{205F}' || c == '\U{3000}'
  }

  /** The characters JavaScript's `.` does not match. */
  predicate IsLineTerminator(c: char) {
    c == '\n' || c == '\r' || c == '\U{2028}' || c == '\U{2029}'
  }

  predicate IsAsciiAlnum(c: char) {
    ('a' <= c <= 'z') || ('A' <= c <= 'Z') || ('0' <= c <= '9')
  }

  predicate StartsWith(s: string, p: string) {
    p <= s
  }

  predicate EndsWith(s: string, p: string) {
    |p| <= |s| && s[|s| - |p|..] == p
  }

  /** `t` occurs in `s` at index `j`. */
  predicate OccursAt(s: string, t: string, j: int) {
    0 <= j && j + |t| <= |s| && s[j..j + |t|] == t
  }

  /** `indexOf`/`str.find`: the first index at which `t` occurs in `s`. */
  function IndexOf(s: string, t: string): (r: Option<nat>)
    ensures r.Some? ==> OccursAt(s, t, r.value)
    ensures r.Some? ==> forall j :: 0 <= j < r.value ==> !OccursAt(s, t, j)
    ensures r.None? ==> forall j :: !OccursAt(s, t, j)
    decreases |s|
  {
    if |s| < |t| then None
    else if t <= s then Some(0)
    else
      match IndexOf(s[1..], t)
      case None =>
        assert forall j :: OccursAt(s, t, j) ==> j == 0 || OccursAt(s[1..], t, j - 1);
        None
      case Some(k) =>
        assert forall j :: 0 < j <= k && OccursAt(s, t, j) ==> OccursAt(s[1..], t, j - 1);
        Some(k + 1)
  }

  /** An occurrence with none before it is the one `indexOf` finds. */
  lemma IndexOfAt(s: string, t: string, k: nat)
    requires OccursAt(s, t, k)
    requires forall j :: 0 <= j < k ==> !OccursAt(s, t, j)
    ensures IndexOf(s, t) == Some(k)
  {
  }

  /** `includes`/`in`: `t` is a substring of `s`. */
  predicate Contains(s: string, t: string) {
    IndexOf(s, t).Some?
  }

  lemma ContainsIff(s: string, t: string)
    ensures Contains(s, t) <==> exists j :: OccursAt(s, t, j)
  {
  }

  /** The length of the longest prefix of `t` whose characters all satisfy `p` (a `[class]*` run). */
  function Span(t: string, p: char -> bool): (n: nat)
    ensures n <= |t|
    ensures forall i :: 0 <= i < n ==> p(t[i])
    ensures n < |t| ==> !p(t[n])
  {
    if t == [] || !p(t[0]) then 0 else 1 + Span(t[1..], p)
  }

  /** A run is determined by where it stops: a `p`-run followed by a non-`p` character is the span. */
  lemma {:induction false} SpanUnique(t: string, p: char -> bool, k: nat)
    requires k <= |t|
    requires forall i :: 0 <= i < k ==> p(t[i])
    requires k < |t| ==> !p(t[k])
    ensures Span(t, p) == k
  {
    if k > 0 {
      SpanUnique(t[1..], p, k - 1);
    }
  }

  /** JavaScript `trimStart`. */
  function TrimStart(s: string): string {
    if s != [] && IsJsSpace(s[0]) then TrimStart(s[1..]) else s
  }

  /** `trimStart` drops exactly the leading whitespace run. */
  lemma {:induction false} TrimStartFacts(s: string)
    ensures var r := TrimStart(s);
      |r| <= |s| && r == s[|s| - |r|..] && (r == [] || !IsJsSpace(r[0])) &&
      forall i :: 0 <= i < |s| - |r| ==> IsJsSpace(s[i])
  {
    if s != [] && IsJsSpace(s[0]) {
      TrimStartFacts(s[1..]);
    }
  }

  /** JavaScript `trimEnd`. */
  function TrimEnd(s: string): string {
    if s != [] && IsJsSpace(s[|s| - 1]) then TrimEnd(s[..|s| - 1]) else s
  }

  /** `trimEnd` drops exactly the trailing whitespace run. */
  lemma {:induction false} TrimEndFacts(s: string)
    ensures var r := TrimEnd(s);
      |r| <= |s| && r == s[..|r|] && (r == [] || !IsJsSpace(r[|r| - 1])) &&
      forall i :: |r| <= i < |s| ==> IsJsSpace(s[i])
  {
    if s != [] && IsJsSpace(s[|s| - 1]) {
      TrimEndFacts(s[..|s| - 1]);
    }
  }

  /** The number of leading whitespace characters `trim` removes. */
  function TrimOffset(s: string): (k: nat)
    ensures k <= |s|
  {
    TrimStartFacts(s);
    |s| - |TrimStart(s)|
  }

  /** JavaScript `trim`. */
  function Trim(s: string): string {
    TrimEnd(TrimStart(s))
  }

  /** `trim` gives the longest infix that neither starts nor ends with whitespace. */
  lemma TrimFacts(s: string)
    ensures var r := Trim(s);
      (r == [] || (!IsJsSpace(r[0]) && !IsJsSpace(r[|r| - 1]))) &&
      TrimOffset(s) + |r| <= |s| && r == s[TrimOffset(s)..TrimOffset(s) + |r|] &&
      (forall i :: 0 <= i < TrimOffset(s) ==> IsJsSpace(s[i])) &&
      (forall i :: TrimOffset(s) + |r| <= i < |s| ==> IsJsSpace(s[i]))
  {
    TrimStartFacts(s);
    TrimInfix(s, TrimStart(s), TrimOffset(s));
  }

  /** The `trimEnd` half of `TrimFacts`, on the already start-trimmed suffix `a == s[k..]`. */
  lemma TrimInfix(s: string, a: string, k: nat)
    requires k <= |s| && a == s[k..] && (a == [] || !IsJsSpace(a[0]))
    ensures var r := TrimEnd(a);
      (r == [] || (!IsJsSpace(r[0]) && !IsJsSpace(r[|r| - 1]))) &&
      k + |r| <= |s| && r == s[k..k + |r|] &&
      (forall i :: k + |r| <= i < |s| ==> IsJsSpace(s[i]))
  {
    TrimEndFacts(a);
    var r := TrimEnd(a);
    assert r == a[..|r|];
    forall i | k + |r| <= i < |s| ensures IsJsSpace(s[i]) {
      assert s[i] == a[i - k];
    }
  }

  /** Neither end is whitespace: the strings `trim` leaves as they are. */
  predicate IsTrimmed(s: string) {
    s == [] || (!IsJsSpace(s[0]) && !IsJsSpace(s[|s| - 1]))
  }

  lemma TrimmedIff(s: string)
    ensures Trim(s) == s <==> IsTrimmed(s)
  {
    TrimFacts(s);
    if IsTrimmed(s) && s != [] {
      assert TrimStart(s) == s;
      assert TrimEnd(s) == s;
    }
  }

  /** `s.replace(pat, rep)` with a string pattern: only the first occurrence is replaced. */
  function ReplaceFirst(s: string, pat: string, rep: string): string {
    match IndexOf(s, pat)
    case None => s
    case Some(i) => s[..i] + rep + s[i + |pat|..]
  }

  /** When `s` starts with the pattern, that leading occurrence is the one replaced. */
  lemma ReplaceLeading(s: string, pat: string, rep: string)
    requires pat <= s
    ensures ReplaceFirst(s, pat, rep) == rep + s[|pat|..]
  {
    assert OccursAt(s, pat, 0);
    assert IndexOf(s, pat) == Some(0);
  }

  /** A string is blank when it trims to the empty string. */
  predicate IsBlank(s: string) {
    Trim(s) == []
  }

  lemma {:induction false} BlankIffAllSpace(s: string)
    ensures IsBlank(s) <==> forall i :: 0 <= i < |s| ==> IsJsSpace(s[i])
  {
    var a := TrimStart(s);
    TrimStartFacts(s);
    TrimEndFacts(a);
    if a != [] {
      assert !IsJsSpace(a[0]) && TrimEnd(a) != [];
      assert !IsJsSpace(s[|s| - |a|]);
    }
  }

  /** `replace(/x/g, y)` for a single character `x`. */
  function ReplaceChar(s: string, x: char, y: char): (r: string)
    ensures |r| == |s|
    ensures forall i :: 0 <= i < |s| ==> r[i] == (if s[i] == x then y else s[i])
  {
    if s == [] then [] else [if s[0] == x then y else s[0]] + ReplaceChar(s[1..], x, y)
  }

  /** `replace(/\s+/g, ' ')`: every maximal whitespace run becomes one space. */
  function CollapseSpaces(s: string): (r: string)
    ensures forall i :: 0 <= i < |r| && IsJsSpace(r[i]) ==> r[i] == ' '
    ensures forall i :: 0 <= i < |r| - 1 ==> !(IsJsSpace(r[i]) && IsJsSpace(r[i + 1]))
    ensures s == [] <==> r == []
    ensures s != [] ==> (IsJsSpace(r[0]) <==> IsJsSpace(s[0]))
    ensures s != [] && !IsJsSpace(s[0]) ==> r[0] == s[0]
    decreases |s|
  {
    if s == [] then []
    else if IsJsSpace(s[0]) then
      TrimStartFacts(s[1..]);
      [' '] + CollapseSpaces(TrimStart(s))
    else [s[0]] + CollapseSpaces(s[1..])
  }

  /** Only plain spaces as whitespace, and never two in a row. */
  predicate SingleSpaced(r: string) {
    && (forall i :: 0 <= i < |r| && IsJsSpace(r[i]) ==> r[i] == ' ')
    && (forall i :: 0 <= i < |r| - 1 ==> !(IsJsSpace(r[i]) && IsJsSpace(r[i + 1])))
  }

  lemma SingleSpacedInfix(c: string, k: nat, n: nat)
    requires k + n <= |c| && SingleSpaced(c)
    ensures SingleSpaced(c[k..k + n])
  {
    var r := c[k..k + n];
    forall i | 0 <= i < |r| - 1 ensures !(IsJsSpace(r[i]) && IsJsSpace(r[i + 1])) {
      assert r[i] == c[k + i] && r[i + 1] == c[k + i + 1];
    }
  }

  /** Text that `replace(/\s+/g, ' ').trim()` leaves: single spaces only, none at either end. */
  predicate Squished(r: string) {
    SingleSpaced(r) && (r == [] || (!IsJsSpace(r[0]) && !IsJsSpace(r[|r| - 1])))
  }

  /** `replace(/\s+/g, ' ').trim()`. */
  function Squish(s: string): (r: string)
    ensures Squished(r)
    ensures '\n' !in r
  {
    var c := CollapseSpaces(s);
    TrimFacts(c);
    SingleSpacedInfix(c, TrimOffset(c), |Trim(c)|);
    var r := Trim(c);
    assert forall i :: 0 <= i < |r| ==> r[i] != '\n' by {
      forall i | 0 <= i < |r| ensures r[i] != '\n' { if r[i] == '\n' { assert IsJsSpace(r[i]); } }
    }
    r
  }

  /** Text that is already single-spaced is left alone by the whitespace collapse. */
  lemma {:induction false} CollapsePlain(s: string)
    requires SingleSpaced(s)
    ensures CollapseSpaces(s) == s
    decreases |s|
  {
    if s != [] {
      SingleSpacedInfix(s, 1, |s| - 1);
      assert s[1..][..|s| - 1] == s[1..];
      if IsJsSpace(s[0]) {
        assert s[1..] == [] || !IsJsSpace(s[1]);
        assert TrimStart(s[1..]) == s[1..];
      }
      CollapsePlain(s[1..]);
    }
  }

  /** `Squish` is idempotent: squished text is a fixpoint. */
  lemma SquishPlain(s: string)
    requires Squished(s)
    ensures Squish(s) == s
  {
    CollapsePlain(s);
    TrimmedIff(s);
  }

  /** ASCII lower-casing (the only part of `toLowerCase` the model covers). */
  function LowerChar(c: char): (d: char)
    ensures 'A' <= c <= 'Z' ==> d as int == c as int + 32
    ensures !('A' <= c <= 'Z') ==> d == c
  {
    if 'A' <= c <= 'Z' then (c as int + 32) as char else c
  }

  function Lower(s: string): (r: string)
    ensures |r| == |s| && forall i :: 0 <= i < |s| ==> r[i] == LowerChar(s[i])
  {
    if s == [] then [] else [LowerChar(s[0])] + Lower(s[1..])
  }

  /** `parts.join(sep)`. */
  function Join(parts: seq<string>, sep: string): string {
    if parts == [] then []
    else if |parts| == 1 then parts[0]
    else parts[0] + sep + Join(parts[1..], sep)
  }

  /** `s.split(sep)` for a non-empty string separator. */
  function Split(s: string, sep: string): (parts: seq<string>)
    requires sep != []
    ensures |parts| >= 1
    ensures Join(parts, sep) == s
    ensures forall i :: 0 <= i < |parts| ==> !Contains(parts[i], sep)
    decreases |s|
  {
    match IndexOf(s, sep)
    case None => [s]
    case Some(k) =>
      var rest := Split(s[k + |sep|..], sep);
      assert !Contains(s[..k], sep) by {
        assert forall j :: OccursAt(s[..k], sep, j) ==> OccursAt(s, sep, j);
      }
      assert s == s[..k] + sep + s[k + |sep|..];
      [s[..k]] + rest
  }

  /** The first piece of `s.split(sep)`: everything before the first occurrence. */
  lemma {:induction false} SplitHead(s: string, sep: string)
    requires sep != []
    ensures IndexOf(s, sep).None? ==> Split(s, sep) == [s]
    ensures IndexOf(s, sep).Some? ==> |Split(s, sep)| >= 2 && Split(s, sep)[0] == s[..IndexOf(s, sep).value]
  {
  }

  /**
   * `t.split(re)` for a regex whose whole match is one capture group, from piece start `p`,
   * trying matches from `q` on. `at(u)` is the length of the match at the start of `u`, if any
   * (a length that is zero or runs past the end is no match). A match at `q` closes the piece
   * `t[p..q]` and contributes the captured text; what follows the last match is the last piece.
   */
  function SplitFrom(t: string, p: nat, q: nat, at: string -> Option<nat>): seq<string>
    requires p <= q <= |t|
    decreases |t| - q
  {
    if q == |t| then [t[p..]]
    else if at(t[q..]).Some? && 0 < at(t[q..]).value <= |t| - q then
      var n := at(t[q..]).value;
      [t[p..q], t[q..q + n]] + SplitFrom(t, q + n, q + n, at)
    else SplitFrom(t, p, q + 1, at)
  }

  function Concat(parts: seq<string>): string {
    if parts == [] then [] else parts[0] + Concat(parts[1..])
  }

  lemma {:induction false} ConcatPair(a: string, b: string, rest: seq<string>)
    ensures Concat([a, b] + rest) == a + b + Concat(rest)
  {
    assert ([a, b] + rest)[1..] == [b] + rest;
    assert ([b] + rest)[1..] == rest;
  }

  /** The two pieces a match closes, followed by pieces that rebuild the rest, rebuild `t[p..]`. */
  lemma MatchPieces(t: string, p: nat, q: nat, n: nat, rest: seq<string>)
    requires p <= q && q + n <= |t| && Concat(rest) == t[q + n..]
    ensures Concat([t[p..q], t[q..q + n]] + rest) == t[p..]
  {
    ConcatPair(t[p..q], t[q..q + n], rest);
    assert t[p..q] + t[q..q + n] + t[q + n..] == t[p..];
  }

  /** The split loses nothing: its pieces, captured separators included, concatenate back to the text. */
  lemma {:induction false} SplitFromConcat(t: string, p: nat, q: nat, at: string -> Option<nat>)
    requires p <= q <= |t|
    ensures Concat(SplitFrom(t, p, q, at)) == t[p..]
    decreases |t| - q
  {
    if q == |t| {
      assert Concat([t[p..]]) == t[p..] + Concat([]);
    } else if at(t[q..]).Some? && 0 < at(t[q..]).value <= |t| - q {
      var n := at(t[q..]).value;
      SplitFromConcat(t, q + n, q + n, at);
      MatchPieces(t, p, q, n, SplitFrom(t, q + n, q + n, at));
    } else {
      SplitFromConcat(t, p, q + 1, at);
    }
  }

  function DigitChar(d: nat): (c: char)
    requires d < 10
    ensures '0' <= c <= '9'
  {
    ('0' as int + d) as char
  }

  /** A number in decimal, as a template string writes it. */
  function Decimal(n: nat): (r: string)
    ensures r != []
    ensures forall i :: 0 <= i < |r| ==> '0' <= r[i] <= '9'
  {
    if n < 10 then [DigitChar(n)] else Decimal(n / 10) + [DigitChar(n % 10)]
  }

  /** Concatenation regrouped, for callers whose pieces include string literals. */
  lemma AppendAssoc(a: string, b: string, c: string)
    ensures a + b + c == a + (b + c)
  {
  }
}
