/**
 * The build-free Markdown loader of the client: the hand-written YAML front-matter parser
 * (`parseFrontMatter`, a line-driven state machine), the `<!--more-->` excerpt, the image-path
 * rewrite and the field defaults of `parseMarkdownFile`, in both the TypeScript and the
 * JavaScript copy of the module.
 *
 * Each regular expression is modelled by a matcher on the text that starts at the current scan
 * position (what the engine's backtracking settles on, first match in priority order), and a
 * global `replace` by `ReplaceAll`, which tries the matcher at each position from left to right.
 * `marked` is a parameter (a `None` result stands for a throw), and so is today's date.
 */
module MarkdownUtils {
  import opened Wrappers
  import opened Text

  // ---------------------------------------------------------------------------------------
  // Global replace

  /** A match at the scan position: how many characters it covers and what replaces them. */
  datatype Hit = Hit(len: nat, rep: string)

  /**
   * `s.replace(/re/g, f)`: `m(u)` is the match of `re` at the start of `u`, if any. A match is
   * replaced and the scan resumes after it; otherwise one character is kept.
   */
  function ReplaceAll(s: string, m: string -> Option<Hit>): string
    decreases |s|
  {
    if s == [] then []
    else if m(s).Some? && 0 < m(s).value.len <= |s| then
      m(s).value.rep + ReplaceAll(s[m(s).value.len..], m)
    else [s[0]] + ReplaceAll(s[1..], m)
  }

  /** Where no match starts, nothing is replaced. */
  lemma {:induction false} ReplaceAllNoHit(s: string, m: string -> Option<Hit>)
    requires forall k :: 0 <= k < |s| ==> m(s[k..]).None?
    ensures ReplaceAll(s, m) == s
    decreases |s|
  {
    if s != [] {
      assert m(s[0..]).None? && s[0..] == s;
      assert forall k :: 0 <= k < |s| - 1 ==> s[1..][k..] == s[k + 1..];
      ReplaceAllNoHit(s[1..], m);
    }
  }

  /** A match of length `n` at the front puts `rep` first and goes on after it. */
  lemma ReplaceAllStep(s: string, m: string -> Option<Hit>, n: nat, rep: string)
    requires m(s) == Some(Hit(n, rep)) && 0 < n <= |s|
    ensures ReplaceAll(s, m) == rep + ReplaceAll(s[n..], m)
  {
  }

  /** Without a usable match at the front, the first character is kept and the scan moves on. */
  lemma ReplaceAllSkip(s: string, m: string -> Option<Hit>)
    requires s != [] && !(m(s).Some? && 0 < m(s).value.len <= |s|)
    ensures ReplaceAll(s, m) == [s[0]] + ReplaceAll(s[1..], m)
  {
  }

  /** A matcher that puts back what it matched changes nothing. */
  lemma {:induction false} ReplaceAllKeeps(s: string, m: string -> Option<Hit>)
    requires forall u :: m(u).Some? ==> m(u).value.len <= |u| && m(u).value.rep == u[..m(u).value.len]
    ensures ReplaceAll(s, m) == s
    decreases |s|
  {
    if s != [] {
      var h := m(s);
      if h.Some? && 0 < h.value.len <= |s| {
        var n := h.value.len;
        assert h.value.rep == s[..n];
        ReplaceAllStep(s, m, n, s[..n]);
        ReplaceAllKeeps(s[n..], m);
        PrefixThenRestOf(s, n);
      } else {
        ReplaceAllSkip(s, m);
        ReplaceAllKeeps(s[1..], m);
        PrefixThenRestOf(s, 1);
      }
    }
  }

  lemma PrefixThenRestOf(s: string, n: nat)
    requires n <= |s|
    ensures s[..n] + s[n..] == s
  {
  }

  predicate NotLineTerminator(c: char) {
    !IsLineTerminator(c)
  }

  /** The end of the line that position `from` is on: `.` cannot match past it. */
  function LineEnd(u: string, from: nat): (e: nat)
    requires from <= |u|
    ensures from <= e <= |u|
    ensures forall i :: from <= i < e ==> !IsLineTerminator(u[i])
  {
    from + Span(u[from..], NotLineTerminator)
  }

  // ---------------------------------------------------------------------------------------
  // getImagePath / processImagePaths

  /** `getImagePath` (the TypeScript module's own): absolute and `http` sources are kept, others go under the post's folder. */
  function GetImagePath(src: string, postId: string): (r: string)
    ensures "http" <= r || "/" <= r
    ensures ("http" <= src || "/" <= src) ==> r == src
    ensures !("http" <= src || "/" <= src) ==> r == "/src/posts/" + postId + "/" + src
  {
    if "http" <= src || "/" <= src then src else "/src/posts/" + postId + "/" + src
  }

  /** Rewriting a path twice is rewriting it once. */
  lemma GetImagePathIdempotent(src: string, postId: string)
    ensures GetImagePath(GetImagePath(src, postId), postId) == GetImagePath(src, postId)
  {
  }

  predicate NotCloseBracket(c: char) { c != ']' }
  predicate NotCloseParen(c: char) { c != ')' }

  /**
   * `/!\[([^\]]*)\]\(([^)]+)\)/` at the start of `u`, replaced by `![alt](path(src))`. Both
   * classes are greedy and exclude the character that ends them, so no backtracking can help.
   */
  function ImageRefHit(u: string, path: string -> string): Option<Hit> {
    if !("![" <= u) then None
    else ImageRefAfterAlt(u, path, 2 + Span(u[2..], NotCloseBracket))
  }

  /** The rest of the match once the alt text has run up to `p`. */
  function ImageRefAfterAlt(u: string, path: string -> string, p: nat): Option<Hit>
    requires 2 <= p <= |u|
  {
    if p + 1 < |u| && u[p + 1] == '(' then ImageRefAfterSrc(u, path, p, p + 2 + Span(u[p + 2..], NotCloseParen))
    else None
  }

  /** The match once the source has run up to `q`: it needs a non-empty source closed by `)`. */
  function ImageRefAfterSrc(u: string, path: string -> string, p: nat, q: nat): Option<Hit>
    requires 2 <= p && p + 2 <= q <= |u|
  {
    if p + 2 < q < |u| then Some(Hit(q + 1, ImageRef(u[2..p], path(u[p + 2..q])))) else None
  }

  /** The text of an image reference, `![alt](src)`. */
  function ImageRef(alt: string, src: string): string {
    "![" + alt + "](" + src + ")"
  }

  /** `processImagePaths`, with the path rewrite as a parameter. */
  function ProcessImages(content: string, path: string -> string): string {
    ReplaceAll(content, u => ImageRefHit(u, path))
  }

  /** `processImagePaths` of `markdownUtils.ts`. */
  function ProcessImagePaths(content: string, postId: string): string {
    ProcessImages(content, src => GetImagePath(src, postId))
  }

  /** The leading image reference has its source rewritten, its alt text kept, and the scan goes on after it. */
  lemma ImageRefRewritten(alt: string, src: string, rest: string, path: string -> string)
    requires ']' !in alt && ')' !in src && src != []
    ensures ProcessImages("![" + alt + "](" + src + ")" + rest, path)
      == "![" + alt + "](" + path(src) + ")" + ProcessImages(rest, path)
  {
    var u := "![" + alt + "](" + src + ")" + rest;
    var a := |alt|;
    var b := |src|;
    assert u[..2] == "![" && u[2..2 + a] == alt && u[2 + a] == ']' && u[3 + a] == '('
      && u[4 + a..4 + a + b] == src && u[4 + a + b] == ')' && u[5 + a + b..] == rest;
    ImageRefAt(u, alt, src, path);
  }

  /** The image-reference match read off the positions of its pieces. */
  lemma ImageRefAt(u: string, alt: string, src: string, path: string -> string)
    requires ']' !in alt && ')' !in src && src != [] && |u| >= 5 + |alt| + |src|
    requires u[..2] == "![" && u[2..2 + |alt|] == alt && u[2 + |alt|] == ']' && u[3 + |alt|] == '('
    requires u[4 + |alt|..4 + |alt| + |src|] == src && u[4 + |alt| + |src|] == ')'
    ensures ImageRefHit(u, path) == Some(Hit(5 + |alt| + |src|, ImageRef(alt, path(src))))
  {
    var p := 2 + |alt|;
    var q := p + 2 + |src|;
    assert u[2..][..|alt|] == alt && u[2..][|alt|] == ']';
    SpanUnique(u[2..], NotCloseBracket, |alt|);
    assert u[p + 2..][..|src|] == src && u[p + 2..][|src|] == ')';
    SpanUnique(u[p + 2..], NotCloseParen, |src|);
    assert "![" <= u by { assert u[..2] == "!["; }
    ImageRefFrom(u, path, p, q);
    assert u[2..p] == alt && u[p + 2..q] == src;
  }

  /** The rewrite that leaves every source as it is. */
  function SameSource(src: string): string {
    src
  }

  /** Under that rewrite an image reference is replaced by exactly the text it matched. */
  lemma ImageRefPutsBack(u: string)
    requires ImageRefHit(u, SameSource).Some?
    ensures ImageRefHit(u, SameSource).value.rep == u[..ImageRefHit(u, SameSource).value.len]
  {
    var p := 2 + Span(u[2..], NotCloseBracket);
    var q := p + 2 + Span(u[p + 2..], NotCloseParen);
    ImageRefParts(u, SameSource);
    ImageRefFrom(u, SameSource, p, q);
    assert u[p] == u[2..][p - 2];
    assert u[q] == u[p + 2..][q - p - 2];
    PiecesRebuild(u, p, q);
    assert SameSource(u[p + 2..q]) == u[p + 2..q];
  }

  /** Where a match's pieces lie: the `](` after the alt text, and the `)` after a non-empty source. */
  lemma ImageRefParts(u: string, path: string -> string)
    requires ImageRefHit(u, path).Some?
    ensures var p := 2 + Span(u[2..], NotCloseBracket);
      var q := p + 2 + Span(u[p + 2..], NotCloseParen);
      "![" <= u && p + 1 < |u| && u[p + 1] == '(' && p + 2 < q < |u|
  {
  }

  /** The match read off where its pieces lie. */
  lemma ImageRefFrom(u: string, path: string -> string, p: nat, q: nat)
    requires "![" <= u
    requires p == 2 + Span(u[2..], NotCloseBracket) && p + 1 < |u| && u[p + 1] == '('
    requires q == p + 2 + Span(u[p + 2..], NotCloseParen) && p + 2 < q < |u|
    ensures ImageRefHit(u, path) == Some(Hit(q + 1, ImageRef(u[2..p], path(u[p + 2..q]))))
  {
    assert ImageRefHit(u, path) == ImageRefAfterAlt(u, path, p) == ImageRefAfterSrc(u, path, p, q);
  }

  lemma PiecesRebuild(u: string, p: nat, q: nat)
    requires 2 <= p && p + 2 <= q < |u|
    requires "![" <= u && u[p] == ']' && u[p + 1] == '(' && u[q] == ')'
    ensures u[..q + 1] == ImageRef(u[2..p], u[p + 2..q])
  {
    assert u[..2] == "![" && u[p..p + 2] == "](" && u[q..q + 1] == ")";
    assert u[..q + 1] == u[..2] + u[2..p] + u[p..p + 2] + u[p + 2..q] + u[q..q + 1];
  }

  /** With an identity rewrite, the text comes back unchanged: only the sources are ever touched. */
  lemma ProcessOnlyTouchesSources(content: string)
    ensures ProcessImages(content, SameSource) == content
  {
    forall u | ImageRefHit(u, SameSource).Some?
      ensures ImageRefHit(u, SameSource).value.rep == u[..ImageRefHit(u, SameSource).value.len]
    {
      ImageRefPutsBack(u);
    }
    ReplaceAllKeeps(content, u => ImageRefHit(u, SameSource));
  }

  // ---------------------------------------------------------------------------------------
  // generateExcerpt

  const More: string := "<!--more-->"

  /**
   * `/!\[.*?\]\(.*?\)/`, removed. The lazy runs cannot cross a line end; the first `](` on the
   * line is the only candidate worth trying, since a later one leaves less room for the `)`.
   */
  function ImageHit(u: string): Option<Hit> {
    if !("![" <= u) then None
    else
      var e := LineEnd(u, 2);
      match IndexOf(u[2..e], "](")
      case None => None
      case Some(a) =>
        var p := 2 + a + 2;
        match IndexOf(u[p..e], ")")
        case None => None
        case Some(b) => Some(Hit(p + b + 1, ""))
  }

  /** The opening `[`, the text up to the first `](` on the line, and the target up to the next `)`. */
  datatype LinkParts = LinkParts(textEnd: nat, targetEnd: nat)

  function LinkAt(u: string): (r: Option<LinkParts>)
    ensures r.Some? ==> 1 <= r.value.textEnd && r.value.textEnd + 2 <= r.value.targetEnd < |u|
  {
    if !("[" <= u) then None else LinkInLine(u, LineEnd(u, 1))
  }

  /** The two lazy searches of `LinkAt`, kept to the line that ends at `e`. */
  function LinkInLine(u: string, e: nat): (r: Option<LinkParts>)
    requires 1 <= e <= |u|
    ensures r.Some? ==> 1 <= r.value.textEnd && r.value.textEnd + 2 <= r.value.targetEnd < e
  {
    match IndexOf(u[1..e], "](")
    case None => None
    case Some(a) =>
      var p := 1 + a + 2;
      match IndexOf(u[p..e], ")")
      case None => None
      case Some(b) => Some(LinkParts(1 + a, p + b))
  }

  /** `/\[.*?\]\((.*?)\)/` replaced by `$1` as written: the group is the link's target. */
  function LinkHit(u: string): Option<Hit> {
    match LinkAt(u)
    case None => None
    case Some(l) => Some(Hit(l.targetEnd + 1, u[l.textEnd + 2..l.targetEnd]))
  }

  /** The replacement the comment beside it asks for: the link's text is kept. */
  function LinkTextHit(u: string): Option<Hit> {
    match LinkAt(u)
    case None => None
    case Some(l) => Some(Hit(l.targetEnd + 1, u[1..l.textEnd]))
  }

  predicate IsHash(c: char) { c == '#' }
  predicate IsBacktick(c: char) { c == '`' }

  /** `/#{1,6}\s+/`, removed: at most six `#` (fewer cannot help, the next one is a `#` too), then whitespace. */
  function HeadingHit(u: string): Option<Hit> {
    var h := Span(u, IsHash);
    var k := if h < 6 then h else 6;
    if 0 < k < |u| && IsJsSpace(u[k]) then Some(Hit(k + Span(u[k..], IsJsSpace), "")) else None
  }

  /** `` /(`{1,3}).*?\1/ ``, removed: the longest fence first, then shorter ones. */
  function CodeHit(u: string): Option<Hit> {
    var t := Span(u, IsBacktick);
    CodeHitFrom(u, if t < 3 then t else 3)
  }

  function CodeHitFrom(u: string, k: nat): Option<Hit>
    requires k <= |u|
    decreases k
  {
    if k == 0 then None
    else
      match IndexOf(u[k..LineEnd(u, k)], u[..k])
      case Some(c) => Some(Hit(k + c + k, ""))
      case None => CodeHitFrom(u, k - 1)
  }

  /** The clean-up chain applied to the text before the marker, with the link rule as a parameter. */
  function Tidy(s: string, link: string -> Option<Hit>): (r: string)
    ensures Squished(r) && '\n' !in r
  {
    var noImages := ReplaceAll(s, ImageHit);
    var noLinks := ReplaceAll(noImages, link);
    var noHeadings := ReplaceAll(noLinks, HeadingHit);
    var noCode := ReplaceAll(noHeadings, CodeHit);
    Squish(ReplaceChar(noCode, '\n', ' '))
  }

  function ExcerptWith(content: string, link: string -> Option<Hit>): string {
    var parts := Split(content, More);
    if |parts| > 1 then Tidy(parts[0], link) else []
  }

  /** `generateExcerpt` as written. */
  function GenerateExcerptAsWritten(content: string): string {
    ExcerptWith(content, LinkHit)
  }

  /** `generateExcerpt` with links reduced to their text, as the link rule's comment intends. */
  function GenerateExcerpt(content: string): string {
    ExcerptWith(content, LinkTextHit)
  }

  /** No marker, no excerpt; otherwise only the text before the first marker is used, and it comes out single-spaced and trimmed. */
  lemma ExcerptFacts(content: string, link: string -> Option<Hit>)
    ensures IndexOf(content, More).None? ==> ExcerptWith(content, link) == []
    ensures IndexOf(content, More).Some? ==>
      ExcerptWith(content, link) == Tidy(content[..IndexOf(content, More).value], link)
    ensures Squished(ExcerptWith(content, link)) && '\n' !in ExcerptWith(content, link)
  {
    SplitHead(content, More);
  }

  /** A link whose text has no `](` and whose target has no `)`, on one line. */
  predicate PlainLink(text: string, target: string) {
    && !Contains(text, "](") && ')' !in target
    && (forall i :: 0 <= i < |text| ==> NotLineTerminator(text[i]))
    && (forall i :: 0 <= i < |target| ==> NotLineTerminator(target[i]))
  }

  /** The line from `from` reaches at least to `n` when no line terminator comes before it. */
  lemma LineEndCovers(u: string, from: nat, n: nat)
    requires from <= n <= |u|
    requires forall i :: from <= i < n ==> NotLineTerminator(u[i])
    ensures n <= LineEnd(u, from)
  {
    assert forall i :: from <= i < n ==> u[from..][i - from] == u[i];
  }

  /** The regex finds a well-formed leading link exactly: its text and target are where they were written. */
  lemma LinkFound(text: string, target: string, rest: string)
    requires PlainLink(text, target)
    ensures var u := "[" + text + "](" + target + ")" + rest;
      LinkLayout(u, text, target) && LinkAt(u) == Some(LinkParts(1 + |text|, 3 + |text| + |target|))
  {
    var u := "[" + text + "](" + target + ")" + rest;
    var a := |text|;
    var b := |target|;
    assert LinkLayout(u, text, target) by {
      assert forall i :: 0 <= i < a ==> u[1 + i] == text[i];
      assert forall i :: 0 <= i < b ==> u[3 + a + i] == target[i];
    }
    LinkLaidOut(u, text, target);
  }

  /** Where the pieces of a link `[text](target)` at the start of `u` sit. */
  predicate LinkLayout(u: string, text: string, target: string) {
    && |u| >= 4 + |text| + |target|
    && u[0] == '[' && u[1 + |text|] == ']' && u[2 + |text|] == '(' && u[3 + |text| + |target|] == ')'
    && (forall i :: 0 <= i < |text| ==> u[1 + i] == text[i])
    && (forall i :: 0 <= i < |target| ==> u[3 + |text| + i] == target[i])
  }

  lemma LinkLaidOut(u: string, text: string, target: string)
    requires LinkLayout(u, text, target) && PlainLink(text, target)
    ensures LinkAt(u) == Some(LinkParts(1 + |text|, 3 + |text| + |target|))
  {
    var a := |text|;
    var b := |target|;
    LinkOnOneLine(u, text, target);
    var e := LineEnd(u, 1);
    LinkTextEnd(u, text, e);
    LinkTargetEnd(u, text, target, e);
    LinkAtFrom(u, e, a, b);
  }

  /** A laid-out plain link sits on the line it starts. */
  lemma LinkOnOneLine(u: string, text: string, target: string)
    requires LinkLayout(u, text, target) && PlainLink(text, target)
    ensures 4 + |text| + |target| <= LineEnd(u, 1)
  {
    var a := |text|;
    var b := |target|;
    forall i | 1 <= i < 4 + a + b ensures NotLineTerminator(u[i]) {
      if i <= a {
        assert u[1 + (i - 1)] == text[i - 1];
      } else if 3 + a <= i < 3 + a + b {
        assert u[3 + a + (i - 3 - a)] == target[i - 3 - a];
      }
    }
    LineEndCovers(u, 1, 4 + a + b);
  }

  /** The first `)` after the `(` of a plain link is the one that closes it. */
  lemma LinkTargetEnd(u: string, text: string, target: string, e: nat)
    requires LinkLayout(u, text, target) && ')' !in target && 4 + |text| + |target| <= e <= |u|
    ensures IndexOf(u[3 + |text|..e], ")") == Some(|target|)
  {
    var a := |text|;
    var b := |target|;
    var v := u[3 + a..e];
    assert v[b] == ')';
    forall j | 0 <= j < b ensures !OccursAt(v, ")", j) {
      assert v[j] == target[j];
    }
    assert OccursAt(v, ")", b);
    IndexOfAt(v, ")", b);
  }

  /** What the two replacement rules make of a laid-out plain link. */
  lemma LinkHits(u: string, text: string, target: string)
    requires LinkLayout(u, text, target) && LinkAt(u) == Some(LinkParts(1 + |text|, 3 + |text| + |target|))
    ensures LinkHit(u) == Some(Hit(4 + |text| + |target|, target))
    ensures LinkTextHit(u) == Some(Hit(4 + |text| + |target|, text))
  {
    var a := |text|;
    var b := |target|;
    var x, y := u[1..1 + a], u[3 + a..3 + a + b];
    assert x == text by {
      forall i | 0 <= i < a ensures x[i] == text[i] {
        assert x[i] == u[1 + i];
      }
    }
    assert y == target by {
      forall i | 0 <= i < b ensures y[i] == target[i] {
        assert y[i] == u[3 + a + i];
      }
    }
  }

  /** `LinkAt` read off the two searches it makes. */
  lemma LinkAtFrom(u: string, e: nat, a: nat, b: nat)
    requires "[" <= u && e == LineEnd(u, 1)
    requires IndexOf(u[1..e], "](") == Some(a)
    requires 3 + a <= e && IndexOf(u[3 + a..e], ")") == Some(b)
    ensures LinkAt(u) == Some(LinkParts(1 + a, 3 + a + b))
  {
    assert LinkAt(u) == LinkInLine(u, e);
  }

  /** The first `](` after the `[` of a plain link is the one that ends its text. */
  lemma LinkTextEnd(u: string, text: string, e: nat)
    requires 3 + |text| <= e <= |u| && !Contains(text, "](")
    requires u[1 + |text|] == ']' && u[2 + |text|] == '('
    requires forall i :: 0 <= i < |text| ==> u[1 + i] == text[i]
    ensures IndexOf(u[1..e], "](") == Some(|text|)
  {
    var w := u[1..e];
    var a := |text|;
    assert w[a] == ']' && w[a + 1] == '(';
    assert w[a..a + 2] == "](";
    forall j | 0 <= j < a ensures !OccursAt(w, "](", j) {
      if j + 1 < a {
        assert w[j] == text[j] && w[j + 1] == text[j + 1];
        assert w[j..j + 2] == text[j..j + 2];
        ContainsIff(text, "](");
        assert !OccursAt(text, "](", j);
      } else {
        assert w[j + 1] == ']';
      }
    }
    IndexOfAt(w, "](", a);
  }

  /** As written, the leading link is replaced by its target. */
  lemma LinkKeepsTarget(text: string, target: string, rest: string)
    requires PlainLink(text, target)
    ensures var link := "[" + text + "](" + target + ")";
      ReplaceAll(link + rest, LinkHit) == target + ReplaceAll(rest, LinkHit)
  {
    var link := "[" + text + "](" + target + ")";
    var u := link + rest;
    LinkFound(text, target, rest);
    LinkHits(u, text, target);
    assert |link| == 4 + |text| + |target|;
    assert u[|link|..] == rest;
  }

  /** Corrected, the leading link is replaced by its text. */
  lemma LinkKeepsText(text: string, target: string, rest: string)
    requires PlainLink(text, target)
    ensures var link := "[" + text + "](" + target + ")";
      ReplaceAll(link + rest, LinkTextHit) == text + ReplaceAll(rest, LinkTextHit)
  {
    var link := "[" + text + "](" + target + ")";
    var u := link + rest;
    LinkFound(text, target, rest);
    LinkHits(u, text, target);
    assert |link| == 4 + |text| + |target|;
    assert u[|link|..] == rest;
  }

  /** Text with no `!`, and whose links give text with no `#`, backtick, newline or stray whitespace, comes out as the links left it. */
  lemma TidyPlainRest(s: string, link: string -> Option<Hit>, r: string)
    requires '!' !in s && ReplaceAll(s, link) == r
    requires '#' !in r && '`' !in r && '\n' !in r && Squished(r)
    ensures Tidy(s, link) == r
  {
    NoImages(s);
    NoHeadings(r);
    NoCodeMarks(r);
    assert ReplaceChar(r, '\n', ' ') == r;
    SquishPlain(r);
  }

  lemma NoImages(s: string)
    requires '!' !in s
    ensures ReplaceAll(s, ImageHit) == s
  {
    forall k | 0 <= k < |s| ensures ImageHit(s[k..]).None? {
      assert s[k..][0] == s[k];
    }
    ReplaceAllNoHit(s, ImageHit);
  }

  lemma NoHeadings(r: string)
    requires '#' !in r
    ensures ReplaceAll(r, HeadingHit) == r
  {
    forall k | 0 <= k < |r| ensures HeadingHit(r[k..]).None? {
      assert r[k..][0] == r[k];
    }
    ReplaceAllNoHit(r, HeadingHit);
  }

  lemma NoCodeMarks(r: string)
    requires '`' !in r
    ensures ReplaceAll(r, CodeHit) == r
  {
    forall k | 0 <= k < |r| ensures CodeHit(r[k..]).None? {
      assert r[k..][0] == r[k];
    }
    ReplaceAllNoHit(r, CodeHit);
  }

  /** A word: letters and digits only. */
  predicate Word(w: string) {
    w != [] && forall i :: 0 <= i < |w| ==> IsAsciiAlnum(w[i])
  }

  lemma WordFacts(w: string)
    requires Word(w)
    ensures Squished(w) && '!' !in w && '#' !in w && '`' !in w && '\n' !in w && '<' !in w
    ensures ')' !in w && !Contains(w, "](")
    ensures forall i :: 0 <= i < |w| ==> NotLineTerminator(w[i])
  {
    ContainsIff(w, "](");
    forall j | 0 <= j < |w| - 1 ensures !OccursAt(w, "](", j) {
      assert w[j] != ']';
    }
  }

  /** Text before a first marker is what the excerpt is cut from. */
  lemma MarkerAfter(p: string)
    requires '<' !in p
    ensures |Split(p + More, More)| > 1 && Split(p + More, More)[0] == p
  {
    var c := p + More;
    assert c[|p|..] == More;
    assert OccursAt(c, More, |p|);
    forall j | 0 <= j < |p| ensures !OccursAt(c, More, j) {
      assert c[j..j + |More|][0] == c[j] == p[j];
    }
    IndexOfAt(c, More, |p|);
    SplitHead(c, More);
    assert c[..|p|] == p;
  }

  /** The common part of the two link excerpts below: the marker and the other rules leave `[text](target)` to the link rule. */
  lemma LinkExcerptSetup(text: string, target: string)
    requires Word(text) && Word(target)
    ensures var link := "[" + text + "](" + target + ")";
      && PlainLink(text, target) && '!' !in link
      && |Split(link + More, More)| > 1 && Split(link + More, More)[0] == link
      && '#' !in text && '`' !in text && '\n' !in text && Squished(text)
      && '#' !in target && '`' !in target && '\n' !in target && Squished(target)
  {
    WordFacts(text);
    WordFacts(target);
    MarkerAfter("[" + text + "](" + target + ")");
  }

  /** As written, an excerpt made of one link `[text](target)` (both words) shows the target: `[a](b)<!--more-->` gives `b`. */
  lemma LinkExcerptShowsTarget(text: string, target: string)
    requires Word(text) && Word(target)
    ensures GenerateExcerptAsWritten("[" + text + "](" + target + ")" + More) == target
  {
    var link := "[" + text + "](" + target + ")";
    LinkExcerptSetup(text, target);
    LinkKeepsTarget(text, target, []);
    assert link + [] == link;
    TidyPlainRest(link, LinkHit, target);
  }

  /** Corrected, the same excerpt shows the link's text: `[a](b)<!--more-->` gives `a`. */
  lemma LinkExcerptShowsText(text: string, target: string)
    requires Word(text) && Word(target)
    ensures GenerateExcerpt("[" + text + "](" + target + ")" + More) == text
  {
    var link := "[" + text + "](" + target + ")";
    LinkExcerptSetup(text, target);
    LinkKeepsText(text, target, []);
    assert link + [] == link;
    TidyPlainRest(link, LinkTextHit, text);
  }

  // ---------------------------------------------------------------------------------------
  // parseFrontMatter: the fence

  /** The front-matter values: a string, a boolean, or a list collected from `- item` lines. */
  datatype Value = Str(s: string) | Bool(b: bool) | List(items: seq<string>)

  type FrontMatter = map<string, Value>

  datatype Parsed = Parsed(data: FrontMatter, content: string)

  /** Where the captured block of `/^---\s*([\s\S]*?)\s*---/` starts and ends, and where the whole match ends. */
  datatype Fence = Fence(blockStart: nat, blockEnd: nat, matchEnd: nat)

  function WsRun(c: string, p: nat): (n: nat)
    requires p <= |c|
    ensures p + n <= |c|
  {
    Span(c[p..], IsJsSpace)
  }

  /**
   * The lazy block may end at `q` when the whitespace run from `q` is followed by `---`. The
   * trailing `\s*` must take the whole run, because `---` does not start with whitespace.
   */
  predicate ClosesAt(c: string, q: nat)
    requires q <= |c|
  {
    "---" <= c[q + WsRun(c, q)..]
  }

  /** The first place from `p` on where the block may end. */
  function CloseFrom(c: string, p: nat): (r: Option<nat>)
    requires p <= |c|
    ensures r.Some? ==> p <= r.value <= |c| && ClosesAt(c, r.value)
    ensures r.Some? ==> forall q :: p <= q < r.value ==> !ClosesAt(c, q)
    ensures r.None? ==> forall q :: p <= q <= |c| ==> !ClosesAt(c, q)
    decreases |c| - p
  {
    if ClosesAt(c, p) then Some(p)
    else if p == |c| then None
    else CloseFrom(c, p + 1)
  }

  /**
   * The match of the front-matter regex. The leading `\s*` takes the whole run: giving some of it
   * back only lets the block start with whitespace, and every end tried then was tried already.
   */
  function FenceOf(c: string): (r: Option<Fence>)
    ensures r.Some? ==> "---" <= c
    ensures r.Some? ==> r.value.blockStart <= r.value.blockEnd && r.value.matchEnd <= |c|
  {
    if !("---" <= c) then None
    else
      var s := 3 + WsRun(c, 3);
      match CloseFrom(c, s)
      case None => None
      case Some(e) => Some(Fence(s, e, e + WsRun(c, e) + 3))
  }

  // ---------------------------------------------------------------------------------------
  // parseFrontMatter: the lines

  /** The loop's variables: `data`, `currentKey` and `currentArray`. */
  datatype LineState = LineState(data: FrontMatter, key: Option<string>, items: seq<string>)

  const Start: LineState := LineState(map[], None, [])

  /** `'true'`/`'false'` in any case become booleans. Only ASCII letters lower-case to these words, so ASCII lower-casing decides it. */
  function ValueOf(v: string): Value {
    if Lower(v) == "true" then Bool(true)
    else if Lower(v) == "false" then Bool(false)
    else Str(v)
  }

  /** Storing the pending list, if there is a pending key and the list is not empty. */
  function Flush(st: LineState): LineState {
    if Truthy(st.key) && |st.items| > 0 then LineState(st.data[st.key.value := List(st.items)], st.key, [])
    else st
  }

  /** One iteration of the loop over the block's lines. */
  function Step(st: LineState, raw: string): LineState {
    var line := Trim(raw);
    if line == [] then st
    else if "- " <= line then
      if Truthy(st.key) then st.(items := st.items + [Trim(line[2..])]) else st
    else
      match IndexOf(line, ":")
      case None => st
      case Some(i) =>
        var flushed := Flush(st);
        var key := Trim(line[..i]);
        var value := Trim(line[i + 1..]);
        if value == [] then flushed.(key := Some(key))
        else flushed.(data := flushed.data[key := ValueOf(value)], key := None)
  }

  function Fold(st: LineState, lines: seq<string>): LineState
    decreases |lines|
  {
    if lines == [] then st else Fold(Step(st, lines[0]), lines[1..])
  }

  /** `parseFrontMatter`. */
  function ParseFrontMatter(content: string): Parsed {
    match FenceOf(content)
    case None => Parsed(map[], content)
    case Some(f) =>
      var lines := Split(content[f.blockStart..f.blockEnd], "\n");
      Parsed(Flush(Fold(Start, lines)).data, Trim(content[f.matchEnd..]))
  }

  /** The loop of `parseFrontMatter`, over its three variables. */
  method ParseFrontMatterLoop(content: string) returns (data: FrontMatter, rest: string)
    ensures Parsed(data, rest) == ParseFrontMatter(content)
  {
    var fence := FenceOf(content);
    if fence.None? {
      data, rest := map[], content;
    } else {
      var f := fence.value;
      var lines := Split(content[f.blockStart..f.blockEnd], "\n");
      rest := Trim(content[f.matchEnd..]);
      data := map[];
      var currentKey: Option<string> := None;
      var currentArray: seq<string> := [];
      for i := 0 to |lines|
        invariant Fold(LineState(data, currentKey, currentArray), lines[i..]) == Fold(Start, lines)
      {
        assert lines[i..][0] == lines[i] && lines[i..][1..] == lines[i + 1..];
        data, currentKey, currentArray := ParseLine(data, currentKey, currentArray, lines[i]);
      }
      assert lines[|lines|..] == [];
      if Truthy(currentKey) && |currentArray| > 0 {
        data := data[currentKey.value := List(currentArray)];
      }
    }
  }

  /** One pass of the loop body, `continue`s included: exactly one `Step` on the three variables. */
  method ParseLine(data: FrontMatter, currentKey: Option<string>, currentArray: seq<string>, raw: string)
    returns (data': FrontMatter, key': Option<string>, array': seq<string>)
    ensures LineState(data', key', array') == Step(LineState(data, currentKey, currentArray), raw)
  {
    data', key', array' := data, currentKey, currentArray;
    var line := Trim(raw);
    if line == [] {
    } else if "- " <= line {
      if Truthy(key') {
        array' := array' + [Trim(line[2..])];
      }
    } else {
      var colon := IndexOf(line, ":");
      if colon.Some? {
        if Truthy(key') && |array'| > 0 {
          data' := data'[key'.value := List(array')];
          array' := [];
        }
        key' := Some(Trim(line[..colon.value]));
        var value := Trim(line[colon.value + 1..]);
        if value != [] {
          data' := data'[key'.value := ValueOf(value)];
          key' := None;
        }
      }
    }
  }

  // ---------------------------------------------------------------------------------------
  // parseFrontMatter: properties

  /** Without a leading `---…---` block there is no data and the content is returned as it was. */
  lemma NoFenceNoData(content: string)
    ensures !("---" <= content) ==> FenceOf(content).None?
    ensures FenceOf(content).None? ==> ParseFrontMatter(content) == Parsed(map[], content)
  {
  }

  /** A document written as `---`, newline, block, newline, `---`, body: the block is found again and the content is the trimmed body. */
  lemma DocumentFence(block: string, body: string)
    requires IsTrimmed(block) && !Contains(block, "---")
    ensures var c := "---\n" + block + "\n---" + body;
      && FenceOf(c).Some?
      && c[FenceOf(c).value.blockStart..FenceOf(c).value.blockEnd] == block
      && FenceOf(c).value.matchEnd == 8 + |block|
      && ParseFrontMatter(c).content == Trim(body)
  {
    var c := "---\n" + block + "\n---" + body;
    var n := |block|;
    assert Layout(c, block) by {
      assert c[..3] == "---";
      assert c[4..4 + n] == block;
      assert c[5 + n..8 + n] == "---";
    }
    LayoutFence(c, block);
    assert c[8 + n..] == body;
  }

  /** Where the pieces of such a document sit. */
  predicate Layout(c: string, block: string) {
    && |c| >= 8 + |block|
    && c[..3] == "---" && c[3] == '\n'
    && c[4..4 + |block|] == block
    && c[4 + |block|] == '\n' && c[5 + |block|..8 + |block|] == "---"
  }

  lemma LayoutFence(c: string, block: string)
    requires Layout(c, block) && IsTrimmed(block) && !Contains(block, "---")
    ensures FenceOf(c).Some? && FenceOf(c).value.matchEnd == 8 + |block|
    ensures c[FenceOf(c).value.blockStart..FenceOf(c).value.blockEnd] == block
  {
    var n := |block|;
    var s := if block == [] then 5 else 4;
    var e := if block == [] then 5 else 4 + n;
    OpeningRun(c, block, s);
    ClosingRun(c, block, e);
    FirstClose(c, block, s, e);
    FenceFrom(c, s, e);
    assert c[s..e] == block by {
      if block != [] {
        assert c[s..e] == c[4..4 + n];
      }
    }
  }

  /** The whitespace after the opening `---` is the line end, and the one after it too when the block is empty. */
  lemma OpeningRun(c: string, block: string, s: nat)
    requires Layout(c, block) && IsTrimmed(block)
    requires s == if block == [] then 5 else 4
    ensures "---" <= c && 3 + WsRun(c, 3) == s
  {
    var n := |block|;
    var t := c[3..];
    assert t[0] == '\n';
    if block == [] {
      assert t[1] == '\n' && t[2] == c[5 + n..8 + n][0] == '-';
      assert IsJsSpace(t[0]) && IsJsSpace(t[1]) && !IsJsSpace(t[2]);
    } else {
      assert t[1] == c[4..4 + n][0] == block[0];
      assert IsJsSpace(t[0]) && !IsJsSpace(t[1]);
    }
    SpanUnique(t, IsJsSpace, s - 3);
  }

  /** The block may end at `e`: one line end (none for an empty block), then `---`. */
  lemma ClosingRun(c: string, block: string, e: nat)
    requires Layout(c, block) && IsTrimmed(block)
    requires e == if block == [] then 5 else 4 + |block|
    ensures e <= |c| && e + WsRun(c, e) == 5 + |block| && ClosesAt(c, e)
  {
    var n := |block|;
    var w := if block == [] then 0 else 1;
    var t := c[e..];
    assert c[5 + n] == c[5 + n..8 + n][0] == '-';
    if block == [] {
      assert t[0] == c[5 + n];
      assert !IsJsSpace(t[0]);
    } else {
      assert t[0] == c[4 + n] && t[1] == c[5 + n];
      assert IsJsSpace(t[0]) && !IsJsSpace(t[1]);
    }
    SpanUnique(t, IsJsSpace, w);
    assert c[5 + n..][..3] == c[5 + n..8 + n];
  }

  /** Nothing inside the block closes it, so the first close is at `e`. */
  lemma FirstClose(c: string, block: string, s: nat, e: nat)
    requires Layout(c, block) && IsTrimmed(block) && !Contains(block, "---")
    requires s == (if block == [] then 5 else 4) && e == (if block == [] then 5 else 4 + |block|)
    requires e <= |c| && ClosesAt(c, e)
    ensures CloseFrom(c, s) == Some(e)
  {
    forall q | s <= q < e ensures !ClosesAt(c, q) {
      NotClosingInside(c, block, q);
    }
    CloseFromFirst(c, s, e);
  }

  /** The first place that closes is the one `CloseFrom` finds. */
  lemma {:induction false} CloseFromFirst(c: string, p: nat, e: nat)
    requires p <= e <= |c| && ClosesAt(c, e)
    requires forall q :: p <= q < e ==> !ClosesAt(c, q)
    ensures CloseFrom(c, p) == Some(e)
    decreases e - p
  {
    if p < e {
      assert !ClosesAt(c, p);
      CloseFromFirst(c, p + 1, e);
    }
  }

  /** `FenceOf` read off its two steps. */
  lemma FenceFrom(c: string, s: nat, e: nat)
    requires "---" <= c && 3 + WsRun(c, 3) == s && CloseFrom(c, s) == Some(e)
    ensures FenceOf(c) == Some(Fence(s, e, e + WsRun(c, e) + 3))
  {
  }

  /** Inside a trimmed block free of `---`, no whitespace run is followed by `---`. */
  lemma NotClosingInside(c: string, block: string, q: nat)
    requires Layout(c, block)
    requires IsTrimmed(block) && !Contains(block, "---") && 4 <= q < 4 + |block|
    ensures !ClosesAt(c, q)
  {
    var n := |block|;
    var j := q + WsRun(c, q);
    assert j <= 3 + n by {
      assert c[3 + n] == c[4..4 + n][n - 1] == block[n - 1];
      assert c[q..][3 + n - q] == c[3 + n];
    }
    if j + 3 <= 4 + n {
      NoDashesInBlock(c, block, j);
    } else {
      assert c[j..][4 + n - j] == c[4 + n] == '\n';
    }
  }

  /** Three characters read inside the block are not `---`. */
  lemma NoDashesInBlock(c: string, block: string, j: nat)
    requires Layout(c, block) && !Contains(block, "---") && 4 <= j && j + 3 <= 4 + |block|
    ensures !("---" <= c[j..])
  {
    var n := |block|;
    var x, y := c[j..j + 3], block[j - 4..j - 1];
    assert x == y by {
      forall i | 0 <= i < 3 ensures x[i] == y[i] {
        assert c[j + i] == c[4..4 + n][j - 4 + i];
      }
    }
    ContainsIff(block, "---");
    assert !OccursAt(block, "---", j - 4);
  }

  /** Blank lines change nothing. */
  lemma BlankLineSkipped(st: LineState, raw: string)
    requires IsBlank(raw)
    ensures Step(st, raw) == st
  {
  }

  /** A `- item` line without a pending key is dropped. */
  lemma OrphanItemIgnored(st: LineState, raw: string)
    requires "- " <= Trim(raw) && !Truthy(st.key)
    ensures Step(st, raw) == st
  {
  }

  /** What the loop keeps true: only a pending key collects items, and every stored list is non-empty. */
  predicate ListsNonEmpty(d: FrontMatter) {
    forall k :: k in d && d[k].List? ==> d[k].items != []
  }

  predicate Inv(st: LineState) {
    (st.items != [] ==> Truthy(st.key)) && ListsNonEmpty(st.data)
  }

  lemma StepKeepsInv(st: LineState, raw: string)
    requires Inv(st)
    ensures Inv(Step(st, raw)) && Inv(Flush(st))
  {
  }

  lemma {:induction false} FoldKeepsInv(st: LineState, lines: seq<string>)
    requires Inv(st)
    ensures Inv(Fold(st, lines))
    decreases |lines|
  {
    if lines != [] {
      StepKeepsInv(st, lines[0]);
      FoldKeepsInv(Step(st, lines[0]), lines[1..]);
    }
  }

  /** `parseFrontMatter` never stores an empty list. */
  lemma ParsedListsNonEmpty(content: string)
    ensures ListsNonEmpty(ParseFrontMatter(content).data)
  {
    match FenceOf(content)
    case None =>
    case Some(f) =>
      var lines := Split(content[f.blockStart..f.blockEnd], "\n");
      FoldKeepsInv(Start, lines);
      StepKeepsInv(Fold(Start, lines), "");
  }

  /** A key that can head a line: trimmed, without `:`, not looking like an item. */
  predicate PlainKey(k: string) {
    IsTrimmed(k) && ':' !in k && !("- " <= k)
  }

  /** A trimmed line that is not an item and has its first `:` at `i`: what `Step` does with it. */
  lemma KeyValueStep(st: LineState, line: string, i: nat)
    requires IsTrimmed(line) && line != [] && !("- " <= line)
    requires IndexOf(line, ":") == Some(i)
    ensures var key := Trim(line[..i]);
      var value := Trim(line[i + 1..]);
      Step(st, line) == if value == [] then Flush(st).(key := Some(key))
                        else Flush(st).(data := Flush(st).data[key := ValueOf(value)], key := None)
  {
    TrimmedIff(line);
  }

  /** The first `:` of `k + rest` is the one after `k` when `k` has none. */
  lemma FirstColon(k: string, rest: string)
    requires ':' !in k && ":" <= rest
    ensures IndexOf(k + rest, ":") == Some(|k|)
  {
    var line := k + rest;
    assert line[|k|..|k| + 1] == rest[..1] == ":";
    forall j | 0 <= j < |k| ensures !OccursAt(line, ":", j) {
      assert line[j..j + 1][0] == k[j];
    }
    IndexOfAt(line, ":", |k|);
  }

  /** `Step` on a line whose key and value have already been cut out and trimmed. */
  lemma KeyValueFrom(st: LineState, line: string, i: nat, key: string, value: string)
    requires IsTrimmed(line) && line != [] && !("- " <= line)
    requires IndexOf(line, ":") == Some(i) && i < |line|
    requires Trim(line[..i]) == key && Trim(line[i + 1..]) == value
    ensures Step(st, line) == if value == [] then Flush(st).(key := Some(key))
                              else Flush(st).(data := Flush(st).data[key := ValueOf(value)], key := None)
  {
    KeyValueStep(st, line, i);
  }

  /**
   * `key: value` with a non-empty value stores the value (a boolean for `true`/`false` in any
   * case) under the key, after storing any pending list, and leaves no key pending.
   */
  lemma ScalarLine(st: LineState, k: string, v: string)
    requires Inv(st) && PlainKey(k) && v != [] && IsTrimmed(v)
    ensures Step(st, k + ": " + v) == LineState(Flush(st).data[k := ValueOf(v)], None, [])
  {
    ScalarLineParts(k, v);
    KeyValueFrom(st, k + ": " + v, |k|, k, v);
  }

  /** The pieces of a `key: value` line: trimmed, not an item, split at the colon after the key. */
  lemma ScalarLineParts(k: string, v: string)
    requires PlainKey(k) && v != [] && IsTrimmed(v)
    ensures var line := k + ": " + v;
      && IsTrimmed(line) && line != [] && !("- " <= line)
      && IndexOf(line, ":") == Some(|k|) && |k| < |line|
      && Trim(line[..|k|]) == k && Trim(line[|k| + 1..]) == v
  {
    ScalarLineTrimmed(k, v);
    ScalarLineSplit(k, ": " + v, v);
    AppendAssoc(k, ": ", v);
  }

  /** Cutting `k + ": " + v` at its colon gives back the key and the value, once trimmed. */
  lemma ScalarLineSplit(k: string, rest: string, v: string)
    requires PlainKey(k) && v != [] && IsTrimmed(v) && rest == ": " + v
    ensures var line := k + rest;
      && IndexOf(line, ":") == Some(|k|) && |k| < |line|
      && Trim(line[..|k|]) == k && Trim(line[|k| + 1..]) == v
  {
    SplitAtColon(k, rest);
    TrimmedIff(k);
    ValueAfterColon(rest, v);
  }

  /** What follows the colon of `": " + v` trims to `v`. */
  lemma ValueAfterColon(rest: string, v: string)
    requires v != [] && IsTrimmed(v) && rest == ": " + v
    ensures Trim(rest[1..]) == v
  {
    assert rest[1..] == " " + v;
    TrimSpaced(v);
  }

  /** `k + rest` split at its first `:`, when `rest` starts with the only `:` before it. */
  lemma SplitAtColon(k: string, rest: string)
    requires ':' !in k && ":" <= rest
    ensures IndexOf(k + rest, ":") == Some(|k|) && (k + rest)[..|k|] == k && (k + rest)[|k| + 1..] == rest[1..]
  {
    FirstColon(k, rest);
  }

  /** A `key: value` line is trimmed and is not a list item. */
  lemma ScalarLineTrimmed(k: string, v: string)
    requires PlainKey(k) && v != [] && IsTrimmed(v)
    ensures var line := k + ": " + v; IsTrimmed(line) && !("- " <= line)
  {
    var line := k + ": " + v;
    assert line[0] == (if k == [] then ':' else k[0]);
    assert line[|line| - 1] == v[|v| - 1];
    if |k| == 1 {
      assert line[1] == ':';
    } else if |k| > 1 {
      assert line[..2] == k[..2];
    }
  }

  /** One space before a trimmed value is trimmed away. */
  lemma TrimSpaced(v: string)
    requires v != [] && IsTrimmed(v)
    ensures Trim(" " + v) == v
  {
    assert TrimStart(" " + v) == TrimStart(v);
    TrimmedIff(v);
    assert TrimStart(v) == v;
  }

  /** `key:` with nothing after it makes the key pending, after storing any pending list. */
  lemma KeyLine(st: LineState, k: string)
    requires Inv(st) && PlainKey(k) && k != []
    ensures Step(st, k + ":") == LineState(Flush(st).data, Some(k), [])
  {
    KeyLineParts(k);
    KeyValueFrom(st, k + ":", |k|, k, []);
  }

  /** The pieces of a `key:` line: trimmed, not an item, split at its final colon. */
  lemma KeyLineParts(k: string)
    requires PlainKey(k) && k != []
    ensures var line := k + ":";
      && IsTrimmed(line) && line != [] && !("- " <= line)
      && IndexOf(line, ":") == Some(|k|) && |k| < |line|
      && Trim(line[..|k|]) == k && Trim(line[|k| + 1..]) == []
  {
    var line := k + ":";
    FirstColon(k, ":");
    assert line[..|k|] == k && line[|k| + 1..] == [];
    assert line[0] == k[0];
    TrimmedIff(k);
    assert Trim([]) == [] by { assert Span([], IsJsSpace) == 0; }
  }

  /** The lines `- x` for each item `x`. */
  function ItemLines(xs: seq<string>): (ls: seq<string>)
    ensures |ls| == |xs|
    decreases |xs|
  {
    if xs == [] then [] else ["- " + xs[0]] + ItemLines(xs[1..])
  }

  predicate PlainItems(xs: seq<string>) {
    forall i :: 0 <= i < |xs| ==> xs[i] != [] && IsTrimmed(xs[i])
  }

  lemma ItemStep(st: LineState, x: string)
    requires Truthy(st.key) && x != [] && IsTrimmed(x)
    ensures Step(st, "- " + x) == st.(items := st.items + [x])
  {
    ItemLineParts(x);
  }

  /** A `- x` line with a trimmed item is trimmed, starts a list item, and holds `x` after the dash. */
  lemma ItemLineParts(x: string)
    requires x != [] && IsTrimmed(x)
    ensures var line := "- " + x; Trim(line) == line && "- " <= line && Trim(line[2..]) == x
  {
    var line := "- " + x;
    TrimmedIff(line);
    assert line[2..] == x;
    TrimmedIff(x);
  }

  /** With a key pending, `- x` lines append their items in order. */
  lemma {:induction false} ItemsCollected(st: LineState, xs: seq<string>)
    requires Truthy(st.key) && PlainItems(xs)
    ensures Fold(st, ItemLines(xs)) == st.(items := st.items + xs)
    decreases |xs|
  {
    if xs == [] {
      assert st.items + xs == st.items;
    } else {
      var x, rest := xs[0], xs[1..];
      ItemLinesCons(xs);
      FoldItem(st, ItemLines(xs), x);
      ItemsCollected(st.(items := st.items + [x]), rest);
      AppendHead(st.items, xs);
    }
  }

  lemma AppendHead(a: seq<string>, xs: seq<string>)
    requires xs != []
    ensures a + [xs[0]] + xs[1..] == a + xs
  {
    assert xs == [xs[0]] + xs[1..];
  }

  /** Folding lines that start with `- x` appends `x` and goes on with the other lines. */
  lemma FoldItem(st: LineState, ls: seq<string>, x: string)
    requires Truthy(st.key) && x != [] && IsTrimmed(x) && ls != [] && ls[0] == "- " + x
    ensures Fold(st, ls) == Fold(st.(items := st.items + [x]), ls[1..])
  {
    ItemStep(st, x);
  }

  /** The first item's line, then the lines of the other items. */
  lemma ItemLinesCons(xs: seq<string>)
    requires xs != [] && PlainItems(xs)
    ensures var ls := ItemLines(xs);
      && ls != [] && ls[0] == "- " + xs[0] && ls[1..] == ItemLines(xs[1..])
      && xs[0] != [] && IsTrimmed(xs[0]) && PlainItems(xs[1..])
  {
    assert PlainItems(xs[1..]) by {
      forall i | 0 <= i < |xs[1..]| ensures xs[1..][i] != [] && IsTrimmed(xs[1..][i]) {
        assert xs[1..][i] == xs[i + 1];
      }
    }
  }

  /**
   * `key:` followed by `- item` lines: the items are collected in order under the key; at the
   * end (or at the next key line) the list is stored, unless it is empty.
   */
  lemma ListBlock(st: LineState, k: string, xs: seq<string>)
    requires Inv(st) && PlainKey(k) && k != [] && PlainItems(xs)
    ensures Fold(st, [k + ":"] + ItemLines(xs)) == LineState(Flush(st).data, Some(k), xs)
    ensures Flush(Fold(st, [k + ":"] + ItemLines(xs))).data
      == if xs == [] then Flush(st).data else Flush(st).data[k := List(xs)]
  {
    var pending := LineState(Flush(st).data, Some(k), []);
    FoldKeyLine(st, k, ItemLines(xs));
    ItemsCollected(pending, xs);
    assert pending.(items := pending.items + xs) == LineState(Flush(st).data, Some(k), xs);
  }

  /** Folding lines that start with `key:` goes on with the key pending and no items. */
  lemma FoldKeyLine(st: LineState, k: string, ls: seq<string>)
    requires Inv(st) && PlainKey(k) && k != []
    ensures Fold(st, [k + ":"] + ls) == Fold(LineState(Flush(st).data, Some(k), []), ls)
  {
    var lines := [k + ":"] + ls;
    assert lines[0] == k + ":" && lines[1..] == ls;
    KeyLine(st, k);
  }

  // ---------------------------------------------------------------------------------------
  // parseMarkdownFile

  datatype MarkdownFile = MarkdownFile(
    title: Value,
    date: Value,
    tags: seq<string>,
    categories: seq<string>,
    category: string,
    photos: seq<string>,
    content: string,
    excerpt: string,
    topped: bool)

  /** JavaScript truthiness of a front-matter field: present and not `''` or `false` (a list, even empty, is truthy). */
  predicate FieldTruthy(d: FrontMatter, key: string) {
    key in d && match d[key]
      case Str(s) => s != []
      case Bool(b) => b
      case List(_) => true
  }

  /** `Array.isArray(d[key]) ? d[key] : []`. */
  function ListOr(d: FrontMatter, key: string): seq<string> {
    if key in d && d[key].List? then d[key].items else []
  }

  /** Photos lose one leading `/`. */
  function StripSlash(p: string): string {
    if "/" <= p then p[1..] else p
  }

  /** The record of the `catch` branch. */
  function ErrorFile(today: string): MarkdownFile {
    MarkdownFile(Str("Error parsing markdown"), Str(today), [], [], "未分类", [], [], [], false)
  }

  /**
   * `parseMarkdownFile`, with what differs between the two copies as parameters: how image
   * sources are rewritten and the category used when there is none.
   */
  function MarkdownFileWith(content: string, today: string, marked: string -> Option<string>,
                            path: string -> string, noCategory: string): MarkdownFile
  {
    var parsed := ParseFrontMatter(content);
    var d := parsed.data;
    var processed := ProcessImages(parsed.content, path);
    var excerptRaw := GenerateExcerptAsWritten(processed);
    if !Rendered(content, marked, path) then ErrorFile(today)
    else
      ParsedListsNonEmpty(content);
      var categories := ListOr(d, "categories");
      var photos := ListOr(d, "photos");
      MarkdownFile(
        if FieldTruthy(d, "title") then d["title"] else Str("Untitled"),
        if FieldTruthy(d, "date") then d["date"] else Str(today),
        ListOr(d, "tags"),
        categories,
        if "categories" in d && d["categories"].List? then categories[0] else noCategory,
        seq(|photos|, i requires 0 <= i < |photos| => StripSlash(photos[i])),
        marked(processed).value,
        if excerptRaw != [] then marked(excerptRaw).value else [],
        FieldTruthy(d, "topped"))
  }

  /** `marked` renders both the body and, when there is one, the excerpt (it does not throw). */
  predicate Rendered(content: string, marked: string -> Option<string>, path: string -> string) {
    var processed := ProcessImages(ParseFrontMatter(content).content, path);
    && marked(processed).Some?
    && (GenerateExcerptAsWritten(processed) != [] ==> marked(GenerateExcerptAsWritten(processed)).Some?)
  }

  /** `parseMarkdownFile` of `markdownUtils.ts`. */
  function ParseMarkdownFile(content: string, postId: string, today: string, marked: string -> Option<string>): MarkdownFile {
    MarkdownFileWith(content, today, marked, src => GetImagePath(src, postId), "未分类")
  }

  /** `parseMarkdownFile` of `markdownUtils.js`; its `getImagePath` is imported, so it is a parameter. */
  function ParseMarkdownFileJs(content: string, today: string, marked: string -> Option<string>,
                               getImagePath: string -> string): MarkdownFile {
    MarkdownFileWith(content, today, marked, getImagePath, "Uncategorized")
  }

  /**
   * The defaults: the title falls back to `Untitled`, the date to today; tags and categories are
   * lists or empty; the category is the first category exactly when there are categories, else
   * the fallback; photos keep their order and lose a leading `/`; `topped` is the field's
   * truthiness; the content is the rendered body and the excerpt the rendered excerpt (the
   * `generateExcerpt` actually called, with its `$1` link rule), or empty. If `marked` throws,
   * the error record comes back instead.
   */
  lemma MarkdownFileDefaults(content: string, today: string, marked: string -> Option<string>,
                             path: string -> string, noCategory: string)
    ensures var r := MarkdownFileWith(content, today, marked, path, noCategory);
      var d := ParseFrontMatter(content).data;
      var processed := ProcessImages(ParseFrontMatter(content).content, path);
      Rendered(content, marked, path) ==>
        && (r.title == if FieldTruthy(d, "title") then d["title"] else Str("Untitled"))
        && (r.date == if FieldTruthy(d, "date") then d["date"] else Str(today))
        && r.tags == ListOr(d, "tags")
        && (r.categories != [] ==> r.category == r.categories[0])
        && (r.categories == [] ==> r.category == noCategory)
        && |r.photos| == |ListOr(d, "photos")|
        && (forall i :: 0 <= i < |r.photos| ==> r.photos[i] == StripSlash(ListOr(d, "photos")[i]))
        && (r.topped <==> FieldTruthy(d, "topped"))
        && r.content == marked(processed).value
        && (r.excerpt == if GenerateExcerptAsWritten(processed) != [] then marked(GenerateExcerptAsWritten(processed)).value else [])
    ensures !Rendered(content, marked, path) ==> MarkdownFileWith(content, today, marked, path, noCategory) == ErrorFile(today)
  {
    ParsedListsNonEmpty(content);
  }

  /** A photo path loses at most one slash, and only a leading one. */
  lemma StripSlashFacts(p: string)
    ensures "/" <= p ==> "/" + StripSlash(p) == p
    ensures !("/" <= p) ==> StripSlash(p) == p
  {
  }
}
