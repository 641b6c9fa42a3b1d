/**
 * `TextFormatter`: markup removed from a post's text for a plain-text preview, then the
 * preview cut to a character limit. `formatText` is a chain of global `replace` calls; each
 * regular expression is a matcher on the text at the scan position, as in `MarkdownUtils`.
 */
module TextFormatter {
  import opened Wrappers
  import opened Text
  import opened MarkdownUtils

  /** The length of the run before the first `c` (all of `t` when there is none): `[^c]*`. */
  function Before(t: string, c: char): (n: nat)
    ensures n <= |t|
    ensures forall i :: 0 <= i < n ==> t[i] != c
    ensures n < |t| ==> t[n] == c
  {
    if t == [] || t[0] == c then 0 else 1 + Before(t[1..], c)
  }

  /** A run free of `c` that is followed by `c` is exactly the run `Before` measures. */
  lemma {:induction false} BeforeAt(t: string, c: char, k: nat)
    requires k < |t| && t[k] == c
    requires forall i :: 0 <= i < k ==> t[i] != c
    ensures Before(t, c) == k
  {
    if k > 0 {
      BeforeAt(t[1..], c, k - 1);
    }
  }

  /**
   * `open([^c]+)close` at the start of `u`, where `close` starts with `c`: the length of the
   * captured run. The class stops at the first `c`, so no backtracking can help.
   */
  function Delimited(u: string, open: string, c: char, close: string): (r: Option<nat>)
    ensures r.Some? ==> 0 < r.value && |open| + r.value + |close| <= |u|
  {
    if open <= u then
      var n := Before(u[|open|..], c);
      if n > 0 && close <= u[|open| + n..] then Some(n) else None
    else None
  }

  /** Where the pieces of a delimited span are, the matcher finds it. */
  lemma DelimitedAt(u: string, open: string, inner: string, close: string, c: char)
    requires close != [] && close[0] == c && c !in inner && inner != []
    requires open + inner + close <= u
    ensures Delimited(u, open, c, close) == Some(|inner|)
    ensures u[|open|..|open| + |inner|] == inner
  {
    var t := u[|open|..];
    var k := |inner|;
    assert t[..k] == inner && t[k] == c by {
      assert u[..|open| + k + |close|] == open + inner + close;
    }
    assert forall i :: 0 <= i < k ==> t[i] != c by {
      assert forall i :: 0 <= i < k ==> t[i] == inner[i];
    }
    BeforeAt(t, c, k);
    assert u[|open| + k..][..|close|] == close by {
      assert u[..|open| + k + |close|] == open + inner + close;
    }
  }

  /** A delimited span at the start of `u` is replaced by `f` of its captured text. */
  function DelimitedHit(u: string, open: string, c: char, close: string, f: string -> string): (r: Option<Hit>)
    ensures r.Some? ==> 0 < r.value.len <= |u|
  {
    match Delimited(u, open, c, close)
    case Some(n) => Some(Hit(|open| + n + |close|, f(u[|open|..|open| + n])))
    case None => None
  }

  /** One delimited span at the front: replaced, and the scan goes on after it. */
  lemma DelimitedReplaced(open: string, inner: string, close: string, c: char, rest: string,
                          f: string -> string, m: string -> Option<Hit>)
    requires open != [] && close != [] && close[0] == c && c !in inner && inner != []
    requires m(open + inner + close + rest) == DelimitedHit(open + inner + close + rest, open, c, close, f)
    ensures ReplaceAll(open + inner + close + rest, m) == f(inner) + ReplaceAll(rest, m)
  {
    var s := open + inner + close + rest;
    var n := |open| + |inner| + |close|;
    DelimitedFront(open, inner, close, c, rest, f);
    ReplaceAllStep(s, m, n, f(inner));
  }

  /** The span at the front is the match, and the text after it is `rest`. */
  lemma DelimitedFront(open: string, inner: string, close: string, c: char, rest: string, f: string -> string)
    requires open != [] && close != [] && close[0] == c && c !in inner && inner != []
    ensures var s := open + inner + close + rest; var n := |open| + |inner| + |close|;
      DelimitedHit(s, open, c, close, f) == Some(Hit(n, f(inner))) && 0 < n <= |s| && s[n..] == rest
  {
    var w := open + inner + close;
    PrefixThenRest(w, rest);
    DelimitedHitAt(w + rest, open, inner, close, c, f);
  }

  lemma PrefixThenRest(w: string, rest: string)
    ensures w <= w + rest && (w + rest)[|w|..] == rest
  {
  }

  /** A delimited span at the front of `u` is the match, and `f` gets its inner text. */
  lemma DelimitedHitAt(u: string, open: string, inner: string, close: string, c: char, f: string -> string)
    requires close != [] && close[0] == c && c !in inner && inner != []
    requires open + inner + close <= u
    ensures DelimitedHit(u, open, c, close, f) == Some(Hit(|open| + |inner| + |close|, f(inner)))
  {
    DelimitedAt(u, open, inner, close, c);
  }

  function Drop(s: string): string { [] }
  function Keep(s: string): string { s }

  // ---------------------------------------------------------------------------------------
  // The individual rules

  /** `/<[^>]+>/g` → `''`. */
  function TagHit(u: string): Option<Hit> {
    DelimitedHit(u, "<", '>', ">", Drop)
  }

  /** The nine named entities `formatText` decodes; any other `&…;` becomes a space. */
  function EntityValue(name: string): (r: string)
    ensures |r| == 1
  {
    if name == "amp" then "&"
    else if name == "lt" then "<"
    else if name == "gt" then ">"
    else if name == "quot" then "\""
    else if name == "apos" then "'"
    else if name == "#x2F" then "/"
    else if name == "#x27" then "'"
    else if name == "#x60" then "`"
    else if name == "nbsp" then " "
    else " "
  }

  /** `/&[^;]+;/g` → the entity's character. */
  function EntityHit(u: string): Option<Hit> {
    DelimitedHit(u, "&", ';', ";", EntityValue)
  }

  /**
   * `/\[([^\]]+)\]\([^)]+\)/g` → `'$1'`: a bracketed text immediately followed by a
   * parenthesised target; the link text is kept.
   */
  function LinkHit(u: string): Option<Hit> {
    match Delimited(u, "[", ']', "](")
    case None => None
    case Some(n) =>
      var rest := u[n + 1..];
      match Delimited(rest, "](", ')', ")")
      case None => None
      case Some(m) => Some(Hit(n + 1 + 2 + m + 1, u[1..n + 1]))
  }

  /** Bold: two asterisks, a run without `*`, two asterisks; the run is kept. */
  function BoldHit(u: string): Option<Hit> {
    DelimitedHit(u, "**", '*', "**", Keep)
  }

  /** `/_([^_]+)_/g` → `'$1'`. */
  function ItalicHit(u: string): Option<Hit> {
    DelimitedHit(u, "_", '_', "_", Keep)
  }

  /** `` /`([^`]+)`/g `` → `'$1'`. */
  function CodeSpanHit(u: string): Option<Hit> {
    DelimitedHit(u, "`", '`', "`", Keep)
  }

  /** `formatText`: the rules in their order, newlines to spaces, whitespace collapsed, trimmed. */
  function FormatText(text: string): (r: string)
    ensures Squished(r) && '\n' !in r
  {
    var s1 := ReplaceAll(text, TagHit);
    var s2 := ReplaceAll(s1, EntityHit);
    var s3 := ReplaceAll(s2, LinkHit);
    var s4 := ReplaceAll(s3, BoldHit);
    var s5 := ReplaceAll(s4, ItalicHit);
    var s6 := ReplaceAll(s5, CodeSpanHit);
    var s7 := ReplaceAll(s6, HeadingHit);
    Squish(ReplaceChar(s7, '\n', ' '))
  }

  /** `processContent`: the formatted text, cut to `limit` characters plus `...` when longer. */
  function ProcessContent(text: string, limit: int): string {
    var f := FormatText(text);
    if limit > 0 && |f| > limit then f[..limit] + "..." else f
  }

  /** The component: nothing for empty or missing content, else the processed text. */
  function Render(content: Option<string>, limit: int): Option<string> {
    if !Truthy(content) then None else Some(ProcessContent(content.value, limit))
  }

  // ---------------------------------------------------------------------------------------
  // What each rule does

  /** A tag `<…>` is deleted. */
  lemma TagRemoved(inner: string, rest: string)
    requires inner != [] && '>' !in inner
    ensures ReplaceAll("<" + inner + ">" + rest, TagHit) == ReplaceAll(rest, TagHit)
  {
    DelimitedReplaced("<", inner, ">", '>', rest, Drop, TagHit);
  }

  /** An entity `&name;` becomes its character, or a space when the name is not one of the nine. */
  lemma EntityDecoded(name: string, rest: string)
    requires name != [] && ';' !in name
    ensures ReplaceAll("&" + name + ";" + rest, EntityHit) == EntityValue(name) + ReplaceAll(rest, EntityHit)
    ensures name !in {"amp", "lt", "gt", "quot", "apos", "#x2F", "#x27", "#x60", "nbsp"} ==> EntityValue(name) == " "
  {
    DelimitedReplaced("&", name, ";", ';', rest, EntityValue, EntityHit);
  }

  /** Bold, italic and code markers are dropped around the text they enclose. */
  lemma MarkersRemoved(inner: string, rest: string)
    ensures inner != [] && '*' !in inner ==>
      ReplaceAll("**" + inner + "**" + rest, BoldHit) == inner + ReplaceAll(rest, BoldHit)
    ensures inner != [] && '_' !in inner ==>
      ReplaceAll("_" + inner + "_" + rest, ItalicHit) == inner + ReplaceAll(rest, ItalicHit)
    ensures inner != [] && '`' !in inner ==>
      ReplaceAll("`" + inner + "`" + rest, CodeSpanHit) == inner + ReplaceAll(rest, CodeSpanHit)
  {
    if inner != [] && '*' !in inner {
      DelimitedReplaced("**", inner, "**", '*', rest, Keep, BoldHit);
    }
    if inner != [] && '_' !in inner {
      DelimitedReplaced("_", inner, "_", '_', rest, Keep, ItalicHit);
    }
    if inner != [] && '`' !in inner {
      DelimitedReplaced("`", inner, "`", '`', rest, Keep, CodeSpanHit);
    }
  }

  /** A link `[text](url)` is replaced by its text. */
  lemma LinkToText(text: string, url: string, rest: string)
    requires text != [] && ']' !in text && url != [] && ')' !in url
    ensures ReplaceAll("[" + text + "](" + url + ")" + rest, LinkHit) == text + ReplaceAll(rest, LinkHit)
  {
    LinkPieces(text, url, rest);
    LinkReplaced("[" + text + "](" + url + ")" + rest, text, |url|, rest);
  }

  /** A link read off its pieces is replaced by its text, and the scan goes on after it. */
  lemma LinkReplaced(s: string, text: string, m: nat, rest: string)
    requires Delimited(s, "[", ']', "](") == Some(|text|) && |text| + 1 <= |s| && s[1..|text| + 1] == text
    requires Delimited(s[|text| + 1..], "](", ')', ")") == Some(m)
    requires |text| + m + 4 <= |s| && s[|text| + m + 4..] == rest
    ensures ReplaceAll(s, LinkHit) == text + ReplaceAll(rest, LinkHit)
  {
    var n := |text| + m + 4;
    LinkHitFrom(s, text, m);
    assert LinkHit(s) == Some(Hit(n, text));
    ReplaceAllStep(s, LinkHit, n, text);
    assert s[n..] == rest;
  }

  /** Where the pieces of a link written at the front lie: its two delimited spans, then `rest`. */
  lemma LinkPieces(text: string, url: string, rest: string)
    requires text != [] && ']' !in text && url != [] && ')' !in url
    ensures var s := "[" + text + "](" + url + ")" + rest;
      && Delimited(s, "[", ']', "](") == Some(|text|) && |text| + 1 <= |s| && s[1..|text| + 1] == text
      && Delimited(s[|text| + 1..], "](", ')', ")") == Some(|url|)
      && |text| + |url| + 4 <= |s| && s[|text| + |url| + 4..] == rest
  {
    var link := "[" + text + "](" + url + ")";
    var s := link + rest;
    PrefixThenRest(link, rest);
    LinkPrefixes(s, text, url);
    LinkSpans(s, text, url);
  }

  /** The link text and the target as the two delimited spans. */
  lemma LinkSpans(s: string, text: string, url: string)
    requires text != [] && ']' !in text && url != [] && ')' !in url
    requires "[" + text + "](" <= s && "](" + url + ")" <= s[|text| + 1..]
    ensures Delimited(s, "[", ']', "](") == Some(|text|) && s[1..|text| + 1] == text
    ensures Delimited(s[|text| + 1..], "](", ')', ")") == Some(|url|)
  {
    DelimitedAt(s, "[", text, "](", ']');
    DelimitedAt(s[|text| + 1..], "](", url, ")", ')');
  }

  /** The two delimited spans a written link starts with. */
  lemma LinkPrefixes(s: string, text: string, url: string)
    requires "[" + text + "](" + url + ")" <= s
    ensures "[" + text + "](" <= s && "](" + url + ")" <= s[|text| + 1..]
  {
    var n := |text|;
    var link := "[" + text + "](" + url + ")";
    var head := "[" + text + "](";
    var tail := "](" + url + ")";
    assert link[..|head|] == head;
    assert s[..|head|] == link[..|head|];
    var r := s[n + 1..];
    assert link[n + 1..] == tail;
    assert r[..|tail|] == s[n + 1..|link|] == link[n + 1..];
  }

  /** `LinkHit` read off its two delimited spans. */
  lemma LinkHitFrom(s: string, text: string, m: nat)
    requires Delimited(s, "[", ']', "](") == Some(|text|) && |text| + 1 <= |s| && s[1..|text| + 1] == text
    requires Delimited(s[|text| + 1..], "](", ')', ")") == Some(m)
    ensures LinkHit(s) == Some(Hit(|text| + m + 4, text))
  {
  }

  // ---------------------------------------------------------------------------------------
  // Plain text, truncation and the component

  /** The character a rule's match has to start with. */
  lemma HitsStartWithMarkup()
    ensures forall u :: TagHit(u).Some? ==> u != [] && u[0] == '<'
    ensures forall u :: EntityHit(u).Some? ==> u != [] && u[0] == '&'
    ensures forall u :: LinkHit(u).Some? ==> u != [] && u[0] == '['
    ensures forall u :: BoldHit(u).Some? ==> u != [] && u[0] == '*'
    ensures forall u :: ItalicHit(u).Some? ==> u != [] && u[0] == '_'
    ensures forall u :: CodeSpanHit(u).Some? ==> u != [] && u[0] == '`'
    ensures forall u :: HeadingHit(u).Some? ==> u != [] && u[0] == '#'
  {
  }

  /** No markup characters at all. */
  predicate Plain(s: string) {
    forall i :: 0 <= i < |s| ==> s[i] !in {'<', '&', '[', '*', '_', '`', '#'}
  }

  lemma {:induction false} NoRuleApplies(s: string, m: string -> Option<Hit>, c: char)
    requires forall u :: m(u).Some? ==> u != [] && u[0] == c
    requires forall i :: 0 <= i < |s| ==> s[i] != c
    ensures ReplaceAll(s, m) == s
  {
    forall k | 0 <= k < |s| ensures m(s[k..]).None? {
      assert s[k..][0] == s[k];
    }
    ReplaceAllNoHit(s, m);
  }

  /** Without markup characters, none of the replace rules finds anything. */
  lemma PlainRulesKeep(s: string)
    requires Plain(s)
    ensures var s1 := ReplaceAll(s, TagHit);
      var s2 := ReplaceAll(s1, EntityHit);
      var s3 := ReplaceAll(s2, LinkHit);
      var s4 := ReplaceAll(s3, BoldHit);
      var s5 := ReplaceAll(s4, ItalicHit);
      var s6 := ReplaceAll(s5, CodeSpanHit);
      ReplaceAll(s6, HeadingHit) == s
  {
    HitsStartWithMarkup();
    NoRuleApplies(s, TagHit, '<');
    NoRuleApplies(s, EntityHit, '&');
    NoRuleApplies(s, LinkHit, '[');
    NoRuleApplies(s, BoldHit, '*');
    NoRuleApplies(s, ItalicHit, '_');
    NoRuleApplies(s, CodeSpanHit, '`');
    NoRuleApplies(s, HeadingHit, '#');
  }

  /** Text that is already single-spaced, trimmed and free of markup is shown as it is. */
  lemma PlainUnchanged(s: string)
    requires Plain(s) && Squished(s)
    ensures FormatText(s) == s
  {
    PlainRulesKeep(s);
    assert ReplaceChar(s, '\n', ' ') == s by {
      forall i | 0 <= i < |s| ensures s[i] != '\n' {
        assert s[i] == '\n' ==> IsJsSpace(s[i]);
      }
    }
    SquishPlain(s);
  }

  /**
   * A positive limit caps the text at `limit` characters followed by `...`; text within the
   * limit, or any text when the limit is not positive, is shown whole.
   */
  lemma TruncateFacts(text: string, limit: int)
    ensures var f, r := FormatText(text), ProcessContent(text, limit);
      && (limit <= 0 || |f| <= limit ==> r == f)
      && (limit > 0 && |f| > limit ==> |r| == limit + 3 && f[..limit] <= r && EndsWith(r, "..."))
      && (limit > 0 ==> |r| <= limit + 3)
  {
  }

  /** Missing or empty content renders nothing; anything else renders single-spaced, trimmed text on one line. */
  lemma RenderFacts(content: Option<string>, limit: int)
    ensures !Truthy(content) <==> Render(content, limit).None?
    ensures Truthy(content) && limit <= 0 ==> var r := Render(content, limit).value;
      Squished(r) && '\n' !in r
  {
  }
}
