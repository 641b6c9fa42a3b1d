/**
 * The build-time link lock of `scripts/process_build.py`.
 *
 * Before a site build, every post body that is not whitelisted is rewritten by two `re.sub`
 * passes. Pass 1 turns a markdown link `[text](url)` to an http, https or magnet target into a
 * locked link; pass 2 turns bare URLs inside a text block into locked links. A locked link is
 * `[🔒 加密链接点击解密](encrypted:PAYLOAD)` (with ` 提取码：CODE` after the label when an
 * extraction code was found), where PAYLOAD is the base64url text of `nonce || AES-GCM output`.
 *
 * Both regular expressions are modelled as scanners that cut the text into pieces: text kept as
 * it is, and matched URLs that are locked. Rendering the pieces draws one nonce per lock, in
 * order, from a nonce stream (the model of `os.urandom(12)`).
 */
module BuildScript {
  import opened Wrappers
  import opened Text
  import opened Crypto

  // ---------------------------------------------------------------------------------------
  // Whitelist

  /** `WHITELIST_FOLDERS`: entries ending in `/` are folders, the others single files. */
  const WhitelistFolders: seq<string> := [
    "src/posts/aboutme/index.md",
    "src/posts/aboutme/",
    "src/posts/broadcast/",
    "src/posts/broadcast/index.md"
  ]

  /** The path with every backslash turned into a forward slash. */
  function NormalizePath(path: string): (r: string)
    ensures |r| == |path| && '\\' !in r
  {
    ReplaceChar(path, '\\', '/')
  }

  /** A folder entry matches the paths it prefixes; a file entry matches the paths it ends. */
  predicate EntryMatches(path: string, entry: string) {
    if EndsWith(entry, "/") then StartsWith(path, entry) else EndsWith(path, entry)
  }

  /** `is_whitelisted`: a linear search of the whitelist, stopping at the first matching entry. */
  method IsWhitelisted(path: string, whitelist: seq<string>) returns (r: bool)
    ensures r <==> exists i :: 0 <= i < |whitelist| && EntryMatches(NormalizePath(path), whitelist[i])
  {
    var strPath := ReplaceChar(path, '\\', '/');
    var i := 0;
    while i < |whitelist|
      invariant 0 <= i <= |whitelist|
      invariant forall j :: 0 <= j < i ==> !EntryMatches(strPath, whitelist[j])
    {
      var whitePath := whitelist[i];
      if EndsWith(whitePath, "/") {
        if StartsWith(strPath, whitePath) {
          return true;
        }
      } else {
        if EndsWith(strPath, whitePath) {
          return true;
        }
      }
      i := i + 1;
    }
    return false;
  }

  /** The specification of `is_whitelisted`. */
  predicate Whitelisted(path: string, whitelist: seq<string>) {
    exists i :: 0 <= i < |whitelist| && EntryMatches(NormalizePath(path), whitelist[i])
  }

  // ---------------------------------------------------------------------------------------
  // Key derivation and the payload framing

  /** The password the build encrypts with (`PASSWORD`). */
  const BuildPassword: string := "suxingchahui"

  /** `generate_key`: PBKDF2-HMAC-SHA256, a fixed salt, 100000 iterations, a 32-byte key. */
  const BuildKdf: KdfParams := KdfParams("static_salt_for_blog", 100000, Sha256, 32 * 8)

  /** The length of the random nonce `encrypt_url` draws. */
  const NonceLength: nat := 12

  function GenerateKey(p: Primitives, password: string): seq<byte> {
    p.pbkdf2(p.utf8Encode(password), BuildKdf)
  }

  /** The base64url alphabet with its padding character. */
  predicate IsUrlSafeChar(c: char) {
    ('A' <= c <= 'Z') || ('a' <= c <= 'z') || ('0' <= c <= '9') || c == '-' || c == '_' || c == '='
  }

  predicate IsUrlSafeText(s: string) {
    forall i :: 0 <= i < |s| ==> IsUrlSafeChar(s[i])
  }

  /** `urlsafe_b64encode` on top of the standard encoder: `+` becomes `-` and `/` becomes `_`. */
  function UrlSafe(s: string): (r: string)
    ensures |r| == |s|
    ensures IsPaddedBase64(s) ==> IsUrlSafeText(r) && |r| % 4 == 0
  {
    ReplaceChar(ReplaceChar(s, '+', '-'), '/', '_')
  }

  /** `encrypt_url`: base64url of the nonce followed by the AES-GCM output for the UTF-8 url. */
  function EncryptUrl(p: Primitives, url: string, key: seq<byte>, nonce: Nonce): (r: string)
    ensures Sound(p) ==> IsUrlSafeText(r) && |r| % 4 == 0
  {
    UrlSafe(p.base64Encode(nonce + p.seal(key, nonce, p.utf8Encode(url))))
  }

  // ---------------------------------------------------------------------------------------
  // The locked link

  const LockLabel: string := "🔒 加密链接点击解密"

  /** The link text of a lock: the label, then the extraction code when there is one. */
  function LockLinkText(code: Option<string>): string {
    LockLabel + (if code.Some? then " 提取码：" + code.value else "")
  }

  /** A locked link is itself a markdown link, whose target is `encrypted:` and the payload. */
  function LockLink(code: Option<string>, payload: string): LinkMatch {
    LinkMatch(LockLinkText(code), "encrypted:" + payload)
  }

  /** The replacement text of a locked link. */
  function LockText(code: Option<string>, payload: string): string {
    LinkSource(LockLink(code, payload))
  }

  predicate IsAsciiAlnumText(s: string) {
    forall i :: 0 <= i < |s| ==> IsAsciiAlnum(s[i])
  }

  /** Every `:` of `s` is preceded by `d` (the only `:` of a lock is the one of `encrypted:`). */
  predicate ColonsFollowD(s: string) {
    forall q :: 0 <= q < |s| && s[q] == ':' ==> q > 0 && s[q - 1] == 'd'
  }

  lemma ColonsFollowDAppend(a: string, b: string)
    requires ColonsFollowD(a) && ColonsFollowD(b)
    requires b != [] ==> b[0] != ':'
    ensures ColonsFollowD(a + b)
  {
    var s := a + b;
    forall q | 0 <= q < |s| && s[q] == ':' ensures q > 0 && s[q - 1] == 'd' {
      if q >= |a| {
        assert s[q] == b[q - |a|];
        if q > |a| {
          assert s[q - 1] == b[q - 1 - |a|];
        }
      } else {
        assert s[q] == a[q];
        assert s[q - 1] == a[q - 1];
      }
    }
  }

  /** The only URL starters the two passes look for. */
  predicate HasUrlPrefixAt(s: string, j: int) {
    OccursAt(s, "http://", j) || OccursAt(s, "https://", j) || OccursAt(s, "magnet:?", j)
  }

  lemma NoUrlPrefixWhenColonsFollowD(s: string)
    requires ColonsFollowD(s)
    ensures forall j :: !HasUrlPrefixAt(s, j)
  {
    forall j ensures !OccursAt(s, "http://", j) {
      if 0 <= j && j + 7 <= |s| {
        if s[j + 4] == ':' {
          assert s[j..j + 7][3] == 'd';
        } else {
          assert s[j..j + 7][4] != ':';
        }
      }
    }
    forall j ensures !OccursAt(s, "https://", j) && !OccursAt(s, "magnet:?", j) {
      if 0 <= j && j + 8 <= |s| {
        if s[j + 5] == ':' {
          assert s[j..j + 8][4] == 'd';
        } else {
          assert s[j..j + 8][5] != ':';
        }
        if s[j + 6] == ':' {
          assert s[j..j + 8][5] == 'd';
        } else {
          assert s[j..j + 8][6] != ':';
        }
      }
    }
  }

  /**
   * A lock contains no `http://`, `https://` or `magnet:?`: the label is fixed, the code is
   * alphanumeric and the payload is base64url, so the only `:` is the one of `encrypted:`.
   */
  lemma {:induction false} LockTextHasNoUrl(code: Option<string>, payload: string)
    requires code.Some? ==> IsAsciiAlnumText(code.value)
    requires IsUrlSafeText(payload)
    ensures forall j :: !HasUrlPrefixAt(LockText(code, payload), j)
  {
    var text := LockLinkText(code);
    assert ':' !in text by {
      forall i | 0 <= i < |text| ensures text[i] != ':' {
        if i >= |LockLabel| + 5 {
          assert text[i] == code.value[i - |LockLabel| - 5];
        }
      }
    }
    assert ':' !in payload by {
      forall i | 0 <= i < |payload| ensures payload[i] != ':' {
        assert IsUrlSafeChar(payload[i]);
      }
    }
    var url := "encrypted:" + payload;
    assert ColonsFollowD("encrypted:") by {
      forall q | 0 <= q < 10 && "encrypted:"[q] == ':' ensures q > 0 && "encrypted:"[q - 1] == 'd' {
        assert q == 9;
      }
    }
    ColonsFollowDAppend("encrypted:", payload);
    ColonsFollowDAppend("[" + text, "](");
    ColonsFollowDAppend("[" + text + "](", url);
    ColonsFollowDAppend("[" + text + "](" + url, ")");
    NoUrlPrefixWhenColonsFollowD(LockText(code, payload));
  }

  // ---------------------------------------------------------------------------------------
  // Pieces: what a pass keeps and what it locks

  /**
   * A pass cuts its input into pieces: `Keep` text is copied, a `Lock` stands for the matched
   * text `src`, replaced by a locked link to `url` carrying the extraction code `code`.
   */
  datatype Piece = Keep(text: string) | Lock(src: string, url: string, code: Option<string>)

  function Source(p: Piece): string {
    match p
    case Keep(text) => text
    case Lock(src, _, _) => src
  }

  /** The input text a run of pieces covers. */
  function Sources(ps: seq<Piece>): string {
    if ps == [] then [] else Source(ps[0]) + Sources(ps[1..])
  }

  lemma {:induction false} SourcesAppend(a: seq<Piece>, b: seq<Piece>)
    ensures Sources(a + b) == Sources(a) + Sources(b)
  {
    if a != [] {
      assert (a + b)[0] == a[0] && (a + b)[1..] == a[1..] + b;
      SourcesAppend(a[1..], b);
      assert Sources(a + b) == Source(a[0]) + Sources(a[1..] + b);
    } else {
      assert a + b == b;
    }
  }

  /** A piece followed by pieces covering the rest of `t` covers `t`. */
  lemma SourcesCons(p: Piece, rest: seq<Piece>, t: string, n: nat)
    requires n <= |t| && Source(p) == t[..n] && Sources(rest) == t[n..]
    ensures Sources([p] + rest) == t
  {
    SourcesAppend([p], rest);
    SourcesSingle(p);
    assert t == t[..n] + t[n..];
  }

  /** Pieces covering `s[i..j]` followed by pieces covering `s[j..]` cover `s[i..]`. */
  lemma SourcesJoin(a: seq<Piece>, b: seq<Piece>, s: string, i: nat, j: nat)
    requires i <= j <= |s| && Sources(a) == s[i..j] && Sources(b) == s[j..]
    ensures Sources(a + b) == s[i..]
  {
    SourcesAppend(a, b);
    SliceSplit(s, i, j);
  }

  lemma SliceSplit(s: string, i: nat, j: nat)
    requires i <= j <= |s|
    ensures s[i..] == s[i..j] + s[j..]
  {
  }

  lemma SourcesSingle(p: Piece)
    ensures Sources([p]) == Source(p)
  {
    assert [p][1..] == [];
  }

  function LockCount(ps: seq<Piece>): nat {
    if ps == [] then 0 else (if ps[0].Lock? then 1 else 0) + LockCount(ps[1..])
  }

  /** The parameters a pass renders with: the primitives, the derived key and the nonce stream. */
  datatype Env = Env(p: Primitives, key: seq<byte>, nonces: nat -> Nonce)

  /**
   * The output of a pass, drawing nonces from `n` on: the next nonce index is returned with the
   * text, and one nonce is used per lock.
   */
  function Render(ps: seq<Piece>, env: Env, n: nat): (r: (string, nat))
    ensures r.1 == n + LockCount(ps)
    ensures LockCount(ps) == 0 ==> r.0 == Sources(ps)
  {
    if ps == [] then ([], n)
    else
      match ps[0]
      case Keep(text) =>
        var rest := Render(ps[1..], env, n);
        (text + rest.0, rest.1)
      case Lock(_, url, code) =>
        var rest := Render(ps[1..], env, n + 1);
        (LockText(code, EncryptUrl(env.p, url, env.key, env.nonces(n))) + rest.0, rest.1)
  }

  // ---------------------------------------------------------------------------------------
  // The extraction code: `提取码[：:]\s*([A-Za-z0-9]{4,6})`

  predicate IsCodeColon(c: char) {
    c == '：' || c == ':'
  }

  /** The pattern matched at the start of `t`: the captured code, up to six alphanumerics. */
  function CodeAt(t: string): (r: Option<string>)
    ensures r.Some? ==> 4 <= |r.value| <= 6 && IsAsciiAlnumText(r.value)
  {
    if |t| >= 4 && t[..3] == "提取码" && IsCodeColon(t[3]) then
      var w := Span(t[4..], IsPySpace);
      var a := Span(t[4 + w..], IsAsciiAlnum);
      if a >= 4 then Some(t[4 + w..4 + w + if a > 6 then 6 else a]) else None
    else None
  }

  /** `re.search` of the pattern: the code of the leftmost match. */
  function ExtractCode(t: string): (r: Option<string>)
    ensures r.Some? ==> 4 <= |r.value| <= 6 && IsAsciiAlnumText(r.value)
    ensures r.Some? <==> exists k :: 0 <= k <= |t| && CodeAt(t[k..]).Some?
    decreases |t|
  {
    if |t| < 4 then
      assert forall k :: 0 <= k <= |t| ==> CodeAt(t[k..]).None?;
      None
    else
      match CodeAt(t)
      case Some(c) =>
        assert CodeAt(t[0..]).Some? by { assert t[0..] == t; }
        Some(c)
      case None =>
        var r := ExtractCode(t[1..]);
        assert forall k :: 1 <= k <= |t| ==> t[1..][k - 1..] == t[k..];
        assert t[0..] == t;
        r
  }

  // ---------------------------------------------------------------------------------------
  // Pass 1: `\[([^\]]+)\]\(([^)]+)\)` with the `encrypt_link` callback

  datatype LinkMatch = LinkMatch(text: string, url: string)

  function LinkSource(m: LinkMatch): string {
    "[" + m.text + "](" + m.url + ")"
  }

  predicate NotCloseBracket(c: char) {
    c != ']'
  }

  predicate NotCloseParen(c: char) {
    c != ')'
  }

  /** A link as the pattern accepts it: a non-empty text without `]`, a non-empty url without `)`. */
  predicate WellFormedLink(m: LinkMatch) {
    m.text != [] && m.url != [] && ']' !in m.text && ')' !in m.url
  }

  /**
   * The link match at the start of `t`, if any. `[^\]]+` must stop right before a `]`, so the
   * text is the whole run up to the first `]`, and likewise the url up to the first `)`.
   */
  function LinkAt(t: string): (r: Option<LinkMatch>)
    ensures r.Some? ==> WellFormedLink(r.value) && LinkSource(r.value) <= t
  {
    if t == [] || t[0] != '[' then None
    else
      var a := Span(t[1..], NotCloseBracket);
      if a == 0 || a + 2 >= |t| || t[a + 2] != '(' then None
      else
        var u := Span(t[a + 3..], NotCloseParen);
        if u == 0 || a + 3 + u >= |t| then None
        else
          var m := LinkMatch(t[1..1 + a], t[a + 3..a + 3 + u]);
          assert forall i :: 0 <= i < a ==> m.text[i] == t[1..][i];
          assert forall i :: 0 <= i < u ==> m.url[i] == t[a + 3..][i];
          assert t[1 + a] == t[1..][a];
          assert t[a + 3 + u] == t[a + 3..][u];
          LinkSourceAt(t, a, u);
          Some(m)
  }

  /** The text of a link whose brackets and parentheses sit at these places is the prefix they close. */
  lemma LinkSourceAt(t: string, a: nat, u: nat)
    requires a + 3 + u < |t| && t[0] == '[' && t[1 + a] == ']' && t[a + 2] == '(' && t[a + 3 + u] == ')'
    ensures LinkSource(LinkMatch(t[1..1 + a], t[a + 3..a + 3 + u])) == t[..a + u + 4]
  {
    var text, url := t[1..1 + a], t[a + 3..a + 3 + u];
    var x, y := LinkSource(LinkMatch(text, url)), t[..a + u + 4];
    assert x == "[" + text + "](" + url + ")";
    forall i | 0 <= i < |y| ensures x[i] == y[i] {
      if 1 <= i <= a {
        assert x[i] == text[i - 1];
      } else if a + 3 <= i < a + 3 + u {
        assert x[i] == url[i - a - 3];
      }
    }
  }

  /** The regex engine has no other choice: a link at the start of `t` is the one `LinkAt` finds. */
  lemma {:induction false} LinkAtComplete(t: string, m: LinkMatch)
    requires WellFormedLink(m) && LinkSource(m) <= t
    ensures LinkAt(t) == Some(m)
  {
    var a, u := |m.text|, |m.url|;
    LinkSpans(t, m, a, u);
    LinkPartsAt(t, m, a, u);
    LinkAtFrom(t, a, u, m);
  }

  /** The two runs `LinkAt` measures stop at the link's own `]` and `)`. */
  lemma LinkSpans(t: string, m: LinkMatch, a: nat, u: nat)
    requires WellFormedLink(m) && LinkSource(m) <= t && a == |m.text| && u == |m.url|
    ensures a + 3 + u < |t| && t[0] == '[' && t[a + 2] == '('
    ensures Span(t[1..], NotCloseBracket) == a && Span(t[a + 3..], NotCloseParen) == u
  {
    var src := LinkSource(m);
    assert src == "[" + m.text + "](" + m.url + ")";
    assert t[..a + u + 4] == src;
    forall i | 0 <= i < a ensures t[1..][i] != ']' {
      assert t[1 + i] == src[1 + i] == m.text[i];
    }
    assert t[1..][a] == src[1 + a] == ']';
    SpanUnique(t[1..], NotCloseBracket, a);
    assert t[a + 2] == src[a + 2] == '(';
    var rest := t[a + 3..];
    forall i | 0 <= i < u ensures rest[i] != ')' {
      assert rest[i] == src[a + 3 + i] == m.url[i];
    }
    assert rest[u] == src[a + 3 + u] == ')';
    SpanUnique(rest, NotCloseParen, u);
  }

  /** `LinkAt` read off its two runs. */
  lemma LinkAtFrom(t: string, a: nat, u: nat, m: LinkMatch)
    requires 0 < a && 0 < u && a + 3 + u < |t| && t[0] == '[' && t[a + 2] == '('
    requires Span(t[1..], NotCloseBracket) == a && Span(t[a + 3..], NotCloseParen) == u
    requires LinkMatch(t[1..1 + a], t[a + 3..a + 3 + u]) == m
    ensures LinkAt(t) == Some(m)
  {
  }

  lemma LinkPartsAt(t: string, m: LinkMatch, a: nat, u: nat)
    requires LinkSource(m) <= t && a == |m.text| && u == |m.url|
    ensures a + 3 + u <= |t| && LinkMatch(t[1..1 + a], t[a + 3..a + 3 + u]) == m
  {
    var src := LinkSource(m);
    assert src == "[" + m.text + "](" + m.url + ")";
    var x, y := t[1..1 + a], t[a + 3..a + 3 + u];
    forall i | 0 <= i < a ensures x[i] == m.text[i] {
      assert x[i] == src[1 + i];
    }
    forall i | 0 <= i < u ensures y[i] == m.url[i] {
      assert y[i] == src[a + 3 + i];
    }
    assert x == m.text && y == m.url;
  }

  const ImageExtensions: seq<string> := [".webp", ".jpg", ".jpeg", ".png", ".gif", ".svg"]

  predicate IsImageUrl(url: string) {
    exists i :: 0 <= i < |ImageExtensions| && EndsWith(url, ImageExtensions[i])
  }

  predicate HasLinkScheme(url: string) {
    StartsWith(url, "http://") || StartsWith(url, "https://") || StartsWith(url, "magnet:")
  }

  /** The links pass 1 locks: http, https or magnet targets that are neither images nor locked. */
  predicate Lockable(url: string) {
    !IsImageUrl(url) && !StartsWith(url, "encrypted:") && HasLinkScheme(url)
  }

  /** `encrypt_link`: lock the link, or keep the whole match as it was. */
  function EncryptLink(m: LinkMatch): (r: Piece)
    ensures Source(r) == LinkSource(m)
    ensures r.Lock? <==> Lockable(m.url)
    ensures r.Lock? ==> r.url == m.url && r.code == ExtractCode(m.text)
  {
    if IsImageUrl(m.url) || StartsWith(m.url, "encrypted:") then Keep(LinkSource(m))
    else if HasLinkScheme(m.url) then Lock(LinkSource(m), m.url, ExtractCode(m.text))
    else Keep(LinkSource(m))
  }

  /** A lock of pass 1 is what `encrypt_link` makes of the link its source text is. */
  predicate LinkLock(p: Piece) {
    p.Lock? ==> LinkAt(p.src).Some? && p == EncryptLink(LinkAt(p.src).value)
  }

  predicate AllLinkLocks(ps: seq<Piece>) {
    forall i :: 0 <= i < |ps| ==> LinkLock(ps[i])
  }

  lemma AllLinkLocksAppend(a: seq<Piece>, b: seq<Piece>)
    requires AllLinkLocks(a) && AllLinkLocks(b)
    ensures AllLinkLocks(a + b)
  {
    forall i | 0 <= i < |a + b| ensures LinkLock((a + b)[i]) {
      if i < |a| {
        assert (a + b)[i] == a[i];
      } else {
        assert (a + b)[i] == b[i - |a|];
      }
    }
  }

  /** `re.sub` of the link pattern: scan left to right, resuming after each match. */
  function Scan1(t: string): seq<Piece>
    decreases |t|
  {
    if t == [] then []
    else
      match LinkAt(t)
      case Some(m) => [EncryptLink(m)] + Scan1(t[|LinkSource(m)|..])
      case None => [Keep([t[0]])] + Scan1(t[1..])
  }

  /** Pass 1 covers its input: each piece is one character or one whole link match. */
  lemma {:induction false} Scan1Covers(t: string)
    ensures Sources(Scan1(t)) == t
    decreases |t|
  {
    if t != [] {
      match LinkAt(t)
      case Some(m) =>
        var n := |LinkSource(m)|;
        Scan1Covers(t[n..]);
        SourcesCons(EncryptLink(m), Scan1(t[n..]), t, n);
      case None =>
        Scan1Covers(t[1..]);
        SourcesCons(Keep([t[0]]), Scan1(t[1..]), t, 1);
    }
  }

  /** Every lock of pass 1 is what `encrypt_link` makes of a link match. */
  lemma {:induction false} Scan1Locks(t: string)
    ensures AllLinkLocks(Scan1(t))
    decreases |t|
  {
    if t != [] {
      match LinkAt(t)
      case Some(m) =>
        Scan1Locks(t[|LinkSource(m)|..]);
        LinkAtComplete(LinkSource(m), m);
        assert LinkLock(EncryptLink(m));
        AllLinkLocksAppend([EncryptLink(m)], Scan1(t[|LinkSource(m)|..]));
      case None =>
        Scan1Locks(t[1..]);
        AllLinkLocksAppend([Keep([t[0]])], Scan1(t[1..]));
    }
  }

  function Pass1(s: string, env: Env, n: nat): (string, nat) {
    Render(Scan1(s), env, n)
  }

  // ---------------------------------------------------------------------------------------
  // Pass 2: `[^\n.]*(https?://[^\s]+|magnet:\?[^\s]+)[^\n]*(?:提取码[：:]\s*[A-Za-z0-9]{4,6})?`
  //
  // A match needs a URL start: `http://`, `https://` or `magnet:?` followed by a non-space.
  // The search from `pos` succeeds at the first start `i` that reaches a URL start without
  // crossing a `\n` or a `.`; `[^\n]*` then runs to the end of the line, where the optional
  // extraction-code group can no longer match. So a block runs from `i` to the end of the line
  // of the first URL start, and its text is handed to `process_url_with_code`.

  /** The outer pattern's URL alternative matches at index `j` of `s`. */
  predicate BlockUrlAt(s: string, j: nat) {
    || (OccursAt(s, "http://", j) && j + 7 < |s| && !IsPySpace(s[j + 7]))
    || (OccursAt(s, "https://", j) && j + 8 < |s| && !IsPySpace(s[j + 8]))
    || (OccursAt(s, "magnet:?", j) && j + 8 < |s| && !IsPySpace(s[j + 8]))
  }

  lemma BlockUrlNotNewline(s: string, u: nat)
    requires BlockUrlAt(s, u)
    ensures u < |s| && s[u] != '\n'
  {
    if OccursAt(s, "http://", u) {
      assert s[u] == s[u..u + 7][0];
    } else {
      assert s[u] == s[u..u + 8][0];
    }
  }

  /** The first URL start at or after `pos`. */
  function FirstBlockUrl(s: string, pos: nat): (r: Option<nat>)
    requires pos <= |s|
    ensures r.Some? ==> pos <= r.value < |s| && s[r.value] != '\n'
    decreases |s| - pos
  {
    if pos == |s| then None
    else if BlockUrlAt(s, pos) then
      BlockUrlNotNewline(s, pos);
      Some(pos)
    else FirstBlockUrl(s, pos + 1)
  }

  /** `FirstBlockUrl` finds the leftmost URL start, and finds one whenever there is one. */
  lemma {:induction false} FirstBlockUrlIsFirst(s: string, pos: nat)
    requires pos <= |s|
    ensures FirstBlockUrl(s, pos).Some? ==> BlockUrlAt(s, FirstBlockUrl(s, pos).value)
    ensures FirstBlockUrl(s, pos).Some? ==> forall j :: pos <= j < FirstBlockUrl(s, pos).value ==> !BlockUrlAt(s, j)
    ensures FirstBlockUrl(s, pos).None? ==> forall j :: pos <= j < |s| ==> !BlockUrlAt(s, j)
    decreases |s| - pos
  {
    if pos < |s| && !BlockUrlAt(s, pos) {
      FirstBlockUrlIsFirst(s, pos + 1);
    }
  }

  /** Where the leftmost match starts: just after the last `\n` or `.` before the URL start. */
  function BlockStart(s: string, pos: nat, u: nat): (i: nat)
    requires pos <= u <= |s|
    ensures pos <= i <= u
    ensures forall k :: i <= k < u ==> s[k] != '\n' && s[k] != '.'
    ensures i > pos ==> s[i - 1] == '\n' || s[i - 1] == '.'
    decreases u - pos
  {
    if u == pos then pos
    else if s[u - 1] == '\n' || s[u - 1] == '.' then u
    else BlockStart(s, pos, u - 1)
  }

  /** The end of the line holding index `u`. */
  function LineEnd(s: string, u: nat): (e: nat)
    requires u <= |s|
    ensures u <= e <= |s|
    ensures forall k :: u <= k < e ==> s[k] != '\n'
    ensures e < |s| ==> s[e] == '\n'
    decreases |s| - u
  {
    if u == |s| || s[u] == '\n' then u else LineEnd(s, u + 1)
  }

  /** A character of `[^\s提取码]`. */
  predicate InnerUrlChar(c: char) {
    !IsPySpace(c) && c != '提' && c != '取' && c != '码'
  }

  /** The length of the scheme an inner URL starts with (`https://`, `http://`, `magnet:?`), or 0. */
  function SchemeLength(url: string): (k: nat)
    ensures k == 0 || k == 7 || k == 8
    ensures k <= |url|
  {
    if StartsWith(url, "https://") then 8
    else if StartsWith(url, "http://") then 7
    else if StartsWith(url, "magnet:?") then 8
    else 0
  }

  lemma SchemeLengthOfPrefix(t: string, n: nat)
    requires 8 <= n <= |t|
    ensures SchemeLength(t[..n]) == SchemeLength(t)
  {
    assert t[..n][..8] == t[..8] && t[..n][..7] == t[..7];
  }

  /** A URL as `(https?://[^\s提取码]+|magnet:\?[^\s提取码]+)` matches it. */
  predicate IsInnerUrl(url: string) {
    var k := SchemeLength(url);
    0 < k < |url| && forall i :: k <= i < |url| ==> InnerUrlChar(url[i])
  }

  /** The length of the inner URL match at the start of `t`, if any. */
  function InnerUrlAt(t: string): (r: Option<nat>)
    ensures r.Some? ==> 0 < r.value <= |t| && IsInnerUrl(t[..r.value])
    ensures r.Some? && r.value < |t| ==> !InnerUrlChar(t[r.value])
  {
    var k := SchemeLength(t);
    if k == 0 || k == |t| || !InnerUrlChar(t[k]) then None
    else
      var n := k + Span(t[k..], InnerUrlChar);
      SchemeLengthOfPrefix(t, n);
      assert forall i :: k <= i < n ==> t[..n][i] == t[k..][i - k];
      Some(n)
  }

  /** A lock of pass 2 replaces exactly the URL it matched. */
  predicate InnerLock(p: Piece) {
    p.Lock? ==> p.src == p.url && IsInnerUrl(p.url)
  }

  predicate AllInnerLocks(ps: seq<Piece>) {
    forall i :: 0 <= i < |ps| ==> InnerLock(ps[i])
  }

  lemma AllInnerLocksAppend(a: seq<Piece>, b: seq<Piece>)
    requires AllInnerLocks(a) && AllInnerLocks(b)
    ensures AllInnerLocks(a + b)
  {
    forall i | 0 <= i < |a + b| ensures InnerLock((a + b)[i]) {
      if i < |a| {
        assert (a + b)[i] == a[i];
      } else {
        assert (a + b)[i] == b[i - |a|];
      }
    }
  }

  /** `process_url_with_code`'s inner `re.sub`: lock every URL of the block with its code. */
  function InnerScan(t: string, code: Option<string>): seq<Piece>
    decreases |t|
  {
    if t == [] then []
    else
      match InnerUrlAt(t)
      case Some(n) => [Lock(t[..n], t[..n], code)] + InnerScan(t[n..], code)
      case None => [Keep([t[0]])] + InnerScan(t[1..], code)
  }

  predicate NonEmptyPieces(ps: seq<Piece>) {
    forall i :: 0 <= i < |ps| ==> Source(ps[i]) != []
  }

  /** The inner scan covers the block with non-empty pieces. */
  lemma {:induction false} InnerScanCovers(t: string, code: Option<string>)
    ensures Sources(InnerScan(t, code)) == t
    ensures NonEmptyPieces(InnerScan(t, code))
    decreases |t|
  {
    if t != [] {
      match InnerUrlAt(t)
      case Some(n) =>
        InnerScanCovers(t[n..], code);
        SourcesCons(Lock(t[..n], t[..n], code), InnerScan(t[n..], code), t, n);
      case None =>
        InnerScanCovers(t[1..], code);
        SourcesCons(Keep([t[0]]), InnerScan(t[1..], code), t, 1);
    }
  }

  /** Every lock of the inner scan is one whole URL, carrying the block's code. */
  lemma {:induction false} InnerScanLocks(t: string, code: Option<string>)
    ensures AllInnerLocks(InnerScan(t, code))
    ensures forall i :: 0 <= i < |InnerScan(t, code)| && InnerScan(t, code)[i].Lock? ==> InnerScan(t, code)[i].code == code
    decreases |t|
  {
    if t != [] {
      match InnerUrlAt(t)
      case Some(n) =>
        InnerScanLocks(t[n..], code);
        AllInnerLocksAppend([Lock(t[..n], t[..n], code)], InnerScan(t[n..], code));
      case None =>
        InnerScanLocks(t[1..], code);
        AllInnerLocksAppend([Keep([t[0]])], InnerScan(t[1..], code));
    }
  }

  /** A locked URL is maximal: the text after it does not continue the URL. */
  predicate LocksMaximal(ps: seq<Piece>) {
    forall i :: 0 <= i < |ps| - 1 && ps[i].Lock? ==> Source(ps[i + 1]) != [] && !InnerUrlChar(Source(ps[i + 1])[0])
  }

  lemma LocksMaximalCons(p: Piece, rest: seq<Piece>)
    requires LocksMaximal(rest)
    requires p.Lock? && rest != [] ==> Source(rest[0]) != [] && !InnerUrlChar(Source(rest[0])[0])
    ensures LocksMaximal([p] + rest)
  {
    var ps := [p] + rest;
    forall i | 0 <= i < |ps| - 1 && ps[i].Lock? ensures Source(ps[i + 1]) != [] && !InnerUrlChar(Source(ps[i + 1])[0]) {
      assert ps[i + 1] == rest[i];
      if i > 0 {
        assert ps[i] == rest[i - 1];
      }
    }
  }

  lemma {:induction false} InnerScanMaximal(t: string, code: Option<string>)
    ensures LocksMaximal(InnerScan(t, code))
    decreases |t|
  {
    if t != [] {
      match InnerUrlAt(t)
      case Some(n) =>
        var rest := InnerScan(t[n..], code);
        InnerScanMaximal(t[n..], code);
        InnerScanCovers(t[n..], code);
        if rest != [] {
          assert Source(rest[0]) != [];
          assert Sources(rest) == Source(rest[0]) + Sources(rest[1..]);
          assert Source(rest[0])[0] == t[n];
        }
        LocksMaximalCons(Lock(t[..n], t[..n], code), rest);
      case None =>
        InnerScanMaximal(t[1..], code);
        LocksMaximalCons(Keep([t[0]]), InnerScan(t[1..], code));
    }
  }

  /**
   * The pieces of one block: the text skipped before the match start, then the block with its
   * URLs locked under the block's extraction code.
   */
  function BlockPieces(s: string, pos: nat, u: nat): (r: (seq<Piece>, nat))
    requires pos <= u < |s| && s[u] != '\n'
    ensures pos < r.1 <= |s|
    ensures Sources(r.0) == s[pos..r.1]
    ensures AllInnerLocks(r.0)
  {
    var i := BlockStart(s, pos, u);
    var e := LineEnd(s, u);
    var block := s[i..e];
    BlockPiecesFacts(s, pos, i, e);
    ([Keep(s[pos..i])] + InnerScan(block, ExtractCode(block)), e)
  }

  lemma BlockPiecesFacts(s: string, pos: nat, i: nat, e: nat)
    requires pos <= i <= e <= |s|
    ensures var block := s[i..e];
      var ps := [Keep(s[pos..i])] + InnerScan(block, ExtractCode(block));
      Sources(ps) == s[pos..e] && AllInnerLocks(ps)
  {
    var block := s[i..e];
    var inner := InnerScan(block, ExtractCode(block));
    InnerScanCovers(block, ExtractCode(block));
    InnerScanLocks(block, ExtractCode(block));
    KeepThenCovers(s, pos, i, e, inner);
    KeepThenLocks(s[pos..i], inner);
  }

  /** The skipped text followed by pieces covering `s[i..e]` covers `s[pos..e]`. */
  lemma KeepThenCovers(s: string, pos: nat, i: nat, e: nat, inner: seq<Piece>)
    requires pos <= i <= e <= |s| && Sources(inner) == s[i..e]
    ensures Sources([Keep(s[pos..i])] + inner) == s[pos..e]
  {
    SourcesAppend([Keep(s[pos..i])], inner);
    SourcesSingle(Keep(s[pos..i]));
    var x, y := s[pos..i], s[i..e];
    assert s[pos..e] == x + y;
  }

  lemma KeepThenLocks(x: string, inner: seq<Piece>)
    requires AllInnerLocks(inner)
    ensures AllInnerLocks([Keep(x)] + inner)
  {
    AllInnerLocksAppend([Keep(x)], inner);
  }

  /** `re.sub` of the block pattern from index `pos` of `s`. */
  function Scan2(s: string, pos: nat): seq<Piece>
    requires pos <= |s|
    decreases |s| - pos
  {
    match FirstBlockUrl(s, pos)
    case None => [Keep(s[pos..])]
    case Some(u) =>
      var block := BlockPieces(s, pos, u);
      block.0 + Scan2(s, block.1)
  }

  /** Pass 2 covers its input: every character is either kept or inside a locked URL. */
  lemma {:induction false} Scan2Covers(s: string, pos: nat)
    requires pos <= |s|
    ensures Sources(Scan2(s, pos)) == s[pos..]
    decreases |s| - pos
  {
    match FirstBlockUrl(s, pos)
    case None =>
      SourcesSingle(Keep(s[pos..]));
    case Some(u) =>
      var block := BlockPieces(s, pos, u);
      var rest := Scan2(s, block.1);
      assert Scan2(s, pos) == block.0 + rest;
      Scan2Covers(s, block.1);
      SourcesJoin(block.0, rest, s, pos, block.1);
  }

  /** Every lock of pass 2 replaces exactly one URL of the inner pattern. */
  lemma {:induction false} Scan2Locks(s: string, pos: nat)
    requires pos <= |s|
    ensures AllInnerLocks(Scan2(s, pos))
    decreases |s| - pos
  {
    match FirstBlockUrl(s, pos)
    case None =>
    case Some(u) =>
      var block := BlockPieces(s, pos, u);
      Scan2Locks(s, block.1);
      AllInnerLocksAppend(block.0, Scan2(s, block.1));
  }

  function Pass2(s: string, env: Env, n: nat): (string, nat) {
    Render(Scan2(s, 0), env, n)
  }

  /** `process_markdown_content`: pass 1, then pass 2 on its output, sharing the nonce stream. */
  function ProcessMarkdownContent(content: string, env: Env, n: nat): (string, nat) {
    var first := Pass1(content, env, n);
    Pass2(first.0, env, first.1)
  }

  function LockCountCons(p: Piece, rest: seq<Piece>): (r: nat)
    ensures r == LockCount([p] + rest) && r == (if p.Lock? then 1 else 0) + LockCount(rest)
  {
    assert ([p] + rest)[0] == p && ([p] + rest)[1..] == rest;
    LockCount([p] + rest)
  }

  // ---------------------------------------------------------------------------------------
  // Properties of the whole transform

  /** `s` mentions none of the schemes either pass reacts to. */
  predicate NoScheme(s: string) {
    forall j :: 0 <= j < |s| ==> !OccursAt(s, "http://", j) && !OccursAt(s, "https://", j) && !OccursAt(s, "magnet:", j)
  }

  lemma OccursInSuffix(s: string, t: string, k: nat, j: int)
    requires k <= |s| && 0 <= j && k + j + |t| <= |s|
    ensures OccursAt(s[k..], t, j) <==> OccursAt(s, t, k + j)
  {
    assert s[k..][j..j + |t|] == s[k + j..k + j + |t|];
  }

  lemma NoSchemeSuffix(s: string, k: nat)
    requires k <= |s| && NoScheme(s)
    ensures NoScheme(s[k..])
  {
    forall j | 0 <= j < |s| - k
      ensures !OccursAt(s[k..], "http://", j) && !OccursAt(s[k..], "https://", j) && !OccursAt(s[k..], "magnet:", j)
    {
      if k + j + 7 <= |s| {
        OccursInSuffix(s, "http://", k, j);
        OccursInSuffix(s, "magnet:", k, j);
      }
      if k + j + 8 <= |s| {
        OccursInSuffix(s, "https://", k, j);
      }
    }
  }

  /** The url of a link inside a scheme-free text has no scheme. */
  lemma LinkUrlHasNoScheme(t: string, m: LinkMatch)
    requires LinkSource(m) <= t && NoScheme(t)
    ensures !HasLinkScheme(m.url)
  {
    var k := |m.text| + 3;
    assert t[k..k + |m.url|] == LinkSource(m)[k..k + |m.url|] == m.url;
    if |m.url| >= 7 {
      assert m.url[..7] == t[k..k + 7];
      assert !OccursAt(t, "http://", k) && !OccursAt(t, "magnet:", k);
    }
    if |m.url| >= 8 {
      assert m.url[..8] == t[k..k + 8];
      assert !OccursAt(t, "https://", k);
    }
  }

  lemma {:induction false} Scan1NoLocks(t: string)
    requires NoScheme(t)
    ensures LockCount(Scan1(t)) == 0
    decreases |t|
  {
    if t != [] {
      match LinkAt(t)
      case Some(m) =>
        var n := |LinkSource(m)|;
        NoSchemeSuffix(t, n);
        Scan1NoLocks(t[n..]);
        LinkUrlHasNoScheme(t, m);
        var _ := LockCountCons(EncryptLink(m), Scan1(t[n..]));
      case None =>
        NoSchemeSuffix(t, 1);
        Scan1NoLocks(t[1..]);
        var _ := LockCountCons(Keep([t[0]]), Scan1(t[1..]));
    }
  }

  lemma {:induction false} FirstBlockUrlNone(s: string, pos: nat)
    requires pos <= |s| && NoScheme(s)
    ensures FirstBlockUrl(s, pos).None?
    decreases |s| - pos
  {
    if pos < |s| {
      if pos + 8 <= |s| {
        assert s[pos..pos + 8][..7] == s[pos..pos + 7];
        assert !OccursAt(s, "magnet:", pos);
      }
      FirstBlockUrlNone(s, pos + 1);
    }
  }

  /**
   * A body that mentions none of `http://`, `https://` and `magnet:` comes out of
   * `process_markdown_content` unchanged, and no nonce is drawn for it.
   */
  lemma {:induction false} ProcessWithoutSchemeIsIdentity(content: string, env: Env, n: nat)
    requires NoScheme(content)
    ensures ProcessMarkdownContent(content, env, n) == (content, n)
  {
    Pass1WithoutScheme(content, env, n);
    Pass2WithoutScheme(content, env, n);
  }

  lemma Pass1WithoutScheme(s: string, env: Env, n: nat)
    requires NoScheme(s)
    ensures Pass1(s, env, n) == (s, n)
  {
    Scan1NoLocks(s);
    Scan1Covers(s);
  }

  lemma Pass2WithoutScheme(s: string, env: Env, n: nat)
    requires NoScheme(s)
    ensures Pass2(s, env, n) == (s, n)
  {
    FirstBlockUrlNone(s, 0);
    var p := Keep(s[0..]);
    assert Scan2(s, 0) == [p];
    var _ := LockCountCons(p, []);
    SourcesSingle(p);
    assert s[0..] == s;
  }

  /** A lock is one link match whose target starts with `encrypted:`. */
  lemma LockIsLink(code: Option<string>, payload: string)
    requires code.Some? ==> IsAsciiAlnumText(code.value)
    requires IsUrlSafeText(payload)
    ensures LinkAt(LockText(code, payload)) == Some(LockLink(code, payload))
  {
    LockTextNoBracket(code);
    LockUrlNoParen(payload);
    LinkAtComplete(LockText(code, payload), LockLink(code, payload));
  }

  lemma LockTextNoBracket(code: Option<string>)
    requires code.Some? ==> IsAsciiAlnumText(code.value)
    ensures ']' !in LockLinkText(code)
  {
    var t := LockLinkText(code);
    forall i | 0 <= i < |t| ensures t[i] != ']' {
      if i >= |LockLabel| + 5 {
        assert t[i] == code.value[i - |LockLabel| - 5];
      }
    }
  }

  lemma LockUrlNoParen(payload: string)
    requires IsUrlSafeText(payload)
    ensures ')' !in "encrypted:" + payload
  {
    var u := "encrypted:" + payload;
    forall i | 10 <= i < |u| ensures u[i] != ')' {
      assert u[i] == payload[i - 10];
    }
  }

  /** Pass 1 leaves an existing lock alone: its target starts with `encrypted:`. */
  lemma {:induction false} Pass1KeepsLocks(code: Option<string>, payload: string, env: Env, n: nat)
    requires code.Some? ==> IsAsciiAlnumText(code.value)
    requires IsUrlSafeText(payload)
    ensures Pass1(LockText(code, payload), env, n) == (LockText(code, payload), n)
  {
    var lock := LockText(code, payload);
    LockIsLink(code, payload);
    assert StartsWith(LockLink(code, payload).url, "encrypted:");
    assert EncryptLink(LockLink(code, payload)) == Keep(lock);
    assert lock[|lock|..] == [];
    assert Scan1(lock) == [Keep(lock)] + Scan1([]);
    var _ := LockCountCons(Keep(lock), []);
    SourcesSingle(Keep(lock));
  }

  // ---------------------------------------------------------------------------------------
  // `process_source_markdown`: the loop over the post files

  /** A post file as the `frontmatter` package splits it: the metadata block and the body. */
  datatype Post = Post(metadata: string, content: string)

  /** The files after the loop has visited `paths` in order, and the next nonce index. */
  /** One iteration of the loop: a whitelisted file is skipped, any other is rewritten in place. */
  function ProcessFile(path: string, files: map<string, Post>, env: Env, n: nat): (map<string, Post>, nat)
    requires path in files
  {
    if Whitelisted(path, WhitelistFolders) then (files, n)
    else
      var post := files[path];
      var r := ProcessMarkdownContent(post.content, env, n);
      (files[path := Post(post.metadata, r.0)], r.1)
  }

  function ProcessFiles(paths: seq<string>, files: map<string, Post>, env: Env, n: nat): (map<string, Post>, nat)
    requires forall i :: 0 <= i < |paths| ==> paths[i] in files
    decreases |paths|
  {
    if paths == [] then (files, n)
    else
      var r := ProcessFile(paths[0], files, env, n);
      ProcessFiles(paths[1..], r.0, env, r.1)
  }

  /**
   * `process_source_markdown`: every listed file that is not whitelisted gets its body rewritten
   * and is written back with its metadata; a whitelisted file is skipped before it is read.
   */
  method ProcessSourceMarkdown(paths: seq<string>, files: map<string, Post>, env: Env, n0: nat)
    returns (written: map<string, Post>, n: nat)
    requires forall i :: 0 <= i < |paths| ==> paths[i] in files
    ensures (written, n) == ProcessFiles(paths, files, env, n0)
  {
    written, n := files, n0;
    var i := 0;
    while i < |paths|
      invariant 0 <= i <= |paths|
      invariant written.Keys == files.Keys
      invariant ProcessFiles(paths[i..], written, env, n) == ProcessFiles(paths, files, env, n0)
    {
      var markdownFile := paths[i];
      assert paths[i..][0] == markdownFile && paths[i..][1..] == paths[i + 1..];
      var skip := IsWhitelisted(markdownFile, WhitelistFolders);
      if !skip {
        var post := written[markdownFile];
        var r := ProcessMarkdownContent(post.content, env, n);
        written := written[markdownFile := Post(post.metadata, r.0)];
        n := r.1;
      }
      i := i + 1;
    }
    assert paths[i..] == [];
  }

  /** The loop writes no new file, and leaves whitelisted and unlisted files as they were. */
  lemma {:induction false} ProcessFilesFrame(paths: seq<string>, files: map<string, Post>, env: Env, n: nat)
    requires forall i :: 0 <= i < |paths| ==> paths[i] in files
    ensures ProcessFiles(paths, files, env, n).0.Keys == files.Keys
    ensures forall p :: p in files && (p !in paths || Whitelisted(p, WhitelistFolders)) ==>
      ProcessFiles(paths, files, env, n).0[p] == files[p]
    decreases |paths|
  {
    if paths != [] {
      var r := ProcessFile(paths[0], files, env, n);
      ProcessFilesStep(paths[0], files, env, n);
      ProcessFilesFrame(paths[1..], r.0, env, r.1);
      forall p | p in files && (p !in paths || Whitelisted(p, WhitelistFolders))
        ensures ProcessFiles(paths, files, env, n).0[p] == files[p]
      {
        if p !in paths {
          assert p != paths[0] && p !in paths[1..];
        }
      }
    }
  }

  /** `after` is `before` with its body rewritten by `process_markdown_content` at some nonce index. */
  ghost predicate Rewritten(before: Post, after: Post, env: Env) {
    after.metadata == before.metadata &&
    exists k: nat :: after.content == ProcessMarkdownContent(before.content, env, k).0
  }

  /** One iteration writes back only its own file: rewritten unless whitelisted, then untouched. */
  lemma ProcessFilesStep(path: string, files: map<string, Post>, env: Env, n: nat)
    requires path in files
    ensures var r := ProcessFile(path, files, env, n);
      && r.0.Keys == files.Keys
      && (forall q :: q in files && q != path ==> r.0[q] == files[q])
      && (Whitelisted(path, WhitelistFolders) ==> r.0[path] == files[path])
      && (!Whitelisted(path, WhitelistFolders) ==> Rewritten(files[path], r.0[path], env))
  {
    if !Whitelisted(path, WhitelistFolders) {
      var post := files[path];
      var r := ProcessMarkdownContent(post.content, env, n);
      assert ProcessFile(path, files, env, n).0[path].content == ProcessMarkdownContent(post.content, env, n).0;
    }
  }

  /** With distinct paths, each listed file that is not whitelisted is rewritten. */
  lemma {:induction false} ProcessFilesRewrites(paths: seq<string>, files: map<string, Post>, env: Env, n: nat)
    requires forall i :: 0 <= i < |paths| ==> paths[i] in files
    requires forall i, j :: 0 <= i < j < |paths| ==> paths[i] != paths[j]
    ensures ProcessFiles(paths, files, env, n).0.Keys == files.Keys
    ensures forall p :: p in paths && !Whitelisted(p, WhitelistFolders) ==>
      Rewritten(files[p], ProcessFiles(paths, files, env, n).0[p], env)
    decreases |paths|
  {
    ProcessFilesFrame(paths, files, env, n);
    if paths != [] {
      var rest := paths[1..];
      var r := ProcessFile(paths[0], files, env, n);
      ProcessFilesStep(paths[0], files, env, n);
      DistinctTail(paths);
      ProcessFilesFrame(rest, r.0, env, r.1);
      ProcessFilesRewrites(rest, r.0, env, r.1);
      forall p | p in paths && !Whitelisted(p, WhitelistFolders)
        ensures Rewritten(files[p], ProcessFiles(paths, files, env, n).0[p], env)
      {
        if p != paths[0] {
          assert p in rest;
        }
      }
    }
  }

  /** The head of a list of distinct paths is not in its tail, whose paths are distinct too. */
  lemma DistinctTail(paths: seq<string>)
    requires paths != []
    requires forall i, j :: 0 <= i < j < |paths| ==> paths[i] != paths[j]
    ensures paths[0] !in paths[1..]
    ensures forall i, j :: 0 <= i < j < |paths[1..]| ==> paths[1..][i] != paths[1..][j]
  {
    var rest := paths[1..];
    forall i | 0 <= i < |rest| ensures rest[i] != paths[0] {
      assert rest[i] == paths[i + 1];
    }
  }
}
