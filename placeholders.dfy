/**
 * The resource placeholders stored post bodies carry, `[image:ID]` and `[download:ID]`, and the
 * global regex `/\[(image|download):(.*?)\]/g` both content renderers and the TypeScript block
 * parser use to find them.
 *
 * In JavaScript `.` matches anything but a line terminator, and `.*?` is lazy, so a match at a
 * position is `[image:` or `[download:`, then the shortest run of non-line-terminators that is
 * followed by `]`: the id is the run of characters that are neither `]` nor line terminators, and
 * it must be closed by `]`. `matchAll` reports matches left to right, resuming after each one.
 */
module Placeholders {
  import opened Wrappers
  import opened Text

  datatype Kind = Image | Download

  function KindName(k: Kind): string {
    match k
    case Image => "image"
    case Download => "download"
  }

  /** `[image:` or `[download:`. */
  function Opening(k: Kind): string {
    "[" + KindName(k) + ":"
  }

  datatype Placeholder = Placeholder(kind: Kind, id: string)

  /** How a placeholder is written in a post body. */
  function PlaceholderText(p: Placeholder): string {
    Opening(p.kind) + p.id + "]"
  }

  predicate IsIdChar(c: char) {
    c != ']' && !IsLineTerminator(c)
  }

  /** What `(.*?)\]` can capture. */
  predicate IsId(id: string) {
    forall i :: 0 <= i < |id| ==> IsIdChar(id[i])
  }

  /** The opening `[image:` or `[download:` at the start of `t`, if any. */
  function OpeningAt(t: string): Option<Kind> {
    if Opening(Image) <= t then Some(Image)
    else if Opening(Download) <= t then Some(Download)
    else None
  }

  function OpeningLength(k: Kind): nat {
    match k
    case Image => 7
    case Download => 10
  }

  /** The length of the run of id characters at the start of `t`. */
  function IdRun(t: string): nat {
    if t == [] || !IsIdChar(t[0]) then 0 else 1 + IdRun(t[1..])
  }

  lemma {:induction false} IdRunSpec(t: string)
    ensures IdRun(t) <= |t| && IsId(t[..IdRun(t)])
    ensures IdRun(t) < |t| ==> !IsIdChar(t[IdRun(t)])
  {
    if t != [] && IsIdChar(t[0]) {
      IdRunSpec(t[1..]);
      assert t[..IdRun(t)] == [t[0]] + t[1..][..IdRun(t[1..])];
    }
  }

  lemma {:induction false} IdRunUnique(t: string, n: nat)
    requires n <= |t| && IsId(t[..n]) && (n < |t| ==> !IsIdChar(t[n]))
    ensures IdRun(t) == n
  {
    if n > 0 {
      assert t[1..][..n - 1] == t[..n][1..];
      IdRunUnique(t[1..], n - 1);
    } else if t != [] {
      assert !IsIdChar(t[0]);
    }
  }

  /** `(.*?)\]` after the opening: the id and the closing bracket. */
  function IdAfter(k: Kind, rest: string): Option<Placeholder> {
    var n := IdRun(rest);
    if n < |rest| && rest[n] == ']' then Some(Placeholder(k, rest[..n])) else None
  }

  /** The match of the placeholder regex at the start of `t`, if any. */
  function PlaceholderAt(t: string): (r: Option<Placeholder>)
    ensures r.Some? ==> Len(r.value) <= |t|
  {
    match OpeningAt(t)
    case None => None
    case Some(k) => IdAfter(k, t[OpeningLength(k)..])
  }

  lemma OpeningAtSound(t: string)
    ensures OpeningAt(t).Some? ==> Opening(OpeningAt(t).value) <= t && t[0] == '['
  {
  }

  lemma OpeningAtText(k: Kind, rest: string)
    ensures OpeningAt(Opening(k) + rest) == Some(k)
  {
    var t := Opening(k) + rest;
    if k == Download {
      assert t[1] == 'd';
      assert !(Opening(Image) <= t);
      assert Opening(Download) <= t;
    } else {
      assert Opening(Image) <= t;
    }
  }

  lemma IdAfterSound(k: Kind, rest: string)
    ensures IdAfter(k, rest).Some? ==>
      var id := IdAfter(k, rest).value.id;
      IdAfter(k, rest).value.kind == k && IsId(id) && |id| < |rest| &&
      rest == id + "]" + rest[|id| + 1..]
  {
    IdRunSpec(rest);
    if IdAfter(k, rest).Some? {
      var id := IdAfter(k, rest).value.id;
      assert rest == rest[..|id|] + [rest[|id|]] + rest[|id| + 1..];
    }
  }

  lemma IdAfterText(k: Kind, id: string, tail: string)
    requires IsId(id)
    ensures IdAfter(k, id + "]" + tail) == Some(Placeholder(k, id))
  {
    var rest := id + "]" + tail;
    assert rest[..|id|] == id;
    IdRunUnique(rest, |id|);
  }

  /** A match spells its placeholder, with a well-formed id, at the start of the text. */
  lemma PlaceholderAtSound(t: string)
    ensures PlaceholderAt(t).Some? ==> IsId(PlaceholderAt(t).value.id) && PlaceholderText(PlaceholderAt(t).value) <= t
    ensures PlaceholderAt(t).Some? ==> t[0] == '['
  {
    OpeningAtSound(t);
    if OpeningAt(t).Some? {
      var k := OpeningAt(t).value;
      var o := Opening(k);
      var rest := t[|o|..];
      assert OpeningLength(k) == |o|;
      assert PlaceholderAt(t) == IdAfter(k, rest);
      IdAfterSound(k, rest);
      if IdAfter(k, rest).Some? {
        var id := IdAfter(k, rest).value.id;
        PiecesPrefix(t, o, id, rest);
        assert PlaceholderText(Placeholder(k, id)) == o + id + "]";
      }
    }
  }

  /** An opening at the front followed by `id]` spells `o + id + "]"` at the front. */
  lemma PiecesPrefix(t: string, o: string, id: string, rest: string)
    requires o <= t && rest == t[|o|..] && |id| < |rest| && rest == id + "]" + rest[|id| + 1..]
    ensures o + id + "]" <= t
  {
    assert t == o + rest;
    assert t == (o + id + "]") + rest[|id| + 1..];
  }

  /** A placeholder written with a well-formed id is found again, whatever follows it. */
  lemma PlaceholderAtText(p: Placeholder, tail: string)
    requires IsId(p.id)
    ensures PlaceholderAt(PlaceholderText(p) + tail) == Some(p)
  {
    var t := PlaceholderText(p) + tail;
    var o := Opening(p.kind);
    assert t == o + (p.id + "]" + tail);
    OpeningAtText(p.kind, p.id + "]" + tail);
    assert t[|o|..] == p.id + "]" + tail;
    IdAfterText(p.kind, p.id, tail);
  }

  /** A match is decided by the characters it covers. */
  lemma {:induction false} PlaceholderAtPrefix(t: string, u: string)
    requires PlaceholderAt(t).Some?
    requires |PlaceholderText(PlaceholderAt(t).value)| <= |u|
    requires u[..|PlaceholderText(PlaceholderAt(t).value)|] == t[..|PlaceholderText(PlaceholderAt(t).value)|]
    ensures PlaceholderAt(u) == PlaceholderAt(t)
  {
    var p := PlaceholderAt(t).value;
    var w := PlaceholderText(p);
    PlaceholderAtSound(t);
    assert t[..|w|] == w;
    assert u == w + u[|w|..];
    PlaceholderAtText(p, u[|w|..]);
  }

  /** Placeholder text never holds a line feed. */
  lemma PlaceholderTextNoNewline(p: Placeholder)
    requires IsId(p.id)
    ensures forall j :: 0 <= j < |PlaceholderText(p)| ==> PlaceholderText(p)[j] != '\n'
  {
    var w := PlaceholderText(p);
    var o := Opening(p.kind);
    forall j | 0 <= j < |w| ensures w[j] != '\n' {
      if j < |o| {
        assert w[j] == o[j];
      } else if j < |o| + |p.id| {
        assert w[j] == p.id[j - |o|];
      } else {
        assert w[j] == ']';
      }
    }
  }

  // ---------------------------------------------------------------------------------------
  // `matchAll`

  datatype Match = Match(index: nat, ph: Placeholder)

  /** The length of the placeholder text, `|PlaceholderText(p)|`. */
  function Len(p: Placeholder): nat {
    OpeningLength(p.kind) + |p.id| + 1
  }

  lemma LenText(p: Placeholder)
    ensures Len(p) == |PlaceholderText(p)|
  {
  }

  function End(m: Match): nat {
    m.index + Len(m.ph)
  }

  lemma DropDrop(s: string, i: nat, k: nat)
    requires i + k <= |s|
    ensures s[i..][k..] == s[i + k..]
  {
  }

  lemma AppendDrop(a: string, b: string, k: nat)
    requires k <= |a|
    ensures (a + b)[k..] == a[k..] + b
  {
  }

  lemma ConsAppend<T>(q: T, x: seq<T>, y: seq<T>)
    ensures [q] + (x + y) == [q] + x + y
  {
  }

  /**
   * The matches in the remaining text `t`, which starts at position `base` of the input: a match
   * at the front is reported and scanning resumes after it; otherwise scanning moves on by one.
   */
  function Scan(t: string, base: nat): seq<Match>
    decreases |t|
  {
    if t == [] then []
    else
      match PlaceholderAt(t)
      case Some(p) => [Match(base, p)] + Scan(t[Len(p)..], base + Len(p))
      case None => Scan(t[1..], base + 1)
  }

  /** `Array.from(s.matchAll(placeholderRegex))`. */
  function Matches(s: string): seq<Match> {
    Scan(s, 0)
  }

  lemma ScanSome(t: string, base: nat, p: Placeholder)
    requires t != [] && PlaceholderAt(t) == Some(p)
    ensures Scan(t, base) == [Match(base, p)] + Scan(t[Len(p)..], base + Len(p))
  {
  }

  /** `ScanSome` at position `i` of `s`. */
  lemma ScanAt(s: string, i: nat, p: Placeholder)
    requires i < |s| && PlaceholderAt(s[i..]) == Some(p)
    ensures i + Len(p) <= |s| && Scan(s[i..], i) == [Match(i, p)] + Scan(s[i + Len(p)..], i + Len(p))
  {
    ScanSome(s[i..], i, p);
    DropDrop(s, i, Len(p));
  }

  lemma ScanNone(t: string, base: nat)
    requires t != [] && PlaceholderAt(t) == None
    ensures Scan(t, base) == Scan(t[1..], base + 1)
  {
  }

  /** The placeholders found in `t`, in order: what the matches carry, without their positions. */
  function Found(t: string): seq<Placeholder>
    decreases |t|
  {
    if t == [] then []
    else
      match PlaceholderAt(t)
      case Some(p) => [p] + Found(t[Len(p)..])
      case None => Found(t[1..])
  }

  lemma FoundSome(t: string, p: Placeholder)
    requires t != [] && PlaceholderAt(t) == Some(p)
    ensures Found(t) == [p] + Found(t[Len(p)..])
  {
  }

  lemma FoundNone(t: string)
    requires t != [] && PlaceholderAt(t) == None
    ensures Found(t) == Found(t[1..])
  {
  }

  /** The placeholders a list of matches carries, in order. */
  function Ids(ms: seq<Match>): seq<Placeholder> {
    if ms == [] then [] else [ms[0].ph] + Ids(ms[1..])
  }

  lemma {:induction false} IdsAppend(a: seq<Match>, b: seq<Match>)
    ensures Ids(a + b) == Ids(a) + Ids(b)
  {
    if a != [] {
      assert (a + b)[0] == a[0] && (a + b)[1..] == a[1..] + b;
      IdsAppend(a[1..], b);
    } else {
      assert a + b == b;
    }
  }

  lemma IdsCons(m: Match, rest: seq<Match>)
    ensures Ids([m] + rest) == [m.ph] + Ids(rest)
  {
    assert ([m] + rest)[1..] == rest;
  }

  /** The matches carry exactly the placeholders found, wherever the text starts. */
  lemma {:induction false} ScanFound(t: string, base: nat)
    ensures Ids(Scan(t, base)) == Found(t)
    decreases |t|
  {
    if t != [] {
      match PlaceholderAt(t)
      case Some(p) =>
        ScanFound(t[Len(p)..], base + Len(p));
        ScanFoundSome(t, base, p);
      case None =>
        ScanFound(t[1..], base + 1);
        ScanNone(t, base);
        FoundNone(t);
    }
  }

  lemma ScanFoundSome(t: string, base: nat, p: Placeholder)
    requires t != [] && PlaceholderAt(t) == Some(p)
    requires Ids(Scan(t[Len(p)..], base + Len(p))) == Found(t[Len(p)..])
    ensures Ids(Scan(t, base)) == Found(t)
  {
    ScanSome(t, base, p);
    FoundSome(t, p);
    IdsCons(Match(base, p), Scan(t[Len(p)..], base + Len(p)));
  }

  lemma MatchesFound(s: string)
    ensures Ids(Matches(s)) == Found(s)
  {
    ScanFound(s, 0);
  }

  /**
   * Matches in order, each at or after `from` and after the previous one, each spelling its
   * placeholder with a well-formed id at its index.
   */
  predicate Placed(s: string, ms: seq<Match>, from: nat)
    decreases |ms|
  {
    ms == [] ||
    (&& from <= ms[0].index <= |s|
     && IsId(ms[0].ph.id)
     && PlaceholderText(ms[0].ph) <= s[ms[0].index..]
     && Placed(s, ms[1..], End(ms[0])))
  }

  lemma PlacedWeaken(s: string, ms: seq<Match>, from: nat, earlier: nat)
    requires earlier <= from && Placed(s, ms, from)
    ensures Placed(s, ms, earlier)
  {
  }

  lemma PlacedCons(s: string, i: nat, p: Placeholder, rest: seq<Match>)
    requires i <= |s| && IsId(p.id) && PlaceholderText(p) <= s[i..]
    requires Placed(s, rest, i + Len(p))
    ensures Placed(s, [Match(i, p)] + rest, i)
  {
    assert ([Match(i, p)] + rest)[1..] == rest;
  }

  lemma {:induction false} ScanPlaced(s: string, i: nat)
    requires i <= |s|
    ensures Placed(s, Scan(s[i..], i), i)
    decreases |s| - i
  {
    var t := s[i..];
    if t != [] {
      match PlaceholderAt(t)
      case Some(p) =>
        ScanAt(s, i, p);
        ScanPlaced(s, i + Len(p));
        PlacedHit(s, i, p);
      case None =>
        DropDrop(s, i, 1);
        ScanNone(t, i);
        ScanPlaced(s, i + 1);
        PlacedWeaken(s, Scan(s[i + 1..], i + 1), i + 1, i);
    }
  }

  /** A placeholder at `i` in front of placed matches. */
  lemma PlacedHit(s: string, i: nat, p: Placeholder)
    requires i < |s| && PlaceholderAt(s[i..]) == Some(p)
    requires Placed(s, Scan(s[i + Len(p)..], i + Len(p)), i + Len(p))
    ensures Placed(s, Scan(s[i..], i), i)
  {
    var rest := Scan(s[i + Len(p)..], i + Len(p));
    PlaceholderAtSound(s[i..]);
    LenText(p);
    ScanAt(s, i, p);
    PlacedCons(s, i, p, rest);
  }

  /** The matches are placed in the input, in order. */
  lemma MatchesPlaced(s: string)
    ensures Placed(s, Matches(s), 0)
  {
    ScanPlaced(s, 0);
    assert s[0..] == s;
  }

  /** A leading run without `[` contributes nothing. */
  lemma {:induction false} FoundSkip(p: string, c: string)
    requires forall k :: 0 <= k < |p| ==> p[k] != '['
    ensures Found(p + c) == Found(c)
    decreases |p|
  {
    if p == [] {
      assert p + c == c;
    } else {
      PlaceholderAtSound(p + c);
      AppendDrop(p, c, 1);
      FoundNone(p + c);
      FoundSkip(p[1..], c);
    }
  }

  /** Text without `[` holds no placeholder. */
  lemma NoBracketNoneFound(t: string)
    requires forall k :: 0 <= k < |t| ==> t[k] != '['
    ensures Found(t) == []
  {
    FoundSkip(t, []);
    assert t + [] == t;
  }

  /** A match in `a + b` that starts in `a` ends in `a`: it cannot cover the line feed. */
  lemma PlaceholderAtWithin(a: string, b: string)
    requires a != [] && (b == [] || b[0] == '\n')
    ensures PlaceholderAt(a + b).Some? ==> PlaceholderAt(a) == PlaceholderAt(a + b)
  {
    var s := a + b;
    if PlaceholderAt(s).Some? {
      var q := PlaceholderAt(s).value;
      var w := PlaceholderText(q);
      PlaceholderAtSound(s);
      PlaceholderTextNoNewline(q);
      assert forall j :: 0 <= j < |w| ==> s[j] == w[j];
      assert |s| > |a| ==> s[|a|] == '\n';
      assert |w| <= |a|;
      assert a[..|w|] == s[..|w|];
      PlaceholderAtPrefix(s, a);
    }
  }

  /** Whether a match starts at the front of `a` does not depend on what follows `a`. */
  lemma PlaceholderAtAcross(a: string, b: string)
    requires a != [] && (b == [] || b[0] == '\n')
    ensures PlaceholderAt(a + b) == PlaceholderAt(a)
  {
    var s := a + b;
    if PlaceholderAt(a).Some? {
      var w := PlaceholderText(PlaceholderAt(a).value);
      PlaceholderAtSound(a);
      assert s[..|w|] == a[..|w|];
      PlaceholderAtPrefix(a, s);
    } else {
      PlaceholderAtWithin(a, b);
    }
  }

  /**
   * Scanning `a + b`, where `b` is empty or starts with a line feed, finds what is found in `a`
   * followed by what is found in `b`: no match straddles the boundary.
   */
  lemma {:induction false} FoundSplit(a: string, b: string)
    requires b == [] || b[0] == '\n'
    ensures Found(a + b) == Found(a) + Found(b)
    decreases |a|
  {
    if a == [] {
      assert a + b == b;
    } else {
      PlaceholderAtAcross(a, b);
      match PlaceholderAt(a)
      case Some(q) =>
        PlaceholderAtSound(a);
        LenText(q);
        AppendDrop(a, b, Len(q));
        FoundSome(a + b, q);
        FoundSome(a, q);
        FoundSplit(a[Len(q)..], b);
        ConsAppend(q, Found(a[Len(q)..]), Found(b));
      case None =>
        AppendDrop(a, b, 1);
        FoundNone(a + b);
        FoundNone(a);
        FoundSplit(a[1..], b);
    }
  }

  /** A placeholder written with a well-formed id is found, followed by what its tail holds. */
  lemma FoundText(p: Placeholder, tail: string)
    requires IsId(p.id)
    ensures Found(PlaceholderText(p) + tail) == [p] + Found(tail)
  {
    var t := PlaceholderText(p) + tail;
    PlaceholderAtText(p, tail);
    LenText(p);
    AppendDrop(PlaceholderText(p), tail, Len(p));
    assert PlaceholderText(p)[Len(p)..] == [];
    assert [] + tail == tail;
    FoundSome(t, p);
  }
}
