/**
 * The read-side post model: `PostResponse` and its recursive `Comment`, which turn whatever the
 * server sent into records with every field present — string defaults, `null` for missing
 * optional values, `[]` for anything that is not an array — plus the excerpt cleaning, the
 * `parseInt` behind the view count, and `isEdited`. The older `PostResponse.js` is modelled
 * beside the TypeScript class.
 *
 * A raw value is a record whose fields are `None` when the key is absent (or holds a value of a
 * type the code does not read); `new Date().toISOString()` is the parameter `now`, and
 * `new Date(s).getTime()` is the parameter `time` (`None` for an invalid date).
 */
module PostResponses {
  import opened Wrappers
  import opened Text
  import opened Placeholders
  import CR = ContentRenderer

  // ---------------------------------------------------------------------------------------
  // Comments

  datatype RawUser = RawUser(nickname: Option<string>, avatar: Option<string>)

  datatype RawComment = RawComment(
    dbId: Option<string>,
    content: Option<string>,
    date: Option<string>,
    parentId: Option<string>,
    user: Option<RawUser>,
    replies: RawReplies)

  /** `raw.replies`: an array of raw comments, or anything else. */
  datatype RawReplies = NotArray | Replies(items: seq<RawComment>)

  datatype Comment = Comment(
    dbId: Option<string>,
    content: string,
    date: string,
    parentId: Option<string>,
    nickname: string,
    avatar: Option<string>,
    replies: seq<Comment>)

  const Visitor: string := "虚空访客"

  function Nickname(u: Option<RawUser>): Option<string> {
    if u.Some? then u.value.nickname else None
  }

  function Avatar(u: Option<RawUser>): Option<string> {
    if u.Some? then u.value.avatar else None
  }

  /** `new Comment(raw)`: defaults for every field, replies normalised recursively. */
  function NewComment(raw: RawComment, now: string): Comment
    decreases raw
  {
    var replies := match raw.replies
      case Replies(rs) => seq(|rs|, i requires 0 <= i < |rs| => NewComment(rs[i], now))
      case NotArray => [];
    Comment(raw.dbId, OrElse(raw.content, ""), OrElse(raw.date, now), OrNull(raw.parentId),
            OrElse(Nickname(raw.user), Visitor), OrNull(Avatar(raw.user)), replies)
  }

  /** The raw object a normalised comment serialises to. */
  function ToRaw(c: Comment): RawComment
    decreases c
  {
    RawComment(c.dbId, Some(c.content), Some(c.date), c.parentId, Some(RawUser(Some(c.nickname), c.avatar)),
               Replies(seq(|c.replies|, i requires 0 <= i < |c.replies| => ToRaw(c.replies[i]))))
  }

  /** Every field takes its raw value when that is truthy and its default otherwise; replies keep their number and order. */
  lemma NewCommentFields(raw: RawComment, now: string)
    ensures var c := NewComment(raw, now);
      && c.dbId == raw.dbId
      && c.content == (if Truthy(raw.content) then raw.content.value else "")
      && c.date == (if Truthy(raw.date) then raw.date.value else now)
      && (c.parentId.Some? <==> Truthy(raw.parentId)) && (c.parentId.Some? ==> c.parentId == raw.parentId)
      && c.nickname == (if Truthy(Nickname(raw.user)) then Nickname(raw.user).value else Visitor)
      && (c.avatar.Some? <==> Truthy(Avatar(raw.user)))
      && |c.replies| == (if raw.replies.Replies? then |raw.replies.items| else 0)
      && (raw.replies.Replies? ==> forall i :: 0 <= i < |c.replies| ==> c.replies[i] == NewComment(raw.replies.items[i], now))
  {
  }

  /** A normalised comment is normalised again to itself, whatever the second clock reading (given a non-empty first one). */
  lemma {:induction false} NewCommentIdempotent(raw: RawComment, now: string, later: string)
    requires now != []
    ensures NewComment(ToRaw(NewComment(raw, now)), later) == NewComment(raw, now)
    decreases raw
  {
    var c := NewComment(raw, now);
    var again := NewComment(ToRaw(c), later);
    assert |again.replies| == |c.replies|;
    forall i | 0 <= i < |c.replies| ensures again.replies[i] == c.replies[i] {
      var rs := raw.replies.items;
      assert rs[i] in rs;
      NewCommentIdempotent(rs[i], now, later);
    }
  }

  // ---------------------------------------------------------------------------------------
  // `parseInt`

  predicate IsDecDigit(c: char) {
    '0' <= c <= '9'
  }

  /** The value of a digit in base 10 or 16, if it is one. */
  function DigitValue(c: char, radix: nat): Option<nat> {
    if '0' <= c <= '9' && (c as int - '0' as int) < radix then Some(c as int - '0' as int)
    else if radix == 16 && 'a' <= c <= 'f' then Some(c as int - 'a' as int + 10)
    else if radix == 16 && 'A' <= c <= 'F' then Some(c as int - 'A' as int + 10)
    else None
  }

  /** The value of a run of digits, most significant first. */
  function DigitsValue(ds: string, radix: nat): nat
    requires forall i :: 0 <= i < |ds| ==> DigitValue(ds[i], radix).Some?
  {
    if ds == [] then 0
    else DigitsValue(ds[..|ds| - 1], radix) * radix + DigitValue(ds[|ds| - 1], radix).value
  }

  /** The digits of `t` in `radix` and their value; `None` when there is none (NaN). */
  function DigitsPrefix(t: string, radix: nat): Option<nat> {
    var n := Span(t, c => DigitValue(c, radix).Some?);
    if n == 0 then None else Some(DigitsValue(t[..n], radix))
  }

  /** The digits after the sign: hex after `0x`/`0X`, decimal otherwise. */
  function Unsigned(u: string): Option<nat> {
    if |u| >= 2 && u[0] == '0' && (u[1] == 'x' || u[1] == 'X') then DigitsPrefix(u[2..], 16) else DigitsPrefix(u, 10)
  }

  /**
   * `parseInt(s)` without a radix: skip leading whitespace, take an optional sign, read hex
   * after `0x`/`0X` and decimal otherwise, and stop at the first non-digit. `None` is NaN.
   */
  function ParseInt(s: string): Option<int> {
    var t := TrimStart(s);
    if t != [] && t[0] == '-' then
      match Unsigned(t[1..]) case Some(v) => Some(-(v as int)) case None => None
    else if t != [] && t[0] == '+' then
      match Unsigned(t[1..]) case Some(v) => Some(v as int) case None => None
    else
      match Unsigned(t) case Some(v) => Some(v as int) case None => None
  }

  /** `parseInt(raw.views) || 0`: NaN and zero both give 0. */
  function Views(raw: Option<string>): int {
    match raw
    case None => 0
    case Some(s) => match ParseInt(s) case Some(v) => v case None => 0
  }

  lemma {:induction false} DecimalValue(n: nat)
    ensures forall i :: 0 <= i < |Decimal(n)| ==> DigitValue(Decimal(n)[i], 10).Some?
    ensures DigitsValue(Decimal(n), 10) == n
  {
    var d := Decimal(n);
    if n >= 10 {
      DecimalValue(n / 10);
      assert d[..|d| - 1] == Decimal(n / 10);
    }
  }

  /** Only zero is written with a leading `0`. */
  lemma {:induction false} DecimalLeading(n: nat)
    ensures Decimal(n)[0] == '0' ==> n == 0
  {
    if n >= 10 {
      DecimalLeading(n / 10);
      assert Decimal(n)[0] == Decimal(n / 10)[0];
    }
  }

  /** The digit run at the start of `Decimal(n) + tail` is `Decimal(n)`. */
  lemma DecimalPrefix(n: nat, tail: string)
    requires tail == [] || !IsDecDigit(tail[0])
    ensures DigitsPrefix(Decimal(n) + tail, 10) == Some(n)
  {
    var d := Decimal(n);
    var t := d + tail;
    DecimalValue(n);
    assert t[..|d|] == d;
    SpanUnique(t, c => DigitValue(c, 10).Some?, |d|);
  }

  /** A decimal number followed by a non-digit other than `x` is read as decimal. */
  lemma UnsignedDecimal(n: nat, tail: string)
    requires tail == [] || (!IsDecDigit(tail[0]) && tail[0] != 'x' && tail[0] != 'X')
    ensures Unsigned(Decimal(n) + tail) == Some(n)
  {
    var d := Decimal(n);
    DecimalLeading(n);
    DecimalPrefix(n, tail);
    if |d + tail| >= 2 && d[0] == '0' {
      assert d == "0";
      assert (d + tail)[1] == tail[0];
    }
  }

  /** Text starting with a digit is read without a sign. */
  lemma ParseIntDigit(u: string)
    requires u != [] && IsDecDigit(u[0])
    ensures ParseInt(u) == match Unsigned(u) case Some(v) => Some(v as int) case None => None
  {
    assert !IsJsSpace(u[0]);
    assert TrimStart(u) == u;
  }

  lemma ParseIntPositive(n: nat, tail: string)
    requires tail == [] || (!IsDecDigit(tail[0]) && tail[0] != 'x' && tail[0] != 'X')
    ensures ParseInt(Decimal(n) + tail) == Some(n)
  {
    UnsignedDecimal(n, tail);
    ParseIntDigit(Decimal(n) + tail);
  }

  /** A leading minus negates what follows. */
  lemma ParseIntMinus(u: string, v: nat)
    requires Unsigned(u) == Some(v)
    ensures ParseInt("-" + u) == Some(-(v as int))
  {
    var m := "-" + u;
    assert TrimStart(m) == m;
    assert m[1..] == u;
  }

  lemma ParseIntNegative(n: nat, tail: string)
    requires tail == [] || (!IsDecDigit(tail[0]) && tail[0] != 'x' && tail[0] != 'X')
    ensures ParseInt("-" + Decimal(n) + tail) == Some(-(n as int))
  {
    var u := Decimal(n) + tail;
    UnsignedDecimal(n, tail);
    ParseIntMinus(u, n);
    assert "-" + Decimal(n) + tail == "-" + u;
  }

  /** The decimal digits of `n`, with or without a minus, followed by anything that does not continue the number, read back as `n` or `-n`. */
  lemma ParseIntDecimal(n: nat, tail: string)
    requires tail == [] || (!IsDecDigit(tail[0]) && tail[0] != 'x' && tail[0] != 'X')
    ensures ParseInt(Decimal(n) + tail) == Some(n)
    ensures ParseInt("-" + Decimal(n) + tail) == Some(-(n as int))
  {
    ParseIntPositive(n, tail);
    ParseIntNegative(n, tail);
  }

  /** Text that does not start with a number (after blanks and a sign) counts as zero views; a decimal count is read back. */
  lemma ViewsFacts(n: nat, s: string)
    ensures Views(None) == 0
    ensures Views(Some(Decimal(n))) == n
    ensures var t := TrimStart(s); (t == [] || (!IsDecDigit(t[0]) && t[0] != '-' && t[0] != '+')) ==> Views(Some(s)) == 0
  {
    ParseIntDecimal(n, []);
    assert Decimal(n) + [] == Decimal(n);
  }

  // ---------------------------------------------------------------------------------------
  // Excerpt cleaning

  /** `replace(/<[^>]*>?/gm, '')`: from each `<` up to and including the next `>`, or to the end. */
  function StripTags(s: string): (r: string)
    ensures '<' !in r
    ensures forall c :: c in r ==> c in s
    decreases |s|
  {
    if s == [] then []
    else if s[0] == '<' then
      var n := Span(s[1..], c => c != '>');
      if 1 + n < |s| then StripTags(s[n + 2..]) else []
    else [s[0]] + StripTags(s[1..])
  }

  /** `replace(/\[image:.*?\]/g, '')` (or `download`): every placeholder of the kind is deleted, left to right. */
  function RemoveKind(s: string, k: Kind): (r: string)
    ensures forall c :: c in r ==> c in s
    decreases |s|
  {
    if s == [] then []
    else match PlaceholderAt(s)
      case Some(p) =>
        if p.kind == k then RemoveKind(s[Len(p)..], k) else [s[0]] + RemoveKind(s[1..], k)
      case None => [s[0]] + RemoveKind(s[1..], k)
  }

  /** `(raw.excerpt || '')` cleaned of tags and placeholders, whitespace-collapsed and trimmed. */
  function CleanExcerpt(raw: Option<string>): string {
    Squish(RemoveKind(RemoveKind(StripTags(OrElse(raw, "")), Image), Download))
  }

  lemma {:induction false} CollapseChars(s: string)
    ensures forall c :: c in CollapseSpaces(s) ==> c in s || c == ' '
    decreases |s|
  {
    if s != [] {
      if IsJsSpace(s[0]) {
        TrimStartFacts(s[1..]);
        CollapseChars(TrimStart(s));
      } else {
        CollapseChars(s[1..]);
      }
    }
  }

  /** Collapsing and trimming only drops characters or turns whitespace into spaces. */
  lemma SquishChars(s: string)
    ensures forall c :: c in Squish(s) ==> c in s || c == ' '
  {
    var c := CollapseSpaces(s);
    CollapseChars(s);
    TrimFacts(c);
  }

  /** The cleaned excerpt has no `<`, single spaces only, no surrounding blanks, and no character that was not in the raw excerpt except spaces. */
  lemma CleanExcerptFacts(raw: Option<string>)
    ensures var r := CleanExcerpt(raw);
      && '<' !in r && Squished(r)
      && forall c :: c in r && c != ' ' ==> c in OrElse(raw, "")
  {
    var s := RemoveKind(RemoveKind(StripTags(OrElse(raw, "")), Image), Download);
    SquishChars(s);
  }

  /** A placeholder of the kind at the front is deleted whole, and the rest is cleaned as before. */
  lemma RemoveFront(p: Placeholder, t: string)
    requires IsId(p.id)
    ensures RemoveKind(PlaceholderText(p) + t, p.kind) == RemoveKind(t, p.kind)
  {
    PlaceholderAtText(p, t);
    LenText(p);
    assert (PlaceholderText(p) + t)[Len(p)..] == t;
  }

  lemma {:induction false} StripTagsPlain(s: string)
    requires '<' !in s
    ensures StripTags(s) == s
  {
    if s != [] {
      StripTagsPlain(s[1..]);
    }
  }

  lemma {:induction false} RemoveKindPlain(s: string, k: Kind)
    requires '[' !in s
    ensures RemoveKind(s, k) == s
  {
    if s != [] {
      OpeningAtSound(s);
      RemoveKindPlain(s[1..], k);
    }
  }

  /** An excerpt that is already clean — no `<`, no `[`, squished — is kept as it is. */
  lemma CleanExcerptPlain(s: string)
    requires '<' !in s && '[' !in s && Squished(s)
    ensures CleanExcerpt(Some(s)) == s
  {
    StripTagsPlain(s);
    RemoveKindPlain(s, Image);
    RemoveKindPlain(s, Download);
    CollapsePlain(s);
    if s != [] {
      assert TrimStart(s) == s;
      assert TrimEnd(s) == s;
    }
  }

  // ---------------------------------------------------------------------------------------
  // The post

  datatype RawAuthor = RawAuthor(nickname: Option<string>, avatar: Option<string>, id: Option<string>)

  datatype Cover = Cover(src: Option<string>, alt: Option<string>)

  datatype RawPost = RawPost(
    dbId: Option<string>,
    id: Option<string>,
    slug: Option<string>,
    title: Option<string>,
    createTime: Option<string>,
    updateTime: Option<string>,
    date: Option<string>,
    views: Option<string>,
    status: Option<string>,
    topped: Option<bool>,
    excerpt: Option<string>,
    content: Option<string>,
    category: Option<string>,
    categories: Option<seq<string>>,
    tags: Option<seq<string>>,
    coverImage: Option<Cover>,
    contentImages: Option<seq<CR.ImageRecord>>,
    downloads: Option<seq<CR.DownloadRecord>>,
    author: Option<RawAuthor>,
    comments: Option<seq<RawComment>>)

  datatype Author = Author(nickname: string, avatar: Option<string>, id: Option<string>)

  datatype PostResponse = PostResponse(
    dbId: Option<string>,
    id: Option<string>,
    slug: Option<string>,
    title: string,
    createTime: string,
    updateTime: string,
    views: int,
    status: string,
    topped: bool,
    content: string,
    category: string,
    tags: seq<string>,
    coverImage: Option<Cover>,
    contentImages: seq<CR.ImageRecord>,
    downloads: seq<CR.DownloadRecord>,
    excerpt: string,
    author: Author,
    comments: seq<Comment>)

  const Untitled: string := "Untitled"
  const Pending: string := "pending"
  const Uncategorized: string := "未分类"
  const UnknownAuthor: string := "未知作者"

  /** `raw.id || raw.slug || raw._id`. */
  function PostId(raw: RawPost): Option<string> {
    if Truthy(raw.id) then raw.id else if Truthy(raw.slug) then raw.slug else raw.dbId
  }

  /** `raw.slug || raw.id`. */
  function PostSlug(raw: RawPost): Option<string> {
    if Truthy(raw.slug) then raw.slug else raw.id
  }

  function AuthorOf(a: Option<RawAuthor>, withId: bool): Author {
    match a
    case None => Author(UnknownAuthor, None, None)
    case Some(r) => Author(OrElse(r.nickname, UnknownAuthor), OrNull(r.avatar), if withId then r.id else None)
  }

  /** `new PostResponse(raw)` (TypeScript). */
  function NewPostResponse(raw: RawPost, now: string): PostResponse {
    var createTime := OrElse(raw.createTime, now);
    PostResponse(
      OrNull(raw.dbId), PostId(raw), PostSlug(raw), OrElse(raw.title, Untitled),
      createTime, OrElse(raw.updateTime, createTime), Views(raw.views), OrElse(raw.status, Pending),
      raw.topped == Some(true), OrElse(raw.content, ""), OrElse(raw.category, Uncategorized),
      raw.tags.GetOr([]), raw.coverImage, raw.contentImages.GetOr([]), raw.downloads.GetOr([]),
      CleanExcerpt(raw.excerpt), AuthorOf(raw.author, true),
      match raw.comments case Some(cs) => seq(|cs|, i requires 0 <= i < |cs| => NewComment(cs[i], now)) case None => [])
  }

  /**
   * Either of `id` and `slug` being truthy makes both truthy; `id` is the raw id, else the raw
   * slug, else `_id`; `slug` is the raw slug, else the raw id.
   */
  lemma PostIdSlug(raw: RawPost, now: string)
    ensures var r := NewPostResponse(raw, now);
      && (Truthy(raw.id) || Truthy(raw.slug) ==> Truthy(r.id) && Truthy(r.slug))
      && (Truthy(raw.id) ==> r.id == raw.id)
      && (!Truthy(raw.id) && Truthy(raw.slug) ==> r.id == raw.slug)
      && (!Truthy(raw.id) && !Truthy(raw.slug) ==> r.id == raw.dbId)
      && (Truthy(raw.slug) ==> r.slug == raw.slug)
      && (!Truthy(raw.slug) ==> r.slug == raw.id)
  {
  }

  /**
   * The defaults: every string field is its truthy raw value or its default, lists are kept when
   * arrays and `[]` otherwise, the update time falls back to the creation time, the excerpt is
   * the cleaned one, and each comment is normalised in place.
   */
  lemma PostResponseDefaults(raw: RawPost, now: string)
    ensures var r := NewPostResponse(raw, now);
      && r.title == (if Truthy(raw.title) then raw.title.value else Untitled)
      && r.status == (if Truthy(raw.status) then raw.status.value else Pending)
      && r.category == (if Truthy(raw.category) then raw.category.value else Uncategorized)
      && r.content == (if Truthy(raw.content) then raw.content.value else "")
      && r.createTime == (if Truthy(raw.createTime) then raw.createTime.value else now)
      && r.updateTime == (if Truthy(raw.updateTime) then raw.updateTime.value else r.createTime)
      && (r.topped <==> raw.topped == Some(true))
      && (raw.tags.None? ==> r.tags == []) && (raw.tags.Some? ==> r.tags == raw.tags.value)
      && r.coverImage == raw.coverImage
      && (raw.contentImages.None? ==> r.contentImages == []) && (raw.contentImages.Some? ==> r.contentImages == raw.contentImages.value)
      && (raw.downloads.None? ==> r.downloads == []) && (raw.downloads.Some? ==> r.downloads == raw.downloads.value)
      && r.excerpt == CleanExcerpt(raw.excerpt)
      && (raw.comments.None? ==> r.comments == [])
      && (raw.comments.Some? ==>
            && |r.comments| == |raw.comments.value|
            && forall i :: 0 <= i < |raw.comments.value| ==> r.comments[i] == NewComment(raw.comments.value[i], now))
      && r.author.nickname == (if raw.author.Some? && Truthy(raw.author.value.nickname) then raw.author.value.nickname.value else UnknownAuthor)
      && (r.author.avatar.Some? ==> Truthy(r.author.avatar))
      && (r.dbId.Some? <==> Truthy(raw.dbId))
  {
  }

  /**
   * `isEdited`: more than ten seconds between the two times. An invalid date gives NaN, and
   * a comparison with NaN is false.
   */
  function IsEdited(r: PostResponse, time: string -> Option<int>): bool {
    match (time(r.updateTime), time(r.createTime))
    case (Some(u), Some(c)) => (if u >= c then u - c else c - u) > 10000
    case _ => false
  }

  /** A post whose update time was missing is never shown as edited; one that is edited has two different, valid times. */
  lemma IsEditedFacts(raw: RawPost, now: string, time: string -> Option<int>)
    ensures !Truthy(raw.updateTime) ==> !IsEdited(NewPostResponse(raw, now), time)
    ensures var r := NewPostResponse(raw, now);
      IsEdited(r, time) ==> r.updateTime != r.createTime && time(r.updateTime).Some? && time(r.createTime).Some?
  {
  }

  // ---------------------------------------------------------------------------------------
  // `PostResponse.js`

  datatype LegacyResponse = LegacyResponse(
    id: Option<string>,
    slug: Option<string>,
    title: string,
    date: string,
    status: string,
    topped: bool,
    excerpt: string,
    content: string,
    category: string,
    categories: seq<string>,
    tags: seq<string>,
    coverImage: Option<Cover>,
    contentImages: seq<CR.ImageRecord>,
    downloads: seq<CR.DownloadRecord>,
    author: Author,
    dbId: Option<string>)

  /** `new PostResponse(raw)` (JavaScript): a `date` instead of the two times, a `categories` list, no views, author id or comments. */
  function NewLegacyResponse(raw: RawPost, now: string): LegacyResponse {
    LegacyResponse(
      PostId(raw), PostSlug(raw), OrElse(raw.title, Untitled), OrElse(raw.date, now), OrElse(raw.status, Pending),
      raw.topped == Some(true), CleanExcerpt(raw.excerpt), OrElse(raw.content, ""), OrElse(raw.category, Uncategorized),
      raw.categories.GetOr([]), raw.tags.GetOr([]), raw.coverImage, raw.contentImages.GetOr([]), raw.downloads.GetOr([]),
      AuthorOf(raw.author, false), OrNull(raw.dbId))
  }

  /** The two classes agree on every field they share, and the older one's `date` defaults like `createTime`. */
  lemma ResponsesAgree(raw: RawPost, now: string)
    ensures var r := NewPostResponse(raw, now); var l := NewLegacyResponse(raw, now);
      && l.id == r.id && l.slug == r.slug && l.title == r.title && l.status == r.status && l.topped == r.topped
      && l.excerpt == r.excerpt && l.content == r.content && l.category == r.category && l.tags == r.tags
      && l.coverImage == r.coverImage && l.contentImages == r.contentImages && l.downloads == r.downloads
      && l.author == r.author.(id := None) && l.dbId == r.dbId
      && (raw.date == raw.createTime ==> l.date == r.createTime)
      && (raw.categories.None? ==> l.categories == [])
  {
  }
}
