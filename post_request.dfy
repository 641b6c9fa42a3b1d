/**
 * `PostRequest`, the body the editors send to create or update a post (the TypeScript and the
 * JavaScript class are the same constructor and `toJSON`; their `validate` differs). The
 * constructor normalises a partial input: missing or empty strings get defaults, a non-array
 * tag list becomes `[]`, the cover alt falls back to the title, and image and download entries
 * get `''` for their missing text fields.
 */
module PostRequests {
  import opened Wrappers
  import opened Text

  datatype CoverIn = CoverIn(src: Option<string>, alt: Option<string>)
  datatype ImageIn = ImageIn(id: string, src: string, alt: Option<string>)
  datatype DownloadIn = DownloadIn(id: string, description: Option<string>, url: Option<string>)

  /** The constructor's argument: every field may be absent (`tags == None` also stands for a non-array). */
  datatype Input = Input(
    title: Option<string>,
    content: Option<string>,
    excerpt: Option<string>,
    category: Option<string>,
    tags: Option<seq<string>>,
    coverImage: Option<CoverIn>,
    contentImages: Option<seq<ImageIn>>,
    downloads: Option<seq<DownloadIn>>,
    topped: Option<bool>)

  datatype CoverImage = CoverImage(src: string, alt: string)
  datatype ContentImage = ContentImage(id: string, src: string, alt: string)
  datatype Download = Download(id: string, description: string, url: string)

  datatype PostRequest = PostRequest(
    title: string,
    content: string,
    excerpt: string,
    category: string,
    tags: seq<string>,
    coverImage: CoverImage,
    contentImages: seq<ContentImage>,
    downloads: seq<Download>,
    topped: bool)

  const Uncategorized: string := "未分类"

  function ImageOut(img: ImageIn): ContentImage {
    ContentImage(img.id, img.src, OrElse(img.alt, ""))
  }

  function DownloadOut(dl: DownloadIn): Download {
    Download(dl.id, OrElse(dl.description, ""), OrElse(dl.url, ""))
  }

  function MapImages(xs: seq<ImageIn>): (r: seq<ContentImage>)
    ensures |r| == |xs| && forall i :: 0 <= i < |xs| ==> r[i] == ImageOut(xs[i])
  {
    if xs == [] then [] else [ImageOut(xs[0])] + MapImages(xs[1..])
  }

  function MapDownloads(xs: seq<DownloadIn>): (r: seq<Download>)
    ensures |r| == |xs| && forall i :: 0 <= i < |xs| ==> r[i] == DownloadOut(xs[i])
  {
    if xs == [] then [] else [DownloadOut(xs[0])] + MapDownloads(xs[1..])
  }

  /** `new PostRequest(data)`. */
  function NewPostRequest(d: Input): PostRequest {
    var cover := match d.coverImage case Some(c) => c case None => CoverIn(None, None);
    PostRequest(
      OrElse(d.title, ""),
      OrElse(d.content, ""),
      OrElse(d.excerpt, ""),
      OrElse(d.category, Uncategorized),
      d.tags.GetOr([]),
      CoverImage(OrElse(cover.src, ""), if Truthy(cover.alt) then cover.alt.value else OrElse(d.title, "")),
      MapImages(d.contentImages.GetOr([])),
      MapDownloads(d.downloads.GetOr([])),
      d.topped == Some(true))
  }

  /** The defaults the constructor promises, field by field. */
  lemma NewPostRequestDefaults(d: Input)
    ensures var r := NewPostRequest(d);
      && r.category != []
      && (r.category == if Truthy(d.category) then d.category.value else Uncategorized)
      && (r.title == if Truthy(d.title) then d.title.value else "")
      && (r.content == if Truthy(d.content) then d.content.value else "")
      && (r.excerpt == if Truthy(d.excerpt) then d.excerpt.value else "")
      && (r.tags == if d.tags.Some? then d.tags.value else [])
      && (d.coverImage.None? ==> r.coverImage == CoverImage("", r.title))
      && (d.coverImage.Some? ==> r.coverImage.src == if Truthy(d.coverImage.value.src) then d.coverImage.value.src.value else "")
      && (d.coverImage.Some? && Truthy(d.coverImage.value.alt) ==> r.coverImage.alt == d.coverImage.value.alt.value)
      && (d.coverImage.Some? && !Truthy(d.coverImage.value.alt) ==> r.coverImage.alt == r.title)
      && (r.topped <==> d.topped == Some(true))
  {
  }

  /** The image and download lists keep length, order and ids, and every text field is a string. */
  lemma NewPostRequestLists(d: Input)
    ensures var r := NewPostRequest(d); var imgs := d.contentImages.GetOr([]); var dls := d.downloads.GetOr([]);
      && |r.contentImages| == |imgs|
      && (forall i :: 0 <= i < |imgs| ==>
            r.contentImages[i].id == imgs[i].id && r.contentImages[i].src == imgs[i].src
            && (Truthy(imgs[i].alt) ==> r.contentImages[i].alt == imgs[i].alt.value)
            && (!Truthy(imgs[i].alt) ==> r.contentImages[i].alt == ""))
      && |r.downloads| == |dls|
      && (forall i :: 0 <= i < |dls| ==>
            r.downloads[i].id == dls[i].id
            && (Truthy(dls[i].url) ==> r.downloads[i].url == dls[i].url.value)
            && (!Truthy(dls[i].url) ==> r.downloads[i].url == "")
            && (r.downloads[i].description == if Truthy(dls[i].description) then dls[i].description.value else ""))
  {
  }

  // ---------------------------------------------------------------------------------------
  // `toJSON`

  /** The JSON values `toJSON` produces. */
  datatype Json = JStr(s: string) | JBool(b: bool) | JArr(items: seq<Json>) | JObj(fields: map<string, Json>)

  const RequestKeys: set<string> :=
    {"title", "content", "excerpt", "category", "tags", "coverImage", "contentImages", "downloads", "topped"}

  function StrArr(xs: seq<string>): (r: seq<Json>)
    ensures |r| == |xs| && forall i :: 0 <= i < |xs| ==> r[i] == JStr(xs[i])
  {
    if xs == [] then [] else [JStr(xs[0])] + StrArr(xs[1..])
  }

  function ImageJson(img: ContentImage): Json {
    JObj(map["_id" := JStr(img.id), "src" := JStr(img.src), "alt" := JStr(img.alt)])
  }

  function DownloadJson(dl: Download): Json {
    JObj(map["_id" := JStr(dl.id), "description" := JStr(dl.description), "url" := JStr(dl.url)])
  }

  function ImagesJson(xs: seq<ContentImage>): (r: seq<Json>)
    ensures |r| == |xs| && forall i :: 0 <= i < |xs| ==> r[i] == ImageJson(xs[i])
  {
    if xs == [] then [] else [ImageJson(xs[0])] + ImagesJson(xs[1..])
  }

  function DownloadsJson(xs: seq<Download>): (r: seq<Json>)
    ensures |r| == |xs| && forall i :: 0 <= i < |xs| ==> r[i] == DownloadJson(xs[i])
  {
    if xs == [] then [] else [DownloadJson(xs[0])] + DownloadsJson(xs[1..])
  }

  /** `toJSON()`: exactly the nine request fields. */
  function ToJson(r: PostRequest): (j: Json)
    ensures j.JObj? && j.fields.Keys == RequestKeys
  {
    JObj(map[
      "title" := JStr(r.title),
      "content" := JStr(r.content),
      "excerpt" := JStr(r.excerpt),
      "category" := JStr(r.category),
      "tags" := JArr(StrArr(r.tags)),
      "coverImage" := JObj(map["src" := JStr(r.coverImage.src), "alt" := JStr(r.coverImage.alt)]),
      "contentImages" := JArr(ImagesJson(r.contentImages)),
      "downloads" := JArr(DownloadsJson(r.downloads)),
      "topped" := JBool(r.topped)])
  }

  // Reading the JSON back, to show that `toJSON` loses nothing.

  function GetStr(fields: map<string, Json>, k: string): Option<string> {
    if k in fields && fields[k].JStr? then Some(fields[k].s) else None
  }

  function StrsOf(xs: seq<Json>): Option<seq<string>> {
    if xs == [] then Some([])
    else if !xs[0].JStr? then None
    else match StrsOf(xs[1..])
      case None => None
      case Some(rest) => Some([xs[0].s] + rest)
  }

  function ImageOf(j: Json): Option<ContentImage> {
    if !j.JObj? then None
    else match (GetStr(j.fields, "_id"), GetStr(j.fields, "src"), GetStr(j.fields, "alt"))
      case (Some(id), Some(src), Some(alt)) => Some(ContentImage(id, src, alt))
      case _ => None
  }

  function DownloadOf(j: Json): Option<Download> {
    if !j.JObj? then None
    else match (GetStr(j.fields, "_id"), GetStr(j.fields, "description"), GetStr(j.fields, "url"))
      case (Some(id), Some(description), Some(url)) => Some(Download(id, description, url))
      case _ => None
  }

  function ImagesOf(xs: seq<Json>): Option<seq<ContentImage>> {
    if xs == [] then Some([])
    else match (ImageOf(xs[0]), ImagesOf(xs[1..]))
      case (Some(x), Some(rest)) => Some([x] + rest)
      case _ => None
  }

  function DownloadsOf(xs: seq<Json>): Option<seq<Download>> {
    if xs == [] then Some([])
    else match (DownloadOf(xs[0]), DownloadsOf(xs[1..]))
      case (Some(x), Some(rest)) => Some([x] + rest)
      case _ => None
  }

  function CoverOf(j: Json): Option<CoverImage> {
    if !j.JObj? then None
    else match (GetStr(j.fields, "src"), GetStr(j.fields, "alt"))
      case (Some(src), Some(alt)) => Some(CoverImage(src, alt))
      case _ => None
  }

  /** The request a `toJSON` object describes, if it has the nine fields with the right shapes. */
  function OfJson(j: Json): Option<PostRequest> {
    if !j.JObj? then None
    else
      var f := j.fields;
      var title := GetStr(f, "title");
      var content := GetStr(f, "content");
      var excerpt := GetStr(f, "excerpt");
      var category := GetStr(f, "category");
      if !(title.Some? && content.Some? && excerpt.Some? && category.Some?) then None
      else if !("tags" in f && f["tags"].JArr? && "coverImage" in f && "contentImages" in f && f["contentImages"].JArr?
                && "downloads" in f && f["downloads"].JArr? && "topped" in f && f["topped"].JBool?) then None
      else
        var tags := StrsOf(f["tags"].items);
        var cover := CoverOf(f["coverImage"]);
        var images := ImagesOf(f["contentImages"].items);
        var downloads := DownloadsOf(f["downloads"].items);
        if tags.Some? && cover.Some? && images.Some? && downloads.Some? then
          Some(PostRequest(title.value, content.value, excerpt.value, category.value, tags.value, cover.value,
                           images.value, downloads.value, f["topped"].b))
        else None
  }

  lemma {:induction false} StrsRoundTrip(xs: seq<string>)
    ensures StrsOf(StrArr(xs)) == Some(xs)
  {
    if xs != [] {
      assert StrArr(xs)[1..] == StrArr(xs[1..]);
      StrsRoundTrip(xs[1..]);
      assert [xs[0]] + xs[1..] == xs;
    }
  }

  lemma {:induction false} ImagesRoundTrip(xs: seq<ContentImage>)
    ensures ImagesOf(ImagesJson(xs)) == Some(xs)
  {
    if xs != [] {
      assert ImagesJson(xs)[1..] == ImagesJson(xs[1..]);
      ImagesRoundTrip(xs[1..]);
      assert ImageOf(ImagesJson(xs)[0]) == Some(xs[0]);
      assert [xs[0]] + xs[1..] == xs;
    }
  }

  lemma {:induction false} DownloadsRoundTrip(xs: seq<Download>)
    ensures DownloadsOf(DownloadsJson(xs)) == Some(xs)
  {
    if xs != [] {
      assert DownloadsJson(xs)[1..] == DownloadsJson(xs[1..]);
      DownloadsRoundTrip(xs[1..]);
      assert DownloadOf(DownloadsJson(xs)[0]) == Some(xs[0]);
      assert [xs[0]] + xs[1..] == xs;
    }
  }

  /** An object whose fields hold the request's parts reads back as that request. */
  lemma OfJsonFields(j: Json, r: PostRequest)
    requires j.JObj?
    requires GetStr(j.fields, "title") == Some(r.title) && GetStr(j.fields, "content") == Some(r.content)
    requires GetStr(j.fields, "excerpt") == Some(r.excerpt) && GetStr(j.fields, "category") == Some(r.category)
    requires "tags" in j.fields && j.fields["tags"] == JArr(StrArr(r.tags))
    requires "topped" in j.fields && j.fields["topped"] == JBool(r.topped)
    requires "contentImages" in j.fields && j.fields["contentImages"] == JArr(ImagesJson(r.contentImages))
    requires "downloads" in j.fields && j.fields["downloads"] == JArr(DownloadsJson(r.downloads))
    requires "coverImage" in j.fields && CoverOf(j.fields["coverImage"]) == Some(r.coverImage)
    ensures OfJson(j) == Some(r)
  {
    StrsRoundTrip(r.tags);
    ImagesRoundTrip(r.contentImages);
    DownloadsRoundTrip(r.downloads);
  }

  /** `toJSON` is lossless: the request can be read back from it. */
  lemma ToJsonRoundTrip(r: PostRequest)
    ensures OfJson(ToJson(r)) == Some(r)
  {
    var j := ToJson(r);
    assert CoverOf(j.fields["coverImage"]) == Some(r.coverImage);
    OfJsonFields(j, r);
  }

  // ---------------------------------------------------------------------------------------
  // `validate`

  const TitleMissing: string := "文章标题不能为空"
  const ContentMissing: string := "文章内容不能为空"
  const CategoryMissing: string := "必须选择一个分类"

  /** TypeScript `validate()`: throws on a blank title, then on blank content. */
  function Validate(r: PostRequest): (res: Result<(), string>)
    ensures res.Ok? <==> !IsBlank(r.title) && !IsBlank(r.content)
    ensures IsBlank(r.title) ==> res == Err(TitleMissing)
    ensures !IsBlank(r.title) && IsBlank(r.content) ==> res == Err(ContentMissing)
  {
    if IsBlank(r.title) then Err(TitleMissing)
    else if IsBlank(r.content) then Err(ContentMissing)
    else Ok(())
  }

  /** JavaScript `validate()`: the same two checks, then an empty category; `true` otherwise. */
  function ValidateJs(r: PostRequest): (res: Result<bool, string>)
    ensures res.Ok? ==> res.value
  {
    if IsBlank(r.title) then Err(TitleMissing)
    else if IsBlank(r.content) then Err(ContentMissing)
    else if r.category == [] then Err(CategoryMissing)
    else Ok(true)
  }

  /**
   * On a constructed request the category check cannot fire, so the two `validate`s accept and
   * reject the same requests with the same messages.
   */
  lemma ValidateAgree(d: Input)
    ensures ValidateJs(NewPostRequest(d)) != Err(CategoryMissing)
    ensures ValidateJs(NewPostRequest(d)).Ok? <==> Validate(NewPostRequest(d)).Ok?
    ensures Validate(NewPostRequest(d)).Err? ==> ValidateJs(NewPostRequest(d)) == Err(Validate(NewPostRequest(d)).error)
  {
    NewPostRequestDefaults(d);
  }
}
