/**
 * `WriteModal.jsx`, the earlier editor component, which keeps the same state as the hook but
 * with its own rules: step guards before publishing, tags deduplicated with a `Set`, an
 * untrimmed category on Enter, an update that clears the invalid flag only for a repaired
 * download url, kept images republished with their preview url, images numbered `插图 n`,
 * and download ids `dl-` followed by a random suffix. Its body parser is the one in
 * `mdParser.js`.
 *
 * `Math.random()` is a parameter giving the suffix for each block's callback.
 */
module WriteModalLegacy {
  import opened Wrappers
  import opened Text
  import opened Placeholders
  import opened Blocks
  import opened PostRequests
  import opened WriteModalHook
  import MdParserJs
  import CR = ContentRenderer

  /** The fields the component reads without a guard: an image's preview, a download's url. */
  predicate FieldsPresent(b: Block) {
    && (b.kind == ImageBlock ==> b.previewUrl.Some?)
    && (b.kind == DownloadBlock ==> b.url.Some?)
  }

  /** The block `insertBlock` creates: every optional text field present and empty. */
  function NewLegacyBlock(kind: BlockType, now: int): Block {
    Block(now, kind, [], false, Some([]), Some([]), Some([]), None, None)
  }

  /** `{ ...b, [field]: value }`, with the flag cleared only by a non-blank url on a download. */
  function LegacyUpdated(b: Block, f: Field, v: string): Block {
    SetField(b, f, v).(invalid := if b.kind == DownloadBlock && f == UrlField && !IsBlank(v) then false else b.invalid)
  }

  /** The update sets the field, keeps the id and kind, and changes the flag only to clear it on a repaired download. */
  lemma LegacyUpdatedFacts(b: Block, f: Field, v: string)
    ensures var u := Updated(b, f, v); var l := LegacyUpdated(b, f, v);
      && l.id == b.id && l.kind == b.kind && l.resourceId == b.resourceId && l.file == b.file
      && (FieldsPresent(b) ==> FieldsPresent(l))
      && (l.invalid <==> b.invalid && !(b.kind == DownloadBlock && f == UrlField && !IsBlank(v)))
      && l.(invalid := u.invalid) == u
  {
  }

  // ---------------------------------------------------------------------------------------
  // Tags

  /** `[...new Set(xs)]`: the first occurrence of every value, in order. */
  function Dedup(xs: seq<string>): (r: seq<string>)
    ensures forall x :: x in r <==> x in xs
  {
    if xs == [] then []
    else
      var d := Dedup(xs[..|xs| - 1]);
      assert forall x :: x in xs <==> x in xs[..|xs| - 1] || x == xs[|xs| - 1] by {
        assert xs == xs[..|xs| - 1] + [xs[|xs| - 1]];
      }
      if xs[|xs| - 1] in d then d else d + [xs[|xs| - 1]]
  }

  predicate Distinct(xs: seq<string>) {
    forall i, j :: 0 <= i < j < |xs| ==> xs[i] != xs[j]
  }

  /** The result has no repeats, and a list without repeats is left as it is. */
  lemma {:induction false} DedupFacts(xs: seq<string>)
    ensures Distinct(Dedup(xs))
    ensures Distinct(xs) ==> Dedup(xs) == xs
  {
    if xs != [] {
      var init := xs[..|xs| - 1];
      DedupFacts(init);
      if Distinct(xs) {
        assert Distinct(init);
        assert xs[|xs| - 1] !in init;
        assert xs == init + [xs[|xs| - 1]];
      }
    }
  }

  /** Adding a tag to a list without repeats appends it exactly when it is new. */
  lemma AddTag(tags: seq<string>, v: string)
    requires Distinct(tags)
    ensures Dedup(tags + [v]) == if v in tags then tags else tags + [v]
  {
    var xs := tags + [v];
    assert xs[..|xs| - 1] == tags;
    DedupFacts(tags);
  }

  // ---------------------------------------------------------------------------------------
  // Publishing

  /** `插图 n`. */
  function ImageAlt(n: nat): string {
    "插图 " + Decimal(n)
  }

  /** An image record before it is numbered. */
  datatype ImageSrc = ImageSrc(id: string, src: string)

  /** The records pushed in order, numbered from 1 by the length of the list when pushed. */
  function Numbered(ps: seq<ImageSrc>): (r: seq<ImageIn>)
    ensures |r| == |ps|
    ensures forall i :: 0 <= i < |ps| ==> r[i] == ImageIn(ps[i].id, ps[i].src, Some(ImageAlt(i + 1)))
  {
    seq(|ps|, i requires 0 <= i < |ps| => ImageIn(ps[i].id, ps[i].src, Some(ImageAlt(i + 1))))
  }

  lemma NumberedSnoc(ps: seq<ImageSrc>, p: ImageSrc)
    ensures Numbered(ps + [p]) == Numbered(ps) + [ImageIn(p.id, p.src, Some(ImageAlt(|ps| + 1)))]
  {
    var l := Numbered(ps + [p]);
    var r := Numbered(ps) + [ImageIn(p.id, p.src, Some(ImageAlt(|ps| + 1)))];
    assert |l| == |r|;
    forall i | 0 <= i < |l| ensures l[i] == r[i] {
      if i < |ps| {
        assert (ps + [p])[i] == ps[i];
      }
    }
  }

  /** An image block without a new file but with an id is republished with its preview. */
  predicate IsKeptImage(b: Block) {
    b.kind == ImageBlock && b.file.None? && Truthy(b.resourceId)
  }

  predicate IsUploadImage(b: Block) {
    b.kind == ImageBlock && b.file.Some?
  }

  /** The records the synchronous part of the callbacks pushes: kept images, in block order. */
  function KeptImages(bs: seq<Block>): seq<ImageSrc> {
    if bs == [] then []
    else
      var b := bs[|bs| - 1];
      KeptImages(bs[..|bs| - 1]) + if IsKeptImage(b) then [ImageSrc(b.resourceId.value, b.previewUrl.GetOr([]))] else []
  }

  /** The records pushed once the uploads answer, taken in block order. */
  function UploadedImages(bs: seq<Block>, upload: FileRef -> Uploaded): seq<ImageSrc> {
    if bs == [] then []
    else
      var b := bs[|bs| - 1];
      UploadedImages(bs[..|bs| - 1], upload) + if IsUploadImage(b) then [ImageSrc(upload(b.file.value).id, upload(b.file.value).url)] else []
  }

  /** The id a linked download gets: its own when truthy, otherwise `dl-` and the random suffix. */
  function LegacyDownloadId(b: Block, suffix: string): string {
    if Truthy(b.resourceId) then b.resourceId.value else "dl-" + suffix
  }

  function LegacyFinalOf(b: Block, suffix: string, upload: FileRef -> Uploaded): Block {
    if IsUploadImage(b) then b.(resourceId := Some(upload(b.file.value).id))
    else if b.kind == DownloadBlock && Truthy(b.url) then b.(resourceId := Some(LegacyDownloadId(b, suffix)))
    else b
  }

  function LegacyFinalized(bs: seq<Block>, upload: FileRef -> Uploaded, random: nat -> string): (r: seq<Block>)
    ensures |r| == |bs|
  {
    if bs == [] then []
    else LegacyFinalized(bs[..|bs| - 1], upload, random) + [LegacyFinalOf(bs[|bs| - 1], random(|bs| - 1), upload)]
  }

  function LegacyDownloads(bs: seq<Block>, random: nat -> string): seq<DownloadIn> {
    if bs == [] then []
    else
      var b := bs[|bs| - 1];
      LegacyDownloads(bs[..|bs| - 1], random)
        + if b.kind == DownloadBlock && Truthy(b.url) then [DownloadIn(LegacyDownloadId(b, random(|bs| - 1)), b.description, b.url)] else []
  }

  /**
   * The synchronous part of the `Promise.all(blocks.map(async ...))` pass: the callbacks run in
   * block order up to their first `await`, pushing kept images and downloads; an image with a
   * new file waits for its upload, whose id its final block carries.
   */
  method SyncPass(bs: seq<Block>, upload: FileRef -> Uploaded, random: nat -> string)
    returns (finalBlocks: seq<Block>, contentImages: seq<ImageIn>, downloads: seq<DownloadIn>)
    ensures finalBlocks == LegacyFinalized(bs, upload, random)
    ensures contentImages == Numbered(KeptImages(bs))
    ensures downloads == LegacyDownloads(bs, random)
  {
    finalBlocks, contentImages, downloads := [], [], [];
    for j := 0 to |bs|
      invariant finalBlocks == LegacyFinalized(bs[..j], upload, random)
      invariant contentImages == Numbered(KeptImages(bs[..j]))
      invariant downloads == LegacyDownloads(bs[..j], random)
    {
      var b := bs[j];
      assert bs[..j + 1][..j] == bs[..j] && bs[..j + 1][j] == b;
      if b.kind == ImageBlock && b.file.Some? {
        finalBlocks := finalBlocks + [b.(resourceId := Some(upload(b.file.value).id))];
      } else {
        if b.kind == ImageBlock && Truthy(b.resourceId) {
          NumberedSnoc(KeptImages(bs[..j]), ImageSrc(b.resourceId.value, b.previewUrl.GetOr([])));
          contentImages := contentImages + [ImageIn(b.resourceId.value, b.previewUrl.GetOr([]), Some(ImageAlt(|contentImages| + 1)))];
        }
        if b.kind == DownloadBlock && Truthy(b.url) {
          var dlId := if Truthy(b.resourceId) then b.resourceId.value else "dl-" + random(j);
          downloads := downloads + [DownloadIn(dlId, b.description, b.url)];
          finalBlocks := finalBlocks + [b.(resourceId := Some(dlId))];
        } else {
          finalBlocks := finalBlocks + [b];
        }
      }
    }
    assert bs[..|bs|] == bs;
  }

  /** The uploads answering, taken in block order: each pushes its record, numbered on from the list so far. */
  method UploadPass(bs: seq<Block>, upload: FileRef -> Uploaded, pushed: seq<ImageIn>) returns (contentImages: seq<ImageIn>)
    requires pushed == Numbered(KeptImages(bs))
    ensures contentImages == Numbered(KeptImages(bs) + UploadedImages(bs, upload))
  {
    contentImages := pushed;
    var kept := KeptImages(bs);
    assert kept + UploadedImages(bs[..0], upload) == kept;
    for j := 0 to |bs|
      invariant contentImages == Numbered(kept + UploadedImages(bs[..j], upload))
    {
      var b := bs[j];
      assert bs[..j + 1][..j] == bs[..j] && bs[..j + 1][j] == b;
      if b.kind == ImageBlock && b.file.Some? {
        var res := upload(b.file.value);
        assert kept + UploadedImages(bs[..j + 1], upload) == kept + UploadedImages(bs[..j], upload) + [ImageSrc(res.id, res.url)];
        NumberedSnoc(kept + UploadedImages(bs[..j], upload), ImageSrc(res.id, res.url));
        contentImages := contentImages + [ImageIn(res.id, res.url, Some(ImageAlt(|contentImages| + 1)))];
      } else {
        assert kept + UploadedImages(bs[..j + 1], upload) == kept + UploadedImages(bs[..j], upload);
      }
    }
    assert bs[..|bs|] == bs;
  }

  lemma {:induction false} LegacyFinalizedAt(bs: seq<Block>, upload: FileRef -> Uploaded, random: nat -> string, j: nat)
    requires j < |bs|
    ensures LegacyFinalized(bs, upload, random)[j] == LegacyFinalOf(bs[j], random(j), upload)
    decreases |bs|
  {
    if j < |bs| - 1 {
      assert bs[..|bs| - 1][j] == bs[j];
      LegacyFinalizedAt(bs[..|bs| - 1], upload, random, j);
    }
  }

  /** An image with a new file is named by the upload's id, and the upload's record is pushed. */
  lemma {:induction false} UploadRecorded(bs: seq<Block>, upload: FileRef -> Uploaded, random: nat -> string, j: nat)
    requires j < |bs| && IsUploadImage(bs[j])
    ensures var res := upload(bs[j].file.value);
      LegacyFinalized(bs, upload, random)[j].resourceId == Some(res.id) && ImageSrc(res.id, res.url) in UploadedImages(bs, upload)
    decreases |bs|
  {
    LegacyFinalizedAt(bs, upload, random, j);
    if j < |bs| - 1 {
      assert bs[..|bs| - 1][j] == bs[j];
      UploadRecorded(bs[..|bs| - 1], upload, random, j);
    }
  }

  /** A kept image keeps its id, and its record, with its preview as the source, is pushed. */
  lemma {:induction false} KeptRecorded(bs: seq<Block>, upload: FileRef -> Uploaded, random: nat -> string, j: nat)
    requires j < |bs| && IsKeptImage(bs[j])
    ensures LegacyFinalized(bs, upload, random)[j] == bs[j]
      && ImageSrc(bs[j].resourceId.value, bs[j].previewUrl.GetOr([])) in KeptImages(bs)
    decreases |bs|
  {
    LegacyFinalizedAt(bs, upload, random, j);
    if j < |bs| - 1 {
      assert bs[..|bs| - 1][j] == bs[j];
      KeptRecorded(bs[..|bs| - 1], upload, random, j);
    }
  }

  /** `blocks.filter((item, i) => i <= idx && item.type === kind).length`. */
  function CountKind(bs: seq<Block>, kind: BlockType): (n: nat)
    ensures n <= |bs|
  {
    if bs == [] then 0 else CountKind(bs[..|bs| - 1], kind) + if bs[|bs| - 1].kind == kind then 1 else 0
  }

  /** The preview's `图 n` / `资源 n` for the block at `idx`. */
  function PreviewNumber(bs: seq<Block>, idx: nat, kind: BlockType): nat
    requires idx < |bs|
  {
    CountKind(bs[..idx + 1], kind)
  }

  /** When every image is kept, the published list is one record per image block, in block order. */
  lemma {:induction false} KeptImagesAll(bs: seq<Block>)
    requires forall j :: 0 <= j < |bs| && bs[j].kind == ImageBlock ==> IsKeptImage(bs[j])
    ensures |KeptImages(bs)| == CountKind(bs, ImageBlock)
    ensures forall m :: 0 <= m <= |bs| ==> KeptImages(bs[..m]) <= KeptImages(bs)
  {
    if bs != [] {
      var init := bs[..|bs| - 1];
      KeptImagesAll(init);
      forall m | 0 <= m <= |bs| ensures KeptImages(bs[..m]) <= KeptImages(bs) {
        if m < |bs| {
          assert bs[..m] == init[..m];
        } else {
          assert bs[..m] == bs;
        }
      }
    }
  }

  /**
   * When no image block has a new file and every one has an id, the preview's `图 n` for an
   * image block is the number its record is published under.
   */
  lemma PreviewMatchesPublished(bs: seq<Block>, upload: FileRef -> Uploaded, idx: nat)
    requires forall j :: 0 <= j < |bs| && bs[j].kind == ImageBlock ==> IsKeptImage(bs[j])
    requires idx < |bs| && IsKeptImage(bs[idx])
    ensures var imgs := Numbered(KeptImages(bs) + UploadedImages(bs, upload)); var n := PreviewNumber(bs, idx, ImageBlock);
      1 <= n <= |imgs| && imgs[n - 1] == ImageIn(bs[idx].resourceId.value, bs[idx].previewUrl.GetOr([]), Some(ImageAlt(n)))
  {
    var upto := bs[..idx + 1];
    assert upto[..idx] == bs[..idx];
    KeptImagesAll(bs);
    KeptImagesAll(upto);
    var all := KeptImages(bs) + UploadedImages(bs, upload);
    var n := PreviewNumber(bs, idx, ImageBlock);
    assert KeptImages(upto) <= KeptImages(bs);
    assert KeptImages(upto)[n - 1] == ImageSrc(bs[idx].resourceId.value, bs[idx].previewUrl.GetOr([]));
    assert all[n - 1] == KeptImages(upto)[n - 1];
  }

  /** A new upload ahead of a kept image: the preview shows the kept image as `图 2`, the post names it `插图 1`. */
  lemma PreviewNumberDiverges(upload: FileRef -> Uploaded, random: nat -> string)
    ensures var bs := [Block(1, ImageBlock, [], false, None, None, Some("blob"), Some(FileRef(0)), None),
                       Block(2, ImageBlock, "a.png", false, None, None, Some("a.png"), None, Some("a"))];
      PreviewNumber(bs, 1, ImageBlock) == 2
      && Numbered(KeptImages(bs) + UploadedImages(bs, upload))[0] == ImageIn("a", "a.png", Some(ImageAlt(1)))
  {
    var bs := [Block(1, ImageBlock, [], false, None, None, Some("blob"), Some(FileRef(0)), None),
               Block(2, ImageBlock, "a.png", false, None, None, Some("a.png"), None, Some("a"))];
    assert bs[..1] == [bs[0]] && bs[..1][..0] == [];
    assert bs[..2] == bs;
  }

  /** The record an image block is published with: the upload's answer, or its own id and preview. */
  function ImageRecordOf(b: Block, upload: FileRef -> Uploaded): ImageSrc
    requires IsUploadImage(b) || IsKeptImage(b)
  {
    if IsUploadImage(b) then ImageSrc(upload(b.file.value).id, upload(b.file.value).url)
    else ImageSrc(b.resourceId.value, b.previewUrl.GetOr([]))
  }

  /**
   * The image records numbered in block order, uploads and kept images alike: the numbering
   * the preview's `图 n` promises to share with the published post.
   */
  function BlockOrderImages(bs: seq<Block>, upload: FileRef -> Uploaded): seq<ImageSrc> {
    if bs == [] then []
    else
      var b := bs[|bs| - 1];
      BlockOrderImages(bs[..|bs| - 1], upload) + if IsUploadImage(b) || IsKeptImage(b) then [ImageRecordOf(b, upload)] else []
  }

  /** When every image block is published, block order gives one record per image block, and shorter lists are prefixes. */
  lemma {:induction false} BlockOrderImagesAll(bs: seq<Block>, upload: FileRef -> Uploaded)
    requires forall j :: 0 <= j < |bs| && bs[j].kind == ImageBlock ==> IsUploadImage(bs[j]) || IsKeptImage(bs[j])
    ensures |BlockOrderImages(bs, upload)| == CountKind(bs, ImageBlock)
    ensures forall m :: 0 <= m <= |bs| ==> BlockOrderImages(bs[..m], upload) <= BlockOrderImages(bs, upload)
  {
    if bs != [] {
      var init := bs[..|bs| - 1];
      BlockOrderImagesAll(init, upload);
      forall m | 0 <= m <= |bs| ensures BlockOrderImages(bs[..m], upload) <= BlockOrderImages(bs, upload) {
        if m < |bs| {
          assert bs[..m] == init[..m];
        } else {
          assert bs[..m] == bs;
        }
      }
    }
  }

  /**
   * Numbered in block order, every image block, uploaded or kept, is published under the
   * number the preview shows for it.
   */
  lemma CorrectedPreviewMatches(bs: seq<Block>, upload: FileRef -> Uploaded, idx: nat)
    requires forall j :: 0 <= j < |bs| && bs[j].kind == ImageBlock ==> IsUploadImage(bs[j]) || IsKeptImage(bs[j])
    requires idx < |bs| && bs[idx].kind == ImageBlock
    ensures var imgs := Numbered(BlockOrderImages(bs, upload)); var n := PreviewNumber(bs, idx, ImageBlock);
      var rec := ImageRecordOf(bs[idx], upload);
      1 <= n <= |imgs| && imgs[n - 1] == ImageIn(rec.id, rec.src, Some(ImageAlt(n)))
  {
    var upto := bs[..idx + 1];
    assert upto[..idx] == bs[..idx];
    BlockOrderImagesAll(bs, upload);
    BlockOrderImagesAll(upto, upload);
    var n := PreviewNumber(bs, idx, ImageBlock);
    assert BlockOrderImages(upto, upload) <= BlockOrderImages(bs, upload);
    assert BlockOrderImages(upto, upload)[n - 1] == ImageRecordOf(bs[idx], upload);
  }

  /** Finalising a block keeps it placeholder-safe. */
  lemma LegacyFinalOfSafe(b: Block, suffix: string, upload: FileRef -> Uploaded)
    requires Found(b.content) == [] && (Truthy(b.resourceId) ==> IsId(b.resourceId.value))
    requires forall f :: IsId(upload(f).id)
    requires IsId(suffix)
    ensures var f := LegacyFinalOf(b, suffix, upload); Found(f.content) == [] && (Truthy(f.resourceId) ==> IsId(f.resourceId.value))
  {
    assert forall i :: 3 <= i < |"dl-" + suffix| ==> ("dl-" + suffix)[i] == suffix[i - 3];
  }

  /** With ids the endpoint and the random suffixes keep placeholder-safe, the body names exactly the finalised images and downloads. */
  lemma LegacyPublishedPlaceholders(bs: seq<Block>, upload: FileRef -> Uploaded, random: nat -> string)
    requires Serializable(bs)
    requires forall f :: IsId(upload(f).id)
    requires forall j: nat :: IsId(random(j))
    ensures Found(Serialize(LegacyFinalized(bs, upload, random))) == Emitted(LegacyFinalized(bs, upload, random))
  {
    var fs := LegacyFinalized(bs, upload, random);
    forall j | 0 <= j < |fs| ensures Found(fs[j].content) == [] && (Truthy(fs[j].resourceId) ==> IsId(fs[j].resourceId.value)) {
      LegacyFinalizedAt(bs, upload, random, j);
      LegacyFinalOfSafe(bs[j], random(j), upload);
    }
    SerializeFound(fs);
  }

  /** The `PostRequest` argument `handleFinalPublish` builds. */
  function LegacyInput(title: string, category: string, tags: seq<string>, coverFile: Option<FileRef>, coverPreview: string,
                       bs: seq<Block>, upload: FileRef -> Uploaded, random: nat -> string): Input {
    Input(Some(title), Some(Serialize(LegacyFinalized(bs, upload, random))), Some(Excerpt(bs)), Some(category), Some(tags),
          CoverData(coverFile, coverPreview, title, upload),
          Some(Numbered(KeptImages(bs) + UploadedImages(bs, upload))), Some(LegacyDownloads(bs, random)), None)
  }

  // ---------------------------------------------------------------------------------------
  // The component's state

  /**
   * A loaded body is empty exactly when it is whitespace but not empty, and every block carries
   * the fields the component reads.
   */
  lemma BodyLoadable(p: StoredPost, clock: nat -> int)
    ensures var body := MdParserJs.ParseJs(p.content, p.images, p.downloads, clock);
      && (body == [] <==> p.content != [] && IsBlank(p.content))
      && forall b :: b in body ==> FieldsPresent(b)
  {
    MdParserJs.ParseJsEmptyIff(p.content, p.images, p.downloads, clock);
    if p.content != [] {
      MdParserJs.ParseJsBlocks(p.content, p.images, p.downloads, clock);
    }
  }

  class LegacyEditor {
    var step: int
    var mode: Mode
    var title: string
    var category: string
    var tags: seq<string>
    var coverFile: Option<FileRef>
    var coverPreview: string
    var blocks: seq<Block>
    var allCategories: seq<string>
    var isSelectOpen: bool

    /** One of the three steps, and no block missing a field the component reads. */
    predicate Valid()
      reads this
    {
      && 1 <= step <= 3
      && forall b :: b in blocks ==> FieldsPresent(b)
    }

    predicate IsMetaDone()
      reads this
    {
      !IsBlank(title) && category != []
    }

    predicate IsCoverDone()
      reads this
    {
      coverPreview != []
    }

    predicate IsContentDone()
      reads this
    {
      ContentDone(blocks)
    }

    constructor(now: int)
      ensures Valid() && step == 1 && mode == Edit && title == [] && category == [] && tags == []
      ensures coverFile == None && coverPreview == [] && blocks == [EmptyTextBlock(now)]
      ensures allCategories == [] && !isSelectOpen
    {
      step, mode, title, category, tags := 1, Edit, [], [], [];
      coverFile, coverPreview := None, [];
      blocks := [EmptyTextBlock(now)];
      allCategories, isSelectOpen := [], false;
    }

    method Reset(now: int)
      modifies this
      ensures Valid() && step == 1 && mode == Edit && title == [] && category == [] && tags == []
      ensures coverFile == None && coverPreview == [] && blocks == [EmptyTextBlock(now)]
      ensures allCategories == old(allCategories) && isSelectOpen == old(isSelectOpen)
    {
      title, category, tags, step, mode := [], [], [], 1, Edit;
      coverFile, coverPreview := None, [];
      blocks := [EmptyTextBlock(now)];
    }

    /** `fetchMetadata`: the category ids, when the request succeeds. */
    method LoadCategories(ids: Option<seq<string>>)
      modifies this`allCategories
      ensures allCategories == if ids.Some? then ids.value else old(allCategories)
    {
      if ids.Some? {
        allCategories := ids.value;
      }
    }

    /**
     * `loadExistingPost`: the post's fields, its cover as the preview, and its body parsed back
     * into blocks (`clock(j)` is the reading for piece `j`), by `parseMDToBlocks` as written, so a
     * body of only whitespace leaves no block. A missing post throws, and nothing changes.
     */
    method LoadPost(post: Option<StoredPost>, clock: nat -> int)
      requires Valid()
      modifies this
      ensures Valid()
      ensures post.None? ==>
                title == old(title) && category == old(category) && tags == old(tags)
                && coverFile == old(coverFile) && coverPreview == old(coverPreview) && blocks == old(blocks)
      ensures post.Some? ==>
                title == post.value.title && category == post.value.category && tags == post.value.tags
                && coverFile == None && coverPreview == OrElse(post.value.coverSrc, "")
                && blocks == MdParserJs.ParseJs(post.value.content, post.value.images, post.value.downloads, clock)
                && (blocks == [] <==> post.value.content != [] && IsBlank(post.value.content))
      ensures step == old(step) && mode == old(mode) && allCategories == old(allCategories) && isSelectOpen == old(isSelectOpen)
    {
      if post.Some? {
        var p := post.value;
        var body := MdParserJs.ParseJs(p.content, p.images, p.downloads, clock);
        BodyLoadable(p, clock);
        title, category, tags := p.title, p.category, p.tags;
        coverFile, coverPreview := None, OrElse(p.coverSrc, "");
        blocks := body;
      }
    }

    /** `insertBlock`: a fresh block with empty text fields right after position `index`. */
    method InsertBlock(index: int, kind: BlockType, now: int)
      requires Valid()
      modifies this`blocks
      ensures Valid() && blocks == SpliceIn(old(blocks), index + 1, NewLegacyBlock(kind, now))
    {
      var p := SpliceStart(|blocks|, index + 1);
      blocks := SpliceIn(blocks, index + 1, NewLegacyBlock(kind, now));
      assert blocks == old(blocks)[..p] + [NewLegacyBlock(kind, now)] + old(blocks)[p..];
    }

    /** `moveBlock`: swap with the neighbour in the direction, or nothing at either end. */
    method MoveBlock(index: nat, dir: Direction)
      requires Valid() && index < |blocks|
      modifies this`blocks
      ensures Valid() && blocks == Move(old(blocks), index, dir)
    {
      blocks := Move(blocks, index, dir);
      assert forall b :: b in blocks ==> b in multiset(old(blocks));
    }

    /** `updateBlock`. */
    method UpdateBlock(id: int, f: Field, v: string)
      requires Valid()
      modifies this`blocks
      ensures Valid() && blocks == MapId(old(blocks), id, b => LegacyUpdated(b, f, v))
      ensures forall j :: 0 <= j < |blocks| ==> blocks[j].id == old(blocks)[j].id && blocks[j].kind == old(blocks)[j].kind
    {
      var g := b => LegacyUpdated(b, f, v);
      blocks := MapId(blocks, id, g);
      forall b | b in blocks ensures FieldsPresent(b) {
        var j :| 0 <= j < |blocks| && blocks[j] == b;
        assert old(blocks)[j] in old(blocks);
        LegacyUpdatedFacts(old(blocks)[j], f, v);
      }
      forall j | 0 <= j < |blocks| ensures blocks[j].id == old(blocks)[j].id && blocks[j].kind == old(blocks)[j].kind {
        LegacyUpdatedFacts(old(blocks)[j], f, v);
      }
    }

    /** `handleImageSelect`: with a file, the block with the id gets it and its object URL. */
    method HandleImageSelect(blockId: int, file: Option<FileRef>, objectUrl: string)
      requires Valid()
      modifies this`blocks
      ensures Valid()
      ensures file.None? ==> blocks == old(blocks)
      ensures file.Some? ==> blocks == MapId(old(blocks), blockId, b => WithFile(b, file.value, objectUrl))
    {
      if file.Some? {
        blocks := MapId(blocks, blockId, b => WithFile(b, file.value, objectUrl));
        forall b | b in blocks ensures FieldsPresent(b) {
          var j :| 0 <= j < |blocks| && blocks[j] == b;
          assert old(blocks)[j] in old(blocks);
        }
      }
    }

    /** `removeBlock`: drop the blocks with the id, falling back to one empty text block. */
    method RemoveBlock(id: int, now: int)
      requires Valid()
      modifies this`blocks
      ensures Valid() && blocks == Remove(old(blocks), id, now)
    {
      blocks := Remove(blocks, id, now);
    }

    /** The tag input on Enter: the trimmed value (even an empty one) joins the list, which the `Set` dedupes. */
    method TagEnter(input: string)
      modifies this`tags
      ensures tags == Dedup(old(tags) + [Trim(input)])
      ensures Distinct(tags)
      ensures Distinct(old(tags)) ==> tags == if Trim(input) in old(tags) then old(tags) else old(tags) + [Trim(input)]
    {
      tags := Dedup(tags + [Trim(input)]);
      DedupFacts(old(tags) + [Trim(input)]);
      if Distinct(old(tags)) {
        AddTag(old(tags), Trim(input));
      }
    }

    /** The new-category input on Enter: the raw value becomes the category and the list closes; the list of categories is not extended. */
    method CategoryEnter(input: string)
      modifies this`category, this`isSelectOpen
      ensures category == input && !isSelectOpen
    {
      category := input;
      isSelectOpen := false;
    }

    /** Picking a listed category selects it and closes the list. */
    method PickCategory(c: string)
      modifies this`category, this`isSelectOpen
      ensures category == c && !isSelectOpen
    {
      category := c;
      isSelectOpen := false;
    }

    /** The previous-step button: never below step 1. */
    method StepBack()
      requires Valid()
      modifies this`step
      ensures Valid() && step == if old(step) > 1 then old(step) - 1 else 1
    {
      step := if step - 1 > 1 then step - 1 else 1;
    }

    /** The next-step button: never beyond step 3. */
    method StepNext()
      requires Valid()
      modifies this`step
      ensures Valid() && step == if old(step) < 3 then old(step) + 1 else 3
    {
      step := if step + 1 < 3 then step + 1 else 3;
    }

    /**
     * `handleFinalPublish` up to the request: the first unfinished step is shown and nothing is
     * sent; otherwise the cover, the finalised blocks and their records, the body and the excerpt.
     */
    method Publish(upload: FileRef -> Uploaded, random: nat -> string) returns (request: Option<PostRequest>)
      requires Valid()
      modifies this`step
      ensures Valid()
      ensures !IsMetaDone() ==> request == None && step == 1
      ensures IsMetaDone() && !IsCoverDone() ==> request == None && step == 2
      ensures IsMetaDone() && IsCoverDone() && !IsContentDone() ==> request == None && step == 3
      ensures IsMetaDone() && IsCoverDone() && IsContentDone() ==>
                step == old(step)
                && request == Some(NewPostRequest(LegacyInput(title, category, tags, coverFile, coverPreview, blocks, upload, random)))
    {
      if !IsMetaDone() {
        step := 1;
        return None;
      }
      if !IsCoverDone() {
        step := 2;
        return None;
      }
      if !IsContentDone() {
        step := 3;
        return None;
      }
      var coverData := if coverPreview != [] then Some(CoverIn(Some(coverPreview), Some(title))) else None;
      if coverFile.Some? {
        var res := upload(coverFile.value);
        coverData := Some(CoverIn(Some(res.url), Some(title)));
      }
      var finalBlocks, keptImages, downloads := SyncPass(blocks, upload, random);
      var contentImages := UploadPass(blocks, upload, keptImages);
      var mdContent := Serialize(finalBlocks);
      var input := Input(Some(title), Some(mdContent), Some(Excerpt(blocks)), Some(category), Some(tags),
                         coverData, Some(contentImages), Some(downloads), None);
      request := Some(NewPostRequest(input));
    }
  }
}
