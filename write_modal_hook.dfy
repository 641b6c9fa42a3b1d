/**
 * `useWriteModal`, the state behind the post editor: title, category, tags, cover and the
 * block list, the handlers that edit them, the step checks, and publishing, which uploads the
 * chosen files, gives every download an id, serialises the blocks to markdown with
 * placeholders and builds the `PostRequest`. The block list is never empty.
 *
 * The clock (`Date.now()`), `URL.createObjectURL`, the upload endpoint and the auth token are
 * parameters.
 */
module WriteModalHook {
  import opened Wrappers
  import opened Text
  import opened Placeholders
  import opened Blocks
  import opened PostRequests
  import MdParser
  import CR = ContentRenderer

  datatype Mode = Edit | Preview

  /** A post as `getPostById` returns it, with the fields the editor reads. */
  datatype StoredPost = StoredPost(
    title: string,
    category: string,
    tags: seq<string>,
    coverSrc: Option<string>,
    content: string,
    images: seq<CR.ImageRecord>,
    downloads: seq<CR.DownloadRecord>)

  /** What the upload endpoint answers for a file. */
  datatype Uploaded = Uploaded(id: string, url: string)

  /** The block `insertBlock` creates. */
  function NewBlock(kind: BlockType, now: int): Block {
    Block(now, kind, [], false, Some([]), Some([]), None, None, None)
  }

  /** `{ ...b, [field]: value, invalid: ... }`: the flag survives only a blank url edit. */
  function Updated(b: Block, f: Field, v: string): Block {
    SetField(b, f, v).(invalid := if f == UrlField && IsBlank(v) then b.invalid else false)
  }

  /** The update sets the field, keeps the id, and leaves the flag set only for a blank url on a flagged block. */
  lemma UpdatedFacts(b: Block, f: Field, v: string)
    ensures var u := Updated(b, f, v);
      && u.id == b.id && u.kind == b.kind && u.resourceId == b.resourceId && u.file == b.file
      && (f == ContentField ==> u.content == v)
      && (f == DescriptionField ==> u.description == Some(v))
      && (f == UrlField ==> u.url == Some(v))
      && (f == PreviewUrlField ==> u.previewUrl == Some(v))
      && (u.invalid <==> b.invalid && f == UrlField && IsBlank(v))
  {
  }

  /** Repeating an update changes nothing more. */
  lemma UpdateIdempotent(bs: seq<Block>, id: int, f: Field, v: string)
    ensures var g := b => Updated(b, f, v); MapId(MapId(bs, id, g), id, g) == MapId(bs, id, g)
  {
    var g := b => Updated(b, f, v);
    var once := MapId(bs, id, g);
    var twice := MapId(once, id, g);
    forall j | 0 <= j < |bs| ensures twice[j] == once[j] {
      if bs[j].id == id {
        UpdatedFacts(bs[j], f, v);
      }
    }
  }

  // ---------------------------------------------------------------------------------------
  // Step checks

  /** `isContentDone` for one block. */
  predicate BlockDone(b: Block) {
    || (b.kind == TextBlock && !IsBlank(b.content))
    || (b.kind == HeadingBlock && !IsBlank(b.content))
    || (b.kind == ImageBlock && (Truthy(b.previewUrl) || b.file.Some?))
    || (b.kind == DownloadBlock && Truthy(b.url) && !IsBlank(b.url.value))
  }

  predicate ContentDone(bs: seq<Block>) {
    exists j :: 0 <= j < |bs| && BlockDone(bs[j])
  }

  /** A fresh or reset list is not done; typing visible text into a text or heading block makes it done. */
  lemma ContentDoneFacts(bs: seq<Block>, id: int, v: string, now: int)
    ensures !ContentDone([EmptyTextBlock(now)])
    ensures (exists j :: 0 <= j < |bs| && bs[j].id == id && (bs[j].kind == TextBlock || bs[j].kind == HeadingBlock)) && !IsBlank(v)
      ==> ContentDone(MapId(bs, id, b => Updated(b, ContentField, v)))
  {
    EmptyNotDone(now);
    if (exists j :: 0 <= j < |bs| && bs[j].id == id && (bs[j].kind == TextBlock || bs[j].kind == HeadingBlock)) && !IsBlank(v) {
      var j :| 0 <= j < |bs| && bs[j].id == id && (bs[j].kind == TextBlock || bs[j].kind == HeadingBlock);
      TypedDone(bs, id, v, j);
    }
  }

  lemma EmptyNotDone(now: int)
    ensures !ContentDone([EmptyTextBlock(now)])
  {
    var e := EmptyTextBlock(now);
    assert IsBlank(e.content) by { BlankIffAllSpace(e.content); }
    assert !BlockDone(e);
    assert forall j :: 0 <= j < |[e]| ==> [e][j] == e;
  }

  lemma TypedDone(bs: seq<Block>, id: int, v: string, j: nat)
    requires j < |bs| && bs[j].id == id && (bs[j].kind == TextBlock || bs[j].kind == HeadingBlock) && !IsBlank(v)
    ensures ContentDone(MapId(bs, id, b => Updated(b, ContentField, v)))
  {
    var r := MapId(bs, id, b => Updated(b, ContentField, v));
    UpdatedFacts(bs[j], ContentField, v);
    assert r[j] == Updated(bs[j], ContentField, v);
    assert BlockDone(r[j]);
  }

  // ---------------------------------------------------------------------------------------
  // Publishing

  /** `dl_${Date.now()}`. */
  function StampId(stamp: nat): string {
    "dl_" + Decimal(stamp)
  }

  /** The id a download gets: its own when truthy, otherwise a fresh stamp. */
  function DownloadIdOf(b: Block, stamp: nat): string {
    if Truthy(b.resourceId) then b.resourceId.value else StampId(stamp)
  }

  /** The `Promise.all` callback's result for block `j`. */
  function FinalOf(b: Block, stamp: nat, upload: FileRef -> Uploaded): Block {
    if b.kind == ImageBlock && b.file.Some? then b.(resourceId := Some(upload(b.file.value).id))
    else if b.kind == DownloadBlock && Truthy(b.url) then b.(resourceId := Some(DownloadIdOf(b, stamp)))
    else b
  }

  /** The records the callback for a block pushes. */
  function ImagesPushed(b: Block, upload: FileRef -> Uploaded): seq<ImageIn> {
    if b.kind == ImageBlock && b.file.Some? then [ImageIn(upload(b.file.value).id, upload(b.file.value).url, Some("插图"))] else []
  }

  function DownloadsPushed(b: Block, stamp: nat): seq<DownloadIn> {
    if b.kind != ImageBlock || b.file.None? then
      if b.kind == DownloadBlock && Truthy(b.url) then [DownloadIn(DownloadIdOf(b, stamp), b.description, b.url)] else []
    else []
  }

  function Finalized(bs: seq<Block>, upload: FileRef -> Uploaded, clock: nat -> nat): (r: seq<Block>)
    ensures |r| == |bs|
  {
    if bs == [] then [] else Finalized(bs[..|bs| - 1], upload, clock) + [FinalOf(bs[|bs| - 1], clock(|bs| - 1), upload)]
  }

  function NewImages(bs: seq<Block>, upload: FileRef -> Uploaded): seq<ImageIn> {
    if bs == [] then [] else NewImages(bs[..|bs| - 1], upload) + ImagesPushed(bs[|bs| - 1], upload)
  }

  function NewDownloads(bs: seq<Block>, clock: nat -> nat): seq<DownloadIn> {
    if bs == [] then [] else NewDownloads(bs[..|bs| - 1], clock) + DownloadsPushed(bs[|bs| - 1], clock(|bs| - 1))
  }

  /**
   * The `Promise.all(blocks.map(...))` pass: `clock(j)` is the clock reading while block `j`'s
   * callback runs. Records are pushed in block order.
   */
  method FinalizeBlocks(bs: seq<Block>, upload: FileRef -> Uploaded, clock: nat -> nat)
    returns (finalBlocks: seq<Block>, contentImages: seq<ImageIn>, downloads: seq<DownloadIn>)
    ensures finalBlocks == Finalized(bs, upload, clock)
    ensures contentImages == NewImages(bs, upload)
    ensures downloads == NewDownloads(bs, clock)
  {
    finalBlocks, contentImages, downloads := [], [], [];
    for j := 0 to |bs|
      invariant finalBlocks == Finalized(bs[..j], upload, clock)
      invariant contentImages == NewImages(bs[..j], upload)
      invariant downloads == NewDownloads(bs[..j], clock)
    {
      var b := bs[j];
      assert bs[..j + 1][..j] == bs[..j] && bs[..j + 1][j] == b;
      if b.kind == ImageBlock && b.file.Some? {
        var res := upload(b.file.value);
        contentImages := contentImages + [ImageIn(res.id, res.url, Some("插图"))];
        finalBlocks := finalBlocks + [b.(resourceId := Some(res.id))];
      } else if b.kind == DownloadBlock && Truthy(b.url) {
        var dlId := if Truthy(b.resourceId) then b.resourceId.value else "dl_" + Decimal(clock(j));
        downloads := downloads + [DownloadIn(dlId, b.description, b.url)];
        finalBlocks := finalBlocks + [b.(resourceId := Some(dlId))];
      } else {
        finalBlocks := finalBlocks + [b];
      }
    }
    assert bs[..|bs|] == bs;
  }

  /** Finalising changes only `resourceId`: uploaded images get the upload's id, linked downloads their id. */
  lemma {:induction false} FinalizedAt(bs: seq<Block>, upload: FileRef -> Uploaded, clock: nat -> nat, j: nat)
    requires j < |bs|
    ensures Finalized(bs, upload, clock)[j] == FinalOf(bs[j], clock(j), upload)
    decreases |bs|
  {
    if j < |bs| - 1 {
      assert bs[..|bs| - 1][j] == bs[j];
      FinalizedAt(bs[..|bs| - 1], upload, clock, j);
    }
  }

  /** Every linked download of the finalised list is recorded under the id its placeholder carries. */
  lemma {:induction false} DownloadsRecorded(bs: seq<Block>, upload: FileRef -> Uploaded, clock: nat -> nat, j: nat)
    requires j < |bs| && bs[j].kind == DownloadBlock && Truthy(bs[j].url)
    ensures var f := Finalized(bs, upload, clock)[j];
      f.resourceId.Some? && f.resourceId.value != [] &&
      DownloadIn(f.resourceId.value, bs[j].description, bs[j].url) in NewDownloads(bs, clock)
    decreases |bs|
  {
    FinalizedAt(bs, upload, clock, j);
    if j < |bs| - 1 {
      assert bs[..|bs| - 1][j] == bs[j];
      DownloadsRecorded(bs[..|bs| - 1], upload, clock, j);
      FinalizedAt(bs[..|bs| - 1], upload, clock, j);
    }
  }

  /** Every image with a chosen file is recorded under the id its placeholder carries. */
  lemma {:induction false} ImagesRecorded(bs: seq<Block>, upload: FileRef -> Uploaded, clock: nat -> nat, j: nat)
    requires j < |bs| && bs[j].kind == ImageBlock && bs[j].file.Some?
    ensures var f := Finalized(bs, upload, clock)[j]; var res := upload(bs[j].file.value);
      f.resourceId == Some(res.id) && ImageIn(res.id, res.url, Some("插图")) in NewImages(bs, upload)
    decreases |bs|
  {
    FinalizedAt(bs, upload, clock, j);
    if j < |bs| - 1 {
      assert bs[..|bs| - 1][j] == bs[j];
      ImagesRecorded(bs[..|bs| - 1], upload, clock, j);
    }
  }

  /** Stamped ids are placeholder ids. */
  lemma StampIdIsId(stamp: nat)
    ensures IsId(StampId(stamp))
  {
    var d := Decimal(stamp);
    assert forall i :: 0 <= i < |d| ==> IsIdChar(d[i]);
  }

  /** Finalising a block keeps it placeholder-safe. */
  lemma FinalOfSafe(b: Block, stamp: nat, upload: FileRef -> Uploaded)
    requires Found(b.content) == [] && (Truthy(b.resourceId) ==> IsId(b.resourceId.value))
    requires forall f :: IsId(upload(f).id)
    ensures var f := FinalOf(b, stamp, upload); Found(f.content) == [] && (Truthy(f.resourceId) ==> IsId(f.resourceId.value))
  {
    StampIdIsId(stamp);
  }

  /**
   * With block text free of placeholder syntax and placeholder-safe ids from the upload endpoint
   * and the loaded post, scanning the published body finds exactly the images and downloads of
   * the finalised blocks, in block order.
   */
  lemma PublishedPlaceholders(bs: seq<Block>, upload: FileRef -> Uploaded, clock: nat -> nat)
    requires Serializable(bs)
    requires forall f :: IsId(upload(f).id)
    ensures Found(Serialize(Finalized(bs, upload, clock))) == Emitted(Finalized(bs, upload, clock))
  {
    var fs := Finalized(bs, upload, clock);
    forall j | 0 <= j < |fs| ensures Found(fs[j].content) == [] && (Truthy(fs[j].resourceId) ==> IsId(fs[j].resourceId.value)) {
      FinalizedAt(bs, upload, clock, j);
      FinalOfSafe(bs[j], clock(j), upload);
    }
    SerializeFound(fs);
  }

  /** The cover the request carries: the uploaded file's url, else the preview, else none. */
  function CoverData(coverFile: Option<FileRef>, coverPreview: string, title: string, upload: FileRef -> Uploaded): Option<CoverIn> {
    if coverFile.Some? then Some(CoverIn(Some(upload(coverFile.value).url), Some(title)))
    else if coverPreview != [] then Some(CoverIn(Some(coverPreview), Some(title)))
    else None
  }

  /** The `PostRequest` argument `handleFinalPublish` builds. */
  function PublishInput(title: string, category: string, tags: seq<string>, coverFile: Option<FileRef>, coverPreview: string,
                        bs: seq<Block>, upload: FileRef -> Uploaded, clock: nat -> nat): Input {
    Input(Some(title), Some(Serialize(Finalized(bs, upload, clock))), Some(Excerpt(bs)), Some(category), Some(tags),
          CoverData(coverFile, coverPreview, title, upload), Some(NewImages(bs, upload)), Some(NewDownloads(bs, clock)), None)
  }

  /**
   * The body of a loaded post as blocks, by `parseMDToBlocks`: one empty text block for a blank
   * body without records, otherwise the blocks its split into text and placeholders expands to
   * (one empty text block when none); never empty, restoring the placeholders, each resolved
   * against the records.
   */
  method LoadBody(p: StoredPost, now: int, later: int) returns (blocks: seq<Block>, ghost nodes: seq<CR.Node>)
    ensures IsBlank(p.content) && p.images == [] && p.downloads == [] ==> blocks == [EmptyTextBlock(now)]
    ensures !(IsBlank(p.content) && p.images == [] && p.downloads == []) ==>
      && CR.Rejoin(nodes) == p.content && CR.Slots(nodes) == Found(p.content)
      && CR.NoEmptyText(nodes) && CR.NoAdjacentText(nodes)
      && blocks == (if MdParser.Expand(nodes, p.images, p.downloads, now) == [] then [EmptyTextBlock(later)]
                    else MdParser.Expand(nodes, p.images, p.downloads, now))
    ensures MdParser.ParsedAs(p.content, p.images, p.downloads, now, later, blocks)
    ensures blocks != []
    ensures blocks == [EmptyTextBlock(later)] || forall j :: 0 <= j < |blocks| ==> blocks[j].id == now + j
    ensures MdParser.Restored(blocks) == Found(p.content)
    ensures forall j :: 0 <= j < |blocks| ==> MdParser.Resolved(blocks[j], p.images, p.downloads)
  {
    blocks, nodes := MdParser.ParseBlocks(p.content, p.images, p.downloads, now, later);
  }

  // ---------------------------------------------------------------------------------------
  // The hook's state

  class Editor {
    var step: int
    var mode: Mode
    var title: string
    var category: string
    var tags: seq<string>
    var coverFile: Option<FileRef>
    var coverPreview: string
    var blocks: seq<Block>
    var allCategories: seq<string>
    var isSelectOpen: bool

    /** The editor always shows at least one block. */
    predicate Valid()
      reads this
    {
      blocks != []
    }

    /** `isMetaDone`. */
    predicate IsMetaDone()
      reads this
    {
      !IsBlank(title) && category != []
    }

    /** `isCoverDone`. */
    predicate IsCoverDone()
      reads this
    {
      coverPreview != []
    }

    /** `isContentDone`. */
    predicate IsContentDone()
      reads this
    {
      ContentDone(blocks)
    }

    /** The initial state: step 1, nothing entered, one empty text block. */
    constructor(now: int)
      ensures Valid() && step == 1 && mode == Edit && title == [] && category == [] && tags == []
      ensures coverFile == None && coverPreview == [] && blocks == [EmptyTextBlock(now)]
      ensures allCategories == [] && !isSelectOpen
    {
      step, mode, title, category, tags := 1, Edit, [], [], [];
      coverFile, coverPreview := None, [];
      blocks := [EmptyTextBlock(now)];
      allCategories, isSelectOpen := [], false;
    }

    /** `resetState`: back to an empty draft; the category list and the dropdown are kept. */
    method Reset(now: int)
      modifies this
      ensures Valid() && step == 1 && mode == Edit && title == [] && category == [] && tags == []
      ensures coverFile == None && coverPreview == [] && blocks == [EmptyTextBlock(now)]
      ensures allCategories == old(allCategories) && isSelectOpen == old(isSelectOpen)
    {
      title, category, tags, step, mode := [], [], [], 1, Edit;
      coverFile, coverPreview := None, [];
      blocks := [EmptyTextBlock(now)];
    }

    /** `fetchMetadata`: the category ids, when the request succeeds. */
    method LoadCategories(ids: Option<seq<string>>)
      modifies this`allCategories
      ensures allCategories == if ids.Some? then ids.value else old(allCategories)
    {
      if ids.Some? {
        allCategories := ids.value;
      }
    }

    /**
     * `loadExistingPost`: the post's fields, its cover as the preview, and its body parsed back
     * into blocks (the sanitising map leaves the parsed blocks as they are). Without a post the
     * failing property read is caught and nothing changes.
     */
    method LoadPost(post: Option<StoredPost>, now: int, later: int)
      requires Valid()
      modifies this
      ensures Valid()
      ensures post.None? ==>
                title == old(title) && category == old(category) && tags == old(tags)
                && coverFile == old(coverFile) && coverPreview == old(coverPreview) && blocks == old(blocks)
      ensures post.Some? ==>
                title == post.value.title && category == post.value.category && tags == post.value.tags
                && coverFile == None && coverPreview == OrElse(post.value.coverSrc, "")
                && MdParser.ParsedAs(post.value.content, post.value.images, post.value.downloads, now, later, blocks)
                && (blocks == [EmptyTextBlock(later)] || forall j :: 0 <= j < |blocks| ==> blocks[j].id == now + j)
                && MdParser.Restored(blocks) == Found(post.value.content)
                && forall j :: 0 <= j < |blocks| ==> MdParser.Resolved(blocks[j], post.value.images, post.value.downloads)
      ensures step == old(step) && mode == old(mode) && allCategories == old(allCategories) && isSelectOpen == old(isSelectOpen)
    {
      if post.Some? {
        var p := post.value;
        var body;
        ghost var nodes;
        body, nodes := LoadBody(p, now, later);
        title, category, tags := p.title, p.category, p.tags;
        coverFile, coverPreview := None, OrElse(p.coverSrc, "");
        blocks := body;
      }
    }

    /** `insertBlock`: a fresh empty block right after position `index`. */
    method InsertBlock(index: int, kind: BlockType, now: int)
      requires Valid()
      modifies this`blocks
      ensures Valid() && blocks == SpliceIn(old(blocks), index + 1, NewBlock(kind, now))
      ensures 0 <= index < |old(blocks)| ==>
                blocks[index + 1] == NewBlock(kind, now)
                && blocks[..index + 1] == old(blocks)[..index + 1] && blocks[index + 2..] == old(blocks)[index + 1..]
    {
      blocks := SpliceIn(blocks, index + 1, NewBlock(kind, now));
      if 0 <= index < |old(blocks)| {
        SpliceAfter(old(blocks), index, NewBlock(kind, now));
      }
    }

    /** `moveBlock`: swap with the neighbour in the direction, or nothing at either end. */
    method MoveBlock(index: nat, dir: Direction)
      requires Valid() && index < |blocks|
      modifies this`blocks
      ensures Valid() && blocks == Move(old(blocks), index, dir)
      ensures multiset(blocks) == multiset(old(blocks))
      ensures (dir == Up && index == 0) || (dir == Down && index == |blocks| - 1) ==> blocks == old(blocks)
    {
      blocks := Move(blocks, index, dir);
    }

    /** `updateBlock`: set the field on the blocks with the id; the rest are untouched. */
    method UpdateBlock(id: int, f: Field, v: string)
      requires Valid()
      modifies this`blocks
      ensures Valid() && blocks == MapId(old(blocks), id, b => Updated(b, f, v))
      ensures forall j :: 0 <= j < |blocks| ==> blocks[j].id == old(blocks)[j].id
    {
      blocks := MapId(blocks, id, b => Updated(b, f, v));
    }

    /** `removeBlock`: drop the blocks with the id, falling back to one empty text block. */
    method RemoveBlock(id: int, now: int)
      requires Valid()
      modifies this`blocks
      ensures Valid() && blocks == Remove(old(blocks), id, now)
    {
      blocks := Remove(blocks, id, now);
    }

    /** `handleImageSelect`: with a file, the block with the id gets it and its object URL; without one nothing changes. */
    method HandleImageSelect(blockId: int, file: Option<FileRef>, objectUrl: string)
      requires Valid()
      modifies this`blocks
      ensures Valid()
      ensures file.None? ==> blocks == old(blocks)
      ensures file.Some? ==> blocks == MapId(old(blocks), blockId, b => WithFile(b, file.value, objectUrl))
    {
      if file.Some? {
        blocks := MapId(blocks, blockId, b => WithFile(b, file.value, objectUrl));
      }
    }

    /** `handleTagKeyDown`: Enter appends the trimmed input when it is non-empty and new. */
    method HandleTagKeyDown(enter: bool, input: string)
      modifies this`tags
      ensures enter && Trim(input) != [] && Trim(input) !in old(tags) ==> tags == old(tags) + [Trim(input)]
      ensures !(enter && Trim(input) != [] && Trim(input) !in old(tags)) ==> tags == old(tags)
      ensures (forall i, j :: 0 <= i < j < |old(tags)| ==> old(tags)[i] != old(tags)[j]) ==>
                forall i, j :: 0 <= i < j < |tags| ==> tags[i] != tags[j]
    {
      if enter {
        var value := Trim(input);
        if value != [] && value !in tags {
          tags := tags + [value];
        }
      }
    }

    /** `handleNewCategoryKeyDown`: Enter with a non-empty trimmed input selects it, adds it if new, and closes the list. */
    method HandleNewCategoryKeyDown(enter: bool, input: string)
      modifies this`category, this`allCategories, this`isSelectOpen
      ensures enter && Trim(input) != [] ==>
                category == Trim(input) && !isSelectOpen && category in allCategories
                && allCategories == (if Trim(input) in old(allCategories) then old(allCategories) else old(allCategories) + [Trim(input)])
      ensures !(enter && Trim(input) != []) ==> category == old(category) && allCategories == old(allCategories) && isSelectOpen == old(isSelectOpen)
    {
      if enter {
        var value := Trim(input);
        if value != [] {
          category := value;
          if value !in allCategories {
            allCategories := allCategories + [value];
          }
          isSelectOpen := false;
        }
      }
    }

    /**
     * `handleFinalPublish` up to the request: nothing without a token; otherwise the cover,
     * the finalised blocks and their records, the serialised body and the excerpt.
     */
    method Publish(token: Option<string>, upload: FileRef -> Uploaded, clock: nat -> nat) returns (request: Option<PostRequest>)
      requires Valid()
      ensures !Truthy(token) ==> request == None
      ensures Truthy(token) ==> request == Some(NewPostRequest(PublishInput(title, category, tags, coverFile, coverPreview, blocks, upload, clock)))
    {
      if !Truthy(token) {
        return None;
      }
      var coverData := if coverPreview != [] then Some(CoverIn(Some(coverPreview), Some(title))) else None;
      if coverFile.Some? {
        var res := upload(coverFile.value);
        coverData := Some(CoverIn(Some(res.url), Some(title)));
      }
      var finalBlocks, contentImages, downloads := FinalizeBlocks(blocks, upload, clock);
      var mdContent := Serialize(finalBlocks);
      var input := Input(Some(title), Some(mdContent), Some(Excerpt(blocks)), Some(category), Some(tags),
                         coverData, Some(contentImages), Some(downloads), None);
      request := Some(NewPostRequest(input));
    }
  }
}
