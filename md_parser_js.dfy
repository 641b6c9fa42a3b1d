/**
 * `parseMDToBlocks` (JavaScript variant), the parser the older editor uses: the body is split
 * with `/(\[image:.*?\]|\[download:.*?\]|### .*?\n)/g`, keeping the matched placeholders and
 * heading lines as pieces; blank pieces are dropped and every remaining piece becomes one block.
 * A piece whose trim starts with `### ` is a heading; a piece that is exactly `[image:ID]` or
 * `[download:ID]` (anchored, so the id may hold `]`) is filled from the first record with that
 * id; anything else is trimmed text. Each block reads the clock again and adds its position.
 */
module MdParserJs {
  import opened Wrappers
  import opened Text
  import opened Placeholders
  import opened Blocks
  import opened MdParser
  import CR = ContentRenderer

  /** The separator match at the start of `t`: a placeholder (tried first) or a heading line. */
  function SeparatorAt(t: string): (r: Option<nat>)
    ensures r.Some? ==> 0 < r.value <= |t|
  {
    match PlaceholderAt(t)
    case Some(ph) => Some(Len(ph))
    case None => HeadingAt(t)
  }

  /** `content.split(regex)`. */
  function Pieces(content: string): seq<string> {
    SplitFrom(content, 0, 0, SeparatorAt)
  }

  /** The pieces, separators included, rebuild the body. */
  lemma PiecesConcat(content: string)
    ensures Concat(Pieces(content)) == content
  {
    SplitFromConcat(content, 0, 0, SeparatorAt);
    assert content[0..] == content;
  }

  predicate NoLineTerminator(s: string) {
    forall i :: 0 <= i < |s| ==> !IsLineTerminator(s[i])
  }

  /** `t.match(/^\[image:(.*?)\]$/)` (or the download form): the captured id, if the whole of `t` matches. */
  function ExactId(t: string, k: Kind): Option<string> {
    var o := Opening(k);
    if |o| < |t| && o <= t && t[|t| - 1] == ']' && NoLineTerminator(t[|o|..|t| - 1]) then Some(t[|o|..|t| - 1])
    else None
  }

  /** The anchored match succeeds exactly on the text `[kind:ID]` with no line terminator in ID. */
  lemma ExactIdIff(t: string, k: Kind, id: string)
    ensures ExactId(t, k) == Some(id) <==> t == Opening(k) + id + "]" && NoLineTerminator(id)
  {
    if t == Opening(k) + id + "]" {
      ExactIdOfText(k, id);
    }
    if ExactId(t, k) == Some(id) {
      ExactIdShape(t, k, id);
    }
  }

  lemma ExactIdOfText(k: Kind, id: string)
    ensures ExactId(Opening(k) + id + "]", k) == Some(id) <==> NoLineTerminator(id)
  {
    var o := Opening(k);
    var t := o + id + "]";
    assert o <= t && t[|o|..|t| - 1] == id && t[|t| - 1] == ']';
  }

  lemma ExactIdShape(t: string, k: Kind, id: string)
    requires ExactId(t, k) == Some(id)
    ensures t == Opening(k) + id + "]" && NoLineTerminator(id)
  {
    var o := Opening(k);
    var n := |t|;
    assert t[..|o|] == o && t[|o|..n - 1] == id && t[n - 1..] == "]";
    assert t[..n - 1] == t[..|o|] + t[|o|..n - 1];
    assert t == t[..n - 1] + t[n - 1..];
  }

  /** `xs.find(x => key(x) === id)`, as a position: the first entry with the id. */
  function FirstWith<T>(xs: seq<T>, key: T -> string, id: string): (r: Option<nat>)
    ensures r.Some? ==> r.value < |xs| && key(xs[r.value]) == id
    ensures r.Some? ==> forall j :: 0 <= j < r.value ==> key(xs[j]) != id
    ensures r.None? ==> forall j :: 0 <= j < |xs| ==> key(xs[j]) != id
  {
    if xs == [] then None
    else if key(xs[0]) == id then Some(0)
    else match FirstWith(xs[1..], key, id)
      case None => None
      case Some(k) => Some(k + 1)
  }

  /** Branch B: an image block whose content and preview are the found record's `src`, or `''`. */
  function ImagePiece(rid: string, id: int, images: seq<CR.ImageRecord>): Block {
    var src := match FirstWith(images, CR.ImageId, rid) case Some(i) => images[i].src case None => "";
    Block(id, ImageBlock, src, FirstWith(images, CR.ImageId, rid).None?, None, None, Some(src), None, Some(rid))
  }

  /** Branch C: a download block whose description and url come from the found record, or are `''`. */
  function DownloadPiece(rid: string, id: int, downloads: seq<CR.DownloadRecord>): Block {
    var found := FirstWith(downloads, CR.DownloadId, rid);
    var description := match found case Some(i) => downloads[i].description case None => "";
    var url := match found case Some(i) => downloads[i].url case None => "";
    Block(id, DownloadBlock, [], found.None?, Some(description), Some(url), None, None, Some(rid))
  }

  /** The `map` callback for one kept piece. */
  function ClassifyPiece(part: string, id: int, images: seq<CR.ImageRecord>, downloads: seq<CR.DownloadRecord>): (b: Block)
    ensures b.id == id
  {
    var trimmed := Trim(part);
    if "### " <= trimmed then Classify(part, id)
    else match ExactId(trimmed, Image)
      case Some(rid) => ImagePiece(rid, id, images)
      case None =>
        match ExactId(trimmed, Download)
        case Some(rid) => DownloadPiece(rid, id, downloads)
        case None => Classify(part, id)
  }

  /** An image piece carries the id, shows the first record with it, and is invalid exactly when there is none. */
  lemma ImagePieceFacts(rid: string, id: int, images: seq<CR.ImageRecord>)
    ensures var b := ImagePiece(rid, id, images);
      && b.kind == ImageBlock && b.resourceId == Some(rid) && b.previewUrl == Some(b.content)
      && (b.invalid <==> forall j :: 0 <= j < |images| ==> images[j].id != rid)
      && (!b.invalid ==> exists j :: 0 <= j < |images| && images[j].id == rid && b.content == images[j].src
                                     && forall i :: 0 <= i < j ==> images[i].id != rid)
  {
    var f := FirstWith(images, CR.ImageId, rid);
    if f.Some? {
      assert images[f.value].id == rid;
    }
  }

  /** A download piece carries the id, copies the first record with it, and is invalid exactly when there is none. */
  lemma DownloadPieceFacts(rid: string, id: int, downloads: seq<CR.DownloadRecord>)
    ensures var b := DownloadPiece(rid, id, downloads);
      && b.kind == DownloadBlock && b.resourceId == Some(rid)
      && (b.invalid <==> forall j :: 0 <= j < |downloads| ==> downloads[j].id != rid)
      && (!b.invalid ==> exists j :: 0 <= j < |downloads| && downloads[j].id == rid
                                     && b.description == Some(downloads[j].description) && b.url == Some(downloads[j].url)
                                     && forall i :: 0 <= i < j ==> downloads[i].id != rid)
      && (b.invalid ==> b.description == Some([]) && b.url == Some([]))
  {
    var f := FirstWith(downloads, CR.DownloadId, rid);
    if f.Some? {
      assert downloads[f.value].id == rid;
    }
  }

  /**
   * What one non-blank piece becomes: a heading exactly when its trim starts with `### `, with
   * that prefix removed; text exactly when its trim is neither a heading nor an exact placeholder,
   * and then the trimmed piece itself.
   */
  lemma ClassifyPieceKind(part: string, id: int, images: seq<CR.ImageRecord>, downloads: seq<CR.DownloadRecord>)
    requires !IsBlank(part)
    ensures var b := ClassifyPiece(part, id, images, downloads); var t := Trim(part);
      && (b.kind == HeadingBlock <==> "### " <= t)
      && (b.kind == HeadingBlock ==> t == "### " + b.content)
      && (b.kind == TextBlock <==> !("### " <= t) && ExactId(t, Image).None? && ExactId(t, Download).None?)
      && (b.kind == TextBlock ==> b.content == t && TextShaped(b))
  {
    ClassifyShape(part, id);
    var t := Trim(part);
    if !("### " <= t) {
      match ExactId(t, Image)
      case Some(rid) => ImagePieceFacts(rid, id, images);
      case None =>
        match ExactId(t, Download)
        case Some(rid) => DownloadPieceFacts(rid, id, downloads);
        case None =>
    }
  }

  /** A piece whose trim is exactly `[image:ID]` or `[download:ID]` becomes that resource's block. */
  lemma ClassifyPieceResource(part: string, id: int, images: seq<CR.ImageRecord>, downloads: seq<CR.DownloadRecord>, k: Kind, rid: string)
    requires Trim(part) == Opening(k) + rid + "]" && NoLineTerminator(rid)
    ensures k == Image ==> ClassifyPiece(part, id, images, downloads) == ImagePiece(rid, id, images)
    ensures k == Download ==> ClassifyPiece(part, id, images, downloads) == DownloadPiece(rid, id, downloads)
  {
    var t := Trim(part);
    assert t[0] == '[';
    ExactIdIff(t, k, rid);
    if k == Download {
      assert t[1] == 'd';
      assert ExactId(t, Image).None?;
    }
  }

  /**
   * `parseMDToBlocks` as written. `clock(j)` is the `j`-th reading of `Date.now()`: the empty
   * body reads it once, otherwise the callback for piece `j` reads it and adds `j`.
   */
  function ParseJs(content: string, images: seq<CR.ImageRecord>, downloads: seq<CR.DownloadRecord>, clock: nat -> int): (r: seq<Block>)
    ensures content == [] ==> r == [EmptyTextBlock(clock(0))]
    ensures content != [] ==> |r| == |Kept(Pieces(content))|
  {
    if content == [] then [EmptyTextBlock(clock(0))]
    else
      Classified(Kept(Pieces(content)), images, downloads, clock)
  }

  /** `textParts.map((part, index) => ...)`, each piece stamped with its own clock reading. */
  function Classified(parts: seq<string>, images: seq<CR.ImageRecord>, downloads: seq<CR.DownloadRecord>, clock: nat -> int): (r: seq<Block>)
    ensures |r| == |parts|
    ensures forall j :: 0 <= j < |parts| ==> r[j] == ClassifyPiece(parts[j], clock(j) + j, images, downloads)
  {
    seq(|parts|, j requires 0 <= j < |parts| => ClassifyPiece(parts[j], clock(j) + j, images, downloads))
  }

  /** The clock never runs backwards. */
  ghost predicate Monotone(clock: nat -> int) {
    forall i: nat, j: nat :: i <= j ==> clock(i) <= clock(j)
  }

  /** Every block is the classification of its own non-blank kept piece, numbered by its reading of the clock. */
  lemma ParseJsBlocks(content: string, images: seq<CR.ImageRecord>, downloads: seq<CR.DownloadRecord>, clock: nat -> int)
    requires content != []
    ensures var r := ParseJs(content, images, downloads, clock); var parts := Kept(Pieces(content));
      forall j :: 0 <= j < |r| ==> !IsBlank(parts[j]) && r[j] == ClassifyPiece(parts[j], clock(j) + j, images, downloads)
  {
    KeptNotBlank(Pieces(content));
  }

  /** No kept piece is blank. */
  lemma KeptNotBlank(pieces: seq<string>)
    ensures var parts := Kept(pieces); forall j :: 0 <= j < |parts| ==> !IsBlank(parts[j])
  {
    var parts := Kept(pieces);
    forall j | 0 <= j < |parts| ensures !IsBlank(parts[j]) {
      KeptMember(pieces, parts[j]);
    }
  }

  /** With a clock that never runs backwards, the ids strictly increase along the list. */
  lemma ParseJsIdsIncrease(content: string, images: seq<CR.ImageRecord>, downloads: seq<CR.DownloadRecord>, clock: nat -> int)
    requires Monotone(clock)
    ensures var r := ParseJs(content, images, downloads, clock);
      forall i, j :: 0 <= i < j < |r| ==> r[i].id < r[j].id
  {
    var r := ParseJs(content, images, downloads, clock);
    forall i, j | 0 <= i < j < |r| ensures r[i].id < r[j].id {
      assert clock(i) <= clock(j);
    }
  }

  /** A piece list with nothing kept holds only blank pieces. */
  lemma {:induction false} KeptEmpty(parts: seq<string>)
    requires Kept(parts) == []
    ensures forall k :: 0 <= k < |parts| ==> IsBlank(parts[k])
  {
    if parts != [] {
      KeptEmpty(parts[1..]);
      assert forall k :: 1 <= k < |parts| ==> parts[k] == parts[1..][k - 1];
    }
  }

  /** Blank pieces concatenate to whitespace. */
  lemma {:induction false} ConcatBlank(parts: seq<string>)
    requires forall k :: 0 <= k < |parts| ==> IsBlank(parts[k])
    ensures IsBlank(Concat(parts))
  {
    BlankIffAllSpace(Concat(parts));
    if parts != [] {
      assert forall k :: 0 <= k < |parts| - 1 ==> parts[1..][k] == parts[k + 1];
      ConcatBlank(parts[1..]);
      BlankIffAllSpace(Concat(parts[1..]));
      BlankIffAllSpace(parts[0]);
      var c := Concat(parts);
      assert c == parts[0] + Concat(parts[1..]);
      forall i | 0 <= i < |c| ensures IsJsSpace(c[i]) {
        if i >= |parts[0]| {
          assert c[i] == Concat(parts[1..])[i - |parts[0]|];
        }
      }
    }
  }

  /** A body yields no block exactly when it is non-empty but blank. */
  lemma ParseJsEmptyIff(content: string, images: seq<CR.ImageRecord>, downloads: seq<CR.DownloadRecord>, clock: nat -> int)
    ensures ParseJs(content, images, downloads, clock) == [] <==> content != [] && IsBlank(content)
  {
    var parts := Pieces(content);
    PiecesConcat(content);
    if content != [] && IsBlank(content) {
      BlankIffAllSpace(content);
      ConcatSpaces(parts);
      KeptNone(parts);
    }
    if content != [] && Kept(parts) == [] {
      KeptEmpty(parts);
      ConcatBlank(parts);
    }
  }

  /** The finding in one input: a body of two spaces is truthy, so it is split, and every piece is dropped. */
  lemma ParseJsSpacesEmpty(images: seq<CR.ImageRecord>, downloads: seq<CR.DownloadRecord>, clock: nat -> int)
    ensures ParseJs("  ", images, downloads, clock) == []
  {
    BlankIffAllSpace("  ");
    ParseJsEmptyIff("  ", images, downloads, clock);
  }

  /** The parser with the blank-body case sent to the same single empty text block as the empty body. */
  function ParseBody(content: string, images: seq<CR.ImageRecord>, downloads: seq<CR.DownloadRecord>, clock: nat -> int): (r: seq<Block>)
  {
    if IsBlank(content) then [EmptyTextBlock(clock(0))] else ParseJs(content, images, downloads, clock)
  }

  /** The corrected parser never leaves the editor without a block, and agrees with the original on every other body. */
  lemma ParseBodyNonEmpty(content: string, images: seq<CR.ImageRecord>, downloads: seq<CR.DownloadRecord>, clock: nat -> int)
    ensures ParseBody(content, images, downloads, clock) != []
    ensures ParseJs(content, images, downloads, clock) != [] ==> ParseBody(content, images, downloads, clock) == ParseJs(content, images, downloads, clock)
  {
    ParseJsEmptyIff(content, images, downloads, clock);
    if content == [] {
      assert IsBlank(content);
    }
  }

  /** The fields the editor reads are present: every image block has a preview, every download block a url. */
  lemma ParseBodyFields(content: string, images: seq<CR.ImageRecord>, downloads: seq<CR.DownloadRecord>, clock: nat -> int)
    ensures var r := ParseBody(content, images, downloads, clock);
      forall j :: 0 <= j < |r| ==>
        && (r[j].kind == ImageBlock ==> r[j].previewUrl.Some?)
        && (r[j].kind == DownloadBlock ==> r[j].url.Some?)
  {
    if !IsBlank(content) && content != [] {
      ParseJsBlocks(content, images, downloads, clock);
    }
  }
}
