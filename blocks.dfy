/**
 * The block-editor document: a post body is a list of blocks (paragraph text, `### ` headings,
 * images and downloads). This module holds what both editors share: the block record, the
 * never-empty list operations common to both (neighbour swap, removal), JavaScript's
 * `splice` insertion position, and the serialisation back to markdown with `[image:ID]` and
 * `[download:ID]` placeholders joined by blank lines.
 */
module Blocks {
  import opened Wrappers
  import opened Text
  import opened Placeholders

  datatype BlockType = TextBlock | HeadingBlock | ImageBlock | DownloadBlock

  /** A `File` chosen in the browser, known only by identity. */
  datatype FileRef = FileRef(handle: nat)

  /** A block; the optional fields are the keys a block may lack. */
  datatype Block = Block(
    id: int,
    kind: BlockType,
    content: string,
    invalid: bool,
    description: Option<string>,
    url: Option<string>,
    previewUrl: Option<string>,
    file: Option<FileRef>,
    resourceId: Option<string>)

  /** `{ id, type: 'text', content: '', invalid: false }`, the block an empty list is replaced with. */
  function EmptyTextBlock(id: int): Block {
    Block(id, TextBlock, [], false, None, None, None, None, None)
  }

  // ---------------------------------------------------------------------------------------
  // Shared list operations

  datatype Direction = Up | Down

  /** The position a block moves to: one up or one down. */
  function Target(index: nat, dir: Direction): int {
    if dir == Up then index - 1 else index + 1
  }

  /** Exchange two entries. */
  function Swap(bs: seq<Block>, i: nat, j: nat): (r: seq<Block>)
    requires i < |bs| && j < |bs|
    ensures |r| == |bs| && r[i] == bs[j] && r[j] == bs[i]
    ensures forall k :: 0 <= k < |bs| && k != i && k != j ==> r[k] == bs[k]
    ensures multiset(r) == multiset(bs)
  {
    bs[i := bs[j]][j := bs[i]]
  }

  /** `moveBlock`: a no-op when the target is outside the list, otherwise a swap with the neighbour. */
  function Move(bs: seq<Block>, index: nat, dir: Direction): (r: seq<Block>)
    requires index < |bs|
    ensures |r| == |bs| && multiset(r) == multiset(bs)
    ensures !(0 <= Target(index, dir) < |bs|) ==> r == bs
    ensures 0 <= Target(index, dir) < |bs| ==> r[Target(index, dir)] == bs[index] && r[index] == bs[Target(index, dir)]
    ensures forall k :: 0 <= k < |bs| && k != index && k != Target(index, dir) ==> r[k] == bs[k]
  {
    var target := Target(index, dir);
    if target < 0 || target >= |bs| then bs else Swap(bs, index, target)
  }

  /** Moving down and then back up restores the list. */
  lemma MoveDownUp(bs: seq<Block>, index: nat)
    requires index + 1 < |bs|
    ensures Move(Move(bs, index, Down), index + 1, Up) == bs
  {
  }

  /** `prev.filter(b => b.id !== id)`. */
  function WithoutId(bs: seq<Block>, id: int): (r: seq<Block>)
    ensures forall b :: b in r <==> b in bs && b.id != id
    ensures |r| <= |bs|
  {
    if bs == [] then []
    else (if bs[0].id == id then [] else [bs[0]]) + WithoutId(bs[1..], id)
  }

  /** `removeBlock`: drop the blocks with the id; an empty result becomes one empty text block. */
  function Remove(bs: seq<Block>, id: int, now: int): (r: seq<Block>)
    ensures r != []
    ensures WithoutId(bs, id) != [] ==> r == WithoutId(bs, id) && forall j :: 0 <= j < |r| ==> r[j].id != id
    ensures WithoutId(bs, id) == [] ==> r == [EmptyTextBlock(now)]
  {
    var filtered := WithoutId(bs, id);
    if filtered == [] then [EmptyTextBlock(now)]
    else
      assert forall j :: 0 <= j < |filtered| ==> filtered[j] in filtered;
      filtered
  }

  /** Removing a block keeps every other block. */
  lemma {:induction false} WithoutIdKeeps(bs: seq<Block>, id: int, j: nat)
    requires j < |bs| && bs[j].id != id
    ensures exists k :: 0 <= k < |WithoutId(bs, id)| && WithoutId(bs, id)[k] == bs[j]
  {
    var r := WithoutId(bs, id);
    assert bs[j] in r;
  }

  /** The filter works block by block, so the blocks it keeps stay in their order. */
  lemma {:induction false} WithoutIdAppend(a: seq<Block>, b: seq<Block>, id: int)
    ensures WithoutId(a + b, id) == WithoutId(a, id) + WithoutId(b, id)
    decreases |a|
  {
    if a != [] {
      assert (a + b)[1..] == a[1..] + b;
      WithoutIdAppend(a[1..], b, id);
    } else {
      assert a + b == b;
    }
  }

  /** Where `splice(start, 0, x)` inserts in a list of length `len` (a negative start counts from the end). */
  function SpliceStart(len: nat, start: int): (p: nat)
    ensures p <= len
    ensures 0 <= start <= len ==> p == start
    ensures start > len ==> p == len
    ensures start < 0 ==> p == if len + start < 0 then 0 else len + start
  {
    if start < 0 then (if len + start < 0 then 0 else len + start)
    else if start > len then len
    else start
  }

  /** `[...bs].splice(start, 0, b)`. */
  function SpliceIn(bs: seq<Block>, start: int, b: Block): (r: seq<Block>)
    ensures |r| == |bs| + 1
    ensures var p := SpliceStart(|bs|, start); r[p] == b && r[..p] == bs[..p] && r[p + 1..] == bs[p..]
  {
    var p := SpliceStart(|bs|, start);
    bs[..p] + [b] + bs[p..]
  }

  /** Inserting after a block in range puts the new block right behind it and keeps every other block. */
  lemma SpliceAfter(bs: seq<Block>, index: nat, b: Block)
    requires index < |bs|
    ensures SpliceIn(bs, index + 1, b)[index + 1] == b
    ensures SpliceIn(bs, index + 1, b)[..index + 1] == bs[..index + 1]
    ensures SpliceIn(bs, index + 1, b)[index + 2..] == bs[index + 1..]
    ensures multiset(SpliceIn(bs, index + 1, b)) == multiset(bs) + multiset{b}
  {
    var r := SpliceIn(bs, index + 1, b);
    assert r == bs[..index + 1] + [b] + bs[index + 1..];
    assert bs == bs[..index + 1] + bs[index + 1..];
  }

  /** The block keys the editors' inputs write. */
  datatype Field = ContentField | DescriptionField | UrlField | PreviewUrlField

  /** `{ ...b, [field]: value }`. */
  function SetField(b: Block, f: Field, v: string): Block {
    match f
    case ContentField => b.(content := v)
    case DescriptionField => b.(description := Some(v))
    case UrlField => b.(url := Some(v))
    case PreviewUrlField => b.(previewUrl := Some(v))
  }

  /** `bs.map(b => b.id === id ? g(b) : b)`. */
  function MapId(bs: seq<Block>, id: int, g: Block -> Block): (r: seq<Block>)
    ensures |r| == |bs|
    ensures forall j :: 0 <= j < |bs| ==> r[j] == if bs[j].id == id then g(bs[j]) else bs[j]
  {
    if bs == [] then [] else [if bs[0].id == id then g(bs[0]) else bs[0]] + MapId(bs[1..], id, g)
  }

  /** A per-id update that keeps ids keeps the id sequence, and only blocks with the id change. */
  lemma MapIdKeeps(bs: seq<Block>, id: int, g: Block -> Block)
    requires forall b :: g(b).id == b.id
    ensures |MapId(bs, id, g)| == |bs|
    ensures forall j :: 0 <= j < |bs| ==> MapId(bs, id, g)[j].id == bs[j].id
    ensures forall j :: 0 <= j < |bs| && bs[j].id != id ==> MapId(bs, id, g)[j] == bs[j]
  {
  }

  /** The block after a file was chosen for it: file, object-URL preview, and no longer invalid. */
  function WithFile(b: Block, file: FileRef, objectUrl: string): Block {
    b.(file := Some(file), previewUrl := Some(objectUrl), invalid := false)
  }

  // ---------------------------------------------------------------------------------------
  // Serialisation

  /** The placeholder a block is written as, when it is an image or download with a truthy id. */
  function EmittedOf(b: Block): seq<Placeholder> {
    if b.kind == ImageBlock && Truthy(b.resourceId) then [Placeholder(Image, b.resourceId.value)]
    else if b.kind == DownloadBlock && Truthy(b.resourceId) then [Placeholder(Download, b.resourceId.value)]
    else []
  }

  /** The placeholders serialisation writes, in block order. */
  function Emitted(bs: seq<Block>): seq<Placeholder> {
    if bs == [] then [] else EmittedOf(bs[0]) + Emitted(bs[1..])
  }

  /** One block as markdown: a `### ` heading, a placeholder, or the block's own text. */
  function BlockMarkdown(b: Block): string {
    if b.kind == HeadingBlock then "### " + b.content
    else if EmittedOf(b) != [] then PlaceholderText(EmittedOf(b)[0])
    else b.content
  }

  function Markdowns(bs: seq<Block>): (r: seq<string>)
    ensures |r| == |bs| && forall i :: 0 <= i < |bs| ==> r[i] == BlockMarkdown(bs[i])
  {
    if bs == [] then [] else [BlockMarkdown(bs[0])] + Markdowns(bs[1..])
  }

  /** `blocks.map(...).join('\n\n')`. */
  function Serialize(bs: seq<Block>): string {
    Join(Markdowns(bs), "\n\n")
  }

  /** Serialised resource ids never hold `]` or a line terminator, and no block text spells a placeholder. */
  predicate Serializable(bs: seq<Block>) {
    forall i :: 0 <= i < |bs| ==> Found(bs[i].content) == [] && (Truthy(bs[i].resourceId) ==> IsId(bs[i].resourceId.value))
  }

  lemma MarkdownFound(b: Block)
    requires Found(b.content) == [] && (Truthy(b.resourceId) ==> IsId(b.resourceId.value))
    ensures Found(BlockMarkdown(b)) == EmittedOf(b)
  {
    if b.kind == HeadingBlock {
      FoundSkip("### ", b.content);
    } else if EmittedOf(b) != [] {
      var p := EmittedOf(b)[0];
      FoundText(p, []);
      assert PlaceholderText(p) + [] == PlaceholderText(p);
    }
  }

  /**
   * Scanning the serialised body for placeholders finds exactly the images and downloads that
   * were written, in block order: the `\n\n` separators keep every match inside its block.
   */
  lemma {:induction false} SerializeFound(bs: seq<Block>)
    requires Serializable(bs)
    ensures Found(Serialize(bs)) == Emitted(bs)
    decreases |bs|
  {
    if |bs| == 1 {
      SerializeOne(bs);
    } else if |bs| > 1 {
      SerializableTail(bs);
      SerializeFound(bs[1..]);
      SerializeCons(bs);
    }
  }

  lemma SerializeOne(bs: seq<Block>)
    requires |bs| == 1 && Serializable(bs)
    ensures Found(Serialize(bs)) == Emitted(bs)
  {
    MarkdownFound(bs[0]);
    assert Emitted(bs[1..]) == [];
    assert EmittedOf(bs[0]) + [] == EmittedOf(bs[0]);
  }

  lemma SerializableTail(bs: seq<Block>)
    requires bs != [] && Serializable(bs)
    ensures Serializable(bs[1..])
  {
    forall i | 0 <= i < |bs| - 1 ensures bs[1..][i] == bs[i + 1] { }
  }

  /** The first block's placeholders come first: the `\n\n` after it starts no placeholder. */
  lemma SerializeCons(bs: seq<Block>)
    requires |bs| > 1 && Serializable(bs)
    ensures Found(Serialize(bs)) == EmittedOf(bs[0]) + Found(Serialize(bs[1..]))
  {
    MarkdownFound(bs[0]);
    var ms := Markdowns(bs);
    assert ms[1..] == Markdowns(bs[1..]);
    var rest := Join(ms[1..], "\n\n");
    assert Serialize(bs) == ms[0] + "\n\n" + rest;
    AppendAssoc(ms[0], "\n\n", rest);
    FoundSplit(ms[0], "\n\n" + rest);
    FoundSkip("\n\n", rest);
  }

  /** `blocks.find(b => b.type === 'text')?.content?.slice(0, 150) || ''`. */
  function Excerpt(bs: seq<Block>): (r: string)
    ensures |r| <= 150
  {
    if bs == [] then []
    else if bs[0].kind == TextBlock then bs[0].content[..if |bs[0].content| < 150 then |bs[0].content| else 150]
    else Excerpt(bs[1..])
  }

  /** Without a text block the excerpt is empty. */
  lemma {:induction false} ExcerptNoText(bs: seq<Block>)
    requires forall i :: 0 <= i < |bs| ==> bs[i].kind != TextBlock
    ensures Excerpt(bs) == []
    decreases |bs|
  {
    if bs != [] {
      assert bs[0].kind != TextBlock;
      assert forall i :: 0 <= i < |bs| - 1 ==> bs[1..][i] == bs[i + 1];
      ExcerptNoText(bs[1..]);
    }
  }

  /** With the first text block at `i`, the excerpt is that block's first 150 characters. */
  lemma {:induction false} ExcerptAtFirst(bs: seq<Block>, i: nat)
    requires i < |bs| && bs[i].kind == TextBlock && forall j :: 0 <= j < i ==> bs[j].kind != TextBlock
    ensures var c := bs[i].content; Excerpt(bs) == c[..if |c| < 150 then |c| else 150]
    decreases i
  {
    if i > 0 {
      assert bs[0].kind != TextBlock;
      var tail := bs[1..];
      assert tail[i - 1] == bs[i];
      assert forall j :: 0 <= j < i - 1 ==> tail[j] == bs[j + 1];
      ExcerptAtFirst(tail, i - 1);
    }
  }
}
