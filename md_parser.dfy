/**
 * `parseMDToBlocks` (TypeScript variant): turns a stored post body back into editor blocks.
 * It walks the placeholder matches in order exactly like the renderer's tokenizer; the text
 * between matches is split at `### ...\n` heading lines (a split with a capture group, so the
 * headings are kept as pieces), blank pieces are dropped, and each remaining piece becomes a
 * heading or a trimmed text block. Every placeholder becomes an image or download block,
 * resolved against the post's records (the last record with an id wins). Block ids count up
 * from one clock reading.
 */
module MdParser {
  import opened Wrappers
  import opened Text
  import opened Placeholders
  import opened Blocks
  import CR = ContentRenderer

  // ---------------------------------------------------------------------------------------
  // Heading lines: `/(### .*?\n)/`

  /** The length of a `### .*?\n` match at the start of `t`: the lazy `.*?` stops at the first line terminator, which must be `\n`. */
  function HeadingAt(t: string): (r: Option<nat>)
    ensures r.Some? ==> 5 <= r.value <= |t| && "### " <= t && t[r.value - 1] == '\n'
    ensures r.Some? ==> forall i :: 4 <= i < r.value - 1 ==> !IsLineTerminator(t[i])
  {
    if "### " <= t then
      var k := 4 + Span(t[4..], c => !IsLineTerminator(c));
      assert forall i :: 4 <= i < k ==> t[4..][i - 4] == t[i];
      if k < |t| && t[k] == '\n' then Some(k + 1) else None
    else None
  }

  /** A heading line is matched exactly when the text starts with `### ` and its first line terminator is a `\n`. */
  lemma {:induction false} HeadingAtIff(t: string, k: nat)
    requires "### " <= t && 4 <= k < |t| && IsLineTerminator(t[k])
    requires forall i :: 4 <= i < k ==> !IsLineTerminator(t[i])
    ensures HeadingAt(t).Some? <==> t[k] == '\n'
    ensures t[k] == '\n' ==> HeadingAt(t) == Some(k + 1)
  {
    assert forall i :: 0 <= i < k - 4 ==> t[4..][i] == t[i + 4];
    SpanUnique(t[4..], c => !IsLineTerminator(c), k - 4);
  }

  /** `t.split(/(### .*?\n)/)`: the pieces between heading lines, with the heading lines kept. */
  function SplitHeadings(t: string): seq<string> {
    SplitFrom(t, 0, 0, HeadingAt)
  }

  lemma SplitHeadingsConcat(t: string)
    ensures Concat(SplitHeadings(t)) == t
  {
    SplitFromConcat(t, 0, 0, HeadingAt);
    assert t[0..] == t;
  }

  /** `.filter(p => p.trim())`. */
  function Kept(parts: seq<string>): (r: seq<string>)
  {
    if parts == [] then []
    else (if IsBlank(parts[0]) then [] else [parts[0]]) + Kept(parts[1..])
  }

  lemma {:induction false} KeptMember(parts: seq<string>, x: string)
    ensures x in Kept(parts) <==> x in parts && !IsBlank(x)
  {
    if parts != [] {
      KeptMember(parts[1..], x);
      assert x in parts <==> x == parts[0] || x in parts[1..];
    }
  }

  /** A kept piece: a heading when its trimmed text starts with `### ` (the first `### ` removed), else trimmed text. */
  function Classify(part: string, id: int): Block {
    var trimmed := Trim(part);
    if "### " <= trimmed then Block(id, HeadingBlock, ReplaceFirst(trimmed, "### ", ""), false, None, None, None, None, None)
    else Block(id, TextBlock, trimmed, false, None, None, None, None, None)
  }

  /** What a piece of text turns into. */
  predicate TextShaped(b: Block) {
    && (b.kind == TextBlock || b.kind == HeadingBlock)
    && !b.invalid && b.resourceId == None
    && (b.kind == TextBlock ==>
          b.content != [] && !IsJsSpace(b.content[0]) && !IsJsSpace(b.content[|b.content| - 1]) && !("### " <= b.content))
  }

  lemma {:induction false} ClassifyShape(part: string, id: int)
    requires !IsBlank(part)
    ensures var b := Classify(part, id);
      b.id == id && TextShaped(b) &&
      (b.kind == HeadingBlock <==> "### " <= Trim(part)) &&
      (b.kind == HeadingBlock ==> Trim(part) == "### " + b.content) &&
      (b.kind == TextBlock ==> b.content == Trim(part))
  {
    var trimmed := Trim(part);
    TrimFacts(part);
    if "### " <= trimmed {
      ReplaceLeading(trimmed, "### ", "");
    }
  }

  function ClassifyAll(parts: seq<string>, id: int): (r: seq<Block>)
    ensures |r| == |parts| && forall j :: 0 <= j < |parts| ==> r[j] == Classify(parts[j], id + j)
  {
    seq(|parts|, j requires 0 <= j < |parts| => Classify(parts[j], id + j))
  }

  /** The blocks a stretch of text between placeholders becomes, numbered from `id`. */
  function TextBlocks(text: string, id: int): seq<Block> {
    ClassifyAll(Kept(SplitHeadings(text)), id)
  }

  lemma {:induction false} TextBlocksShape(text: string, id: int)
    ensures forall j :: 0 <= j < |TextBlocks(text, id)| ==> TextBlocks(text, id)[j].id == id + j && TextShaped(TextBlocks(text, id)[j])
  {
    var parts := Kept(SplitHeadings(text));
    forall j | 0 <= j < |parts| ensures TextBlocks(text, id)[j].id == id + j && TextShaped(TextBlocks(text, id)[j]) {
      KeptMember(SplitHeadings(text), parts[j]);
      ClassifyShape(parts[j], id + j);
    }
  }

  /** A text with no visible character gives no blocks. */
  lemma {:induction false} TextBlocksBlank(text: string, id: int)
    requires IsBlank(text)
    ensures TextBlocks(text, id) == []
  {
    var parts := SplitHeadings(text);
    BlankIffAllSpace(text);
    SplitHeadingsConcat(text);
    ConcatSpaces(parts);
    KeptNone(parts);
  }

  /** Every piece of an all-whitespace concatenation is blank. */
  lemma {:induction false} ConcatSpaces(parts: seq<string>)
    requires forall i :: 0 <= i < |Concat(parts)| ==> IsJsSpace(Concat(parts)[i])
    ensures forall k :: 0 <= k < |parts| ==> IsBlank(parts[k])
  {
    if parts != [] {
      var c := Concat(parts);
      var rest := Concat(parts[1..]);
      assert c == parts[0] + rest;
      assert forall i :: 0 <= i < |parts[0]| ==> parts[0][i] == c[i];
      BlankIffAllSpace(parts[0]);
      assert forall i :: 0 <= i < |rest| ==> rest[i] == c[|parts[0]| + i];
      ConcatSpaces(parts[1..]);
      assert forall k :: 1 <= k < |parts| ==> parts[k] == parts[1..][k - 1];
    }
  }

  lemma {:induction false} KeptNone(parts: seq<string>)
    requires forall k :: 0 <= k < |parts| ==> IsBlank(parts[k])
    ensures Kept(parts) == []
  {
    if parts != [] {
      assert forall k :: 0 <= k < |parts| - 1 ==> parts[1..][k] == parts[k + 1];
      KeptNone(parts[1..]);
    }
  }

  // ---------------------------------------------------------------------------------------
  // Placeholders and the whole body

  /** An image or download block for a placeholder, filled from the record with its id when there is one. */
  function ResourceBlock(ph: Placeholder, images: seq<CR.ImageRecord>, downloads: seq<CR.DownloadRecord>, id: int): Block {
    match ph.kind
    case Image =>
      var rec := CR.Lookup(images, CR.ImageId, ph.id);
      Block(id, ImageBlock, [], rec.None?, None, None, if rec.Some? then Some(rec.value.src) else None, None, Some(ph.id))
    case Download =>
      var rec := CR.Lookup(downloads, CR.DownloadId, ph.id);
      Block(id, DownloadBlock, [], rec.None?,
        if rec.Some? then Some(rec.value.description) else None,
        if rec.Some? then Some(rec.value.url) else None, None, None, Some(ph.id))
  }

  /** An image or download block is marked invalid exactly when no record has its id, and otherwise carries that record's fields. */
  predicate Resolved(b: Block, images: seq<CR.ImageRecord>, downloads: seq<CR.DownloadRecord>) {
    && (b.kind == ImageBlock ==>
          b.resourceId.Some? &&
          var rec := CR.LastWith(images, CR.ImageId, b.resourceId.value);
          b.invalid == rec.None? && b.previewUrl == (if rec.Some? then Some(images[rec.value].src) else None))
    && (b.kind == DownloadBlock ==>
          b.resourceId.Some? &&
          var rec := CR.LastWith(downloads, CR.DownloadId, b.resourceId.value);
          b.invalid == rec.None? &&
          b.description == (if rec.Some? then Some(downloads[rec.value].description) else None) &&
          b.url == (if rec.Some? then Some(downloads[rec.value].url) else None))
  }

  function NodeBlocks(n: CR.Node, images: seq<CR.ImageRecord>, downloads: seq<CR.DownloadRecord>, id: int): seq<Block> {
    match n
    case Text(g) => TextBlocks(g, id)
    case Slot(ph) => [ResourceBlock(ph, images, downloads, id)]
  }

  /** Node by node, each node's group of blocks numbered on from the blocks before it. */
  function Flatten(ns: seq<CR.Node>, group: (CR.Node, int) -> seq<Block>, id: int): seq<Block> {
    if ns == [] then []
    else
      var pre := Flatten(ns[..|ns| - 1], group, id);
      pre + group(ns[|ns| - 1], id + |pre|)
  }

  lemma {:induction false} FlattenSnoc(ns: seq<CR.Node>, n: CR.Node, group: (CR.Node, int) -> seq<Block>, id: int)
    ensures Flatten(ns + [n], group, id) == Flatten(ns, group, id) + group(n, id + |Flatten(ns, group, id)|)
  {
    assert (ns + [n])[..|ns|] == ns;
  }

  /** `NodeBlocks` for one post's records. */
  function Group(images: seq<CR.ImageRecord>, downloads: seq<CR.DownloadRecord>): (CR.Node, int) -> seq<Block> {
    (n, i) => NodeBlocks(n, images, downloads, i)
  }

  /** The blocks for a tokenized body: each stretch of text, then each placeholder, numbered consecutively from `id`. */
  function Expand(ns: seq<CR.Node>, images: seq<CR.ImageRecord>, downloads: seq<CR.DownloadRecord>, id: int): seq<Block> {
    Flatten(ns, Group(images, downloads), id)
  }

  /** The placeholder an image or download block stands for. */
  function RestoredOf(b: Block): seq<Placeholder> {
    if b.kind == ImageBlock && b.resourceId.Some? then [Placeholder(Image, b.resourceId.value)]
    else if b.kind == DownloadBlock && b.resourceId.Some? then [Placeholder(Download, b.resourceId.value)]
    else []
  }

  /** The placeholders a block list stands for, in order. */
  function Restored(bs: seq<Block>): seq<Placeholder> {
    if bs == [] then [] else RestoredOf(bs[0]) + Restored(bs[1..])
  }

  lemma {:induction false} RestoredAppend(a: seq<Block>, b: seq<Block>)
    ensures Restored(a + b) == Restored(a) + Restored(b)
  {
    if a != [] {
      assert (a + b)[1..] == a[1..] + b;
      RestoredAppend(a[1..], b);
    } else {
      assert a + b == b;
    }
  }

  lemma {:induction false} RestoredText(bs: seq<Block>)
    requires forall j :: 0 <= j < |bs| ==> TextShaped(bs[j])
    ensures Restored(bs) == []
  {
    if bs != [] {
      assert forall j :: 0 <= j < |bs| - 1 ==> bs[1..][j] == bs[j + 1];
      RestoredText(bs[1..]);
    }
  }

  lemma {:induction false} NodeBlocksFacts(n: CR.Node, images: seq<CR.ImageRecord>, downloads: seq<CR.DownloadRecord>, id: int)
    ensures var bs := NodeBlocks(n, images, downloads, id);
      Restored(bs) == (if n.Slot? then [n.ph] else []) &&
      forall j :: 0 <= j < |bs| ==> bs[j].id == id + j && Resolved(bs[j], images, downloads) && (n.Text? ==> TextShaped(bs[j]))
  {
    var bs := NodeBlocks(n, images, downloads, id);
    match n
    case Text(g) =>
      TextBlocksShape(g, id);
      RestoredText(bs);
    case Slot(ph) =>
      assert Restored(bs) == RestoredOf(bs[0]) + Restored([]);
  }

  lemma GroupApply(images: seq<CR.ImageRecord>, downloads: seq<CR.DownloadRecord>, n: CR.Node, i: int)
    ensures Group(images, downloads)(n, i) == NodeBlocks(n, images, downloads, i)
  {
  }

  lemma GroupText(images: seq<CR.ImageRecord>, downloads: seq<CR.DownloadRecord>, g: string, i: int)
    ensures Group(images, downloads)(CR.Text(g), i) == TextBlocks(g, i)
  {
  }

  lemma GroupSlot(images: seq<CR.ImageRecord>, downloads: seq<CR.DownloadRecord>, ph: Placeholder, i: int)
    ensures Group(images, downloads)(CR.Slot(ph), i) == [ResourceBlock(ph, images, downloads, i)]
  {
  }

  /** One loop step on the blocks side: the text blocks of a gap, or the block of a placeholder. */
  lemma StepText(nodes: seq<CR.Node>, blocks: seq<Block>, gap: string, images: seq<CR.ImageRecord>, downloads: seq<CR.DownloadRecord>, now: int, counter: int)
    requires blocks == Flatten(nodes, Group(images, downloads), now) && counter == now + |blocks|
    ensures blocks + TextBlocks(gap, counter) == Flatten(nodes + [CR.Text(gap)], Group(images, downloads), now)
  {
    var g := Group(images, downloads);
    FlattenSnoc(nodes, CR.Text(gap), g, now);
    assert now + |Flatten(nodes, g, now)| == counter;
    GroupText(images, downloads, gap, counter);
  }

  lemma StepSlot(nodes: seq<CR.Node>, blocks: seq<Block>, ph: Placeholder, images: seq<CR.ImageRecord>, downloads: seq<CR.DownloadRecord>, now: int, counter: int)
    requires blocks == Flatten(nodes, Group(images, downloads), now) && counter == now + |blocks|
    ensures blocks + [ResourceBlock(ph, images, downloads, counter)] == Flatten(nodes + [CR.Slot(ph)], Group(images, downloads), now)
  {
    var g := Group(images, downloads);
    FlattenSnoc(nodes, CR.Slot(ph), g, now);
    assert now + |Flatten(nodes, g, now)| == counter;
    GroupSlot(images, downloads, ph, counter);
  }

  lemma {:induction false} FlattenLast(ns: seq<CR.Node>, group: (CR.Node, int) -> seq<Block>, id: int)
    requires ns != []
    ensures Flatten(ns, group, id) == Flatten(ns[..|ns| - 1], group, id) + group(ns[|ns| - 1], id + |Flatten(ns[..|ns| - 1], group, id)|)
  {
  }

  /** What one node's blocks must satisfy: numbered from `i`, each `ok`, standing for the node's placeholder if any. */
  ghost predicate NodeGood(n: CR.Node, bs: seq<Block>, i: int, ok: Block -> bool) {
    && Restored(bs) == (if n.Slot? then [n.ph] else [])
    && Numbered(bs, i, ok)
  }

  /** Blocks numbered `i, i + 1, ...`, each `ok`. */
  ghost predicate Numbered(bs: seq<Block>, i: int, ok: Block -> bool) {
    forall j :: 0 <= j < |bs| ==> bs[j].id == i + j && ok(bs[j])
  }

  ghost predicate GroupGood(group: (CR.Node, int) -> seq<Block>, ok: Block -> bool) {
    forall n, i {:trigger NodeGood(n, group(n, i), i, ok)} :: NodeGood(n, group(n, i), i, ok)
  }

  lemma FlattenFacts(ns: seq<CR.Node>, group: (CR.Node, int) -> seq<Block>, id: int, ok: Block -> bool)
    requires GroupGood(group, ok)
    ensures var bs := Flatten(ns, group, id);
      Restored(bs) == CR.Slots(ns) && forall j :: 0 <= j < |bs| ==> bs[j].id == id + j && ok(bs[j])
  {
    FlattenRestored(ns, group, id, ok);
    FlattenNumbered(ns, group, id, ok);
  }

  lemma {:induction false} FlattenRestored(ns: seq<CR.Node>, group: (CR.Node, int) -> seq<Block>, id: int, ok: Block -> bool)
    requires GroupGood(group, ok)
    ensures Restored(Flatten(ns, group, id)) == CR.Slots(ns)
  {
    if ns != [] {
      var init := ns[..|ns| - 1];
      var last := ns[|ns| - 1];
      var pre := Flatten(init, group, id);
      var tail := group(last, id + |pre|);
      assert Flatten(ns, group, id) == pre + tail;
      assert NodeGood(last, tail, id + |pre|, ok);
      assert Restored(tail) == (if last.Slot? then [last.ph] else []);
      FlattenRestored(init, group, id, ok);
      RestoredAppend(pre, tail);
      assert CR.Slots(ns) == CR.Slots(init) + Restored(tail);
    }
  }

  lemma {:induction false} FlattenNumbered(ns: seq<CR.Node>, group: (CR.Node, int) -> seq<Block>, id: int, ok: Block -> bool)
    requires GroupGood(group, ok)
    ensures Numbered(Flatten(ns, group, id), id, ok)
  {
    if ns != [] {
      var init := ns[..|ns| - 1];
      var last := ns[|ns| - 1];
      var pre := Flatten(init, group, id);
      var tail := group(last, id + |pre|);
      assert Flatten(ns, group, id) == pre + tail;
      assert NodeGood(last, tail, id + |pre|, ok);
      FlattenNumbered(init, group, id, ok);
      NumberedAppend(pre, tail, id, ok);
    }
  }

  /** Two runs of blocks, the second numbered on from the first, are numbered as one. */
  lemma NumberedAppend(pre: seq<Block>, tail: seq<Block>, id: int, ok: Block -> bool)
    requires Numbered(pre, id, ok) && Numbered(tail, id + |pre|, ok)
    ensures Numbered(pre + tail, id, ok)
  {
    var bs := pre + tail;
    forall j | 0 <= j < |bs|
      ensures bs[j].id == id + j && ok(bs[j])
    {
      if j < |pre| {
        assert bs[j] == pre[j];
      } else {
        assert bs[j] == tail[j - |pre|];
      }
    }
  }

  /** `Resolved` for one post's records. */
  function ResolvedIn(images: seq<CR.ImageRecord>, downloads: seq<CR.DownloadRecord>): Block -> bool {
    b => Resolved(b, images, downloads)
  }

  lemma GroupIsGood(images: seq<CR.ImageRecord>, downloads: seq<CR.DownloadRecord>)
    ensures GroupGood(Group(images, downloads), ResolvedIn(images, downloads))
  {
    var ok := ResolvedIn(images, downloads);
    forall n, i ensures NodeGood(n, Group(images, downloads)(n, i), i, ok) {
      GroupApply(images, downloads, n, i);
      NodeBlocksFacts(n, images, downloads, i);
    }
  }

  /** The expanded blocks are numbered `id, id + 1, ...`, stand for the tokenizer's placeholders in order, and are resolved. */
  lemma ExpandFacts(ns: seq<CR.Node>, images: seq<CR.ImageRecord>, downloads: seq<CR.DownloadRecord>, id: int)
    ensures var bs := Expand(ns, images, downloads, id);
      Restored(bs) == CR.Slots(ns) &&
      forall j :: 0 <= j < |bs| ==> bs[j].id == id + j && Resolved(bs[j], images, downloads)
  {
    GroupIsGood(images, downloads);
    FlattenFacts(ns, Group(images, downloads), id, ResolvedIn(images, downloads));
  }

  /** The blank-text case never reaches the placeholder scan: a blank body spells no placeholder. */
  lemma {:induction false} BlankNoneFound(content: string)
    requires IsBlank(content)
    ensures Found(content) == []
  {
    BlankIffAllSpace(content);
    NoBracketNoneFound(content);
  }

  // ---------------------------------------------------------------------------------------
  // The parser

  /** The `textParts.forEach(...)` loop: push one block per kept piece, advancing the counter. */
  method AppendText(blocks: seq<Block>, counter: int, text: string) returns (out: seq<Block>, next: int)
    ensures out == blocks + TextBlocks(text, counter)
    ensures next == counter + |TextBlocks(text, counter)|
  {
    var parts := Kept(SplitHeadings(text));
    out, next := blocks, counter;
    for j := 0 to |parts|
      invariant out == blocks + ClassifyAll(parts[..j], counter)
      invariant next == counter + j
    {
      assert ClassifyAll(parts[..j + 1], counter) == ClassifyAll(parts[..j], counter) + [Classify(parts[j], next)];
      out := out + [Classify(parts[j], next)];
      next := next + 1;
    }
    assert parts[..|parts|] == parts;
  }

  /**
   * The placeholder loop and the trailing text of `parseMDToBlocks`: the blocks are those of
   * the renderer's tokenization of the same body (the ghost `nodes`), numbered from `now`.
   */
  method Walk(content: string, images: seq<CR.ImageRecord>, downloads: seq<CR.DownloadRecord>, now: int)
    returns (blocks: seq<Block>, ghost nodes: seq<CR.Node>)
    ensures CR.Rejoin(nodes) == content && CR.Slots(nodes) == Found(content)
    ensures CR.NoEmptyText(nodes) && CR.NoAdjacentText(nodes)
    ensures blocks == Expand(nodes, images, downloads, now)
    ensures Restored(blocks) == Found(content)
    ensures forall j :: 0 <= j < |blocks| ==> blocks[j].id == now + j && Resolved(blocks[j], images, downloads)
  {
    var ms := Matches(content);
    MatchesPlaced(content);
    assert content[..0] == [] && ms[0..] == ms;
    var lastIndex: nat := 0;
    var counter := now;
    blocks := [];
    nodes := [];
    for k := 0 to |ms|
      invariant CR.Tokenized(content, ms, k, lastIndex, nodes)
      invariant blocks == Flatten(nodes, Group(images, downloads), now)
      invariant counter == now + |blocks|
    {
      var m := ms[k];
      CR.TokenizeStep(content, ms, k, lastIndex, nodes);
      ghost var before := nodes;
      if m.index > lastIndex {
        var gap := content[lastIndex..m.index];
        StepText(nodes, blocks, gap, images, downloads, now, counter);
        nodes := nodes + [CR.Text(gap)];
        blocks, counter := AppendText(blocks, counter, gap);
      }
      StepSlot(nodes, blocks, m.ph, images, downloads, now, counter);
      nodes := nodes + [CR.Slot(m.ph)];
      blocks := blocks + [ResourceBlock(m.ph, images, downloads, counter)];
      counter := counter + 1;
      assert nodes == CR.Pushed(content, lastIndex, m, before);
      lastIndex := End(m);
    }
    CR.TokenizeLast(content, ms, lastIndex, nodes);
    if lastIndex < |content| {
      var rest := content[lastIndex..];
      StepText(nodes, blocks, rest, images, downloads, now, counter);
      nodes := nodes + [CR.Text(rest)];
      blocks, counter := AppendText(blocks, counter, rest);
    }
    MatchesFound(content);
    ExpandFacts(nodes, images, downloads, now);
  }

  /**
   * What `parseMDToBlocks` returns, with the split of the body into text and placeholder nodes
   * left unnamed: one empty text block for a blank body without records, otherwise the blocks
   * the split expands to, or one empty text block when it expands to none.
   */
  ghost predicate ParsedAs(content: string, images: seq<CR.ImageRecord>, downloads: seq<CR.DownloadRecord>,
                           now: int, later: int, blocks: seq<Block>)
  {
    if IsBlank(content) && images == [] && downloads == [] then blocks == [EmptyTextBlock(now)]
    else exists nodes: seq<CR.Node> ::
      && CR.Rejoin(nodes) == content && CR.Slots(nodes) == Found(content)
      && CR.NoEmptyText(nodes) && CR.NoAdjacentText(nodes)
      && blocks == (if Expand(nodes, images, downloads, now) == [] then [EmptyTextBlock(later)] else Expand(nodes, images, downloads, now))
  }

  /**
   * `parseMDToBlocks`. `now` is the clock reading the ids count from (also the id of the block
   * returned for an empty post), `later` the reading taken for the fallback block at the end.
   */
  method ParseBlocks(content: string, images: seq<CR.ImageRecord>, downloads: seq<CR.DownloadRecord>, now: int, later: int)
    returns (blocks: seq<Block>, ghost nodes: seq<CR.Node>)
    ensures IsBlank(content) && images == [] && downloads == [] ==> blocks == [EmptyTextBlock(now)]
    ensures !(IsBlank(content) && images == [] && downloads == []) ==>
      && CR.Rejoin(nodes) == content && CR.Slots(nodes) == Found(content)
      && CR.NoEmptyText(nodes) && CR.NoAdjacentText(nodes)
      && blocks == (if Expand(nodes, images, downloads, now) == [] then [EmptyTextBlock(later)] else Expand(nodes, images, downloads, now))
    ensures blocks != []
    ensures blocks == [EmptyTextBlock(later)] || forall j :: 0 <= j < |blocks| ==> blocks[j].id == now + j
    ensures Restored(blocks) == Found(content)
    ensures forall j :: 0 <= j < |blocks| ==> Resolved(blocks[j], images, downloads)
  {
    if IsBlank(content) && images == [] && downloads == [] {
      BlankNoneFound(content);
      assert Restored([EmptyTextBlock(now)]) == [] + Restored([]);
      return [EmptyTextBlock(now)], [];
    }
    blocks, nodes := Walk(content, images, downloads, now);
    if blocks == [] {
      assert Restored([EmptyTextBlock(later)]) == [] + Restored([]);
      blocks := [EmptyTextBlock(later)];
    }
  }

  /**
   * Saving a block list and loading it back (serialise, then parse): the loaded list stands
   * for exactly the images and downloads that were saved, in the same order.
   */
  method Reload(bs: seq<Block>, images: seq<CR.ImageRecord>, downloads: seq<CR.DownloadRecord>, now: int, later: int)
    returns (loaded: seq<Block>)
    requires Serializable(bs)
    ensures loaded != []
    ensures Restored(loaded) == Emitted(bs)
    ensures forall j :: 0 <= j < |loaded| ==> Resolved(loaded[j], images, downloads)
  {
    SerializeFound(bs);
    ghost var nodes;
    loaded, nodes := ParseBlocks(Serialize(bs), images, downloads, now, later);
  }
}
