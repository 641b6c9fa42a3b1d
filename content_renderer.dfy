/**
 * The post body renderer (`ContentRenderer`, in a TypeScript and an older JavaScript version):
 * the body is cut into text nodes and placeholder nodes by walking the `matchAll` results with a
 * `lastIndex` cursor; text nodes go to the markdown renderer, placeholder nodes are looked up by
 * id among the post's images and downloads, and a download link is shown only to a signed-in
 * reader.
 */
module ContentRenderer {
  import opened Wrappers
  import opened Placeholders

  /** `{type: 'text', content}` or `{type, id}`. */
  datatype Node = Text(content: string) | Slot(ph: Placeholder)

  /** What a node stands for in the body. */
  function NodeText(n: Node): string {
    match n
    case Text(c) => c
    case Slot(p) => PlaceholderText(p)
  }

  /** The body spelled back from its nodes. */
  function Rejoin(ns: seq<Node>): string {
    if ns == [] then [] else Rejoin(ns[..|ns| - 1]) + NodeText(ns[|ns| - 1])
  }

  /** The placeholders of the placeholder nodes, in order. */
  function Slots(ns: seq<Node>): seq<Placeholder> {
    if ns == [] then []
    else Slots(ns[..|ns| - 1]) + (match ns[|ns| - 1] case Slot(p) => [p] case Text(_) => [])
  }

  predicate NoEmptyText(ns: seq<Node>) {
    forall i :: 0 <= i < |ns| ==> ns[i].Text? ==> ns[i].content != []
  }

  /** Text between two placeholders is one node, never two. */
  ghost predicate NoAdjacentText(ns: seq<Node>) {
    forall i, j :: 0 <= i < j < |ns| && j == i + 1 ==> !(ns[i].Text? && ns[j].Text?)
  }

  lemma Snoc(ns: seq<Node>, n: Node)
    ensures Rejoin(ns + [n]) == Rejoin(ns) + NodeText(n)
    ensures Slots(ns + [n]) == Slots(ns) + (if n.Slot? then [n.ph] else [])
  {
    assert (ns + [n])[..|ns|] == ns;
  }

  lemma SnocShape(ns: seq<Node>, n: Node)
    requires NoEmptyText(ns) && NoAdjacentText(ns)
    requires n.Text? ==> n.content != [] && (ns == [] || ns[|ns| - 1].Slot?)
    ensures NoEmptyText(ns + [n]) && NoAdjacentText(ns + [n])
  {
    var r := ns + [n];
    forall i, j | 0 <= i < j < |r| && j == i + 1 ensures !(r[i].Text? && r[j].Text?) {
      if j < |ns| {
        assert r[i] == ns[i] && r[j] == ns[j];
      }
    }
  }

  lemma SliceJoin(s: string, i: nat, j: nat)
    requires i <= j <= |s|
    ensures s[..i] + s[i..j] == s[..j]
  {
  }

  /** Text spelled at index `i` extends the prefix before `i`. */
  lemma PrefixAt(s: string, i: nat, w: string)
    requires i <= |s| && w <= s[i..]
    ensures i + |w| <= |s| && s[..i] + w == s[..i + |w|]
  {
    assert s[i..i + |w|] == w;
  }

  lemma IdsSnoc(ms: seq<Match>, k: nat)
    requires k < |ms|
    ensures Ids(ms[..k + 1]) == Ids(ms[..k]) + [ms[k].ph]
  {
    assert ms[..k + 1] == ms[..k] + [ms[k]];
    IdsAppend(ms[..k], [ms[k]]);
  }

  /** What the tokenizer loop keeps after handling the first `k` matches, with the cursor at `lastIndex`. */
  ghost predicate Tokenized(content: string, ms: seq<Match>, k: nat, lastIndex: nat, nodes: seq<Node>) {
    && k <= |ms|
    && lastIndex <= |content|
    && Placed(content, ms[k..], lastIndex)
    && Rejoin(nodes) == content[..lastIndex]
    && Slots(nodes) == Ids(ms[..k])
    && NoEmptyText(nodes) && NoAdjacentText(nodes)
    && (nodes == [] || nodes[|nodes| - 1].Slot?)
    && (content == [] ==> nodes == [])
  }

  /** The nodes one match adds: the text since the cursor, if any, then the placeholder. */
  function Pushed(content: string, lastIndex: nat, m: Match, nodes: seq<Node>): seq<Node>
    requires lastIndex <= m.index <= |content|
  {
    (if m.index > lastIndex then nodes + [Text(content[lastIndex..m.index])] else nodes) + [Slot(m.ph)]
  }

  /** The first remaining match starts at or after the cursor and is spelled at its index. */
  lemma PlacedHead(content: string, ms: seq<Match>, k: nat, lastIndex: nat)
    requires k < |ms| && Placed(content, ms[k..], lastIndex)
    ensures lastIndex <= ms[k].index <= |content|
    ensures PlaceholderText(ms[k].ph) <= content[ms[k].index..]
    ensures Placed(content, ms[k + 1..], End(ms[k]))
  {
    assert ms[k..][0] == ms[k] && ms[k..][1..] == ms[k + 1..];
  }

  lemma PushedRejoin(content: string, lastIndex: nat, m: Match, nodes: seq<Node>)
    requires lastIndex <= m.index <= |content| && PlaceholderText(m.ph) <= content[m.index..]
    requires Rejoin(nodes) == content[..lastIndex]
    ensures End(m) <= |content| && Rejoin(Pushed(content, lastIndex, m, nodes)) == content[..End(m)]
    ensures Slots(Pushed(content, lastIndex, m, nodes)) == Slots(nodes) + [m.ph]
  {
    var before := if m.index > lastIndex then nodes + [Text(content[lastIndex..m.index])] else nodes;
    GapRejoin(content, lastIndex, m.index, nodes);
    assert Pushed(content, lastIndex, m, nodes) == before + [Slot(m.ph)];
    SlotRejoin(content, m.index, m.ph, before);
  }

  /** The text since the cursor, when there is any, extends the rejoined prefix up to `i`. */
  lemma GapRejoin(content: string, lastIndex: nat, i: nat, nodes: seq<Node>)
    requires lastIndex <= i <= |content| && Rejoin(nodes) == content[..lastIndex]
    ensures var before := if i > lastIndex then nodes + [Text(content[lastIndex..i])] else nodes;
      Rejoin(before) == content[..i] && Slots(before) == Slots(nodes)
  {
    if i > lastIndex {
      Snoc(nodes, Text(content[lastIndex..i]));
      SliceJoin(content, lastIndex, i);
    }
  }

  /** A placeholder spelled at `i` extends the rejoined prefix past its text. */
  lemma SlotRejoin(content: string, i: nat, ph: Placeholder, before: seq<Node>)
    requires i <= |content| && PlaceholderText(ph) <= content[i..] && Rejoin(before) == content[..i]
    ensures i + Len(ph) <= |content| && Rejoin(before + [Slot(ph)]) == content[..i + Len(ph)]
    ensures Slots(before + [Slot(ph)]) == Slots(before) + [ph]
  {
    Snoc(before, Slot(ph));
    PrefixAt(content, i, PlaceholderText(ph));
    LenText(ph);
  }

  lemma PushedShape(content: string, lastIndex: nat, m: Match, nodes: seq<Node>)
    requires lastIndex <= m.index <= |content|
    requires NoEmptyText(nodes) && NoAdjacentText(nodes) && (nodes == [] || nodes[|nodes| - 1].Slot?)
    ensures var r := Pushed(content, lastIndex, m, nodes);
      NoEmptyText(r) && NoAdjacentText(r) && r[|r| - 1].Slot?
  {
    var before := if m.index > lastIndex then nodes + [Text(content[lastIndex..m.index])] else nodes;
    if m.index > lastIndex {
      SnocShape(nodes, Text(content[lastIndex..m.index]));
    }
    SnocShape(before, Slot(m.ph));
  }

  lemma TokenizeStep(content: string, ms: seq<Match>, k: nat, lastIndex: nat, nodes: seq<Node>)
    requires Tokenized(content, ms, k, lastIndex, nodes) && k < |ms|
    ensures lastIndex <= ms[k].index <= |content|
    ensures Tokenized(content, ms, k + 1, End(ms[k]), Pushed(content, lastIndex, ms[k], nodes))
  {
    PlacedHead(content, ms, k, lastIndex);
    PushedRejoin(content, lastIndex, ms[k], nodes);
    PushedShape(content, lastIndex, ms[k], nodes);
    IdsSnoc(ms, k);
  }

  lemma TokenizeLast(content: string, ms: seq<Match>, lastIndex: nat, nodes: seq<Node>)
    requires Tokenized(content, ms, |ms|, lastIndex, nodes)
    ensures var final := if lastIndex < |content| then nodes + [Text(content[lastIndex..])] else nodes;
      Rejoin(final) == content && Slots(final) == Ids(ms) &&
      NoEmptyText(final) && NoAdjacentText(final) && (content == [] ==> final == [])
  {
    if lastIndex < |content| {
      Snoc(nodes, Text(content[lastIndex..]));
      SnocShape(nodes, Text(content[lastIndex..]));
      SliceJoin(content, lastIndex, |content|);
    }
    assert ms[..|ms|] == ms;
  }

  /**
   * The tokenizer loop: for each match, the text since the cursor (if any) and then the
   * placeholder; after the last match, the rest of the body (if any).
   */
  method Tokenize(content: string) returns (nodes: seq<Node>)
    ensures Rejoin(nodes) == content
    ensures Slots(nodes) == Found(content)
    ensures NoEmptyText(nodes) && NoAdjacentText(nodes)
    ensures content == [] ==> nodes == []
  {
    var ms := Matches(content);
    MatchesPlaced(content);
    assert content[..0] == [] && ms[0..] == ms;
    var lastIndex: nat := 0;
    nodes := [];
    for k := 0 to |ms|
      invariant Tokenized(content, ms, k, lastIndex, nodes)
    {
      var m := ms[k];
      TokenizeStep(content, ms, k, lastIndex, nodes);
      ghost var before := nodes;
      if m.index > lastIndex {
        nodes := nodes + [Text(content[lastIndex..m.index])];
      }
      nodes := nodes + [Slot(m.ph)];
      assert nodes == Pushed(content, lastIndex, m, before);
      lastIndex := End(m);
    }
    TokenizeLast(content, ms, lastIndex, nodes);
    if lastIndex < |content| {
      nodes := nodes + [Text(content[lastIndex..])];
    }
    MatchesFound(content);
  }

  // ---------------------------------------------------------------------------------------
  // Lookup and rendering

  /** An entry of `contentImages`. */
  datatype ImageRecord = ImageRecord(id: string, src: string, alt: string)

  /** An entry of `downloads`. */
  datatype DownloadRecord = DownloadRecord(id: string, description: string, url: string)

  /** The index of the last entry of `xs` whose key is `id`. */
  function LastWith<T>(xs: seq<T>, key: T -> string, id: string): (r: Option<nat>)
    ensures r.None? <==> forall i :: 0 <= i < |xs| ==> key(xs[i]) != id
    ensures r.Some? ==> r.value < |xs| && key(xs[r.value]) == id
    ensures r.Some? ==> forall j :: r.value < j < |xs| ==> key(xs[j]) != id
  {
    if xs == [] then None
    else if key(xs[|xs| - 1]) == id then Some(|xs| - 1)
    else
      var init := xs[..|xs| - 1];
      assert forall i :: 0 <= i < |init| ==> init[i] == xs[i];
      LastWith(init, key, id)
  }

  /**
   * `new Map(list.map(x => [x._id, x])).get(id)`: a later entry replaces an earlier one with the
   * same id, so the last entry with the id wins.
   */
  function Lookup<T>(xs: seq<T>, key: T -> string, id: string): Option<T> {
    match LastWith(xs, key, id)
    case None => None
    case Some(i) => Some(xs[i])
  }

  function ImageId(r: ImageRecord): string { r.id }
  function DownloadId(r: DownloadRecord): string { r.id }

  /** The download button: the link itself, or the sign-in prompt. */
  datatype Action = DownloadLink(url: string) | SignInButton

  /** What one node renders to. */
  datatype View =
    | Markdown(source: string)
    | Figure(src: string, alt: string, caption: Option<string>)
    | DownloadCard(description: string, action: Action)
    | Nothing

  function RenderNode(n: Node, images: seq<ImageRecord>, downloads: seq<DownloadRecord>, authenticated: bool): View {
    match n
    case Text(c) => Markdown(c)
    case Slot(Placeholder(Image, id)) =>
      (match Lookup(images, ImageId, id)
       case None => Nothing
       case Some(img) => Figure(img.src, img.alt, if img.alt != [] then Some(img.alt) else None))
    case Slot(Placeholder(Download, id)) =>
      (match Lookup(downloads, DownloadId, id)
       case None => Nothing
       case Some(d) => DownloadCard(d.description, if authenticated then DownloadLink(d.url) else SignInButton))
  }

  function RenderAll(ns: seq<Node>, images: seq<ImageRecord>, downloads: seq<DownloadRecord>, authenticated: bool): (vs: seq<View>)
    ensures |vs| == |ns|
  {
    if ns == [] then []
    else RenderAll(ns[..|ns| - 1], images, downloads, authenticated) + [RenderNode(ns[|ns| - 1], images, downloads, authenticated)]
  }

  /**
   * A node renders to nothing exactly when it is a placeholder whose id names no record of its
   * kind; a download link appears only for a signed-in reader and carries the url of a record
   * with the placeholder's id.
   */
  lemma RenderNodeGate(n: Node, images: seq<ImageRecord>, downloads: seq<DownloadRecord>, authenticated: bool)
    ensures RenderNode(n, images, downloads, authenticated).Nothing? <==>
      n.Slot? && (if n.ph.kind == Image then forall i :: 0 <= i < |images| ==> images[i].id != n.ph.id
                  else forall i :: 0 <= i < |downloads| ==> downloads[i].id != n.ph.id)
    ensures RenderNode(n, images, downloads, authenticated).Markdown? <==> n.Text?
    ensures var v := RenderNode(n, images, downloads, authenticated);
      v.DownloadCard? && v.action.DownloadLink? ==>
        authenticated && n.Slot? && n.ph.kind == Download &&
        exists i :: 0 <= i < |downloads| && downloads[i].id == n.ph.id && downloads[i].url == v.action.url
    ensures var v := RenderNode(n, images, downloads, authenticated);
      v.DownloadCard? && !authenticated ==> v.action == SignInButton
  {
    if n.Slot? {
      var id := n.ph.id;
      assert forall i :: 0 <= i < |images| ==> ImageId(images[i]) == images[i].id;
      assert forall i :: 0 <= i < |downloads| ==> DownloadId(downloads[i]) == downloads[i].id;
    }
  }

  lemma {:induction false} RenderAllAt(ns: seq<Node>, images: seq<ImageRecord>, downloads: seq<DownloadRecord>, authenticated: bool, i: nat)
    requires i < |ns|
    ensures RenderAll(ns, images, downloads, authenticated)[i] == RenderNode(ns[i], images, downloads, authenticated)
  {
    if i < |ns| - 1 {
      RenderAllAt(ns[..|ns| - 1], images, downloads, authenticated, i);
    }
  }

  /**
   * The component: tokenize, then render each node. An empty body renders nothing; every
   * download link on the page is shown to a signed-in reader only.
   */
  method Render(content: string, images: seq<ImageRecord>, downloads: seq<DownloadRecord>, authenticated: bool)
    returns (nodes: seq<Node>, views: seq<View>)
    ensures Rejoin(nodes) == content && Slots(nodes) == Found(content)
    ensures views == RenderAll(nodes, images, downloads, authenticated)
    ensures content == [] ==> views == []
    ensures forall i :: 0 <= i < |views| ==> views[i].DownloadCard? && views[i].action.DownloadLink? ==> authenticated
  {
    nodes := Tokenize(content);
    views := RenderAll(nodes, images, downloads, authenticated);
    forall i | 0 <= i < |views|
      ensures views[i].DownloadCard? && views[i].action.DownloadLink? ==> authenticated
    {
      RenderAllAt(nodes, images, downloads, authenticated, i);
      RenderNodeGate(nodes[i], images, downloads, authenticated);
    }
  }
}
