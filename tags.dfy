/**
 * The tags page: `fetchTags` groups the posts under each of their tags, selects the tag named
 * by the location hash when the page has it, and `handleTagClick` toggles the selection.
 *
 * The posts come from `getTagsData` and the decoded hash from `decodeURIComponent`; both are
 * parameters (a failed fetch and a malformed hash are flags). Animation and navigation history
 * are not modelled; the navigation target is returned.
 */
module Tags {
  import opened Wrappers

  /** A post as the tags page reads it: its tags, and the card data carried along untouched. */
  datatype TaggedPost = TaggedPost(slug: string, title: string, tags: seq<string>)

  /** `tagMap[tag] || []`. */
  function Entry(m: map<string, seq<TaggedPost>>, tag: string): seq<TaggedPost> {
    if tag in m then m[tag] else []
  }

  /** `if (!tagMap[tag]) tagMap[tag] = []; tagMap[tag].push(post)`. */
  function Push(m: map<string, seq<TaggedPost>>, tag: string, p: TaggedPost): map<string, seq<TaggedPost>> {
    m[tag := Entry(m, tag) + [p]]
  }

  /** The map after pushing `p` under each of `ts`, in order. */
  function PushAll(m: map<string, seq<TaggedPost>>, p: TaggedPost, ts: seq<string>): map<string, seq<TaggedPost>>
    decreases |ts|
  {
    if ts == [] then m else Push(PushAll(m, p, ts[..|ts| - 1]), ts[|ts| - 1], p)
  }

  /** The map built from `posts`, post after post. */
  function TagMap(posts: seq<TaggedPost>): map<string, seq<TaggedPost>>
    decreases |posts|
  {
    if posts == [] then map[]
    else
      var p := posts[|posts| - 1];
      PushAll(TagMap(posts[..|posts| - 1]), p, p.tags)
  }

  // ---------------------------------------------------------------------------------------
  // An independent description of the groups

  /** How often `tag` occurs in `ts`. */
  function Occurrences(ts: seq<string>, tag: string): nat {
    multiset(ts)[tag]
  }

  /** Every post, in input order, once per occurrence of `tag` among its tags. */
  function Group(posts: seq<TaggedPost>, tag: string): seq<TaggedPost>
    decreases |posts|
  {
    if posts == [] then []
    else
      var p := posts[|posts| - 1];
      Group(posts[..|posts| - 1], tag) + seq(Occurrences(p.tags, tag), _ => p)
  }

  /** Some post carries `tag`. */
  predicate Tagged(posts: seq<TaggedPost>, tag: string) {
    exists i :: 0 <= i < |posts| && tag in posts[i].tags
  }

  lemma {:induction false} PushAllEntry(m: map<string, seq<TaggedPost>>, p: TaggedPost, ts: seq<string>, tag: string)
    ensures Entry(PushAll(m, p, ts), tag) == Entry(m, tag) + seq(Occurrences(ts, tag), _ => p)
    ensures tag in PushAll(m, p, ts) <==> tag in m || tag in ts
    decreases |ts|
  {
    if ts != [] {
      var init, last := ts[..|ts| - 1], ts[|ts| - 1];
      var before := PushAll(m, p, init);
      assert PushAll(m, p, ts) == Push(before, last, p);
      PushAllEntry(m, p, init, tag);
      LastOccurrence(ts, tag);
      var k := Occurrences(init, tag);
      if last == tag {
        Repeated(p, k);
      }
    }
  }

  /** Counting occurrences and membership, one tag at a time from the end. */
  lemma LastOccurrence(ts: seq<string>, tag: string)
    requires ts != []
    ensures var init, last := ts[..|ts| - 1], ts[|ts| - 1];
      && Occurrences(ts, tag) == Occurrences(init, tag) + (if last == tag then 1 else 0)
      && (tag in ts <==> tag in init || tag == last)
  {
    var init, last := ts[..|ts| - 1], ts[|ts| - 1];
    assert ts == init + [last];
    assert multiset(ts) == multiset(init) + multiset{last};
  }

  lemma Repeated(p: TaggedPost, k: nat)
    ensures seq(k + 1, _ => p) == seq(k, _ => p) + [p]
  {
  }

  /** Each tag's list holds, in input order, every post once per occurrence of the tag in its tags. */
  lemma {:induction false} TagMapGroups(posts: seq<TaggedPost>, tag: string)
    ensures Entry(TagMap(posts), tag) == Group(posts, tag)
    ensures tag in TagMap(posts) <==> Tagged(posts, tag)
    decreases |posts|
  {
    if posts != [] {
      var init, p := posts[..|posts| - 1], posts[|posts| - 1];
      TagMapGroups(init, tag);
      PushAllEntry(TagMap(init), p, p.tags, tag);
      if Tagged(posts, tag) && !(tag in p.tags) {
        var i :| 0 <= i < |posts| && tag in posts[i].tags;
        assert init[i] == posts[i];
      }
      if Tagged(init, tag) {
        var i :| 0 <= i < |init| && tag in init[i].tags;
        assert posts[i] == init[i];
      }
    }
  }

  /** A key is there only for a tag that occurs, and its list is never empty. */
  lemma KeysAreOccurringTags(posts: seq<TaggedPost>, tag: string)
    requires tag in TagMap(posts)
    ensures Tagged(posts, tag) && TagMap(posts)[tag] != []
  {
    TagMapGroups(posts, tag);
    var i :| 0 <= i < |posts| && tag in posts[i].tags;
    GroupHasPost(posts, tag, i);
  }

  lemma {:induction false} GroupHasPost(posts: seq<TaggedPost>, tag: string, i: nat)
    requires i < |posts| && tag in posts[i].tags
    ensures posts[i] in Group(posts, tag)
    decreases |posts|
  {
    var init, p := posts[..|posts| - 1], posts[|posts| - 1];
    if i == |posts| - 1 {
      assert tag in multiset(p.tags);
      assert seq(Occurrences(p.tags, tag), _ => p)[0] == p;
    } else {
      assert init[i] == posts[i];
      GroupHasPost(init, tag, i);
    }
  }

  // ---------------------------------------------------------------------------------------
  // The page

  /** Where `handleTagClick` navigates: the tag's hash, or the bare path. */
  datatype Target = HashOf(tag: string) | PathOnly

  /** `selectedTag === tag ? null : tag`. */
  function Toggle(selected: Option<string>, tag: string): (r: Option<string>)
    ensures r == Some(tag) <==> selected != Some(tag)
    ensures r.Some? ==> r.value == tag
  {
    if selected == Some(tag) then None else Some(tag)
  }

  /** Clicking a tag twice leaves it selected only if it was selected before. */
  lemma ToggleTwice(selected: Option<string>, tag: string)
    ensures Toggle(Toggle(selected, tag), tag) == (if selected == Some(tag) then selected else None)
  {
  }

  /** The `posts.forEach(post => post.tags.forEach(tag => ...))` loops of `fetchTags`. */
  method BuildTagMap(posts: seq<TaggedPost>) returns (tagMap: map<string, seq<TaggedPost>>)
    ensures tagMap == TagMap(posts)
  {
    tagMap := map[];
    for i := 0 to |posts|
      invariant tagMap == TagMap(posts[..i])
    {
      var p := posts[i];
      assert posts[..i + 1][..i] == posts[..i] && posts[..i + 1][i] == p;
      for j := 0 to |p.tags|
        invariant tagMap == PushAll(TagMap(posts[..i]), p, p.tags[..j])
      {
        var tag := p.tags[j];
        assert p.tags[..j + 1][..j] == p.tags[..j];
        if tag !in tagMap {
          tagMap := tagMap[tag := []];
        }
        tagMap := tagMap[tag := tagMap[tag] + [p]];
      }
      assert p.tags[..|p.tags|] == p.tags;
    }
    assert posts[..|posts|] == posts;
  }

  class TagsPage {
    var tags: map<string, seq<TaggedPost>>
    var loading: bool
    var error: bool
    var selectedTag: Option<string>

    constructor()
      ensures tags == map[] && loading && !error && selectedTag == None
    {
      tags := map[];
      loading := true;
      error := false;
      selectedTag := None;
    }

    /**
     * `fetchTags`: on a failed fetch only the error shows; otherwise the map is built and
     * stored, and the hash's tag (`hash`, `None` when it is not valid percent-encoding, which
     * throws) is selected when it is a non-empty key of the map.
     */
    method FetchTags(posts: seq<TaggedPost>, fetchFails: bool, hash: Option<string>)
      modifies this
      ensures !loading
      ensures fetchFails ==> error && tags == old(tags) && selectedTag == old(selectedTag)
      ensures !fetchFails ==>
        && tags == TagMap(posts)
        && error == hash.None?
        && selectedTag == (if hash.Some? && hash.value != [] && hash.value in tags then hash else old(selectedTag))
    {
      loading, error := true, false;
      if fetchFails {
        error := true;
      } else {
        var tagMap := BuildTagMap(posts);
        tags := tagMap;
        if hash.None? {
          error := true;
        } else if hash.value != [] && hash.value in tagMap {
          selectedTag := hash;
        }
      }
      loading := false;
    }

    /** `handleTagClick`: toggles the selection and navigates to the new tag's hash, or to the bare path when none is left. */
    method HandleTagClick(tag: string) returns (target: Target)
      modifies this`selectedTag
      ensures selectedTag == Toggle(old(selectedTag), tag)
      ensures target == (if selectedTag.Some? && selectedTag.value != [] then HashOf(tag) else PathOnly)
    {
      var newTag := if selectedTag == Some(tag) then None else Some(tag);
      selectedTag := newTag;
      target := if newTag.Some? && newTag.value != [] then HashOf(newTag.value) else PathOnly;
    }
  }
}
