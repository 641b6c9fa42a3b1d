/**
 * Multi-term search over the post list (`searchPosts`), in its TypeScript and older JavaScript
 * forms. A query is split into lower-cased terms on single spaces, and a post is kept when the
 * lower-cased text of its title, content, tags and category contains every term. The two forms
 * differ in how they build that text: the TypeScript one joins an array (a missing field adds
 * nothing), the JavaScript one fills a template string (a missing field adds `undefined`).
 */
module SearchUtils {
  import opened Wrappers
  import opened Text

  /** The fields `searchPosts` reads; `None` is a field that is missing. */
  datatype Post = Post(title: Option<string>, content: Option<string>, tags: Option<seq<string>>,
                       category: Option<string>)

  /** `[a, b, c, d].join(' ')`, where a missing entry joins as the empty string. */
  function Field(s: Option<string>): string {
    s.GetOr([])
  }

  /** The lower-cased searched text of the TypeScript version. */
  function HaystackTs(p: Post): string {
    var tags := if p.tags.Some? then Some(Join(p.tags.value, " ")) else None;
    Lower(Join([Field(p.title), Field(p.content), Field(tags), Field(p.category)], " "))
  }

  /** A template-string slot: a missing value prints as `undefined`. */
  function Slot(s: Option<string>): string {
    s.GetOr("undefined")
  }

  /** The lower-cased searched text of the JavaScript version. */
  function HaystackJs(p: Post): string {
    var tags := if p.tags.Some? then Some(Join(p.tags.value, " ")) else None;
    Lower(Slot(p.title) + " " + Slot(p.content) + " " + Slot(tags) + " " + Slot(p.category))
  }

  /** `searchTerms.every(term => text.includes(term))`. */
  predicate HasAll(text: string, terms: seq<string>) {
    forall i :: 0 <= i < |terms| ==> Contains(text, terms[i])
  }

  /** `a` is `b` with some elements left out, the rest in their order. */
  predicate Subseq<T(==)>(a: seq<T>, b: seq<T>)
    decreases |b|
  {
    a == [] || (b != [] && ((a[0] == b[0] && Subseq(a[1..], b[1..])) || Subseq(a, b[1..])))
  }

  /**
   * `posts.filter(post => every term occurs in text(post))`: exactly the posts that contain
   * every term, each as often as in the input, in input order.
   */
  function Filter(posts: seq<Post>, terms: seq<string>, text: Post -> string): (r: seq<Post>)
    ensures forall i :: 0 <= i < |r| ==> HasAll(text(r[i]), terms)
    ensures Subseq(r, posts)
    ensures forall p :: multiset(r)[p] == if HasAll(text(p), terms) then multiset(posts)[p] else 0
  {
    if posts == [] then []
    else
      var rest := Filter(posts[1..], terms, text);
      assert posts == [posts[0]] + posts[1..];
      if HasAll(text(posts[0]), terms) then
        assert ([posts[0]] + rest)[1..] == rest;
        [posts[0]] + rest
      else rest
  }

  /** The terms of the TypeScript version: the trimmed, lower-cased query split on `' '`. */
  function TermsTs(query: string): seq<string> {
    Split(Lower(Trim(query)), " ")
  }

  /** `searchPosts` (TypeScript). */
  function SearchPosts(posts: seq<Post>, query: string): seq<Post> {
    if Trim(query) == [] then [] else Filter(posts, TermsTs(query), HaystackTs)
  }

  /** The terms of the JavaScript version: the untrimmed query, lower-cased and split on `' '`. */
  function TermsJs(query: string): seq<string> {
    Split(Lower(query), " ")
  }

  /** `searchPosts` (JavaScript). */
  function SearchPostsJs(posts: seq<Post>, query: string): seq<Post> {
    if Trim(query) == [] then [] else Filter(posts, TermsJs(query), HaystackJs)
  }

  // ---------------------------------------------------------------------------------------
  // What a search returns

  /**
   * A blank query finds nothing; any other query finds, in order, exactly the posts whose text
   * contains every term of the trimmed, lower-cased query.
   */
  lemma SearchFacts(posts: seq<Post>, query: string)
    ensures IsBlank(query) ==> SearchPosts(posts, query) == []
    ensures !IsBlank(query) ==> var r := SearchPosts(posts, query);
      && Subseq(r, posts)
      && (forall i :: 0 <= i < |r| ==> HasAll(HaystackTs(r[i]), TermsTs(query)))
      && forall p :: multiset(r)[p] == if HasAll(HaystackTs(p), TermsTs(query)) then multiset(posts)[p] else 0
  {
  }

  /** The same for the JavaScript version, with its untrimmed terms and template text. */
  lemma SearchJsFacts(posts: seq<Post>, query: string)
    ensures IsBlank(query) ==> SearchPostsJs(posts, query) == []
    ensures !IsBlank(query) ==> var r := SearchPostsJs(posts, query);
      && Subseq(r, posts)
      && (forall i :: 0 <= i < |r| ==> HasAll(HaystackJs(r[i]), TermsJs(query)))
      && forall p :: multiset(r)[p] == if HasAll(HaystackJs(p), TermsJs(query)) then multiset(posts)[p] else 0
  {
  }

  /** Terms are taken from the text between single spaces: a query with no space is one term. */
  lemma TermsOfWord(query: string)
    requires IsTrimmed(query) && query != [] && ' ' !in query
    ensures TermsTs(query) == [Lower(query)]
  {
    TrimmedIff(query);
    var l := Lower(query);
    forall j | 0 <= j < |l| ensures l[j] != ' ' {
      assert query[j] in query;
    }
    NoSpace(l);
  }

  // ---------------------------------------------------------------------------------------
  // More terms, fewer results

  /** Every post that contains the longer term list contains the shorter one. */
  lemma {:induction false} FilterNarrows(posts: seq<Post>, terms: seq<string>, more: seq<string>, text: Post -> string)
    ensures Subseq(Filter(posts, terms + more, text), Filter(posts, terms, text))
    decreases |posts|
  {
    if posts != [] {
      FilterNarrows(posts[1..], terms, more, text);
      var a := Filter(posts[1..], terms + more, text);
      var b := Filter(posts[1..], terms, text);
      if HasAll(text(posts[0]), terms + more) {
        assert HasAll(text(posts[0]), terms) by {
          forall i | 0 <= i < |terms| ensures Contains(text(posts[0]), terms[i]) {
            assert (terms + more)[i] == terms[i];
          }
        }
        assert ([posts[0]] + a)[1..] == a && ([posts[0]] + b)[1..] == b;
      } else if HasAll(text(posts[0]), terms) {
        SubseqDropHead(a, b, posts[0]);
      }
    }
  }

  lemma SubseqDropHead<T>(a: seq<T>, b: seq<T>, x: T)
    requires Subseq(a, b)
    ensures Subseq(a, [x] + b)
  {
    assert ([x] + b)[1..] == b;
  }

  lemma OccursSpace(s: string, j: int)
    ensures OccursAt(s, " ", j) <==> 0 <= j < |s| && s[j] == ' '
  {
    if 0 <= j < |s| {
      assert s[j..j + 1] == [s[j]];
    }
  }

  /** Text without a space is not split. */
  lemma NoSpace(s: string)
    requires forall j :: 0 <= j < |s| ==> s[j] != ' '
    ensures Split(s, " ") == [s]
  {
    forall j ensures !OccursAt(s, " ", j) {
      OccursSpace(s, j);
    }
  }

  /** The first space closes the first piece. */
  lemma FirstSpace(s: string, k: nat)
    requires k < |s| && s[k] == ' '
    requires forall j :: 0 <= j < k ==> s[j] != ' '
    ensures Split(s, " ") == [s[..k]] + Split(s[k + 1..], " ")
  {
    OccursSpace(s, k);
    forall j | 0 <= j < k ensures !OccursAt(s, " ", j) {
      OccursSpace(s, j);
    }
    IndexOfAt(s, " ", k);
  }

  /** `split(' ')` of two texts joined by a space is the two splits one after the other. */
  lemma {:induction false} SplitSpace(a: string, b: string)
    ensures Split(a + " " + b, " ") == Split(a, " ") + Split(b, " ")
    decreases |a|, 1
  {
    if k :| 0 <= k < |a| && a[k] == ' ' && forall j :: 0 <= j < k ==> a[j] != ' ' {
      SplitSpaceAt(a, b, k);
    } else {
      forall j | 0 <= j < |a| ensures a[j] != ' ' {
        if a[j] == ' ' {
          FirstIndexOf(a, j);
        }
      }
      NoSpace(a);
      JoinedParts(a, b, |a|);
      FirstSpace(a + " " + b, |a|);
    }
  }

  /** `SplitSpace` when `a` has its first space at `k`. */
  lemma {:induction false} SplitSpaceAt(a: string, b: string, k: nat)
    requires k < |a| && a[k] == ' ' && forall j :: 0 <= j < k ==> a[j] != ' '
    ensures Split(a + " " + b, " ") == Split(a, " ") + Split(b, " ")
    decreases |a|, 0
  {
    var t := a[k + 1..];
    var p, q := Split(t, " "), Split(b, " ");
    assert Split(a, " ") == [a[..k]] + p by {
      FirstSpace(a, k);
    }
    assert Split(a + " " + b, " ") == [a[..k]] + Split(t + " " + b, " ") by {
      JoinedParts(a, b, k);
      FirstSpace(a + " " + b, k);
    }
    assert Split(t + " " + b, " ") == p + q by {
      SplitSpace(t, b);
    }
    Glue(Split(a + " " + b, " "), Split(a, " "), a[..k], p, q, Split(t + " " + b, " "));
  }

  lemma Glue(whole: seq<string>, left: seq<string>, x: string, p: seq<string>, q: seq<string>, r: seq<string>)
    requires whole == [x] + r && r == p + q && left == [x] + p
    ensures whole == left + q
  {
  }

  /** Cutting `a + " " + b` at a space of `a`, or at the joining space. */
  lemma JoinedParts(a: string, b: string, k: nat)
    requires k <= |a| && (k == |a| || a[k] == ' ')
    ensures var s := a + " " + b;
      && s[k] == ' ' && (forall j :: 0 <= j < k ==> s[j] == a[j])
      && s[..k] == a[..k]
      && (k < |a| ==> s[k + 1..] == a[k + 1..] + " " + b)
      && (k == |a| ==> s[k + 1..] == b)
  {
  }

  /** A space at `j` means there is a first space, at or before `j`. */
  lemma {:induction false} FirstIndexOf(a: string, j: nat)
    requires j < |a| && a[j] == ' '
    ensures exists k :: 0 <= k <= j && a[k] == ' ' && forall i :: 0 <= i < k ==> a[i] != ' '
    decreases j
  {
    if exists i :: 0 <= i < j && a[i] == ' ' {
      var i :| 0 <= i < j && a[i] == ' ';
      FirstIndexOf(a, i);
    } else {
      assert forall i :: 0 <= i < j ==> a[i] != ' ';
    }
  }

  lemma LowerAppend(a: string, b: string)
    ensures Lower(a + b) == Lower(a) + Lower(b)
  {
    var x, y := Lower(a + b), Lower(a) + Lower(b);
    assert |x| == |y|;
    forall i | 0 <= i < |a| ensures x[i] == y[i] {
      assert (a + b)[i] == a[i];
    }
    forall i | |a| <= i < |x| ensures x[i] == y[i] {
      assert (a + b)[i] == b[i - |a|];
    }
  }

  /** A trimmed query followed by a space and a trimmed word has the query's terms, then the word's. */
  lemma TermsAppend(query: string, word: string)
    requires IsTrimmed(query) && query != [] && IsTrimmed(word) && word != []
    ensures Trim(query + " " + word) == query + " " + word
    ensures TermsTs(query + " " + word) == TermsTs(query) + Split(Lower(word), " ")
  {
    var q := query + " " + word;
    assert Trim(q) == q by {
      assert q[0] == query[0] && q[|q| - 1] == word[|word| - 1];
      TrimmedIff(q);
    }
    assert Trim(query) == query by {
      TrimmedIff(query);
    }
    assert Lower(q) == Lower(query) + " " + Lower(word) by {
      LowerAppend(query + " ", word);
      LowerAppend(query, " ");
    }
    SplitSpace(Lower(query), Lower(word));
  }

  /**
   * Typing another word after a trimmed query can only narrow the TypeScript search: the
   * longer query has the old terms and then the new ones.
   */
  lemma SearchNarrows(posts: seq<Post>, query: string, word: string)
    requires IsTrimmed(query) && query != [] && IsTrimmed(word) && word != []
    ensures Subseq(SearchPosts(posts, query + " " + word), SearchPosts(posts, query))
  {
    TermsAppend(query, word);
    TrimmedIff(query);
    FilterNarrows(posts, TermsTs(query), Split(Lower(word), " "), HaystackTs);
  }

  /** The JavaScript version narrows too, and needs no trimming: any non-blank query will do. */
  lemma SearchJsNarrows(posts: seq<Post>, query: string, word: string)
    requires !IsBlank(query)
    ensures Subseq(SearchPostsJs(posts, query + " " + word), SearchPostsJs(posts, query))
  {
    var q := query + " " + word;
    assert !IsBlank(q) by {
      BlankIffAllSpace(query);
      BlankIffAllSpace(q);
      var i :| 0 <= i < |query| && !IsJsSpace(query[i]);
      assert q[i] == query[i];
    }
    assert Lower(q) == Lower(query) + " " + Lower(word) by {
      LowerAppend(query + " ", word);
      LowerAppend(query, " ");
    }
    SplitSpace(Lower(query), Lower(word));
    FilterNarrows(posts, TermsJs(query), Split(Lower(word), " "), HaystackJs);
  }

  // ---------------------------------------------------------------------------------------
  // Empty terms, and the two versions side by side

  /** Two filters that keep the same posts give the same result. */
  lemma {:induction false} FilterSame(posts: seq<Post>, t1: seq<string>, text1: Post -> string,
                                      t2: seq<string>, text2: Post -> string)
    requires forall i :: 0 <= i < |posts| ==> (HasAll(text1(posts[i]), t1) <==> HasAll(text2(posts[i]), t2))
    ensures Filter(posts, t1, text1) == Filter(posts, t2, text2)
    decreases |posts|
  {
    if posts != [] {
      FilterSame(posts[1..], t1, text1, t2, text2);
    }
  }

  /** The empty string occurs in every text, so an empty term keeps every post. */
  lemma EmptyTermHarmless(text: string, terms: seq<string>)
    ensures HasAll(text, [[]] + terms) <==> HasAll(text, terms)
  {
    assert OccursAt(text, [], 0);
    assert forall i :: 0 <= i < |terms| ==> ([[]] + terms)[i + 1] == terms[i];
  }

  /**
   * A leading space gives the untrimmed JavaScript split an empty first term, which changes
   * nothing: the query is searched as if the space were not there.
   */
  lemma LeadingSpaceJs(posts: seq<Post>, query: string)
    requires !IsBlank(query)
    ensures TermsJs(" " + query) == [[]] + TermsJs(query)
    ensures SearchPostsJs(posts, " " + query) == SearchPostsJs(posts, query)
  {
    assert !IsBlank(" " + query) by {
      BlankIffAllSpace(query);
      BlankIffAllSpace(" " + query);
      var i :| 0 <= i < |query| && !IsJsSpace(query[i]);
      assert (" " + query)[i + 1] == query[i];
    }
    assert TermsJs(" " + query) == [[]] + TermsJs(query) by {
      LowerAppend(" ", query);
      assert [] + " " + Lower(query) == Lower(" " + query);
      SplitSpace([], Lower(query));
      NoSpace([]);
    }
    forall i | 0 <= i < |posts|
      ensures HasAll(HaystackJs(posts[i]), [[]] + TermsJs(query)) <==> HasAll(HaystackJs(posts[i]), TermsJs(query))
    {
      EmptyTermHarmless(HaystackJs(posts[i]), TermsJs(query));
    }
    FilterSame(posts, [[]] + TermsJs(query), HaystackJs, TermsJs(query), HaystackJs);
  }

  /** A post with every field present. */
  predicate Complete(p: Post) {
    p.title.Some? && p.content.Some? && p.tags.Some? && p.category.Some?
  }

  lemma Join4(a: string, b: string, c: string, d: string)
    ensures Join([a, b, c, d], " ") == a + " " + b + " " + c + " " + d
  {
    assert [a, b, c, d][1..] == [b, c, d] && [b, c, d][1..] == [c, d] && [c, d][1..] == [d];
    assert Join([c, d], " ") == c + " " + d;
    assert Join([b, c, d], " ") == b + " " + (c + " " + d);
  }

  /** With every field present, both versions search the same text. */
  lemma HaystacksAgree(p: Post)
    requires Complete(p)
    ensures HaystackTs(p) == HaystackJs(p)
  {
    Join4(p.title.value, p.content.value, Join(p.tags.value, " "), p.category.value);
  }

  /** For posts with every field present and a query without surrounding spaces, the versions agree. */
  lemma SearchesAgree(posts: seq<Post>, query: string)
    requires IsTrimmed(query)
    requires forall i :: 0 <= i < |posts| ==> Complete(posts[i])
    ensures SearchPosts(posts, query) == SearchPostsJs(posts, query)
  {
    TrimmedIff(query);
    forall i | 0 <= i < |posts| ensures HaystackTs(posts[i]) == HaystackJs(posts[i]) {
      HaystacksAgree(posts[i]);
    }
    FilterSame(posts, TermsTs(query), HaystackTs, TermsJs(query), HaystackJs);
  }

  // ---------------------------------------------------------------------------------------
  // Missing tags

  /** In the TypeScript version a post without tags is searched like one with no tags. */
  lemma MissingTagsAsEmpty(p: Post)
    ensures HaystackTs(p.(tags := None)) == HaystackTs(p.(tags := Some([])))
  {
  }

  /** The word a template string prints for a missing value. */
  const Undefined: string := "undefined"

  /** A non-empty lower-case word without whitespace: a one-term query that trims to itself. */
  predicate LowerWord(w: string) {
    w != [] && Lower(w) == w && forall i :: 0 <= i < |w| ==> !IsJsSpace(w[i])
  }

  lemma UndefinedIsWord()
    ensures LowerWord(Undefined) && Undefined[0] == 'u'
  {
    var u := Undefined;
    assert forall i :: 0 <= i < |u| ==> 'a' <= u[i] <= 'z';
    LowerCaseWord(u);
  }

  /** Text made of the letters `a` to `z` is a lower-case word. */
  lemma LowerCaseWord(w: string)
    requires w != [] && forall i :: 0 <= i < |w| ==> 'a' <= w[i] <= 'z'
    ensures LowerWord(w)
  {
    assert forall i :: 0 <= i < |w| ==> w[i] !in JsSpaces;
  }

  /** A lower-case word is a query of exactly one term, itself. */
  lemma WordTerms(w: string)
    requires LowerWord(w)
    ensures !IsBlank(w) && Trim(w) == w
    ensures TermsJs(w) == [w] && TermsTs(w) == [w]
  {
    BlankIffAllSpace(w);
    TrimmedIff(w);
    NoSpace(w);
  }

  /** In the JavaScript version the text of a post without tags holds the word `undefined`. */
  lemma UndefinedInUntaggedJs(p: Post)
    requires p.tags.None?
    ensures Contains(HaystackJs(p), Undefined)
  {
    var pre := Slot(p.title) + " " + Slot(p.content) + " ";
    var post := " " + Slot(p.category);
    UntaggedHaystack(p, pre, post);
    OccursBetween(Lower(pre), Undefined, Lower(post));
  }

  /** Without tags the searched text is the lower-cased fields around a literal `undefined`. */
  lemma UntaggedHaystack(p: Post, pre: string, post: string)
    requires p.tags.None?
    requires pre == Slot(p.title) + " " + Slot(p.content) + " " && post == " " + Slot(p.category)
    ensures HaystackJs(p) == Lower(pre) + Undefined + Lower(post)
  {
    var u := Undefined;
    assert Slot(None) == u;
    FieldsAround(pre, u, " ", Slot(p.category));
    LowerAppend(pre + u, post);
    LowerAppend(pre, u);
    UndefinedIsWord();
  }

  lemma FieldsAround(pre: string, u: string, sp: string, c: string)
    ensures pre + u + sp + c == pre + u + (sp + c)
  {
  }

  lemma OccursBetween(a: string, u: string, b: string)
    ensures Contains(a + u + b, u)
  {
    assert (a + u + b)[|a|..|a| + |u|] == u;
    assert OccursAt(a + u + b, u, |a|);
    ContainsIff(a + u + b, u);
  }

  /**
   * As written, searching the JavaScript version for `undefined` returns every post that has
   * no tags, whatever its title, content and category say.
   */
  lemma UndefinedMatchesUntaggedJs(p: Post)
    requires p.tags.None?
    ensures SearchPostsJs([p], Undefined) == [p]
  {
    UndefinedInUntaggedJs(p);
    UndefinedIsWord();
    WordMatchesJs(p, Undefined);
  }

  /** A one-word query finds a post whose text contains the word. */
  lemma WordMatchesJs(p: Post, w: string)
    requires LowerWord(w) && Contains(HaystackJs(p), w)
    ensures SearchPostsJs([p], w) == [p]
  {
    WordTerms(w);
    assert HasAll(HaystackJs(p), [w]);
    assert [p][1..] == [];
  }

  /** A text with no `u` does not contain a word that starts with `u`. */
  lemma NoU(s: string, w: string)
    requires 'u' !in s && w != [] && w[0] == 'u'
    ensures !Contains(s, w)
  {
    forall j | 0 <= j && j + |w| <= |s| ensures !OccursAt(s, w, j) {
      assert s[j] != 'u';
      assert s[j..j + |w|][0] == s[j];
    }
  }

  /**
   * In the TypeScript version a missing tag list adds nothing, so a post without tags whose
   * title, content and category have no `u` is not found by `undefined`.
   */
  lemma UntaggedNotMatched(p: Post, t: string, c: string, g: string)
    requires p == Post(Some(t), Some(c), None, Some(g))
    requires 'u' !in Lower(t) && 'u' !in Lower(c) && 'u' !in Lower(g)
    ensures SearchPosts([p], Undefined) == []
  {
    var j := t + " " + c + " " + [] + " " + g;
    assert HaystackTs(p) == Lower(j) by {
      Join4(t, c, [], g);
    }
    NoUJoined(t, c, g);
    UndefinedIsWord();
    NoU(Lower(j), Undefined);
    WordMisses(p, Undefined);
  }

  /** A one-word query misses a post whose text does not contain the word. */
  lemma WordMisses(p: Post, w: string)
    requires LowerWord(w) && !Contains(HaystackTs(p), w)
    ensures SearchPosts([p], w) == []
  {
    WordTerms(w);
    assert !HasAll(HaystackTs(p), [w]);
    assert [p][1..] == [];
  }

  lemma NoUJoined(t: string, c: string, g: string)
    requires 'u' !in Lower(t) && 'u' !in Lower(c) && 'u' !in Lower(g)
    ensures 'u' !in Lower(t + " " + c + " " + [] + " " + g)
  {
    assert t + " " + c + " " + [] + " " + g == t + " " + c + " " + " " + g;
    NoUAppend(t, " ");
    NoUAppend(t + " ", c);
    NoUAppend(t + " " + c, " ");
    NoUAppend(t + " " + c + " ", " ");
    NoUAppend(t + " " + c + " " + " ", g);
  }

  lemma NoUAppend(a: string, b: string)
    requires 'u' !in Lower(a) && 'u' !in Lower(b)
    ensures 'u' !in Lower(a + b)
  {
    LowerAppend(a, b);
  }
}
