/**
 * The comment thread of a post page: counting the comments of a reply forest (the recursive
 * `reduce` of `CommentSection` and the TypeScript `PostLayout`s, and the older JSX layout's
 * counter that a nested traversal increments), the two most recent comments, who may edit the
 * post, and the guards of the comment box and of the delete dialog.
 */
module Comments {
  import opened Wrappers
  import opened Text
  import opened PostResponses

  // ---------------------------------------------------------------------------------------
  // Counting a normalised thread (TypeScript)

  /** `list.reduce((count, item) => count + 1 + getTotalCount(item.replies), acc)`. */
  function CountFrom(acc: nat, list: seq<Comment>): nat
    decreases list, 0
  {
    if list == [] then acc
    else CountFrom(acc + 1 + TotalCount(list[0].replies), list[1..])
  }

  /** `getTotalCount` / `getTotalCommentsCount`; normalised replies are always an array. */
  function TotalCount(list: seq<Comment>): nat
    decreases list, 1
  {
    CountFrom(0, list)
  }

  /** Every comment of the forest, each before its replies (pre-order). */
  function Flatten(list: seq<Comment>): seq<Comment>
    decreases list
  {
    if list == [] then [] else [list[0]] + Flatten(list[0].replies) + Flatten(list[1..])
  }

  lemma {:induction false} CountFromNodes(acc: nat, list: seq<Comment>)
    ensures CountFrom(acc, list) == acc + |Flatten(list)|
    decreases list
  {
    if list != [] {
      CountFromNodes(0, list[0].replies);
      CountFromNodes(acc + 1 + TotalCount(list[0].replies), list[1..]);
    }
  }

  /** The count is the number of comments in the forest, at every depth. */
  lemma CountIsNodes(list: seq<Comment>)
    ensures TotalCount(list) == |Flatten(list)|
    ensures TotalCount([]) == 0
  {
    CountFromNodes(0, list);
  }

  lemma {:induction false} FlattenAppend(a: seq<Comment>, b: seq<Comment>)
    ensures Flatten(a + b) == Flatten(a) + Flatten(b)
    decreases a
  {
    if a != [] {
      assert (a + b)[0] == a[0] && (a + b)[1..] == a[1..] + b;
      FlattenAppend(a[1..], b);
      var head := [a[0]] + Flatten(a[0].replies);
      calc {
        Flatten(a + b);
        head + Flatten(a[1..] + b);
        head + (Flatten(a[1..]) + Flatten(b));
        (head + Flatten(a[1..])) + Flatten(b);
      }
    } else {
      assert a + b == b;
    }
  }

  /** Counting two lists one after the other is counting each and adding. */
  lemma CountAppend(a: seq<Comment>, b: seq<Comment>)
    ensures TotalCount(a + b) == TotalCount(a) + TotalCount(b)
  {
    CountIsNodes(a + b);
    CountIsNodes(a);
    CountIsNodes(b);
    FlattenAppend(a, b);
  }

  /** Every top-level comment counts at least once. */
  lemma {:induction false} CountAtLeastTopLevel(list: seq<Comment>)
    ensures TotalCount(list) >= |list|
    decreases list
  {
    CountIsNodes(list);
    if list != [] {
      CountAtLeastTopLevel(list[1..]);
      CountIsNodes(list[1..]);
    }
  }

  /** A comment with its replies counts one more than its replies. */
  lemma CountOne(c: Comment)
    ensures TotalCount([c]) == 1 + TotalCount(c.replies)
  {
    CountIsNodes([c]);
    CountIsNodes(c.replies);
    assert [c][1..] == [];
  }

  // ---------------------------------------------------------------------------------------
  // Counting a raw thread (JSX): a counter bumped by a nested traversal

  /** A raw comment followed by everything the traversal visits below it. */
  function RawNode(c: RawComment): seq<RawComment>
    decreases c, 1
  {
    match c.replies
    case NotArray => [c]
    case Replies(items) => [c] + RawFlatten(items)
  }

  /** Every raw comment of the forest, in the order the traversal visits them. */
  function RawFlatten(list: seq<RawComment>): seq<RawComment>
    decreases list, 0
  {
    if list == [] then [] else RawNode(list[0]) + RawFlatten(list[1..])
  }

  /** The replies the traversal descends into: an array, or nothing. */
  function RawReplies(c: RawComment): seq<RawComment> {
    if c.replies.Replies? then c.replies.items else []
  }

  lemma RawNodeReplies(c: RawComment)
    ensures RawNode(c) == [c] + RawFlatten(RawReplies(c))
  {
  }

  lemma {:induction false} RawFlattenAppend(a: seq<RawComment>, b: seq<RawComment>)
    ensures RawFlatten(a + b) == RawFlatten(a) + RawFlatten(b)
    decreases a
  {
    if a != [] {
      assert (a + b)[0] == a[0] && (a + b)[1..] == a[1..] + b;
      RawFlattenAppend(a[1..], b);
      calc {
        RawFlatten(a + b);
        RawNode(a[0]) + RawFlatten(a[1..] + b);
        RawNode(a[0]) + (RawFlatten(a[1..]) + RawFlatten(b));
        (RawNode(a[0]) + RawFlatten(a[1..])) + RawFlatten(b);
      }
    } else {
      assert a + b == b;
    }
  }

  /** The comments below the `i`-th one are a proper part of the whole forest. */
  lemma RepliesSmaller(list: seq<RawComment>, i: nat)
    requires i < |list|
    ensures |RawFlatten(RawReplies(list[i]))| < |RawFlatten(list)|
  {
    assert list == list[..i] + ([list[i]] + list[i + 1..]);
    RawFlattenAppend(list[..i], [list[i]] + list[i + 1..]);
    RawFlattenAppend([list[i]], list[i + 1..]);
    RawNodeReplies(list[i]);
    assert [list[i]][1..] == [];
  }

  /** `traverse(list)`: one increment per comment, then the replies, if there are any. */
  method Traverse(list: seq<RawComment>, count0: nat) returns (count: nat)
    ensures count == count0 + |RawFlatten(list)|
    decreases |RawFlatten(list)|
  {
    count := count0;
    for i := 0 to |list|
      invariant count == count0 + |RawFlatten(list[..i])|
    {
      count := count + 1;
      var c := list[i];
      RawNodeReplies(c);
      if c.replies.Replies? && |c.replies.items| > 0 {
        RepliesSmaller(list, i);
        count := Traverse(c.replies.items, count);
      }
      assert list[..i + 1] == list[..i] + [c];
      RawFlattenAppend(list[..i], [c]);
      assert [c][1..] == [];
    }
    assert list[..|list|] == list;
  }

  /** `getTotalCommentsCount(post.comments)` of the JSX layout: missing comments count nothing. */
  method TotalCommentsCount(comments: Option<seq<RawComment>>) returns (count: nat)
    ensures count == |RawFlatten(comments.GetOr([]))|
    ensures comments.None? ==> count == 0
  {
    count := Traverse(comments.GetOr([]), 0);
  }

  /** Normalising every comment keeps the count: the JSX counter on raw data and the recursive count on normalised data agree. */
  lemma {:induction false} NormalisedCount(raws: seq<RawComment>, now: string)
    ensures TotalCount(seq(|raws|, i requires 0 <= i < |raws| => NewComment(raws[i], now))) == |RawFlatten(raws)|
    decreases |RawFlatten(raws)|
  {
    var cs := seq(|raws|, i requires 0 <= i < |raws| => NewComment(raws[i], now));
    CountIsNodes(cs);
    if raws != [] {
      var r := raws[0];
      var c := cs[0];
      assert c == NewComment(r, now);
      var rs := RawReplies(r);
      assert c.replies == seq(|rs|, i requires 0 <= i < |rs| => NewComment(rs[i], now));
      RepliesSmaller(raws, 0);
      NormalisedCount(rs, now);
      CountIsNodes(c.replies);
      RawNodeReplies(r);
      assert cs[1..] == seq(|raws| - 1, i requires 0 <= i < |raws| - 1 => NewComment(raws[1..][i], now));
      assert |RawFlatten(raws[1..])| < |RawFlatten(raws)|;
      NormalisedCount(raws[1..], now);
      CountIsNodes(cs[1..]);
    }
  }

  // ---------------------------------------------------------------------------------------
  // The page around the thread

  /** `(post.comments || []).slice(0, 2)`. */
  function RecentComments<T>(comments: Option<seq<T>>): (r: seq<T>)
    ensures var cs := comments.GetOr([]);
      |r| == (if |cs| < 2 then |cs| else 2) && r <= cs
  {
    var cs := comments.GetOr([]);
    if |cs| < 2 then cs else cs[..2]
  }

  /** The signed-in user as the layout sees it. */
  datatype Viewer = Viewer(id: Option<string>, isAdmin: bool)

  function ViewerId(user: Option<Viewer>): Option<string> {
    if user.Some? then user.value.id else None
  }

  /** `isOwnerOrAdmin` of the JSX layout: `user?.id === post.author?.id` holds when both are missing. */
  predicate IsOwnerOrAdminJsx(isAuthenticated: bool, user: Option<Viewer>, authorId: Option<string>) {
    isAuthenticated && ((user.Some? && user.value.isAdmin) || ViewerId(user) == authorId)
  }

  /** `isOwnerOrAdmin` of the TypeScript layouts: a user object is required. */
  predicate IsOwnerOrAdmin(isAuthenticated: bool, user: Option<Viewer>, authorId: Option<string>) {
    isAuthenticated && user.Some? && (user.value.isAdmin || user.value.id == authorId)
  }

  /** Signed out, nobody may edit; with a user object both layouts decide alike. */
  lemma OwnerVersionsAgree(isAuthenticated: bool, user: Option<Viewer>, authorId: Option<string>)
    ensures !isAuthenticated ==> !IsOwnerOrAdmin(isAuthenticated, user, authorId) && !IsOwnerOrAdminJsx(isAuthenticated, user, authorId)
    ensures user.Some? ==> (IsOwnerOrAdmin(isAuthenticated, user, authorId) <==> IsOwnerOrAdminJsx(isAuthenticated, user, authorId))
    ensures IsOwnerOrAdmin(isAuthenticated, user, authorId) ==> IsOwnerOrAdminJsx(isAuthenticated, user, authorId)
  {
  }

  /** As written, the JSX layout shows the edit button to a session with no user object on a post whose author has no id. */
  lemma NullUserOwnsJsx(authorId: Option<string>)
    requires authorId.None?
    ensures IsOwnerOrAdminJsx(true, None, authorId)
  {
  }

  /** The TypeScript layouts need a user: without one, nobody owns the post. */
  lemma OwnerNeedsUser(isAuthenticated: bool, authorId: Option<string>)
    ensures !IsOwnerOrAdmin(isAuthenticated, None, authorId)
  {
  }

  /** Admins may edit every post; other users only the posts whose author id is theirs. */
  lemma OwnerFacts(user: Viewer, authorId: Option<string>)
    ensures user.isAdmin ==> IsOwnerOrAdmin(true, Some(user), authorId)
    ensures !user.isAdmin ==> (IsOwnerOrAdmin(true, Some(user), authorId) <==> user.id == authorId)
  {
  }

  // ---------------------------------------------------------------------------------------
  // The comment box and the delete dialog

  /** What a handler sends to the server. */
  datatype Request =
    | PostComment(slug: string, content: string, token: string)
    | DeleteComment(slug: string, commentId: string, token: string)

  /** The state `CommentSection` keeps. */
  class CommentSection {
    var mainContent: string
    var isSubmitting: bool
    var deleteOpen: bool
    var deleteTarget: Option<Comment>

    constructor()
      ensures mainContent == [] && !isSubmitting && !deleteOpen && deleteTarget == None
    {
      mainContent := [];
      isSubmitting := false;
      deleteOpen := false;
      deleteTarget := None;
    }

    /** `handleOpenDeleteModal`. */
    method OpenDeleteModal(c: Comment)
      modifies this`deleteOpen, this`deleteTarget
      ensures deleteOpen && deleteTarget == Some(c)
    {
      deleteOpen := true;
      deleteTarget := Some(c);
    }

    /**
     * `handlePostMain`: nothing for a blank draft or without a token; otherwise the draft is
     * sent, cleared when the server accepts it (`succeeds`), and the box is released either way.
     */
    method HandlePostMain(slug: string, token: Option<string>, succeeds: bool) returns (sent: Option<Request>, refreshed: bool)
      modifies this`mainContent, this`isSubmitting
      ensures IsBlank(old(mainContent)) || !Truthy(token) ==>
        sent == None && !refreshed && mainContent == old(mainContent) && isSubmitting == old(isSubmitting)
      ensures !IsBlank(old(mainContent)) && Truthy(token) ==>
        && sent == Some(PostComment(slug, old(mainContent), token.value))
        && refreshed == succeeds
        && mainContent == (if succeeds then [] else old(mainContent))
        && !isSubmitting
    {
      if IsBlank(mainContent) || !Truthy(token) {
        return None, false;
      }
      isSubmitting := true;
      sent := Some(PostComment(slug, mainContent, token.value));
      if succeeds {
        mainContent := [];
      }
      refreshed := succeeds;
      isSubmitting := false;
    }

    /**
     * `executeDelete`: nothing without a comment id or a token; otherwise the dialog is closed
     * first, whatever the server then answers, and the delete is sent.
     */
    method ExecuteDelete(slug: string, token: Option<string>, succeeds: bool) returns (sent: Option<Request>, refreshed: bool)
      modifies this`deleteOpen, this`deleteTarget
      ensures var id := if old(deleteTarget).Some? then old(deleteTarget).value.dbId else None;
        && (!Truthy(id) || !Truthy(token) ==>
              sent == None && !refreshed && deleteOpen == old(deleteOpen) && deleteTarget == old(deleteTarget))
        && (Truthy(id) && Truthy(token) ==>
              sent == Some(DeleteComment(slug, id.value, token.value)) && refreshed == succeeds
              && !deleteOpen && deleteTarget == None)
    {
      var id := if deleteTarget.Some? then deleteTarget.value.dbId else None;
      if !Truthy(id) || !Truthy(token) {
        return None, false;
      }
      deleteOpen, deleteTarget := false, None;
      sent := Some(DeleteComment(slug, id.value, token.value));
      refreshed := succeeds;
    }
  }
}
