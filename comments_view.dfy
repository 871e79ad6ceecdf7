/** `src/components/Comments.tsx`: what the comment section does with
    the tree it fetches (fill in missing vote counts, put the newest
    top-level comment first) and what it sends when the reader posts. */
module CommentsView {
  import opened Wrappers
  import opened JsText
  import opened CommentStore
  import opened CommentTree
  import opened Sorting
  import opened Http
  import CommentsRoute
  import CommentItemView

  /** `ensureNumericVotes`: a missing (or zero) count becomes 0, every
      other field is kept, and the replies are treated the same way. */
  function EnsureNumericVotes(t: Node): (r: Node)
    ensures r.id == t.id && |r.replies| == |t.replies|
    ensures r.fields.(upvotes := t.fields.upvotes, downvotes := t.fields.downvotes) == t.fields
    ensures r.fields.upvotes == Some(t.fields.upvotes.GetOr(0))
    ensures r.fields.downvotes == Some(t.fields.downvotes.GetOr(0))
    decreases t, 1
  {
    Node(t.id,
      t.fields.(upvotes := Some(t.fields.upvotes.GetOr(0)), downvotes := Some(t.fields.downvotes.GetOr(0))),
      EnsureAll(t.replies))
  }

  /** `replies.map(ensureNumericVotes)`. */
  function EnsureAll(ts: seq<Node>): (rs: seq<Node>)
    ensures |rs| == |ts|
    ensures forall i :: 0 <= i < |ts| ==> rs[i] == EnsureNumericVotes(ts[i])
    decreases ts, 0
  {
    if |ts| == 0 then [] else [EnsureNumericVotes(ts[0])] + EnsureAll(ts[1..])
  }

  /** Every node of the tree has both counts. */
  ghost predicate VotesNumeric(t: Node)
    decreases t
  {
    t.fields.upvotes.Some? && t.fields.downvotes.Some?
    && forall i :: 0 <= i < |t.replies| ==> VotesNumeric(t.replies[i])
  }

  lemma {:induction false} EnsureGivesNumeric(t: Node)
    ensures VotesNumeric(EnsureNumericVotes(t))
    decreases t
  {
    var r := EnsureNumericVotes(t);
    forall i | 0 <= i < |r.replies| ensures VotesNumeric(r.replies[i]) {
      EnsureGivesNumeric(t.replies[i]);
    }
  }

  /** A tree whose counts are all present comes back unchanged; in
      particular normalising twice is normalising once. */
  lemma {:induction false} EnsureIdentityOnNumeric(t: Node)
    requires VotesNumeric(t)
    ensures EnsureNumericVotes(t) == t
    decreases t
  {
    var r := EnsureNumericVotes(t);
    forall i | 0 <= i < |t.replies| ensures r.replies[i] == t.replies[i] {
      EnsureIdentityOnNumeric(t.replies[i]);
    }
    assert r.replies == t.replies;
  }

  lemma EnsureIdempotent(t: Node)
    ensures EnsureNumericVotes(EnsureNumericVotes(t)) == EnsureNumericVotes(t)
  {
    EnsureGivesNumeric(t);
    EnsureIdentityOnNumeric(EnsureNumericVotes(t));
  }

  /** Normalising keeps the shape: the same comments in the same order at
      every depth. */
  lemma {:induction false} EnsureKeepsShape(t: Node)
    ensures Flatten(EnsureNumericVotes(t)) == Flatten(t)
    decreases t, 1
  {
    EnsureAllKeepsShape(t.replies);
  }

  lemma {:induction false} EnsureAllKeepsShape(ts: seq<Node>)
    ensures FlattenAll(EnsureAll(ts)) == FlattenAll(ts)
    decreases ts, 0
  {
    if |ts| > 0 {
      EnsureKeepsShape(ts[0]);
      EnsureAllKeepsShape(ts[1..]);
      assert EnsureAll(ts)[1..] == EnsureAll(ts[1..]);
    }
  }

  function CreatedAt(t: Node): int {
    t.fields.createdAt
  }

  /** The list the section shows after a fetch: normalised, then the
      top level (only) sorted newest first by the stable comparator sort. */
  function Loaded(data: seq<Node>): (r: seq<Node>)
    ensures |r| == |data|
    ensures multiset(r) == multiset(EnsureAll(data))
    ensures SortedDesc(r, CreatedAt)
    ensures forall x :: x in r ==> exists i :: 0 <= i < |data| && x == EnsureNumericVotes(data[i])
  {
    var r := SortDesc(EnsureAll(data), CreatedAt);
    assert forall x :: x in r ==> x in multiset(EnsureAll(data));
    r
  }

  /** Data that already arrives newest first keeps its order: the sort
      is stable, so equal times are not reordered either. */
  lemma LoadedKeepsSortedOrder(data: seq<Node>)
    requires SortedDesc(data, CreatedAt)
    ensures Loaded(data) == EnsureAll(data)
  {
    assert SortedDesc(EnsureAll(data), CreatedAt);
    SortDescOfSorted(EnsureAll(data), CreatedAt);
  }

  /** `fetchComments`: `fetched` is the parsed body of a successful
      response, None when the request or the parse fails (the error is
      logged and the shown list kept). */
  function Refresh(current: seq<Node>, fetched: Option<seq<Node>>): (r: seq<Node>)
    ensures fetched.None? ==> r == current
    ensures fetched.Some? ==> r == Loaded(fetched.value)
  {
    if fetched.None? then current else Loaded(fetched.value)
  }

  /** `handleNewComment`, `handleReply` and `handleVote`: a request whose
      response is not ok is logged and swallowed, otherwise the list is
      fetched again. None of them rejects: the outcome is always a list,
      either the one shown before or a freshly loaded one. */
  function AfterRequest(current: seq<Node>, responseOk: bool, fetched: Option<seq<Node>>): (r: seq<Node>)
    ensures !responseOk ==> r == current
    ensures r == current || (fetched.Some? && r == Loaded(fetched.value))
  {
    if responseOk then Refresh(current, fetched) else current
  }

  /** A vote cast in a comment of this section: `CommentItem.handleVote`
      awaits the `onVote` it was given, and the section passes its own
      `handleVote` (the same handler at every depth), which swallows
      every error. The awaited call therefore always resolves, the
      optimistic update stays, and the rollback is never reached. */
  method VoteInSection(w: CommentItemView.VoteWidget, k: CommentItemView.VoteType,
                       current: seq<Node>, responseOk: bool, fetched: Option<seq<Node>>)
    returns (shown: seq<Node>)
    modifies w
    ensures w.State() == CommentItemView.Optimistic(old(w.State()), k)
    ensures old(w.Valid()) ==> w.Valid()
    ensures !responseOk ==> shown == current
    ensures shown == current || (fetched.Some? && shown == Loaded(fetched.value))
  {
    shown := AfterRequest(current, responseOk, fetched);
    w.HandleVote(k, true);
  }

  /** The header the handlers send. */
  function AuthorizationHeader(token: string): string {
    "Bearer " + token
  }

  /** The body of `handleNewComment`: `parentId` is null. */
  function NewCommentBody(postSlug: string, content: string, displayName: string): (b: CommentsRoute.Body)
    ensures postSlug != "" && content != "" && displayName != "" <==> CommentsRoute.HasRequiredFields(b)
    ensures b.postSlug == Some(postSlug) && b.author == Some(displayName) && !Truthy(b.parentId)
  {
    CommentsRoute.Body(Some(postSlug), Some(content), Some(displayName), None)
  }

  /** The body of `handleReply`: the same post, and the parent's id. */
  function ReplyBody(postSlug: string, parentId: string, content: string, displayName: string): (b: CommentsRoute.Body)
    ensures postSlug != "" && content != "" && displayName != "" <==> CommentsRoute.HasRequiredFields(b)
    ensures b.postSlug == Some(postSlug) && b.author == Some(displayName)
    ensures Truthy(b.parentId) <==> parentId != ""
    ensures Truthy(b.parentId) ==> b.parentId.value == parentId
  {
    CommentsRoute.Body(Some(postSlug), Some(content), Some(displayName), Some(parentId))
  }

  predicate NoSpace(s: string) {
    forall k :: 0 <= k < |s| ==> s[k] != ' '
  }

  /** A new comment the server accepts is stored as a top-level comment
      of the same post, with the token's uid. */
  lemma NewCommentStoredTopLevel(postSlug: string, content: string, displayName: string, token: string,
                                 uid: string, store: seq<Doc>, at: nat, newId: string, now: int)
    requires at <= |store|
    requires token != "" && NoSpace(token)
    requires postSlug != "" && content != "" && displayName != ""
    ensures var out := CommentsRoute.Post(Some(AuthorizationHeader(token)), CommentsRoute.Verified(uid),
                                          Some(NewCommentBody(postSlug, content, displayName)), store, at, newId, now, true);
      && out.response.status == 200
      && out.store[..at] + out.store[at + 1..] == store
      && var d := out.store[at];
         d.id == newId && IsTopLevel(d) && d.fields.postSlug == postSlug
         && d.fields.author == displayName && d.fields.uid == Some(uid)
  {
    SecondFieldOfPair("Bearer", token);
    assert AuthorizationHeader(token) == "Bearer" + " " + token;
  }

  /** A reply the server accepts is stored as a child of its parent, in
      the same post. */
  lemma ReplyStoredUnderParent(postSlug: string, parentId: string, content: string, displayName: string, token: string,
                               uid: string, store: seq<Doc>, at: nat, newId: string, now: int)
    requires at <= |store|
    requires token != "" && NoSpace(token)
    requires postSlug != "" && content != "" && displayName != "" && parentId != ""
    ensures var out := CommentsRoute.Post(Some(AuthorizationHeader(token)), CommentsRoute.Verified(uid),
                                          Some(ReplyBody(postSlug, parentId, content, displayName)), store, at, newId, now, true);
      && out.response.status == 200
      && out.store[..at] + out.store[at + 1..] == store
      && var d := out.store[at];
         d.id == newId && IsChildOf(d, parentId) && d.fields.postSlug == postSlug
  {
    SecondFieldOfPair("Bearer", token);
    assert AuthorizationHeader(token) == "Bearer" + " " + token;
  }
}
