/** `src/app/api/comments/route.js`: the unauthenticated comment API.
    POST adds a reply or a top-level comment and, for a reply, adds
    the new id to the parent's stored `replies` array; GET builds the
    same reply tree as the authenticated handler. */
module CommentsRouteJs {
  import opened Wrappers
  import opened JsText
  import opened CommentStore
  import opened CommentTree
  import opened Http
  import opened CommentsRoute

  /** `arrayUnion(x)` applied to an array: `x` is appended unless it is
      already there. */
  function ArrayUnion(xs: seq<string>, x: string): (r: seq<string>)
    ensures forall y :: y in r <==> y in xs || y == x
    ensures |xs| <= |r| <= |xs| + 1 && r[..|xs|] == xs
    ensures Distinct(xs) ==> Distinct(r)
  {
    if x in xs then xs else xs + [x]
  }

  /** Adding an id twice is the same as adding it once. */
  lemma ArrayUnionIdempotent(xs: seq<string>, x: string)
    ensures ArrayUnion(ArrayUnion(xs, x), x) == ArrayUnion(xs, x)
  {
  }

  /** `updateDoc(parent, { replies: arrayUnion(id) })` once the parent
      exists: only that document's `replies` array changes, and it is
      created when the document has none. */
  function AddReplyId(store: seq<Doc>, parentId: string, id: string): (r: seq<Doc>)
    ensures SameSkeleton(store, r)
    ensures forall i :: 0 <= i < |store| ==>
      r[i].replies == if store[i].id == parentId then Some(ArrayUnion(store[i].replies.GetOr([]), id)) else store[i].replies
  {
    seq(|store|, i requires 0 <= i < |store| =>
      if store[i].id == parentId then Doc(store[i].id, store[i].fields, Some(ArrayUnion(store[i].replies.GetOr([]), id)))
      else store[i])
  }

  /** The record appended for body `b`: a reply carries `parentId` and no
      `replies`; a top-level comment carries `replies: []` and no
      `parentId`. Neither has a uid or `mentionedUsers`. */
  function Record(b: Body, id: string, now: int): (d: Doc)
    requires HasRequiredFields(b)
    ensures d.id == id && d.fields.createdAt == now
    ensures d.fields.postSlug == b.postSlug.value && d.fields.content == b.content.value && d.fields.author == b.author.value
    ensures d.fields.upvotes == Some(0) && d.fields.downvotes == Some(0)
    ensures d.fields.uid.None? && d.fields.mentionedUsers.None?
    ensures Truthy(b.parentId) ==> d.fields.parentId == b.parentId && d.replies.None?
    ensures !Truthy(b.parentId) ==> d.fields.parentId.None? && d.replies == Some([])
  {
    var f := Fields(b.postSlug.value, b.content.value, b.author.value, None, None, now, Some(0), Some(0), None);
    if Truthy(b.parentId) then Doc(id, f.(parentId := b.parentId), None)
    else Doc(id, f, Some([]))
  }

  /** POST. `body` is None when `req.json()` throws, `addOk` is false when
      `addDoc` throws, and `updateOk` is false when `updateDoc` throws
      for a reason other than a missing parent (a missing parent always
      makes it throw). `newId` is the id `addDoc` generates and `at` the
      place that id gives the record in the store's order. Every
      exception answers 500. */
  function Post(body: Option<Body>, store: seq<Doc>, at: nat, newId: string, now: int, addOk: bool, updateOk: bool): (out: Outcome)
    requires at <= |store|
    ensures out.response.status in {200, 400, 500}
    ensures out.response.status == 400 <==> body.Some? && !HasRequiredFields(body.value)
    ensures out.response.status == 200 ==> out.response.payload == NewId(newId)
    // Nothing is written unless the body is complete and the append succeeds.
    ensures !(body.Some? && HasRequiredFields(body.value) && addOk) ==> out.store == store && out.response.status != 200
    ensures body.Some? && HasRequiredFields(body.value) && addOk ==>
      var d := Record(body.value, newId, now);
      && |out.store| == |store| + 1
      && out.store[at].id == d.id && out.store[at].fields == d.fields
      && if !Truthy(body.value.parentId) then
           out.store == Insert(store, at, d) && out.response.status == 200
         else
           var p := body.value.parentId.value;
           // The parent update runs after the append; when it fails the
           // reply stays stored and the answer is 500.
           && (out.response.status == 200 <==> updateOk && p in Ids(Insert(store, at, d)))
           && (out.response.status == 200 ==> out.store == AddReplyId(Insert(store, at, d), p, newId))
           && (out.response.status != 200 ==> out.store == Insert(store, at, d))
  {
    if body.None? then
      Outcome(Response(500, ErrorMessage("Failed to submit comment")), store)
    else if !HasRequiredFields(body.value) then
      Outcome(Response(400, ErrorMessage("Missing fields")), store)
    else if !addOk then
      Outcome(Response(500, ErrorMessage("Failed to submit comment")), store)
    else
      var d := Record(body.value, newId, now);
      var stored := Insert(store, at, d);
      if Truthy(body.value.parentId) then
        var p := body.value.parentId.value;
        if updateOk && p in Ids(stored) then
          Outcome(Response(200, NewId(newId)), AddReplyId(stored, p, newId))
        else
          Outcome(Response(500, ErrorMessage("Failed to submit comment")), stored)
      else
        Outcome(Response(200, NewId(newId)), stored)
  }

  /** `where('postSlug', '==', postSlug)` with the parameter as given:
      an absent parameter is null, which no stored slug equals. */
  function QueryParam(store: seq<Doc>, postSlug: Option<string>): (r: seq<Doc>)
    ensures forall d :: d in r <==> postSlug.Some? && d in store && d.fields.postSlug == postSlug.value
    ensures UniqueIds(store) ==> UniqueIds(r)
  {
    if postSlug.None? then [] else QueryMembers(store, postSlug.value); Query(store, postSlug.value)
  }

  /** GET: no check of the parameter; `queryOk` is false when the query
      throws. */
  method Get(postSlug: Option<string>, store: seq<Doc>, queryOk: bool) returns (r: Response)
    requires UniqueIds(store)
    ensures !queryOk ==> r == Response(500, ErrorMessage("Failed to fetch comments"))
    ensures queryOk ==> r == Response(200, Tree(BuildForest(QueryParam(store, postSlug))))
  {
    if !queryOk {
      return Response(500, ErrorMessage("Failed to fetch comments"));
    }
    var docs := QueryParam(store, postSlug);
    var topLevel := BuildTree(docs);
    r := Response(200, Tree(topLevel));
  }

  // ---------------------------------------------------------------------
  // Properties of a successful reply.

  /** After a successful reply, the parent's stored `replies` array
      lists the new id, and lists every id at most once when it did
      before. */
  lemma ReplyListedOnce(body: Option<Body>, store: seq<Doc>, at: nat, newId: string, now: int, addOk: bool, updateOk: bool, i: nat)
    requires at <= |store|
    requires Post(body, store, at, newId, now, addOk, updateOk).response.status == 200
    requires Truthy(body.value.parentId)
    requires i < |store| && store[i].id == body.value.parentId.value
    requires Distinct(store[i].replies.GetOr([]))
    ensures var after := Post(body, store, at, newId, now, addOk, updateOk).store[if i < at then i else i + 1].replies;
      && after.Some?
      && newId in after.value
      && Distinct(after.value)
      && store[i].replies.GetOr([]) == after.value[..|store[i].replies.GetOr([])|]
  {
    var d := Record(body.value, newId, now);
    var stored := Insert(store, at, d);
    assert stored[if i < at then i else i + 1] == store[i] by {
      assert stored == stored[..at] + [d] + stored[at + 1..];
    }
  }

  /** The parent update changes nothing the GET handlers show: the tree
      after a successful reply is the tree of the store with the reply
      appended and no parent update. */
  lemma UnionInvisibleToGet(body: Option<Body>, store: seq<Doc>, at: nat, newId: string, now: int, addOk: bool, updateOk: bool, slug: string)
    requires at <= |store|
    requires UniqueIds(store) && newId !in Ids(store)
    requires Post(body, store, at, newId, now, addOk, updateOk).response.status == 200
    requires Truthy(body.value.parentId)
    ensures var stored := Insert(store, at, Record(body.value, newId, now));
      && UniqueIds(stored)
      && UniqueIds(Query(stored, slug))
      && BuildForest(Query(Post(body, store, at, newId, now, addOk, updateOk).store, slug)) == BuildForest(Query(stored, slug))
  {
    var d := Record(body.value, newId, now);
    var stored := Insert(store, at, d);
    var after := Post(body, store, at, newId, now, addOk, updateOk).store;
    QuerySkeleton(stored, after, slug);
    ForestIgnoresStoredReplies(Query(stored, slug), Query(after, slug));
  }
}
