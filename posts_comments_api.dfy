/** `src/pages/api/posts/comments.ts`: the pages-router comment handler.
    It accepts only POST, checks the three required fields, and adds
    one record whose optional fields get defaults. */
module PostsCommentsApi {
  import opened Wrappers
  import opened JsText
  import opened CommentStore
  import opened Http

  datatype RequestBody = RequestBody(
    content: Option<string>,
    author: Option<string>,
    postSlug: Option<string>,
    parentId: Option<string>,
    mentionedUsers: Option<seq<string>>)

  datatype Request = Request(httpMethod: string, body: RequestBody)

  predicate HasRequiredFields(b: RequestBody) {
    Truthy(b.content) && Truthy(b.author) && Truthy(b.postSlug)
  }

  /** The handler. `addOk` is false when `addDoc` throws; `newId` is the
      id the store assigns, `at` the place that id gives the record in
      the store's order, and `now` the creation time. An array is
      always truthy, so a given `mentionedUsers` is kept even when empty. */
  function Handle(req: Request, store: seq<Doc>, at: nat, newId: string, now: int, addOk: bool): (out: Outcome)
    requires at <= |store|
    ensures req.httpMethod != "POST" ==> out == Outcome(Response(405, ErrorMessage("Method not allowed")), store)
    ensures req.httpMethod == "POST" && !HasRequiredFields(req.body) ==>
      out == Outcome(Response(400, ErrorMessage("Missing required fields")), store)
    ensures req.httpMethod == "POST" && HasRequiredFields(req.body) && !addOk ==>
      out == Outcome(Response(500, ErrorMessage("Failed to add comment")), store)
    // One record is appended exactly when the answer is 200, and the
    // answer echoes its id.
    ensures out.response.status == 200 <==> req.httpMethod == "POST" && HasRequiredFields(req.body) && addOk
    ensures out.response.status == 200 ==>
      && out.response.payload == Added("Comment added successfully", newId)
      && |out.store| == |store| + 1 && out.store[..at] + out.store[at + 1..] == store
      && var d := out.store[at];
      && d.id == newId && d.replies.None?
      && d.fields.content == req.body.content.value
      && d.fields.author == req.body.author.value
      && d.fields.postSlug == req.body.postSlug.value
      && d.fields.createdAt == now && d.fields.uid.None?
      && (d.fields.parentId == if Truthy(req.body.parentId) then req.body.parentId else None)
      && d.fields.mentionedUsers == Some(req.body.mentionedUsers.GetOr([]))
      && d.fields.upvotes == Some(0) && d.fields.downvotes == Some(0)
  {
    if req.httpMethod != "POST" then
      Outcome(Response(405, ErrorMessage("Method not allowed")), store)
    else if !HasRequiredFields(req.body) then
      Outcome(Response(400, ErrorMessage("Missing required fields")), store)
    else if !addOk then
      Outcome(Response(500, ErrorMessage("Failed to add comment")), store)
    else
      var b := req.body;
      var d := Doc(newId, Fields(b.postSlug.value, b.content.value, b.author.value, None,
        if Truthy(b.parentId) then b.parentId else None, now, Some(0), Some(0),
        Some(b.mentionedUsers.GetOr([]))), None);
      Outcome(Response(200, Added("Comment added successfully", newId)), Insert(store, at, d))
  }

  /** A 200 answer adds the new comment to its post's query at the place
      its id gives it; the comments queried before keep their order, so
      the tree handlers list it among the top-level comments or among
      its parent's replies at that place. */
  lemma HandledCommentIsQueried(req: Request, store: seq<Doc>, at: nat, newId: string, now: int, addOk: bool)
    requires at <= |store|
    requires Handle(req, store, at, newId, now, addOk).response.status == 200
    ensures var slug := req.body.postSlug.value;
      var q := Query(Handle(req, store, at, newId, now, addOk).store, slug);
      var j := |Query(store[..at], slug)|;
      && j < |q| && q[j].id == newId
      && q[..j] + q[j + 1..] == Query(store, slug)
  {
    var slug := req.body.postSlug.value;
    var out := Handle(req, store, at, newId, now, addOk);
    var d := out.store[at];
    assert out.store == Insert(store, at, d);
    QueryInsert(store, at, d, slug);
    var a, b := Query(store[..at], slug), Query(store[at..], slug);
    var q := Query(out.store, slug);
    assert q == a + [d] + b;
    assert q[..|a|] == a && q[|a| + 1..] == b;
  }
}
