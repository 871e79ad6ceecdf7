/** `src/app/api/comments/route.ts`: the authenticated comment API.
    POST checks the bearer token, then the body, and adds one record;
    GET returns the reply tree of one post. The identity-token check,
    the body parse and the store's writes and queries are inputs. */
module CommentsRoute {
  import opened Wrappers
  import opened JsText
  import opened CommentStore
  import opened CommentTree
  import opened Http

  /** The JSON body of a POST; a field the client left out is None. */
  datatype Body = Body(postSlug: Option<string>, content: Option<string>, author: Option<string>, parentId: Option<string>)

  /** What `verifyIdToken` makes of the token: the decoded token's uid,
      or a rejection (it throws). */
  datatype Verification = Verified(uid: string) | Rejected

  /** `authHeader && authHeader.split(' ')[1]`. */
  function BearerToken(authorization: Option<string>): Option<string> {
    if authorization.None? then None else SecondSpaceField(authorization.value)
  }

  predicate HasRequiredFields(b: Body) {
    Truthy(b.postSlug) && Truthy(b.content) && Truthy(b.author)
  }

  /** The record the handler appends for body `b`. */
  function NewRecord(b: Body, uid: string, id: string, now: int): Doc
    requires HasRequiredFields(b)
  {
    Doc(id, Fields(b.postSlug.value, b.content.value, b.author.value, Some(uid),
      if Truthy(b.parentId) then b.parentId else None, now, Some(0), Some(0), Some([])), Some([]))
  }

  /** POST. `body` is None when `request.json()` throws; `addOk` is
      false when the append throws; `newId` is the id the store assigns,
      `at` the place that id gives the record in the store's order, and
      `now` the creation time. Every exception after the token
      check lands in the same catch and answers 403. */
  function Post(authorization: Option<string>, verification: Verification, body: Option<Body>,
                store: seq<Doc>, at: nat, newId: string, now: int, addOk: bool): (out: Outcome)
    requires at <= |store|
    ensures out.response.status == 401 <==> !Truthy(BearerToken(authorization))
    ensures out.response.status == 403 <==>
      Truthy(BearerToken(authorization)) && (verification.Rejected? || body.None? || (HasRequiredFields(body.value) && !addOk))
    ensures out.response.status == 400 <==>
      Truthy(BearerToken(authorization)) && verification.Verified? && body.Some? && !HasRequiredFields(body.value)
    ensures out.response.status == 200 <==>
      Truthy(BearerToken(authorization)) && verification.Verified? && body.Some? && HasRequiredFields(body.value) && addOk
    ensures out.response.status != 200 ==> out.store == store
    ensures UniqueIds(store) && newId !in Ids(store) ==> UniqueIds(out.store)
    ensures out.response.status == 200 ==>
      && out.response.payload == SuccessFlag
      && |out.store| == |store| + 1 && out.store[..at] + out.store[at + 1..] == store
      && var d := out.store[at];
      && d.id == newId
      && d.fields.postSlug == body.value.postSlug.value
      && d.fields.content == body.value.content.value
      && d.fields.author == body.value.author.value
      && d.fields.uid == Some(verification.uid)
      && (d.fields.parentId == if Truthy(body.value.parentId) then body.value.parentId else None)
      && d.fields.createdAt == now
      && d.fields.upvotes == Some(0) && d.fields.downvotes == Some(0)
      && d.fields.mentionedUsers == Some([]) && d.replies == Some([])
  {
    var token := BearerToken(authorization);
    if !Truthy(token) then
      Outcome(Response(401, ErrorMessage("Authorization token missing")), store)
    else if verification.Rejected? || body.None? then
      Outcome(Response(403, ErrorMessage("Failed to verify token")), store)
    else if !HasRequiredFields(body.value) then
      Outcome(Response(400, ErrorMessage("Missing fields")), store)
    else if !addOk then
      Outcome(Response(403, ErrorMessage("Failed to verify token")), store)
    else
      Outcome(Response(200, SuccessFlag), Insert(store, at, NewRecord(body.value, verification.uid, newId, now)))
  }

  /** GET. `queryOk` is false when the query throws. */
  method Get(postSlug: Option<string>, store: seq<Doc>, queryOk: bool) returns (r: Response)
    requires UniqueIds(store)
    ensures !Truthy(postSlug) ==> r == Response(400, ErrorMessage("Post slug is required"))
    ensures Truthy(postSlug) && !queryOk ==> r == Response(500, ErrorMessage("Failed to fetch comments"))
    ensures Truthy(postSlug) && queryOk ==> r == Response(200, Tree(BuildForest(Query(store, postSlug.value))))
  {
    if !Truthy(postSlug) {
      return Response(400, ErrorMessage("Post slug is required"));
    }
    if !queryOk {
      return Response(500, ErrorMessage("Failed to fetch comments"));
    }
    var docs := Query(store, postSlug.value);
    var topLevel := BuildTree(docs);
    r := Response(200, Tree(SerializeComments(topLevel)));
  }

  // ---------------------------------------------------------------------
  // A POST followed by a GET of the same post.

  /** A successful top-level POST adds the new comment to the top level
      of its post's tree, at the place its id gives it; the other
      top-level comments keep their order. */
  lemma PostThenGetTopLevel(authorization: Option<string>, verification: Verification, body: Option<Body>,
                            store: seq<Doc>, at: nat, newId: string, now: int, addOk: bool)
    requires at <= |store|
    requires UniqueIds(store) && newId !in Ids(store)
    requires Post(authorization, verification, body, store, at, newId, now, addOk).response.status == 200
    requires !Truthy(body.value.parentId)
    ensures var store' := Post(authorization, verification, body, store, at, newId, now, addOk).store;
      var slug := body.value.postSlug.value;
      var before := TopIds(Query(store, slug));
      var j := |TopIds(Query(store[..at], slug))|;
      && UniqueIds(Query(store', slug))
      && j <= |before|
      && TopIds(Query(store', slug)) == before[..j] + [newId] + before[j..]
      && var forest := BuildForest(Query(store', slug));
         j < |forest| && forest[j].id == newId
  {
    var out := Post(authorization, verification, body, store, at, newId, now, addOk);
    var slug := body.value.postSlug.value;
    var d := NewRecord(body.value, verification.uid, newId, now);
    var a, b := Query(store[..at], slug), Query(store[at..], slug);
    QueryInsert(store, at, d, slug);
    IdsInsert(a, d, b);
    IdsAppend(a, b);
    var before := TopIds(Query(store, slug));
    assert before[..|TopIds(a)|] == TopIds(a) && before[|TopIds(a)|..] == TopIds(b);
    ForestShape(Query(out.store, slug));
  }

  /** A successful reply POST adds the new comment to its parent's reply
      list in the tree of its post, at the place its id gives it; the
      other replies keep their order. */
  lemma PostThenGetReply(authorization: Option<string>, verification: Verification, body: Option<Body>,
                         store: seq<Doc>, at: nat, newId: string, now: int, addOk: bool)
    requires at <= |store|
    requires Post(authorization, verification, body, store, at, newId, now, addOk).response.status == 200
    requires Truthy(body.value.parentId)
    ensures var store' := Post(authorization, verification, body, store, at, newId, now, addOk).store;
      var slug := body.value.postSlug.value;
      var p := body.value.parentId.value;
      var before := ChildIds(Query(store, slug), p);
      var j := |ChildIds(Query(store[..at], slug), p)|;
      && j <= |before|
      && ChildIds(Query(store', slug), p) == before[..j] + [newId] + before[j..]
  {
    var out := Post(authorization, verification, body, store, at, newId, now, addOk);
    var slug := body.value.postSlug.value;
    var p := body.value.parentId.value;
    var d := NewRecord(body.value, verification.uid, newId, now);
    assert out.store == Insert(store, at, d);
    var a, b := Query(store[..at], slug), Query(store[at..], slug);
    QueryInsert(store, at, d, slug);
    IdsInsert(a, d, b);
    IdsAppend(a, b);
    assert IsChildOf(d, p);
    var before := ChildIds(Query(store, slug), p);
    assert before == ChildIds(a, p) + ChildIds(b, p);
    assert before[..|ChildIds(a, p)|] == ChildIds(a, p) && before[|ChildIds(a, p)|..] == ChildIds(b, p);
  }
}
