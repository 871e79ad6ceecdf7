/** The `comments` collection of the document store, as the route
    handlers see it: a sequence of documents in document-id order, the
    order a query without `orderBy` returns them, each with its
    store-assigned id. */
module CommentStore {
  import opened Wrappers
  import opened JsText

  /** The stored fields of a comment other than `replies`. `createdAt`
      is the instant `new Date().toISOString()` recorded, as milliseconds
      since the epoch; a field that a handler did not write is None. */
  datatype Fields = Fields(
    postSlug: string,
    content: string,
    author: string,
    uid: Option<string>,
    parentId: Option<string>,
    createdAt: int,
    upvotes: Option<int>,
    downvotes: Option<int>,
    mentionedUsers: Option<seq<string>>)

  /** A document: its id, its fields and the stored `replies` array
      (only some handlers write one). */
  datatype Doc = Doc(id: string, fields: Fields, replies: Option<seq<string>>)

  function Ids(docs: seq<Doc>): (r: seq<string>)
    ensures |r| == |docs|
    ensures forall i :: 0 <= i < |docs| ==> r[i] == docs[i].id
  {
    seq(|docs|, i requires 0 <= i < |docs| => docs[i].id)
  }

  /** The store assigns every document a distinct id. */
  predicate UniqueIds(docs: seq<Doc>) {
    forall i, j :: 0 <= i < j < |docs| ==> docs[i].id != docs[j].id
  }

  /** The document with the given id. */
  function Lookup(docs: seq<Doc>, id: string): (d: Doc)
    requires id in Ids(docs)
    ensures d in docs && d.id == id
  {
    if docs[0].id == id then docs[0]
    else
      assert Ids(docs) == [docs[0].id] + Ids(docs[1..]);
      Lookup(docs[1..], id)
  }

  lemma {:induction false} LookupAt(docs: seq<Doc>, i: nat)
    requires UniqueIds(docs) && i < |docs|
    ensures docs[i].id in Ids(docs) && Lookup(docs, docs[i].id) == docs[i]
  {
    if i > 0 && docs[0].id != docs[i].id {
      assert Ids(docs) == [docs[0].id] + Ids(docs[1..]);
      assert docs[1..][i - 1] == docs[i];
      LookupAt(docs[1..], i - 1);
    }
  }

  /** `where('postSlug', '==', slug)`: the documents of one post, in
      store order; ids stay distinct. */
  function Query(store: seq<Doc>, slug: string): (r: seq<Doc>)
    ensures |r| <= |store|
    ensures forall i :: 0 <= i < |r| ==> r[i].fields.postSlug == slug
    ensures UniqueIds(store) ==> UniqueIds(r)
    decreases |store|, 1
  {
    if |store| == 0 then []
    else
      var init, last := store[..|store| - 1], store[|store| - 1];
      QueryMembers(init, slug);
      QueryStep(init, last, Query(init, slug), slug);
      assert store == init + [last];
      Query(init, slug) + if last.fields.postSlug == slug then [last] else []
  }

  /** The query returns exactly the documents of the post. */
  lemma {:induction false} QueryMembers(store: seq<Doc>, slug: string)
    ensures forall d :: d in Query(store, slug) <==> d in store && d.fields.postSlug == slug
    decreases |store|, 2
  {
    if |store| > 0 {
      var init, last := store[..|store| - 1], store[|store| - 1];
      QueryMembers(init, slug);
      assert store == init + [last];
    }
  }

  lemma QueryStep(init: seq<Doc>, last: Doc, rest: seq<Doc>, slug: string)
    requires forall d :: d in rest ==> d in init
    requires UniqueIds(init) ==> UniqueIds(rest)
    ensures UniqueIds(init + [last]) ==> UniqueIds(if last.fields.postSlug == slug then rest + [last] else rest)
  {
    var store := init + [last];
    if UniqueIds(store) && last.fields.postSlug == slug {
      forall d | d in rest ensures d.id != last.id {
        var k :| 0 <= k < |init| && init[k] == d;
        assert store[k] == d && store[|init|] == last;
      }
      assert UniqueIds(init) by {
        forall i, j | 0 <= i < j < |init| ensures init[i].id != init[j].id {
          assert store[i] == init[i] && store[j] == init[j];
        }
      }
      var r := rest + [last];
      forall i, j | 0 <= i < j < |r| ensures r[i].id != r[j].id {
        assert r[i] == rest[i] && r[i] in rest;
        if j < |rest| {
          assert r[j] == rest[j];
        }
      }
    } else if UniqueIds(store) {
      assert UniqueIds(init) by {
        forall i, j | 0 <= i < j < |init| ensures init[i].id != init[j].id {
          assert store[i] == init[i] && store[j] == init[j];
        }
      }
    }
  }

  /** Two document lists that agree on ids and fields; they may differ
      in their stored `replies` arrays. */
  predicate SameSkeleton(a: seq<Doc>, b: seq<Doc>) {
    |a| == |b| && forall i :: 0 <= i < |a| ==> a[i].id == b[i].id && a[i].fields == b[i].fields
  }

  lemma {:induction false} QuerySkeleton(a: seq<Doc>, b: seq<Doc>, slug: string)
    requires SameSkeleton(a, b)
    ensures SameSkeleton(Query(a, slug), Query(b, slug))
  {
    if |a| > 0 {
      var ia, ib := a[..|a| - 1], b[..|b| - 1];
      assert SameSkeleton(ia, ib);
      QuerySkeleton(ia, ib, slug);
      QuerySkeletonStep(a, b, slug);
    }
  }

  lemma QuerySkeletonStep(a: seq<Doc>, b: seq<Doc>, slug: string)
    requires |a| > 0 && SameSkeleton(a, b)
    requires SameSkeleton(Query(a[..|a| - 1], slug), Query(b[..|b| - 1], slug))
    ensures SameSkeleton(Query(a, slug), Query(b, slug))
  {
    var ia, ib, la, lb := a[..|a| - 1], b[..|b| - 1], a[|a| - 1], b[|b| - 1];
    assert Query(a, slug) == Query(ia, slug) + if la.fields.postSlug == slug then [la] else [];
    assert Query(b, slug) == Query(ib, slug) + if lb.fields.postSlug == slug then [lb] else [];
    var ta: seq<Doc> := if la.fields.postSlug == slug then [la] else [];
    var tb: seq<Doc> := if lb.fields.postSlug == slug then [lb] else [];
    SkeletonAppend(Query(ia, slug), Query(ib, slug), ta, tb);
  }

  lemma SkeletonAppend(a: seq<Doc>, b: seq<Doc>, c: seq<Doc>, d: seq<Doc>)
    requires SameSkeleton(a, b) && SameSkeleton(c, d)
    ensures SameSkeleton(a + c, b + d)
  {
    assert forall i :: |a| <= i < |a| + |c| ==> (a + c)[i] == c[i - |a|] && (b + d)[i] == d[i - |a|];
  }

  /** `add()` stores a document under a fresh id the store generates at
      random. The handlers' queries have no `orderBy`, so the store
      returns documents in id order, and the place of the new document
      among the others is set by that random id: `at` is that place. The
      others keep their order around it. */
  function Insert(store: seq<Doc>, at: nat, d: Doc): (r: seq<Doc>)
    requires at <= |store|
    ensures |r| == |store| + 1 && r[at] == d
    ensures r[..at] + r[at + 1..] == store
    ensures multiset(r) == multiset(store) + multiset{d}
    ensures UniqueIds(store) && d.id !in Ids(store) ==> UniqueIds(r)
  {
    var r := store[..at] + [d] + store[at..];
    assert r[..at] == store[..at] && r[at + 1..] == store[at..];
    assert store == store[..at] + store[at..];
    InsertUnique(store, at, d, r);
    r
  }

  lemma InsertUnique(store: seq<Doc>, at: nat, d: Doc, r: seq<Doc>)
    requires at <= |store| && r == store[..at] + [d] + store[at..]
    ensures UniqueIds(store) && d.id !in Ids(store) ==> UniqueIds(r)
  {
    if UniqueIds(store) && d.id !in Ids(store) {
      forall i, j | 0 <= i < j < |r| ensures r[i].id != r[j].id {
        if i == at {
          assert r[j] == store[j - 1] && Ids(store)[j - 1] == r[j].id;
        } else if j == at {
          assert r[i] == store[i] && Ids(store)[i] == r[i].id;
        } else {
          var i', j' := (if i < at then i else i - 1), (if j < at then j else j - 1);
          assert r[i] == store[i'] && r[j] == store[j'];
        }
      }
    }
  }

  /** The query of two stretches of the store, one after the other. */
  lemma {:induction false} QueryAppend(a: seq<Doc>, b: seq<Doc>, slug: string)
    ensures Query(a + b, slug) == Query(a, slug) + Query(b, slug)
    decreases |b|
  {
    if |b| == 0 {
      assert a + b == a;
    } else {
      var init, last := b[..|b| - 1], b[|b| - 1];
      QueryAppend(a, init, slug);
      assert (a + b)[..|a + b| - 1] == a + init;
      assert (a + b)[|a + b| - 1] == last;
    }
  }

  /** After an insertion the post's query holds the new document (when it
      belongs to the post) between the documents before its place and
      those after it; the query of the old store is those two parts. */
  lemma QueryInsert(store: seq<Doc>, at: nat, d: Doc, slug: string)
    requires at <= |store|
    ensures Query(store, slug) == Query(store[..at], slug) + Query(store[at..], slug)
    ensures Query(Insert(store, at, d), slug)
      == Query(store[..at], slug) + (if d.fields.postSlug == slug then [d] else []) + Query(store[at..], slug)
  {
    assert store == store[..at] + store[at..];
    QueryAppend(store[..at], store[at..], slug);
    assert Insert(store, at, d) == (store[..at] + [d]) + store[at..];
    QueryAppend(store[..at] + [d], store[at..], slug);
    QueryAppend(store[..at], [d], slug);
    assert [d][..0] == [];
  }
}
