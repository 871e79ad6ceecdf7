/** The reply tree the comment GET handlers build from the documents of
    one post: a map from id to a node whose `replies` start empty, then
    a second pass that pushes every node onto its parent's `replies`
    (when the parent was fetched) or onto the top-level list (when it
    has no parent). Nodes are shared through the map, so the tree a
    client receives is the unfolding of those `replies` lists from the
    top-level nodes; this module defines that unfolding and proves what
    it contains. */
module CommentTree {
  import opened Wrappers
  import opened JsText
  import opened CommentStore

  /** A comment as the GET handlers return it: `{ id, ...fields, replies }`. */
  datatype Node = Node(id: string, fields: Fields, replies: seq<Node>)

  /** No truthy `parentId`: the comment goes to the top-level list. */
  predicate IsTopLevel(d: Doc) {
    !Truthy(d.fields.parentId)
  }

  /** `d.parentId` is truthy and names `x`. */
  predicate IsChildOf(d: Doc, x: string) {
    Truthy(d.fields.parentId) && d.fields.parentId.value == x
  }

  /** Ids of the top-level documents, in query order. */
  function TopIds(docs: seq<Doc>): (r: seq<string>)
    ensures forall k :: k in r <==> exists i :: 0 <= i < |docs| && docs[i].id == k && IsTopLevel(docs[i])
  {
    if |docs| == 0 then []
    else
      var init := docs[..|docs| - 1];
      var last := docs[|docs| - 1];
      assert forall i :: 0 <= i < |init| ==> init[i] == docs[i];
      TopIds(init) + (if IsTopLevel(last) then [last.id] else [])
  }

  /** Ids of the documents whose `parentId` names `x`, in query order:
      the order in which the second pass pushes them onto `x`'s replies. */
  function ChildIds(docs: seq<Doc>, x: string): (r: seq<string>)
    ensures forall k :: k in r <==> exists i :: 0 <= i < |docs| && docs[i].id == k && IsChildOf(docs[i], x)
  {
    if |docs| == 0 then []
    else
      var init := docs[..|docs| - 1];
      var last := docs[|docs| - 1];
      assert forall i :: 0 <= i < |init| ==> init[i] == docs[i];
      ChildIds(init, x) + (if IsChildOf(last, x) then [last.id] else [])
  }

  /** The `replies` list every fetched node holds after the second pass. */
  function ChildMap(docs: seq<Doc>): (m: map<string, seq<string>>)
    ensures m.Keys == set k | k in Ids(docs)
    ensures forall x :: x in m ==> m[x] == ChildIds(docs, x)
  {
    map x | x in Ids(docs) :: ChildIds(docs, x)
  }

  predicate Distinct(s: seq<string>) {
    forall i, j :: 0 <= i < j < |s| ==> s[i] != s[j]
  }

  /** `path` is the chain of ancestors of `path[0]`: fetched ids, no
      repeats, each one's `parentId` naming the next, and the last one
      top-level. Only a node with such a chain is reachable from the
      top-level list. */
  ghost predicate IsChain(docs: seq<Doc>, path: seq<string>) {
    && |path| >= 1
    && (forall i :: 0 <= i < |path| ==> path[i] in Ids(docs))
    && Distinct(path)
    && (forall i :: 0 <= i < |path| - 1 ==> IsChildOf(Lookup(docs, path[i]), path[i + 1]))
    && IsTopLevel(Lookup(docs, path[|path| - 1]))
  }

  /** The unfolding of the shared node for `path[0]`: its fields and,
      in order, the unfoldings of the nodes in its `replies` list. */
  function Unfold(docs: seq<Doc>, arena: map<string, seq<string>>, path: seq<string>): (t: Node)
    requires UniqueIds(docs) && arena == ChildMap(docs) && IsChain(docs, path)
    ensures t.id == path[0] && t.fields == Lookup(docs, path[0]).fields
    ensures |t.replies| == |arena[path[0]]|
    ensures forall i :: 0 <= i < |t.replies| ==> t.replies[i].id == arena[path[0]][i]
    decreases |docs| - |path|, 1
  {
    var x := path[0];
    ChildrenAreChildren(docs, x);
    Node(x, Lookup(docs, x).fields, UnfoldAll(docs, arena, arena[x], path))
  }

  function UnfoldAll(docs: seq<Doc>, arena: map<string, seq<string>>, kids: seq<string>, path: seq<string>): (ts: seq<Node>)
    requires UniqueIds(docs) && arena == ChildMap(docs) && IsChain(docs, path)
    requires forall k :: k in kids ==> k in Ids(docs) && IsChildOf(Lookup(docs, k), path[0])
    ensures |ts| == |kids|
    ensures forall i :: 0 <= i < |ts| ==> ts[i].id == kids[i]
    decreases |docs| - |path|, 0, |kids|
  {
    if |kids| == 0 then []
    else
      ChainExtends(docs, path, kids[0]);
      [Unfold(docs, arena, [kids[0]] + path)] + UnfoldAll(docs, arena, kids[1..], path)
  }

  /** Unfolds the top-level nodes, in order. */
  function UnfoldForest(docs: seq<Doc>, arena: map<string, seq<string>>, roots: seq<string>): (ts: seq<Node>)
    requires UniqueIds(docs) && arena == ChildMap(docs)
    requires forall r :: r in roots ==> r in Ids(docs) && IsTopLevel(Lookup(docs, r))
    ensures |ts| == |roots|
    ensures forall i :: 0 <= i < |ts| ==> ts[i].id == roots[i]
  {
    if |roots| == 0 then []
    else
      assert IsChain(docs, [roots[0]]);
      [Unfold(docs, arena, [roots[0]])] + UnfoldForest(docs, arena, roots[1..])
  }

  /** The tree the GET handlers return for the fetched documents. */
  function BuildForest(docs: seq<Doc>): seq<Node>
    requires UniqueIds(docs)
  {
    TopsAreTops(docs);
    UnfoldForest(docs, ChildMap(docs), TopIds(docs))
  }

  /** The two passes of the GET handlers. The first gives every fetched
      comment an empty `replies` list (overwriting any stored one); the
      second walks the map in insertion order and pushes each comment
      onto its parent's list when the parent was fetched, onto the
      top-level list when it has no parent, and nowhere otherwise. */
  method LinkComments(docs: seq<Doc>) returns (arena: map<string, seq<string>>, topLevel: seq<string>)
    requires UniqueIds(docs)
    ensures arena == ChildMap(docs)
    ensures topLevel == TopIds(docs)
  {
    arena := EmptyLists(docs);
    forall x | x in arena ensures arena[x] == ChildIds(docs[..0], x) {
      assert docs[..0] == [];
    }
    topLevel := [];
    var i := 0;
    while i < |docs|
      invariant 0 <= i <= |docs|
      invariant arena.Keys == set k | k in Ids(docs)
      invariant forall x :: x in arena ==> arena[x] == ChildIds(docs[..i], x)
      invariant topLevel == TopIds(docs[..i])
    {
      var d := docs[i];
      SnocIds(docs, i);
      ghost var before := arena;
      if Truthy(d.fields.parentId) && d.fields.parentId.value in arena {
        var p := d.fields.parentId.value;
        arena := arena[p := arena[p] + [d.id]];
      }
      LinkStep(docs, i, before, arena);
      if !Truthy(d.fields.parentId) {
        topLevel := topLevel + [d.id];
      }
      i := i + 1;
    }
    assert docs[..|docs|] == docs;
    ArenaIsChildMap(docs, arena);
  }

  lemma ArenaIsChildMap(docs: seq<Doc>, arena: map<string, seq<string>>)
    requires arena.Keys == set k | k in Ids(docs)
    requires forall x :: x in arena ==> arena[x] == ChildIds(docs, x)
    ensures arena == ChildMap(docs)
  {
  }

  /** The first pass: every fetched comment gets an empty list. */
  method EmptyLists(docs: seq<Doc>) returns (arena: map<string, seq<string>>)
    ensures arena.Keys == set k | k in Ids(docs)
    ensures forall x :: x in arena ==> arena[x] == []
  {
    arena := map[];
    var i := 0;
    while i < |docs|
      invariant 0 <= i <= |docs|
      invariant arena.Keys == set k | k in Ids(docs[..i])
      invariant forall x :: x in arena ==> arena[x] == []
    {
      assert Ids(docs[..i + 1]) == Ids(docs[..i]) + [docs[i].id];
      arena := arena[docs[i].id := []];
      i := i + 1;
    }
    assert docs[..|docs|] == docs;
  }

  /** The second pass, one document at a time, keeps every list equal to
      the children seen so far. */
  lemma LinkStep(docs: seq<Doc>, i: nat, before: map<string, seq<string>>, after: map<string, seq<string>>)
    requires i < |docs|
    requires forall x :: x in before ==> before[x] == ChildIds(docs[..i], x)
    requires forall x :: ChildIds(docs[..i + 1], x) == ChildIds(docs[..i], x) + (if IsChildOf(docs[i], x) then [docs[i].id] else [])
    requires after == if Truthy(docs[i].fields.parentId) && docs[i].fields.parentId.value in before
      then before[docs[i].fields.parentId.value := before[docs[i].fields.parentId.value] + [docs[i].id]]
      else before
    ensures after.Keys == before.Keys
    ensures forall x :: x in after ==> after[x] == ChildIds(docs[..i + 1], x)
  {
    forall x | x in after ensures after[x] == ChildIds(docs[..i + 1], x) {
      assert ChildIds(docs[..i + 1], x) == ChildIds(docs[..i], x) + (if IsChildOf(docs[i], x) then [docs[i].id] else []);
    }
  }

  /** One more document adds its id to its parent's list or to the
      top-level list. */
  lemma SnocIds(docs: seq<Doc>, i: nat)
    requires i < |docs|
    ensures TopIds(docs[..i + 1]) == TopIds(docs[..i]) + (if IsTopLevel(docs[i]) then [docs[i].id] else [])
    ensures forall x :: ChildIds(docs[..i + 1], x) == ChildIds(docs[..i], x) + (if IsChildOf(docs[i], x) then [docs[i].id] else [])
  {
    assert docs[..i + 1][..i] == docs[..i];
  }

  /** The lists of two stretches of documents, one after the other. */
  lemma {:induction false} IdsAppend(a: seq<Doc>, b: seq<Doc>)
    ensures TopIds(a + b) == TopIds(a) + TopIds(b)
    ensures forall x :: ChildIds(a + b, x) == ChildIds(a, x) + ChildIds(b, x)
    decreases |b|
  {
    if |b| == 0 {
      assert a + b == a;
    } else {
      var init := b[..|b| - 1];
      IdsAppend(a, init);
      assert (a + b)[..|a + b| - 1] == a + init;
      assert (a + b)[|a + b| - 1] == b[|b| - 1];
    }
  }

  /** A document put between two stretches adds its id between their
      entries in its parent's list or in the top-level list. */
  lemma IdsInsert(a: seq<Doc>, d: Doc, b: seq<Doc>)
    ensures TopIds(a + [d] + b) == TopIds(a) + (if IsTopLevel(d) then [d.id] else []) + TopIds(b)
    ensures forall x :: ChildIds(a + [d] + b, x) == ChildIds(a, x) + (if IsChildOf(d, x) then [d.id] else []) + ChildIds(b, x)
  {
    IdsAppend(a + [d], b);
    IdsAppend(a, [d]);
    assert [d][..0] == [];
  }

  /** The tree the GET handlers build: the two passes, then the shared
      nodes read from the top-level list down. */
  method BuildTree(docs: seq<Doc>) returns (forest: seq<Node>)
    requires UniqueIds(docs)
    ensures forest == BuildForest(docs)
  {
    var arena, topLevel := LinkComments(docs);
    TopsAreTops(docs);
    forest := UnfoldForest(docs, arena, topLevel);
  }

  // ---------------------------------------------------------------------
  // Flattening a forest into the ids it contains, in pre-order.

  function Flatten(t: Node): seq<string>
    decreases t, 1
  {
    [t.id] + FlattenAll(t.replies)
  }

  function FlattenAll(ts: seq<Node>): seq<string>
    decreases ts, 0
  {
    if |ts| == 0 then [] else Flatten(ts[0]) + FlattenAll(ts[1..])
  }

  /** `serializeComments`: a copy of each comment with its replies
      serialized recursively. The copy is the tree itself: same comments,
      same fields, same replies in the same order, at every depth. */
  function SerializeComments(ts: seq<Node>): (r: seq<Node>)
    ensures r == ts
    decreases ts, 0
  {
    if |ts| == 0 then [] else [SerializeComment(ts[0])] + SerializeComments(ts[1..])
  }

  /** One serialized comment is the comment itself. */
  function SerializeComment(t: Node): (r: Node)
    ensures r == t
    decreases t, 1
  {
    Node(t.id, t.fields, SerializeComments(t.replies))
  }

  // ---------------------------------------------------------------------
  // Facts used by the unfolding.

  lemma TopsAreTops(docs: seq<Doc>)
    requires UniqueIds(docs)
    ensures forall r :: r in TopIds(docs) ==> r in Ids(docs) && IsTopLevel(Lookup(docs, r))
  {
    forall r | r in TopIds(docs) ensures r in Ids(docs) && IsTopLevel(Lookup(docs, r)) {
      var i :| 0 <= i < |docs| && docs[i].id == r && IsTopLevel(docs[i]);
      LookupAt(docs, i);
    }
  }

  lemma ChildrenAreChildren(docs: seq<Doc>, x: string)
    requires UniqueIds(docs)
    ensures forall k :: k in ChildIds(docs, x) ==> k in Ids(docs) && IsChildOf(Lookup(docs, k), x)
  {
    forall k | k in ChildIds(docs, x) ensures k in Ids(docs) && IsChildOf(Lookup(docs, k), x) {
      var i :| 0 <= i < |docs| && docs[i].id == k && IsChildOf(docs[i], x);
      LookupAt(docs, i);
    }
  }

  lemma {:induction false} SubsetSize(a: set<string>, b: set<string>)
    requires a <= b
    ensures |a| <= |b|
  {
    if a != {} {
      var x :| x in a;
      SubsetSize(a - {x}, b - {x});
    }
  }

  lemma {:induction false} SetOfSeqBound(s: seq<string>)
    ensures |set x | x in s| <= |s|
  {
    if |s| > 0 {
      SetOfSeqBound(s[1..]);
      assert (set x | x in s) == {s[0]} + set x | x in s[1..];
    }
  }

  lemma {:induction false} SetOfDistinct(s: seq<string>)
    requires Distinct(s)
    ensures |set x | x in s| == |s|
  {
    if |s| > 0 {
      SetOfDistinct(s[1..]);
      assert (set x | x in s) == {s[0]} + set x | x in s[1..];
      assert s[0] !in set x | x in s[1..];
    }
  }

  /** A chain holds distinct fetched ids, so it is no longer than the
      fetched list. */
  lemma ChainBound(docs: seq<Doc>, path: seq<string>)
    requires Distinct(path) && forall i :: 0 <= i < |path| ==> path[i] in Ids(docs)
    ensures |path| <= |docs|
  {
    SetOfDistinct(path);
    SetOfSeqBound(Ids(docs));
    SubsetSize(set x | x in path, set x | x in Ids(docs));
  }

  /** A child of the head of a chain is never on the chain: it would have
      two parents, or the top-level end would have a parent. */
  lemma ChildNotOnChain(docs: seq<Doc>, path: seq<string>, k: string)
    requires UniqueIds(docs) && IsChain(docs, path)
    requires k in Ids(docs) && IsChildOf(Lookup(docs, k), path[0])
    ensures k !in path
  {
    forall i | 0 <= i < |path| ensures path[i] != k {
      if i < |path| - 1 {
        assert IsChildOf(Lookup(docs, path[i]), path[i + 1]);
        assert path[i + 1] != path[0];
      } else {
        assert IsTopLevel(Lookup(docs, path[i]));
      }
    }
  }

  /** So putting the child in front gives a longer chain, which bounds
      the depth of the unfolding. */
  lemma ChainExtends(docs: seq<Doc>, path: seq<string>, k: string)
    requires UniqueIds(docs) && IsChain(docs, path)
    requires k in Ids(docs) && IsChildOf(Lookup(docs, k), path[0])
    ensures IsChain(docs, [k] + path)
    ensures |path| < |docs|
  {
    ChildNotOnChain(docs, path, k);
    var q := [k] + path;
    assert forall i :: 0 <= i < |q| ==> q[i] in Ids(docs) by {
      forall i | 0 <= i < |q| ensures q[i] in Ids(docs) {
        if i > 0 { assert q[i] == path[i - 1]; }
      }
    }
    ConsLinks(docs, path, k);
    ConsDistinct(k, path);
    assert q[|q| - 1] == path[|path| - 1];
    ChainBound(docs, q);
  }

  lemma ConsLinks(docs: seq<Doc>, path: seq<string>, k: string)
    requires |path| >= 1 && k in Ids(docs) && IsChildOf(Lookup(docs, k), path[0])
    requires forall i :: 0 <= i < |path| ==> path[i] in Ids(docs)
    requires forall i :: 0 <= i < |path| - 1 ==> IsChildOf(Lookup(docs, path[i]), path[i + 1])
    ensures forall i :: 0 <= i < |[k] + path| - 1 ==> IsChildOf(Lookup(docs, ([k] + path)[i]), ([k] + path)[i + 1])
  {
    var q := [k] + path;
    forall i | 0 <= i < |q| - 1 ensures IsChildOf(Lookup(docs, q[i]), q[i + 1]) {
      if i > 0 { assert q[i] == path[i - 1] && q[i + 1] == path[i]; }
    }
  }

  lemma ConsDistinct(k: string, path: seq<string>)
    requires Distinct(path) && k !in path
    ensures Distinct([k] + path)
  {
    var q := [k] + path;
    forall i, j | 0 <= i < j < |q| ensures q[i] != q[j] {
      if i > 0 { assert q[i] == path[i - 1] && q[j] == path[j - 1]; }
      else { assert q[j] in path; }
    }
  }

  lemma ChainTail(docs: seq<Doc>, p: seq<string>)
    requires IsChain(docs, p) && |p| > 1
    ensures IsChain(docs, p[1..])
  {
    forall i | 0 <= i < |p[1..]| - 1 ensures IsChildOf(Lookup(docs, p[1..][i]), p[1..][i + 1]) {
      assert p[1..][i] == p[i + 1];
    }
  }

  /** The ancestor chain of a comment is unique: each comment has one
      `parentId`. */
  lemma {:induction false} ChainUnique(docs: seq<Doc>, p: seq<string>, q: seq<string>)
    requires IsChain(docs, p) && IsChain(docs, q) && p[0] == q[0]
    ensures p == q
    decreases |p|
  {
    assert |p| > 1 ==> IsChildOf(Lookup(docs, p[0]), p[1]);
    assert |q| > 1 ==> IsChildOf(Lookup(docs, q[0]), q[1]);
    assert |p| > 1 <==> |q| > 1;
    if |p| > 1 {
      ChainTail(docs, p);
      ChainTail(docs, q);
      ChainUnique(docs, p[1..], q[1..]);
      assert p == [p[0]] + p[1..] && q == [q[0]] + q[1..];
    }
  }

  /** `q` is the ancestor chain of `n`, and it runs through `path`. */
  ghost predicate ChainThrough(docs: seq<Doc>, q: seq<string>, n: string, path: seq<string>) {
    IsChain(docs, q) && q[0] == n && |q| >= |path| && q[|q| - |path|..] == path
  }

  lemma {:induction false} FlattenAllHas(ts: seq<Node>, j: nat, n: string)
    requires j < |ts| && n in Flatten(ts[j])
    ensures n in FlattenAll(ts)
    decreases ts
  {
    if j > 0 {
      FlattenAllHas(ts[1..], j - 1, n);
    }
  }

  /** Every id in the unfolding of a chain's head has an ancestor chain
      that runs through that chain. */
  lemma {:induction false} UnfoldChains(docs: seq<Doc>, arena: map<string, seq<string>>, path: seq<string>, n: string)
    requires UniqueIds(docs) && arena == ChildMap(docs) && IsChain(docs, path)
    ensures n in Flatten(Unfold(docs, arena, path)) ==> exists q :: ChainThrough(docs, q, n, path)
    decreases |docs| - |path|, 1
  {
    var t := Unfold(docs, arena, path);
    if n == path[0] {
      assert path[|path| - |path|..] == path;
      assert ChainThrough(docs, path, n, path);
    } else {
      ChildrenAreChildren(docs, path[0]);
      UnfoldAllChains(docs, arena, arena[path[0]], path, n);
    }
  }

  lemma {:induction false} UnfoldAllChains(docs: seq<Doc>, arena: map<string, seq<string>>, kids: seq<string>, path: seq<string>, n: string)
    requires UniqueIds(docs) && arena == ChildMap(docs) && IsChain(docs, path)
    requires forall k :: k in kids ==> k in Ids(docs) && IsChildOf(Lookup(docs, k), path[0])
    ensures n in FlattenAll(UnfoldAll(docs, arena, kids, path)) ==>
      exists q :: ChainThrough(docs, q, n, path) && |q| > |path| && q[|q| - |path| - 1] in kids
    decreases |docs| - |path|, 0, |kids|
  {
    if |kids| > 0 {
      ChainExtends(docs, path, kids[0]);
      var ts := UnfoldAll(docs, arena, kids, path);
      assert ts[0] == Unfold(docs, arena, [kids[0]] + path);
      assert ts[1..] == UnfoldAll(docs, arena, kids[1..], path);
      assert FlattenAll(ts) == Flatten(ts[0]) + FlattenAll(ts[1..]);
      UnfoldChains(docs, arena, [kids[0]] + path, n);
      UnfoldAllChains(docs, arena, kids[1..], path, n);
      if n in Flatten(ts[0]) {
        var q :| ChainThrough(docs, q, n, [kids[0]] + path);
        ThroughFirstKid(docs, q, n, kids[0], path);
      } else if n in FlattenAll(ts[1..]) {
        var q :| ChainThrough(docs, q, n, path) && |q| > |path| && q[|q| - |path| - 1] in kids[1..];
        assert q[|q| - |path| - 1] in kids;
      }
    }
  }

  lemma ThroughFirstKid(docs: seq<Doc>, q: seq<string>, n: string, k: string, path: seq<string>)
    requires ChainThrough(docs, q, n, [k] + path)
    ensures ChainThrough(docs, q, n, path) && |q| > |path| && q[|q| - |path| - 1] == k
  {
    assert q[|q| - |path|..] == ([k] + path)[1..];
    assert q[|q| - |path| - 1] == ([k] + path)[0];
  }

  /** Within the unfolding of a chain's head, the head itself occurs
      only at the root. */
  lemma HeadOnlyAtRoot(docs: seq<Doc>, arena: map<string, seq<string>>, path: seq<string>)
    requires UniqueIds(docs) && arena == ChildMap(docs) && IsChain(docs, path)
    ensures path[0] !in FlattenAll(Unfold(docs, arena, path).replies)
  {
    var x := path[0];
    ChildrenAreChildren(docs, x);
    forall q | IsChain(docs, q) && q[0] == x ensures |q| == |path| {
      ChainUnique(docs, q, path);
    }
    UnfoldAllChains(docs, arena, arena[x], path, x);
  }

  /** No comment appears twice in the unfolding of a chain's head. */
  lemma {:induction false} UnfoldDistinct(docs: seq<Doc>, arena: map<string, seq<string>>, path: seq<string>)
    requires UniqueIds(docs) && arena == ChildMap(docs) && IsChain(docs, path)
    ensures Distinct(Flatten(Unfold(docs, arena, path)))
    decreases |docs| - |path|, 1
  {
    var x := path[0];
    var t := Unfold(docs, arena, path);
    ChildrenAreChildren(docs, x);
    ChildIdsDistinct(docs, x);
    UnfoldAllDistinct(docs, arena, arena[x], path);
    HeadOnlyAtRoot(docs, arena, path);
    DistinctAppend([x], FlattenAll(t.replies));
  }

  /** The subtrees of two different replies share no comment: a comment
      in the first has its chain through the first reply, and chains are
      unique. */
  lemma SiblingsDisjoint(docs: seq<Doc>, arena: map<string, seq<string>>, kids: seq<string>, path: seq<string>)
    requires UniqueIds(docs) && arena == ChildMap(docs) && IsChain(docs, path)
    requires forall k :: k in kids ==> k in Ids(docs) && IsChildOf(Lookup(docs, k), path[0])
    requires Distinct(kids) && |kids| > 0 && IsChain(docs, [kids[0]] + path)
    ensures forall n :: n in Flatten(Unfold(docs, arena, [kids[0]] + path)) ==>
      n !in FlattenAll(UnfoldAll(docs, arena, kids[1..], path))
  {
    assert kids[0] !in kids[1..];
    forall n | n in Flatten(Unfold(docs, arena, [kids[0]] + path))
      ensures n !in FlattenAll(UnfoldAll(docs, arena, kids[1..], path))
    {
      UnfoldChains(docs, arena, [kids[0]] + path, n);
      var q1 :| ChainThrough(docs, q1, n, [kids[0]] + path);
      assert q1[|q1| - |path| - 1] == kids[0];
      forall q | IsChain(docs, q) && q[0] == n ensures q == q1 {
        ChainUnique(docs, q, q1);
      }
      UnfoldAllChains(docs, arena, kids[1..], path, n);
    }
  }

  lemma {:induction false} UnfoldAllDistinct(docs: seq<Doc>, arena: map<string, seq<string>>, kids: seq<string>, path: seq<string>)
    requires UniqueIds(docs) && arena == ChildMap(docs) && IsChain(docs, path)
    requires forall k :: k in kids ==> k in Ids(docs) && IsChildOf(Lookup(docs, k), path[0])
    requires Distinct(kids)
    ensures Distinct(FlattenAll(UnfoldAll(docs, arena, kids, path)))
    decreases |docs| - |path|, 0, |kids|
  {
    if |kids| > 0 {
      ChainExtends(docs, path, kids[0]);
      var ts := UnfoldAll(docs, arena, kids, path);
      var head := Unfold(docs, arena, [kids[0]] + path);
      var rest := UnfoldAll(docs, arena, kids[1..], path);
      assert ts == [head] + rest;
      assert ts[1..] == rest;
      UnfoldDistinct(docs, arena, [kids[0]] + path);
      UnfoldAllDistinct(docs, arena, kids[1..], path);
      SiblingsDisjoint(docs, arena, kids, path);
      DistinctAppend(Flatten(head), FlattenAll(rest));
    }
  }

  lemma {:induction false} ChildIdsDistinct(docs: seq<Doc>, x: string)
    requires UniqueIds(docs)
    ensures Distinct(ChildIds(docs, x))
  {
    if |docs| > 0 {
      var init := docs[..|docs| - 1];
      var last := docs[|docs| - 1];
      assert UniqueIds(init) by {
        forall i, j | 0 <= i < j < |init| ensures init[i].id != init[j].id {
          assert init[i] == docs[i] && init[j] == docs[j];
        }
      }
      ChildIdsDistinct(init, x);
      forall k | k in ChildIds(init, x) ensures k != last.id {
        var i :| 0 <= i < |init| && init[i].id == k && IsChildOf(init[i], x);
        assert docs[i] == init[i];
      }
      DistinctAppend(ChildIds(init, x), if IsChildOf(last, x) then [last.id] else []);
    }
  }

  lemma {:induction false} TopIdsDistinct(docs: seq<Doc>)
    requires UniqueIds(docs)
    ensures Distinct(TopIds(docs))
  {
    if |docs| > 0 {
      var init := docs[..|docs| - 1];
      var last := docs[|docs| - 1];
      assert UniqueIds(init) by {
        forall i, j | 0 <= i < j < |init| ensures init[i].id != init[j].id {
          assert init[i] == docs[i] && init[j] == docs[j];
        }
      }
      TopIdsDistinct(init);
      forall k | k in TopIds(init) ensures k != last.id {
        var i :| 0 <= i < |init| && init[i].id == k && IsTopLevel(init[i]);
        assert docs[i] == init[i];
      }
      DistinctAppend(TopIds(init), if IsTopLevel(last) then [last.id] else []);
    }
  }

  lemma DistinctAppend(a: seq<string>, b: seq<string>)
    requires Distinct(a) && Distinct(b) && forall n :: n in a ==> n !in b
    ensures Distinct(a + b)
  {
    forall i, j | 0 <= i < j < |a + b| ensures (a + b)[i] != (a + b)[j] {
      if i < |a| && j >= |a| {
        assert (a + b)[i] in a && (a + b)[j] in b;
      }
    }
  }

  /** The ids in the unfolded forest have ancestor chains ending at one
      of its roots. */
  lemma {:induction false} ForestChains(docs: seq<Doc>, roots: seq<string>, n: string)
    requires UniqueIds(docs)
    requires forall r :: r in roots ==> r in Ids(docs) && IsTopLevel(Lookup(docs, r))
    ensures n in FlattenAll(UnfoldForest(docs, ChildMap(docs), roots)) ==>
      exists q :: IsChain(docs, q) && q[0] == n && q[|q| - 1] in roots
  {
    if |roots| > 0 {
      var arena := ChildMap(docs);
      var ts := UnfoldForest(docs, arena, roots);
      assert IsChain(docs, [roots[0]]);
      assert ts == [Unfold(docs, arena, [roots[0]])] + UnfoldForest(docs, arena, roots[1..]);
      assert ts[1..] == UnfoldForest(docs, arena, roots[1..]);
      UnfoldChains(docs, arena, [roots[0]], n);
      ForestChains(docs, roots[1..], n);
      if n in Flatten(ts[0]) {
        var q :| ChainThrough(docs, q, n, [roots[0]]);
        assert q[|q| - 1] == roots[0];
      } else if n in FlattenAll(ts[1..]) {
        var q :| IsChain(docs, q) && q[0] == n && q[|q| - 1] in roots[1..];
        assert q[|q| - 1] in roots;
      }
    }
  }

  lemma RootsDisjoint(docs: seq<Doc>, roots: seq<string>)
    requires UniqueIds(docs) && Distinct(roots) && |roots| > 0
    requires forall r :: r in roots ==> r in Ids(docs) && IsTopLevel(Lookup(docs, r))
    requires IsChain(docs, [roots[0]])
    ensures forall n :: n in Flatten(Unfold(docs, ChildMap(docs), [roots[0]])) ==>
      n !in FlattenAll(UnfoldForest(docs, ChildMap(docs), roots[1..]))
  {
    forall n | n in Flatten(Unfold(docs, ChildMap(docs), [roots[0]]))
      ensures n !in FlattenAll(UnfoldForest(docs, ChildMap(docs), roots[1..]))
    {
      RootNotElsewhere(docs, roots, n);
    }
  }

  lemma RootNotElsewhere(docs: seq<Doc>, roots: seq<string>, n: string)
    requires UniqueIds(docs) && Distinct(roots) && |roots| > 0
    requires forall r :: r in roots ==> r in Ids(docs) && IsTopLevel(Lookup(docs, r))
    requires IsChain(docs, [roots[0]])
    requires n in Flatten(Unfold(docs, ChildMap(docs), [roots[0]]))
    ensures n !in FlattenAll(UnfoldForest(docs, ChildMap(docs), roots[1..]))
  {
    assert roots[0] !in roots[1..];
    UnfoldChains(docs, ChildMap(docs), [roots[0]], n);
    var q1 :| ChainThrough(docs, q1, n, [roots[0]]);
    assert q1[|q1| - 1] == roots[0];
    NotInOtherForest(docs, roots[1..], n, q1);
  }

  /** A comment whose ancestor chain ends outside `roots` is not in
      their forest. */
  lemma NotInOtherForest(docs: seq<Doc>, roots: seq<string>, n: string, q1: seq<string>)
    requires UniqueIds(docs)
    requires forall r :: r in roots ==> r in Ids(docs) && IsTopLevel(Lookup(docs, r))
    requires IsChain(docs, q1) && q1[0] == n && q1[|q1| - 1] !in roots
    ensures n !in FlattenAll(UnfoldForest(docs, ChildMap(docs), roots))
  {
    if n in FlattenAll(UnfoldForest(docs, ChildMap(docs), roots)) {
      ForestChains(docs, roots, n);
      var q :| IsChain(docs, q) && q[0] == n && q[|q| - 1] in roots;
      ChainUnique(docs, q, q1);
    }
  }

  /** The ids of a forest are those of its first tree, then those of the
      rest. */
  lemma UnfoldForestCons(docs: seq<Doc>, roots: seq<string>)
    requires UniqueIds(docs) && |roots| > 0
    requires forall r :: r in roots ==> r in Ids(docs) && IsTopLevel(Lookup(docs, r))
    ensures IsChain(docs, [roots[0]])
    ensures FlattenAll(UnfoldForest(docs, ChildMap(docs), roots))
      == Flatten(Unfold(docs, ChildMap(docs), [roots[0]])) + FlattenAll(UnfoldForest(docs, ChildMap(docs), roots[1..]))
  {
    var arena := ChildMap(docs);
    var ts := UnfoldForest(docs, arena, roots);
    assert IsChain(docs, [roots[0]]);
    assert ts == [Unfold(docs, arena, [roots[0]])] + UnfoldForest(docs, arena, roots[1..]);
    assert ts[1..] == UnfoldForest(docs, arena, roots[1..]);
  }

  lemma {:induction false} ForestDistinct(docs: seq<Doc>, roots: seq<string>)
    requires UniqueIds(docs) && Distinct(roots)
    requires forall r :: r in roots ==> r in Ids(docs) && IsTopLevel(Lookup(docs, r))
    ensures Distinct(FlattenAll(UnfoldForest(docs, ChildMap(docs), roots)))
  {
    if |roots| > 0 {
      var arena := ChildMap(docs);
      UnfoldForestCons(docs, roots);
      UnfoldDistinct(docs, arena, [roots[0]]);
      ForestDistinct(docs, roots[1..]);
      RootsDisjoint(docs, roots);
      DistinctAppend(Flatten(Unfold(docs, arena, [roots[0]])), FlattenAll(UnfoldForest(docs, arena, roots[1..])));
    }
  }

  lemma {:induction false} UnfoldAllAt(docs: seq<Doc>, arena: map<string, seq<string>>, kids: seq<string>, path: seq<string>, j: nat)
    requires UniqueIds(docs) && arena == ChildMap(docs) && IsChain(docs, path)
    requires forall k :: k in kids ==> k in Ids(docs) && IsChildOf(Lookup(docs, k), path[0])
    requires j < |kids|
    ensures IsChain(docs, [kids[j]] + path)
    ensures UnfoldAll(docs, arena, kids, path)[j] == Unfold(docs, arena, [kids[j]] + path)
    decreases |kids|
  {
    ChainExtends(docs, path, kids[j]);
    ChainExtends(docs, path, kids[0]);
    if j > 0 {
      UnfoldAllAt(docs, arena, kids[1..], path, j - 1);
    }
  }

  /** Conversely, a comment whose ancestor chain runs through `path` is
      in the unfolding of `path[0]`. */
  lemma {:induction false} ChainReaches(docs: seq<Doc>, arena: map<string, seq<string>>, path: seq<string>, q: seq<string>, n: string)
    requires UniqueIds(docs) && arena == ChildMap(docs) && IsChain(docs, path)
    requires ChainThrough(docs, q, n, path)
    ensures n in Flatten(Unfold(docs, arena, path))
    decreases |q| - |path|
  {
    if |q| > |path| {
      var m := |q| - |path|;
      var c := q[m - 1];
      assert q[m] == path[0];
      assert IsChildOf(Lookup(docs, c), path[0]);
      ChainExtends(docs, path, c);
      assert q[m - 1..] == [c] + path;
      ChainReaches(docs, arena, [c] + path, q, n);
      ChildOfInArena(docs, c, path[0]);
      var j :| 0 <= j < |arena[path[0]]| && arena[path[0]][j] == c;
      var t := Unfold(docs, arena, path);
      ChildrenAreChildren(docs, path[0]);
      UnfoldAllAt(docs, arena, arena[path[0]], path, j);
      FlattenAllHas(t.replies, j, n);
    }
  }

  lemma ChildOfInArena(docs: seq<Doc>, c: string, x: string)
    requires UniqueIds(docs) && c in Ids(docs) && x in Ids(docs) && IsChildOf(Lookup(docs, c), x)
    ensures c in ChildMap(docs)[x]
  {
    var li :| 0 <= li < |docs| && Ids(docs)[li] == c;
    LookupAt(docs, li);
  }

  // ---------------------------------------------------------------------
  // What the GET handlers return.

  /** A node is faithful to the fetched documents: its fields are those
      of its document, and its replies are the nodes of the comments
      whose `parentId` names it, in query order, each faithful in turn. */
  ghost predicate Unfolds(docs: seq<Doc>, t: Node)
    decreases t
  {
    && t.id in Ids(docs)
    && t.fields == Lookup(docs, t.id).fields
    && |t.replies| == |ChildIds(docs, t.id)|
    && forall i :: 0 <= i < |t.replies| ==> t.replies[i].id == ChildIds(docs, t.id)[i] && Unfolds(docs, t.replies[i])
  }

  lemma {:induction false} UnfoldIsFaithful(docs: seq<Doc>, arena: map<string, seq<string>>, path: seq<string>)
    requires UniqueIds(docs) && arena == ChildMap(docs) && IsChain(docs, path)
    ensures Unfolds(docs, Unfold(docs, arena, path))
    decreases |docs| - |path|
  {
    var x := path[0];
    var t := Unfold(docs, arena, path);
    ChildrenAreChildren(docs, x);
    forall i | 0 <= i < |t.replies| ensures Unfolds(docs, t.replies[i]) {
      UnfoldAllAt(docs, arena, arena[x], path, i);
      ChainExtends(docs, path, arena[x][i]);
      UnfoldIsFaithful(docs, arena, [arena[x][i]] + path);
    }
  }

  lemma {:induction false} ForestFaithful(docs: seq<Doc>, roots: seq<string>)
    requires UniqueIds(docs)
    requires forall r :: r in roots ==> r in Ids(docs) && IsTopLevel(Lookup(docs, r))
    ensures forall i :: 0 <= i < |roots| ==> Unfolds(docs, UnfoldForest(docs, ChildMap(docs), roots)[i])
  {
    if |roots| > 0 {
      assert IsChain(docs, [roots[0]]);
      UnfoldIsFaithful(docs, ChildMap(docs), [roots[0]]);
      ForestFaithful(docs, roots[1..]);
      var ts := UnfoldForest(docs, ChildMap(docs), roots);
      assert ts[1..] == UnfoldForest(docs, ChildMap(docs), roots[1..]);
    }
  }

  /** The top level of the returned tree is exactly the comments with no
      truthy `parentId`, in query order, and every node in the tree is
      faithful to the documents: a reply whose parent was fetched is
      listed under that parent, in query order, at any depth. */
  lemma ForestShape(docs: seq<Doc>)
    requires UniqueIds(docs)
    ensures |BuildForest(docs)| == |TopIds(docs)|
    ensures forall i :: 0 <= i < |BuildForest(docs)| ==>
      BuildForest(docs)[i].id == TopIds(docs)[i] && Unfolds(docs, BuildForest(docs)[i])
  {
    TopsAreTops(docs);
    ForestFaithful(docs, TopIds(docs));
  }

  lemma {:induction false} ForestAt(docs: seq<Doc>, roots: seq<string>, j: nat)
    requires UniqueIds(docs)
    requires forall r :: r in roots ==> r in Ids(docs) && IsTopLevel(Lookup(docs, r))
    requires j < |roots|
    ensures IsChain(docs, [roots[j]])
    ensures UnfoldForest(docs, ChildMap(docs), roots)[j] == Unfold(docs, ChildMap(docs), [roots[j]])
  {
    assert IsChain(docs, [roots[j]]);
    assert IsChain(docs, [roots[0]]);
    if j > 0 {
      ForestAt(docs, roots[1..], j - 1);
    }
  }

  /** A comment with an ancestor chain is in the returned tree. */
  lemma ChainAppears(docs: seq<Doc>, q: seq<string>)
    requires UniqueIds(docs) && IsChain(docs, q)
    ensures q[0] in FlattenAll(BuildForest(docs))
  {
    TopsAreTops(docs);
    var roots := TopIds(docs);
    var r := q[|q| - 1];
    var li :| 0 <= li < |docs| && Ids(docs)[li] == r;
    LookupAt(docs, li);
    assert r in roots;
    var j :| 0 <= j < |roots| && roots[j] == r;
    assert IsChain(docs, [r]);
    assert q[|q| - 1..] == [r];
    ChainReaches(docs, ChildMap(docs), [r], q, q[0]);
    ForestAt(docs, roots, j);
    FlattenAllHas(BuildForest(docs), j, q[0]);
  }

  /** A fetched comment appears in the returned tree if and only if its
      ancestor chain ends at a top-level comment. */
  lemma AppearsIffChain(docs: seq<Doc>, n: string)
    requires UniqueIds(docs)
    ensures n in FlattenAll(BuildForest(docs)) <==> exists q :: IsChain(docs, q) && q[0] == n
  {
    TopsAreTops(docs);
    ForestChains(docs, TopIds(docs), n);
    forall q | IsChain(docs, q) && q[0] == n ensures n in FlattenAll(BuildForest(docs)) {
      ChainAppears(docs, q);
    }
  }

  /** A reply whose `parentId` names a comment that was not fetched is
      dropped: no ancestor chain runs through it, so neither it nor any
      comment below it appears (see `ReplyOfDroppedDropped`). */
  lemma OrphanDropped(docs: seq<Doc>, i: nat)
    requires UniqueIds(docs) && i < |docs|
    requires Truthy(docs[i].fields.parentId) && docs[i].fields.parentId.value !in Ids(docs)
    ensures docs[i].id !in FlattenAll(BuildForest(docs))
    ensures forall q :: IsChain(docs, q) ==> docs[i].id !in q
  {
    LookupAt(docs, i);
    forall q, k | IsChain(docs, q) && 0 <= k < |q| ensures q[k] != docs[i].id {
      if k < |q| - 1 {
        assert IsChildOf(Lookup(docs, q[k]), q[k + 1]);
        assert Lookup(docs, q[k]).fields.parentId != docs[i].fields.parentId;
      } else {
        assert IsTopLevel(Lookup(docs, q[k]));
      }
    }
    AppearsIffChain(docs, docs[i].id);
  }

  /** A reply of a comment that does not appear does not appear either;
      applied level by level, everything below a dropped comment is
      dropped with it. */
  lemma ReplyOfDroppedDropped(docs: seq<Doc>, j: nat, x: string)
    requires UniqueIds(docs) && j < |docs|
    requires IsChildOf(docs[j], x) && x !in FlattenAll(BuildForest(docs))
    ensures docs[j].id !in FlattenAll(BuildForest(docs))
  {
    AppearsIffChain(docs, docs[j].id);
    AppearsIffChain(docs, x);
    LookupAt(docs, j);
    forall q | IsChain(docs, q) && q[0] == docs[j].id ensures false {
      if |q| > 1 {
        ChainTail(docs, q);
      }
    }
  }

  /** No comment appears twice in the returned tree. */
  lemma NoDuplicates(docs: seq<Doc>)
    requires UniqueIds(docs)
    ensures Distinct(FlattenAll(BuildForest(docs)))
  {
    TopsAreTops(docs);
    TopIdsDistinct(docs);
    ForestDistinct(docs, TopIds(docs));
  }

  // ---------------------------------------------------------------------
  // The tree ignores the stored `replies` arrays.

  lemma SkeletonIds(a: seq<Doc>, b: seq<Doc>)
    requires SameSkeleton(a, b)
    ensures Ids(a) == Ids(b)
  {
  }

  lemma {:induction false} SkeletonLookup(a: seq<Doc>, b: seq<Doc>, x: string)
    requires SameSkeleton(a, b) && x in Ids(a)
    ensures x in Ids(b) && Lookup(a, x).fields == Lookup(b, x).fields
  {
    SkeletonIds(a, b);
    if a[0].id != x {
      assert Ids(a) == [a[0].id] + Ids(a[1..]);
      assert SameSkeleton(a[1..], b[1..]);
      SkeletonLookup(a[1..], b[1..], x);
    }
  }

  lemma {:induction false} SkeletonLists(a: seq<Doc>, b: seq<Doc>)
    requires SameSkeleton(a, b)
    ensures TopIds(a) == TopIds(b)
    ensures forall x :: ChildIds(a, x) == ChildIds(b, x)
  {
    if |a| > 0 {
      assert SameSkeleton(a[..|a| - 1], b[..|b| - 1]);
      SkeletonLists(a[..|a| - 1], b[..|b| - 1]);
    }
  }

  lemma SkeletonChildMap(a: seq<Doc>, b: seq<Doc>)
    requires SameSkeleton(a, b)
    ensures ChildMap(a) == ChildMap(b)
  {
    SkeletonIds(a, b);
    SkeletonLists(a, b);
  }

  lemma SkeletonChain(a: seq<Doc>, b: seq<Doc>, path: seq<string>)
    requires SameSkeleton(a, b) && IsChain(a, path)
    ensures IsChain(b, path)
  {
    SkeletonIds(a, b);
    forall x | x in Ids(a) ensures Lookup(a, x).fields == Lookup(b, x).fields {
      SkeletonLookup(a, b, x);
    }
    assert forall i :: 0 <= i < |path| ==> Lookup(a, path[i]).fields == Lookup(b, path[i]).fields;
  }

  lemma {:induction false} SkeletonUnfold(a: seq<Doc>, b: seq<Doc>, path: seq<string>)
    requires SameSkeleton(a, b) && UniqueIds(a) && UniqueIds(b) && IsChain(a, path) && IsChain(b, path)
    ensures Unfold(a, ChildMap(a), path) == Unfold(b, ChildMap(b), path)
    decreases |a| - |path|, 1
  {
    SkeletonChildMap(a, b);
    SkeletonLookup(a, b, path[0]);
    ChildrenAreChildren(a, path[0]);
    SkeletonUnfoldAll(a, b, ChildMap(a)[path[0]], path);
  }

  lemma {:induction false} SkeletonUnfoldAll(a: seq<Doc>, b: seq<Doc>, kids: seq<string>, path: seq<string>)
    requires SameSkeleton(a, b) && UniqueIds(a) && UniqueIds(b) && IsChain(a, path) && IsChain(b, path)
    requires forall k :: k in kids ==> k in Ids(a) && IsChildOf(Lookup(a, k), path[0])
    requires forall k :: k in kids ==> k in Ids(b) && IsChildOf(Lookup(b, k), path[0])
    ensures UnfoldAll(a, ChildMap(a), kids, path) == UnfoldAll(b, ChildMap(b), kids, path)
    decreases |a| - |path|, 0, |kids|
  {
    if |kids| > 0 {
      ChainExtends(a, path, kids[0]);
      ChainExtends(b, path, kids[0]);
      SkeletonUnfold(a, b, [kids[0]] + path);
      SkeletonUnfoldAll(a, b, kids[1..], path);
    }
  }

  lemma {:induction false} SkeletonUnfoldForest(a: seq<Doc>, b: seq<Doc>, roots: seq<string>)
    requires SameSkeleton(a, b) && UniqueIds(a) && UniqueIds(b)
    requires forall r :: r in roots ==> r in Ids(a) && IsTopLevel(Lookup(a, r))
    requires forall r :: r in roots ==> r in Ids(b) && IsTopLevel(Lookup(b, r))
    ensures UnfoldForest(a, ChildMap(a), roots) == UnfoldForest(b, ChildMap(b), roots)
  {
    if |roots| > 0 {
      assert IsChain(a, [roots[0]]) && IsChain(b, [roots[0]]);
      SkeletonUnfold(a, b, [roots[0]]);
      SkeletonUnfoldForest(a, b, roots[1..]);
    }
  }

  /** The tree depends only on the ids and fields of the fetched
      documents: any stored `replies` arrays are overwritten by the
      first pass and never read. */
  lemma ForestIgnoresStoredReplies(a: seq<Doc>, b: seq<Doc>)
    requires SameSkeleton(a, b) && UniqueIds(a)
    ensures UniqueIds(b) && BuildForest(a) == BuildForest(b)
  {
    SkeletonIds(a, b);
    assert UniqueIds(b) by {
      forall i, j | 0 <= i < j < |b| ensures b[i].id != b[j].id {
        assert a[i].id == b[i].id && a[j].id == b[j].id;
      }
    }
    SkeletonLists(a, b);
    TopsAreTops(a);
    TopsAreTops(b);
    SkeletonUnfoldForest(a, b, TopIds(a));
  }
}
