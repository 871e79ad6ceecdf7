/** `src/app/api/posts/route.ts`: one page of the post list. The query
    parameters are read with `parseInt`, the page is cut with
    `Array.prototype.slice`, and the numbers go out as JSON, where NaN
    and the infinities become null. */
module PostsApi {
  import opened Wrappers
  import opened JsText
  import opened PostsLib

  const PostsPerPage: int := 3

  /** The JSON body of a 200 answer. A number that is NaN or infinite is
      written as null (None). */
  datatype PageBody = PageBody(posts: seq<PostMetadata>, currentPage: Option<int>, totalPages: Option<int>, totalPosts: nat)

  datatype Reply =
    | Page(body: PageBody)
    | ServerError(error: string, details: string)

  /** What `getPostMetadata` gave: the list, or the message of the error
      it threw. */
  datatype Listing = Listed(posts: seq<PostMetadata>) | Failed(message: string)

  /** `param || fallback`: an absent or empty parameter takes the
      fallback. */
  function ParamOr(param: Option<string>, fallback: string): (r: string)
    ensures param.Some? && param.value != "" ==> r == param.value
    ensures param.None? || param.value == "" ==> r == fallback
  {
    if param.Some? && param.value != "" then param.value else fallback
  }

  /** `Math.ceil(n / d)` for a count `n`; None when the quotient is NaN
      or infinite, which happens exactly when `d` is 0 or NaN. */
  function CeilDiv(n: nat, d: Option<int>): (r: Option<int>)
    ensures r.None? <==> d.None? || d.value == 0
    ensures d.Some? && d.value > 0 ==> (r.value - 1) * d.value < n <= r.value * d.value
    ensures d.Some? && d.value < 0 ==> r.value * d.value <= n < (r.value - 1) * d.value
  {
    if d.None? || d.value == 0 then None
    else if d.value > 0 then
      CeilAbove(n, d.value);
      Some((n + d.value - 1) / d.value)
    else
      CeilBelow(n, -d.value);
      Some(-(n / -d.value))
  }

  lemma CeilAbove(n: nat, d: int)
    requires d > 0
    ensures var q := (n + d - 1) / d; (q - 1) * d < n <= q * d
  {
    var q := (n + d - 1) / d;
    var m := (n + d - 1) % d;
    assert q * d + m == n + d - 1 && 0 <= m < d;
    assert (q - 1) * d == q * d - d;
  }

  lemma CeilBelow(n: nat, m: int)
    requires m > 0
    ensures var q := n / m; (-q) * -m <= n < (-q - 1) * -m
  {
    var q := n / m;
    assert q * m <= n < (q + 1) * m;
    assert (-q) * -m == q * m;
    assert (-q - 1) * -m == (q + 1) * m;
  }

  /** How `slice` turns an argument into a position in a list of length
      `len`: NaN is 0, a negative value counts from the end, and the
      result is clamped to `0..len`. */
  function SlicePosition(i: Option<int>, len: nat): (r: nat)
    ensures r <= len
    ensures i.None? ==> r == 0
    ensures i.Some? && 0 <= i.value ==> r == if i.value < len then i.value else len
    ensures i.Some? && i.value < 0 ==> r == if len + i.value > 0 then len + i.value else 0
  {
    if i.None? then 0
    else if i.value < 0 then (if len + i.value > 0 then len + i.value else 0)
    else if i.value < len then i.value else len
  }

  /** `s.slice(start, end)`. */
  function Slice<T>(s: seq<T>, start: Option<int>, end: Option<int>): (r: seq<T>)
    ensures var a, b := SlicePosition(start, |s|), SlicePosition(end, |s|);
      r == if a < b then s[a..b] else []
  {
    var a, b := SlicePosition(start, |s|), SlicePosition(end, |s|);
    if a < b then s[a..b] else []
  }

  /** Arithmetic in which NaN is None and spreads. */
  function Times(x: Option<int>, y: Option<int>): Option<int> {
    if x.None? || y.None? then None else Some(x.value * y.value)
  }

  function Plus(x: Option<int>, y: Option<int>): Option<int> {
    if x.None? || y.None? then None else Some(x.value + y.value)
  }

  /** The page numbers the handler reads. */
  function PageNumber(pageParam: Option<string>): Option<int> {
    ParseInt10(ParamOr(pageParam, "1"))
  }

  function Limit(limitParam: Option<string>): Option<int> {
    ParseInt10(ParamOr(limitParam, IntToString(PostsPerPage)))
  }

  /** The handler. */
  function Get(pageParam: Option<string>, limitParam: Option<string>, listing: Listing): (r: Reply)
    ensures listing.Failed? ==> r == ServerError("Internal Server Error", listing.message)
    ensures listing.Listed? ==>
      && r.Page?
      && r.body.currentPage == PageNumber(pageParam)
      && r.body.totalPosts == |listing.posts|
      && r.body.totalPages == CeilDiv(|listing.posts|, Limit(limitParam))
  {
    if listing.Failed? then ServerError("Internal Server Error", listing.message)
    else
      var page := PageNumber(pageParam);
      var limit := Limit(limitParam);
      var all := listing.posts;
      var startIndex := Times(Plus(page, Some(-1)), limit);
      var endIndex := Plus(startIndex, limit);
      Page(PageBody(Slice(all, startIndex, endIndex), page, CeilDiv(|all|, limit), |all|))
  }

  function Min(a: int, b: int): int { if a < b then a else b }

  /** Page `p` of `all` cut `limit` at a time: the definition the handler
      is held to. */
  function PageOf<T>(all: seq<T>, p: int, limit: int): (r: seq<T>)
    requires p >= 1 && limit >= 1
    ensures |r| <= limit
  {
    all[Min((p - 1) * limit, |all|)..Min(p * limit, |all|)]
  }

  /** With an ordinary page and limit, the answer is that page, which has
      at most `limit` posts and none past the last page. */
  lemma GetReturnsPage(p: int, limit: int, all: seq<PostMetadata>)
    requires p >= 1 && limit >= 1
    ensures var r := Get(Some(IntToString(p)), Some(IntToString(limit)), Listed(all));
      && r.body.currentPage == Some(p)
      && r.body.posts == PageOf(all, p, limit)
      && r.body.totalPages.Some?
      && (p > r.body.totalPages.value ==> r.body.posts == [])
  {
    ParseIntOfIntToString(p, "");
    ParseIntOfIntToString(limit, "");
    assert IntToString(p) + "" == IntToString(p);
    assert IntToString(limit) + "" == IntToString(limit);
    assert PageNumber(Some(IntToString(p))) == Some(p);
    assert Limit(Some(IntToString(limit))) == Some(limit);
    SliceOfPage(all, p, limit);
    PastLastPageEmpty(all, p, limit);
  }

  lemma PastLastPageEmpty<T>(all: seq<T>, p: int, limit: int)
    requires p >= 1 && limit >= 1
    ensures p > CeilDiv(|all|, Some(limit)).value ==> PageOf(all, p, limit) == []
  {
    var tp := CeilDiv(|all|, Some(limit)).value;
    if p > tp {
      assert tp <= p - 1;
      assert tp * limit <= (p - 1) * limit;
      assert (p - 1) * limit <= p * limit;
    }
  }

  lemma SliceOfPage<T>(all: seq<T>, p: int, limit: int)
    requires p >= 1 && limit >= 1
    ensures Slice(all, Times(Plus(Some(p), Some(-1)), Some(limit)), Plus(Times(Plus(Some(p), Some(-1)), Some(limit)), Some(limit)))
      == PageOf(all, p, limit)
  {
    var start := (p - 1) * limit;
    assert start >= 0;
    assert start + limit == p * limit;
    assert SlicePosition(Some(start), |all|) == Min(start, |all|);
    assert SlicePosition(Some(p * limit), |all|) == Min(p * limit, |all|);
  }

  /** Without parameters the first three posts are returned. */
  lemma DefaultsToFirstPage(all: seq<PostMetadata>)
    ensures var r := Get(None, None, Listed(all));
      && r.body.currentPage == Some(1)
      && r.body.posts == all[..Min(PostsPerPage, |all|)]
      && r.body.totalPages == CeilDiv(|all|, Some(PostsPerPage))
  {
    assert "1" == IntToString(1);
    ParseIntOfIntToString(1, "");
    assert "1" + "" == "1";
    ParseIntOfIntToString(PostsPerPage, "");
    assert IntToString(PostsPerPage) + "" == IntToString(PostsPerPage);
  }

  /** Pages 1 to k, one after the other. */
  function FirstPages<T>(all: seq<T>, k: nat, limit: int): seq<T>
    requires limit >= 1
  {
    if k == 0 then [] else FirstPages(all, k - 1, limit) + PageOf(all, k, limit)
  }

  lemma {:induction false} FirstPagesArePrefix<T>(all: seq<T>, k: nat, limit: int)
    requires limit >= 1
    ensures FirstPages(all, k, limit) == all[..Min(k * limit, |all|)]
  {
    if k > 0 {
      FirstPagesArePrefix(all, k - 1, limit);
      var a, b := Min((k - 1) * limit, |all|), Min(k * limit, |all|);
      assert all[..a] + all[a..b] == all[..b];
    }
  }

  /** Reading every page, from the first to `totalPages`, gives back the
      whole list, each post once and in order. */
  lemma PagesCoverAll<T>(all: seq<T>, limit: int)
    requires limit >= 1
    ensures FirstPages(all, CeilDiv(|all|, Some(limit)).value, limit) == all
  {
    var tp := CeilDiv(|all|, Some(limit)).value;
    FirstPagesArePrefix(all, tp, limit);
    assert all[..|all|] == all;
  }
}
