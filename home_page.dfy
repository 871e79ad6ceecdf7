/** `src/app/page.tsx`: the home page. It reads the page number from the
    query string, asks the posts API for that page two posts at a time,
    and shows the posts with the same row of page links as the
    pagination component. */
module HomePage {
  import opened Wrappers
  import opened JsText
  import opened PostsLib
  import PostsApi
  import opened PaginationView

  const PostsPerPage: int := 2

  /** `Number(s)` for the strings the model reads as numbers: surrounding
      whitespace is ignored, the empty string is 0, and an optional sign
      followed by decimal digits is that integer. Anything else is None
      (NaN, or a numeric form outside the model). */
  function NumberOf(s: string): (r: Option<int>)
    ensures Trim(s) == "" ==> r == Some(0)
    ensures r.Some? && Trim(s) != "" ==> r == ParseInt10(Trim(s))
    ensures Trim(s) != "" && r.None? ==> |SignStripped(Trim(s))| == 0 || !AllDigits(SignStripped(Trim(s)))
  {
    var t := Trim(s);
    var body := SignStripped(t);
    if t == "" then Some(0)
    else if |body| > 0 && DigitRun(body) == |body| then ParseInt10(t)
    else None
  }

  /** `Number(searchParams.get("page")) || 1`: an absent parameter is
      `Number(null)`, which is 0; 0 and NaN fall back to page 1. */
  function PageParam(param: Option<string>): (r: int)
    ensures r != 0
    ensures param.None? ==> r == 1
    ensures param.Some? && NumberOf(param.value).Some? && NumberOf(param.value).value != 0 ==>
      r == NumberOf(param.value).value
    ensures param.Some? && (NumberOf(param.value).None? || NumberOf(param.value) == Some(0)) ==> r == 1
  {
    var v := if param.None? then Some(0) else NumberOf(param.value);
    if v.None? || v.value == 0 then 1 else v.value
  }

  /** The text `${n}` writes has no whitespace at its ends. */
  lemma TrimOfIntToString(n: int)
    ensures Trim(IntToString(n)) == IntToString(n)
  {
    var s := IntToString(n);
    assert !IsWhitespace(s[0]);
    assert LeadingWs(s) == 0;
    assert s[0..] == s;
    assert !IsWhitespace(s[|s| - 1]) by {
      if n >= 0 {
        assert IsDigit(s[|s| - 1]);
      } else {
        assert IsDigit(s[1..][|s| - 2]);
      }
    }
    assert TrailingWs(s) == 0;
    assert s[0..|s| - 0] == s;
  }

  /** `Number` reads back the decimal text of every integer. */
  lemma NumberOfIntToString(n: int)
    ensures NumberOf(IntToString(n)) == Some(n)
  {
    var s := IntToString(n);
    TrimOfIntToString(n);
    ParseIntOfIntToString(n, "");
    assert s + "" == s;
    var body := SignStripped(s);
    if n >= 0 {
      assert body == s;
      DigitRunOfAllDigits(s, "");
    } else {
      assert body == s[1..];
      DigitRunOfAllDigits(s[1..], "");
    }
    assert s + "" == s && body + "" == body;
  }

  /** A link's query string `?page=<n>` brings the page back to page `n`
      for every page number but 0. */
  lemma PageParamRoundTrip(n: int)
    requires n != 0
    ensures PageParam(Some(IntToString(n))) == n
  {
    NumberOfIntToString(n);
  }

  /** The address a link leads to, and the one `handlePageChange`
      pushes. */
  function PageUrl(page: int): (r: string)
    ensures |r| == 7 + |IntToString(page)| && r[..7] == "/?page=" && r[7..] == IntToString(page)
  {
    "/?page=" + IntToString(page)
  }

  /** The answer the posts API gives to the request `fetchPosts` sends,
      `/api/posts?page=<p>&limit=2`, for an ordinary page: that page, at most two posts, none past the last page, and
      the page count for two posts a page. */
  lemma FetchedPage(p: int, all: seq<PostMetadata>)
    requires p >= 1
    ensures var r := PostsApi.Get(Some(IntToString(p)), Some(IntToString(PostsPerPage)), PostsApi.Listed(all));
      && r.Page?
      && r.body.posts == PostsApi.PageOf(all, p, PostsPerPage)
      && |r.body.posts| <= PostsPerPage
      && r.body.totalPages == PostsApi.CeilDiv(|all|, Some(PostsPerPage))
      && r.body.totalPosts == |all|
      && (p > r.body.totalPages.value ==> r.body.posts == [])
  {
    PostsApi.GetReturnsPage(p, PostsPerPage, all);
    ParseIntOfIntToString(PostsPerPage, "");
    assert IntToString(PostsPerPage) + "" == IntToString(PostsPerPage);
  }

  /** The row of links under the posts: the same items as the pagination
      component. When `totalPages` is undefined every comparison with it
      is false and the window is empty. */
  function Row(currentPage: int, totalPages: Option<int>): (r: seq<Item>)
    ensures totalPages.None? ==> r == PreviousPart(currentPage) + FirstPart(currentPage)
  {
    if totalPages.Some? then Items(currentPage, totalPages.value)
    else PreviousPart(currentPage) + FirstPart(currentPage)
  }

  /** The page an entry of the row leads to; an ellipsis leads nowhere. */
  function Target(item: Item): int {
    match item
    case PageLink(page, _) => page
    case Previous(target) => target
    case Next(target) => target
    case Ellipsis => 0
  }

  /** A link of the row, followed and read back, lands on the page it
      shows: for a current page in range every link and arrow leads to a
      page from 1 to `totalPages`, and the page the address gives is that
      page. */
  lemma RowLinksLand(currentPage: int, totalPages: int, i: int)
    requires 1 <= currentPage <= totalPages
    requires 0 <= i < |Row(currentPage, Some(totalPages))|
    ensures var item := Row(currentPage, Some(totalPages))[i];
      !item.Ellipsis? ==>
        && 1 <= Target(item) <= totalPages
        && PageParam(Some(PageUrl(Target(item))[7..])) == Target(item)
  {
    var r := Items(currentPage, totalPages);
    assert Row(currentPage, Some(totalPages)) == r;
    LinksAreOrdered(currentPage, totalPages);
    TargetsInRange(r, currentPage, totalPages, i);
    if !r[i].Ellipsis? {
      PageParamRoundTrip(Target(r[i]));
    }
  }

  lemma TargetsInRange(r: seq<Item>, currentPage: int, totalPages: int, i: int)
    requires 1 <= currentPage <= totalPages && 0 <= i < |r|
    requires r[0].Previous? ==> currentPage > 1 && r[0] == Previous(currentPage - 1)
    requires r[|r| - 1].Next? ==> currentPage < totalPages && r[|r| - 1] == Next(currentPage + 1)
    requires forall k :: 0 < k < |r| ==> !r[k].Previous?
    requires forall k :: 0 <= k < |r| - 1 ==> !r[k].Next?
    requires forall k :: 0 <= k < |Links(r)| ==> 1 <= Links(r)[k] <= totalPages
    ensures !r[i].Ellipsis? ==> 1 <= Target(r[i]) <= totalPages
  {
    if r[i].PageLink? {
      PageLinkInLinks(r, i);
    }
  }

  /** The page of a link is among the pages of the links. */
  lemma {:induction false} PageLinkInLinks(r: seq<Item>, i: int)
    requires 0 <= i < |r| && r[i].PageLink?
    ensures r[i].page in Links(r)
  {
    if i == 0 {
      assert Links(r) == [r[0].page] + Links(r[1..]);
    } else {
      PageLinkInLinks(r[1..], i - 1);
      assert Links(r) == LinkOf(r[0]) + Links(r[1..]);
    }
  }

  /** The state of the home page. `posts` and `totalPages` are None when
      the API answered with an error body, which has neither field. */
  class Home {
    var currentPage: int
    var totalPages: Option<int>
    var posts: Option<seq<PostMetadata>>
    var isLoading: bool
    var isSidebarOpen: bool
    /** The addresses pushed to the router, oldest first. */
    var navigations: seq<string>
    /** The pages requested from the posts API, oldest first; each
        request asks for that page two posts at a time. */
    var requests: seq<int>

    constructor()
      ensures currentPage == 1 && totalPages == Some(1) && posts == Some([])
      ensures isLoading && !isSidebarOpen && navigations == [] && requests == []
    {
      currentPage := 1;
      totalPages := Some(1);
      posts := Some([]);
      isLoading := true;
      isSidebarOpen := false;
      navigations := [];
      requests := [];
    }

    /** The effect run when the query string changes: read the page,
        show it as current and fetch it. */
    method OnSearchParams(pageParam: Option<string>, response: Option<PostsApi.Reply>)
      modifies this
      ensures currentPage == PageParam(pageParam)
      ensures requests == old(requests) + [currentPage]
      ensures response.None? ==> posts == old(posts) && totalPages == old(totalPages)
      ensures response.Some? && response.value.Page? ==>
        posts == Some(response.value.body.posts) && totalPages == response.value.body.totalPages
      ensures response.Some? && response.value.ServerError? ==> posts == None && totalPages == None
      ensures !isLoading
      ensures isSidebarOpen == old(isSidebarOpen) && navigations == old(navigations)
    {
      var page := PageParam(pageParam);
      currentPage := page;
      FetchPosts(page, response);
    }

    /** `fetchPosts`, taken as one step: `response` is the API's answer,
        or None when the request or the JSON parse throws (the error is
        logged and the shown posts are kept). An error body has neither
        `posts` nor `totalPages`, so both become undefined. */
    method FetchPosts(page: int, response: Option<PostsApi.Reply>)
      modifies this
      ensures requests == old(requests) + [page]
      ensures response.None? ==> posts == old(posts) && totalPages == old(totalPages)
      ensures response.Some? && response.value.Page? ==>
        posts == Some(response.value.body.posts) && totalPages == response.value.body.totalPages
      ensures response.Some? && response.value.ServerError? ==> posts == None && totalPages == None
      ensures !isLoading
      ensures currentPage == old(currentPage)
      ensures isSidebarOpen == old(isSidebarOpen) && navigations == old(navigations)
    {
      isLoading := true;
      requests := requests + [page];
      if response.Some? && response.value.Page? {
        posts := Some(response.value.body.posts);
        totalPages := response.value.body.totalPages;
      } else if response.Some? {
        posts := None;
        totalPages := None;
      }
      isLoading := false;
    }

    /** `handlePageChange`: push `/?page=<page>`. */
    method HandlePageChange(page: int)
      modifies this
      ensures navigations == old(navigations) + [PageUrl(page)]
      ensures currentPage == old(currentPage) && totalPages == old(totalPages) && posts == old(posts)
      ensures isLoading == old(isLoading) && isSidebarOpen == old(isSidebarOpen) && requests == old(requests)
    {
      navigations := navigations + [PageUrl(page)];
    }

    /** `toggleSidebar`. */
    method ToggleSidebar()
      modifies this
      ensures isSidebarOpen == !old(isSidebarOpen)
      ensures currentPage == old(currentPage) && totalPages == old(totalPages) && posts == old(posts)
      ensures isLoading == old(isLoading) && navigations == old(navigations) && requests == old(requests)
    {
      isSidebarOpen := !isSidebarOpen;
    }

  }

  /** Clicking a page link and then loading the address it pushed shows
      that page, requested two posts at a time. */
  method FollowLink(home: Home, page: int, response: Option<PostsApi.Reply>)
    requires page != 0
    modifies home
    ensures home.navigations == old(home.navigations) + [PageUrl(page)]
    ensures home.currentPage == page
    ensures home.requests == old(home.requests) + [page]
  {
    home.HandlePageChange(page);
    var url := home.navigations[|home.navigations| - 1];
    assert url == PageUrl(page);
    PageParamRoundTrip(page);
    home.OnSearchParams(Some(url[7..]), response);
  }

  /** Two toggles put the sidebar back as it was. */
  method ToggleTwice(home: Home)
    modifies home
    ensures home.isSidebarOpen == old(home.isSidebarOpen)
  {
    home.ToggleSidebar();
    home.ToggleSidebar();
  }
}
