/** The news feed on the home page: the newest articles (at most twelve are
    read) revealed six at a time. */
module LatestNews {
  import opened Common
  import opened Records
  import opened Routes

  const PageStep: nat := 6

  /** `visibleNews = news.slice(0, displayCount)`: the first
      `min(displayCount, |news|)` articles. */
  function VisibleNews(news: seq<News>, displayCount: nat): (r: seq<News>)
    ensures |r| == Min(displayCount, |news|)
    ensures r == news[..|r|]
  {
    JsSlice(news, 0, displayCount)
  }

  /** `hasMore = news.length > displayCount`. */
  function HasMore(news: seq<News>, displayCount: nat): bool
  {
    |news| > displayCount
  }

  /** More is offered exactly when some article is still hidden; once nothing
      more is offered the whole list is visible. */
  lemma HasMoreIffHidden(news: seq<News>, displayCount: nat)
    ensures HasMore(news, displayCount) <==> |VisibleNews(news, displayCount)| < |news|
    ensures !HasMore(news, displayCount) ==> VisibleNews(news, displayCount) == news
  {
    var v := VisibleNews(news, displayCount);
    if !HasMore(news, displayCount) {
      assert |v| == |news|;
      assert news[..|news|] == news;
    }
  }

  /** Raising the count never hides an article: the smaller reveal is a prefix
      of the larger one. */
  lemma VisibleGrows(news: seq<News>, c1: nat, c2: nat)
    requires c1 <= c2
    ensures VisibleNews(news, c1) <= VisibleNews(news, c2)
  {
    var v1, v2 := VisibleNews(news, c1), VisibleNews(news, c2);
    assert v1 == news[..|v1|] && v2 == news[..|v2|];
    assert v2[..|v1|] == news[..|v1|];
  }

  /** `/news/${item.slug || item.id}`: the link opens the article by its slug,
      or by its id when it has no slug, whenever that key is one path segment. */
  function NewsLink(item: News): (path: string)
    ensures item.slug != "" ==> path == NewsRoute(item.slug)
    ensures item.slug == "" ==> path == NewsRoute(item.id)
    ensures item.slug != "" && IsSegment(item.slug) ==> NewsRouteParam(path) == Some(item.slug)
    ensures item.slug == "" && IsSegment(item.id) ==> NewsRouteParam(path) == Some(item.id)
  {
    var key := if item.slug != "" then item.slug else item.id;
    NewsRouteOf(key);
    NewsRoute(key)
  }

  class NewsFeed {
    var news: seq<News>
    var loading: bool
    var displayCount: nat

    function Visible(): seq<News>
      reads this
    {
      VisibleNews(news, displayCount)
    }

    /** `hasMore && …`: the load-more button is rendered past the skeleton
        exactly while some article is still hidden. */
    function LoadMoreShown(): (shown: bool)
      reads this
      ensures shown <==> !loading && |Visible()| < |news|
    {
      HasMoreIffHidden(news, displayCount);
      !loading && HasMore(news, displayCount)
    }

    /** The count is always a positive multiple of six. */
    ghost predicate Valid()
      reads this
    {
      displayCount >= PageStep && displayCount % PageStep == 0
    }

    constructor ()
      ensures Valid()
      ensures news == [] && loading && displayCount == PageStep
    {
      news := [];
      loading := true;
      displayCount := PageStep;
    }

    /** The one read on mount: the articles are stored only when the read
        succeeded, and loading is cleared either way. */
    method Load(result: Option<seq<News>>)
      requires Valid() && loading
      modifies this
      ensures Valid() && !loading
      ensures news == (if result.Some? then result.value else old(news))
      ensures displayCount == old(displayCount)
    {
      if result.Some? {
        news := result.value;
      }
      loading := false;
    }

    /** `loadMore`: six more articles become visible (as many as remain). The
        list already on screen stays, in place. */
    method LoadMore()
      requires Valid()
      modifies this
      ensures Valid()
      ensures displayCount == old(displayCount) + PageStep
      ensures news == old(news) && loading == old(loading)
      ensures old(Visible()) <= Visible()
    {
      displayCount := displayCount + PageStep;
      VisibleGrows(news, old(displayCount), displayCount);
    }
  }
}
