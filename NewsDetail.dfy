/** The news article page, `/news/:slug`: one read of the active article with
    that slug; when it is found, a write of its view count plus one and, when
    it lists related courses, a read of those that are active. The calls to
    the store are kept as a log of requests; their replies are inputs. */
module NewsDetail {
  import opened Common
  import opened Records
  import opened Linkify

  datatype Request =
    | ReadArticle(slug: string)
    | WriteViewCount(articleId: string, value: int)
    | ReadCourses(ids: seq<string>)

  /** `if (!slug) return;`: an absent or empty route parameter. */
  predicate SlugPresent(slug: Option<string>)
  {
    slug.Some? && slug.value != ""
  }

  /** `news.view_count || 0`: the count the page shows. */
  function DisplayedViewCount(article: News): (n: int)
    ensures article.viewCount.None? ==> n == 0
  {
    if article.viewCount.Some? then article.viewCount.value else 0
  }

  /** `(data.view_count || 0) + 1`: the count written back, one more than the
      count the page shows, which is the value read. */
  function WrittenViewCount(article: News): (n: int)
    ensures n == DisplayedViewCount(article) + 1
    ensures article.viewCount.None? ==> n == 1
  {
    (if article.viewCount.Some? then article.viewCount.value else 0) + 1
  }

  /** The related course ids, when the article lists at least one. */
  function RelatedIds(article: News): (ids: seq<string>)
    ensures article.relatedCourseIds.None? ==> ids == []
  {
    if article.relatedCourseIds.Some? then article.relatedCourseIds.value else []
  }

  /** The store calls one run of the fetch issues for a present slug: the
      read; then, only when an article came back, the view-count write and,
      only when the article lists related courses, the courses read. */
  function FetchRequests(slug: string, found: Option<News>): (reqs: seq<Request>)
    ensures |reqs| >= 1 && reqs[0] == ReadArticle(slug)
    ensures found.None? ==> reqs == [ReadArticle(slug)]
    ensures found.Some? ==> |reqs| >= 2 && reqs[1] == WriteViewCount(found.value.id, WrittenViewCount(found.value))
    ensures found.Some? ==>
              (|reqs| == 3 <==> RelatedIds(found.value) != []) &&
              (|reqs| == 3 ==> reqs[2] == ReadCourses(RelatedIds(found.value)))
    ensures |reqs| <= 3
  {
    if found.None? then [ReadArticle(slug)]
    else
      var a := found.value;
      [ReadArticle(slug), WriteViewCount(a.id, WrittenViewCount(a))]
      + (if RelatedIds(a) != [] then [ReadCourses(RelatedIds(a))] else [])
  }

  class NewsDetailPage {
    var news: Option<News>
    var relatedCourses: seq<Course>
    var loading: bool
    /** Every call made to the store, in order. */
    var requests: seq<Request>

    function View(): DetailView<News>
      reads this
    {
      DetailViewOf(loading, news)
    }

    constructor ()
      ensures news == None && relatedCourses == [] && loading && requests == []
    {
      news := None;
      relatedCourses := [];
      loading := true;
      requests := [];
    }

    /** One run of the fetch effect for the route parameter `slug`. `found` is
        the reply to the article read (None for no row or an error); `courses`
        is the reply to the related-courses read, consulted only when that
        read is made (None for an error).

        Without a slug nothing is fetched and nothing changes, so a fresh page
        stays on its skeleton. With one, loading is cleared after the read;
        the article and related courses are replaced only by what came back,
        so a run for a slug with no article keeps whatever was shown before. */
    method FetchNews(slug: Option<string>, found: Option<News>, courses: Option<seq<Course>>)
      modifies this
      ensures !SlugPresent(slug) ==>
                news == old(news) && relatedCourses == old(relatedCourses)
                && loading == old(loading) && requests == old(requests)
      ensures SlugPresent(slug) ==>
                && !loading
                && requests == old(requests) + FetchRequests(slug.value, found)
                && news == (if found.Some? then found else old(news))
                && relatedCourses ==
                     (if found.Some? && RelatedIds(found.value) != [] && courses.Some?
                      then courses.value else old(relatedCourses))
    {
      if !SlugPresent(slug) {
        return;
      }
      requests := requests + [ReadArticle(slug.value)];
      if found.Some? {
        var data := found.value;
        news := Some(data);
        requests := requests + [WriteViewCount(data.id, WrittenViewCount(data))];
        var ids := RelatedIds(data);
        if ids != [] {
          requests := requests + [ReadCourses(ids)];
          if courses.Some? {
            relatedCourses := courses.value;
          }
        }
      }
      loading := false;
    }

    /** The article body as rendered: one block per line of the content, with
        the URLs of each line as links. */
    method Body() returns (blocks: seq<seq<Segment>>)
      requires View().Found?
      ensures news.Some?
      ensures |blocks| == NewlineCount(news.value.content) + 1 == |Lines(news.value.content)|
      ensures forall k :: 0 <= k < |blocks| ==>
                blocks[k] == RenderLine(Lines(news.value.content)[k])
                && ConcatSegments(blocks[k]) == Lines(news.value.content)[k]
    {
      var content := news.value.content;
      blocks := RenderContent(content);
      RenderContentBlocks(content);
      forall k | 0 <= k < |blocks| ensures ConcatSegments(blocks[k]) == Lines(content)[k] {
        RenderLineText(Lines(content)[k]);
      }
    }
  }

  /** A page whose route has no slug never leaves its skeleton, however often
      the effect runs, and never calls the store. */
  method NoSlugStaysLoading(found: Option<News>, courses: Option<seq<Course>>) returns (page: NewsDetailPage)
    ensures page.View().Loading? && page.requests == []
  {
    page := new NewsDetailPage();
    page.FetchNews(None, found, courses);
    page.FetchNews(Some(""), found, courses);
  }

  /** The first visit to an article: the skeleton gives way to the article
      the read returned, or to the not-found view; related courses stay empty
      unless the article lists some and their read succeeds. */
  method FirstVisit(slug: string, found: Option<News>, courses: Option<seq<Course>>)
    returns (page: NewsDetailPage)
    requires slug != ""
    ensures found.Some? ==> page.View() == Found(found.value)
    ensures found.None? ==> page.View() == NotFound
    ensures page.requests == FetchRequests(slug, found)
    ensures page.relatedCourses ==
              if found.Some? && RelatedIds(found.value) != [] && courses.Some? then courses.value else []
  {
    page := new NewsDetailPage();
    page.FetchNews(Some(slug), found, courses);
  }
}
