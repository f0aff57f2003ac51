/** The rows the components read from the table store, reduced to the columns
    the components use. A text column the store may return as null is the
    empty string here: where a component only tests such a column for
    JavaScript truthiness, null and "" behave alike. Other uses (splitting the
    article text, a slug in a link, mapping a course's lists) would differ on
    null; the model takes those columns as present. */
module Records {
  import opened Common

  datatype Course = Course(
    id: string,
    slug: string,
    title: string,
    subtitle: string,
    category: string,
    level: string,
    description: string,
    shortDescription: string,
    imageUrl: string,
    cardImageUrl: string,
    highlights: seq<string>,
    curriculum: seq<string>,
    outcomes: seq<string>,
    ages: string,
    duration: string,
    classSize: string,
    scheduleDays: string,
    scheduleTime: string,
    location: string,
    prerequisites: string,
    targetAudience: string)

  datatype Faculty = Faculty(
    id: string,
    name: string,
    credentials: string,
    role: string,
    subject: string,
    imageUrl: string,
    videoUrl: string)

  /** `viewCount` is None when the column is null; `relatedCourseIds` likewise. */
  datatype News = News(
    id: string,
    slug: string,
    title: string,
    excerpt: string,
    content: string,
    imageUrl: string,
    category: string,
    viewCount: Option<int>,
    relatedCourseIds: Option<seq<string>>)

  /** A hero slide with the news row joined through `news_id`, if any. */
  datatype HeroSlide = HeroSlide(
    id: string,
    imageUrl: string,
    altText: string,
    title: string,
    description: string,
    newsId: Option<string>,
    news: Option<News>)
}

/** The in-site route of a news article, `/news/:slug`. The router matches a
    dynamic segment against one non-empty path segment, which holds no `/`,
    and accepts the path followed by any number of `/`. */
module Routes {
  import opened Common

  const NewsPrefix := "/news/"

  /** A value the `:slug` segment can take. */
  predicate IsSegment(key: string)
  {
    key != "" && '/' !in key
  }

  predicate AllSlashes(t: string)
  {
    forall k :: 0 <= k < |t| ==> t[k] == '/'
  }

  /** Some `/` in `key` is followed, later on, by a character other than `/`:
      the key spans more than one segment. */
  predicate SlashInside(key: string)
  {
    exists i, j :: 0 <= i < j < |key| && key[i] == '/' && key[j] != '/'
  }

  function NewsRoute(key: string): (path: string)
    ensures |path| == |NewsPrefix| + |key|
    ensures path[..|NewsPrefix|] == NewsPrefix && path[|NewsPrefix|..] == key
  {
    NewsPrefix + key
  }

  /** The path is the route of `key` followed by zero or more `/`. */
  predicate RouteWithSlashes(path: string, key: string)
  {
    |NewsRoute(key)| <= |path| && path[..|NewsRoute(key)|] == NewsRoute(key)
    && AllSlashes(path[|NewsRoute(key)|..])
  }

  /** What follows the prefix, less its trailing run of `/`. */
  function StripSlashes(rest: string): (r: string)
    ensures |r| <= |rest| && r == rest[..|r|]
    ensures AllSlashes(rest[|r|..])
    ensures r == "" || r[|r| - 1] != '/'
    decreases |rest|
  {
    if |rest| > 0 && rest[|rest| - 1] == '/' then
      var r := StripSlashes(rest[..|rest| - 1]);
      assert rest[|r|..] == rest[..|rest| - 1][|r|..] + "/";
      r
    else rest
  }

  /** Stripping a run of `/` from a key that does not end in `/` gives the key. */
  lemma {:induction false} StripSlashesOf(key: string, t: string)
    requires key == "" || key[|key| - 1] != '/'
    requires AllSlashes(t)
    ensures StripSlashes(key + t) == key
    decreases |t|
  {
    if t == "" {
      assert key + t == key;
    } else {
      var s := key + t;
      assert s[|s| - 1] == t[|t| - 1] == '/';
      assert s[..|s| - 1] == key + t[..|t| - 1];
      StripSlashesOf(key, t[..|t| - 1]);
    }
  }

  /** A character other than `/` survives the stripping. */
  lemma {:induction false} StripSlashesKeeps(rest: string, j: nat)
    requires j < |rest| && rest[j] != '/'
    ensures j < |StripSlashes(rest)|
    decreases |rest|
  {
    if rest[|rest| - 1] == '/' {
      assert j != |rest| - 1;
      assert rest[..|rest| - 1][j] == rest[j];
      StripSlashesKeeps(rest[..|rest| - 1], j);
    }
  }

  /** The `:slug` parameter the router hands to the news page for the
      pathname `path`, if the path matches the news route. */
  function NewsRouteParam(path: string): (key: Option<string>)
    ensures key.Some? ==> IsSegment(key.value) && RouteWithSlashes(path, key.value)
  {
    if |path| >= |NewsPrefix| && path[..|NewsPrefix|] == NewsPrefix then
      var rest := path[|NewsPrefix|..];
      var seg := StripSlashes(rest);
      if IsSegment(seg) then
        assert path == NewsPrefix + rest;
        assert path[..|NewsRoute(seg)|] == NewsPrefix + rest[..|seg|];
        assert path[|NewsRoute(seg)|..] == rest[|seg|..];
        Some(seg)
      else None
    else None
  }

  /** The route matches exactly the paths `/news/<segment>` followed by zero
      or more `/`, and hands over that segment. */
  lemma NewsRouteMatches(path: string, key: string)
    ensures NewsRouteParam(path) == Some(key) <==> IsSegment(key) && RouteWithSlashes(path, key)
  {
    if IsSegment(key) && RouteWithSlashes(path, key) {
      var n := |NewsRoute(key)|;
      var t := path[n..];
      assert path[..|NewsPrefix|] == NewsRoute(key)[..|NewsPrefix|];
      assert path[|NewsPrefix|..] == key + t by {
        assert path == NewsRoute(key) + t;
      }
      assert key[|key| - 1] in key;
      StripSlashesOf(key, t);
    }
  }

  /** A link built with NewsRoute from a segment reaches the news page with
      exactly that segment, whatever run of `/` follows it. */
  lemma NewsRouteRoundTrip(key: string, tail: string)
    requires IsSegment(key) && AllSlashes(tail)
    ensures NewsRouteParam(NewsRoute(key) + tail) == Some(key)
  {
    var path := NewsRoute(key) + tail;
    assert path[..|NewsRoute(key)|] == NewsRoute(key) && path[|NewsRoute(key)|..] == tail;
    NewsRouteMatches(path, key);
  }

  /** A key made only of `/` (the empty key among them), and a key with a `/`
      before some other character (more than one segment), reach no article. */
  lemma NewsRouteRejects(key: string)
    requires AllSlashes(key) || SlashInside(key)
    ensures NewsRouteParam(NewsRoute(key)) == None
  {
    var seg := StripSlashes(key);
    if SlashInside(key) {
      var i, j :| 0 <= i < j < |key| && key[i] == '/' && key[j] != '/';
      StripSlashesKeeps(key, j);
      assert seg[i] == '/';
    } else {
      StripSlashesOf("", key);
      assert "" + key == key;
    }
  }

  /** Where a link built from any key leads: nowhere exactly when the key is
      only `/` or spans more than one segment; otherwise to the key less its
      trailing `/`, which for a segment is the key itself. */
  lemma NewsRouteOf(key: string)
    ensures NewsRouteParam(NewsRoute(key)).None? <==> AllSlashes(key) || SlashInside(key)
    ensures NewsRouteParam(NewsRoute(key)).Some? ==> NewsRouteParam(NewsRoute(key)).value == StripSlashes(key)
    ensures IsSegment(key) ==> NewsRouteParam(NewsRoute(key)) == Some(key)
    ensures key == "" ==> NewsRouteParam(NewsRoute(key)) == None
  {
    var seg := StripSlashes(key);
    assert NewsRoute(key)[|NewsPrefix|..] == key;
    if IsSegment(key) {
      StripSlashesOf(key, "");
      assert key + "" == key;
    }
    if !IsSegment(seg) {
      if seg == "" {
        assert key[|seg|..] == key;
      } else {
        var i :| 0 <= i < |seg| && seg[i] == '/';
        assert key[i] == '/' && key[|seg| - 1] != '/';
      }
    } else {
      assert key[|seg| - 1] == seg[|seg| - 1];
      forall i, j | 0 <= i < j < |key| && key[j] != '/' ensures key[i] != '/' {
        StripSlashesKeeps(key, j);
        assert key[i] == seg[i] && seg[i] in seg;
      }
    }
  }

  /** `/news/a//` opens the article `a`; `/news/a/b` and `/news//` open none. */
  lemma NewsRouteSamples()
    ensures NewsRouteParam("/news/a//") == Some("a")
    ensures NewsRouteParam("/news/a/b") == None
    ensures NewsRouteParam("/news//") == None
  {
    NewsRouteRoundTrip("a", "//");
    assert NewsRoute("a") + "//" == "/news/a//";
    assert "a/b"[1] == '/' && "a/b"[2] != '/';
    NewsRouteRejects("a/b");
    assert NewsRoute("a/b") == "/news/a/b";
    NewsRouteRejects("/");
    assert NewsRoute("/") == "/news//";
  }
}
