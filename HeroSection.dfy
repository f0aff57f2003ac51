/** The hero carousel at the top of the home page: up to five slides that
    advance on a repeating timer, each either self-contained or showing a
    joined news article and linking to it. */
module HeroSection {
  import opened Common
  import opened Records
  import opened Routes

  /** `isNewsLinked`: the slide names a news row (a non-empty `news_id`) and
      the join found it. */
  predicate IsNewsLinked(slide: HeroSlide)
  {
    slide.newsId.Some? && slide.newsId.value != "" && slide.news.Some?
  }

  /** The display fields the slide resolves to. */
  datatype ResolvedSlide = ResolvedSlide(
    image: string,
    title: string,
    description: string,
    category: Option<string>,
    newsSlug: Option<string>)

  /** A linked slide shows the article's image, title, excerpt and category and
      carries its slug; any other slide shows its own image, title and
      description, with no category and no slug. */
  function Resolve(slide: HeroSlide): (r: ResolvedSlide)
    ensures r.newsSlug.Some? <==> IsNewsLinked(slide)
    ensures r.category.Some? <==> IsNewsLinked(slide)
    ensures IsNewsLinked(slide) ==>
              var n := slide.news.value;
              r == ResolvedSlide(n.imageUrl, n.title, n.excerpt, Some(n.category), Some(n.slug))
    ensures !IsNewsLinked(slide) ==>
              r == ResolvedSlide(slide.imageUrl, slide.title, slide.description, None, None)
  {
    var linked := IsNewsLinked(slide);
    ResolvedSlide(
      if linked then slide.news.value.imageUrl else slide.imageUrl,
      if linked then slide.news.value.title else slide.title,
      if linked then slide.news.value.excerpt else slide.description,
      if linked then Some(slide.news.value.category) else None,
      if linked then Some(slide.news.value.slug) else None)
  }

  /** The slide is wrapped in a link to `/news/<slug>` exactly when it is news
      linked. A slug that is one path segment opens that article; an empty
      slug gives `/news/`, which the news route does not match. */
  function LinkTarget(slide: HeroSlide): (target: Option<string>)
    ensures target.Some? <==> IsNewsLinked(slide)
    ensures target.Some? ==> target.value == NewsRoute(slide.news.value.slug)
    ensures target.Some? && IsSegment(slide.news.value.slug) ==>
              NewsRouteParam(target.value) == Some(slide.news.value.slug)
    ensures target.Some? && slide.news.value.slug == "" ==> NewsRouteParam(target.value) == None
  {
    var r := Resolve(slide);
    if r.newsSlug.Some? then
      NewsRouteOf(r.newsSlug.value);
      Some(NewsRoute(r.newsSlug.value))
    else None
  }

  /** `slide.alt_text || title`: the slide's own alt text, or the resolved
      title when it has none. */
  function AltText(slide: HeroSlide): (alt: string)
    ensures slide.altText != "" ==> alt == slide.altText
    ensures slide.altText == "" ==> alt == Resolve(slide).title
  {
    if slide.altText != "" then slide.altText else Resolve(slide).title
  }

  /** The skeleton shows while loading and whenever there is no slide. */
  function PlaceholderShown(loading: bool, slideCount: nat): bool
  {
    loading || slideCount == 0
  }

  class HeroCarousel {
    var slides: seq<HeroSlide>
    var loading: bool
    var currentSlide: nat
    /** Whether the auto-advance interval is scheduled. */
    var timerRunning: bool

    /** The interval runs exactly while there are slides, and the current slide
        is one of them (position 0 when there are none). */
    ghost predicate Valid()
      reads this
    {
      && timerRunning == (|slides| > 0)
      && (|slides| > 0 ==> currentSlide < |slides|)
      && (|slides| == 0 ==> currentSlide == 0)
      && (loading ==> slides == [])
    }

    constructor ()
      ensures Valid()
      ensures slides == [] && loading && currentSlide == 0 && !timerRunning
    {
      slides := [];
      loading := true;
      currentSlide := 0;
      timerRunning := false;
    }

    /** The one read on mount: the slides are stored only when the read
        succeeded, loading is cleared either way, and the slide-count effect
        starts the interval only when there is a slide. */
    method Load(result: Option<seq<HeroSlide>>)
      requires Valid() && loading
      modifies this
      ensures Valid() && !loading
      ensures slides == (if result.Some? then result.value else old(slides))
      ensures currentSlide == old(currentSlide)
      ensures timerRunning == (|slides| > 0)
    {
      if result.Some? {
        slides := result.value;
      }
      loading := false;
      timerRunning := |slides| > 0;
    }

    /** One firing of the interval. */
    method Tick()
      requires Valid() && timerRunning
      modifies this
      ensures Valid()
      ensures currentSlide == Succ(old(currentSlide), old(|slides|))
      ensures slides == old(slides) && loading == old(loading) && timerRunning
    {
      currentSlide := Succ(currentSlide, |slides|);
    }

    /** What the section renders when it is past its placeholder, read without
        changing anything: the current slide resolved, its link and alt text. */
    method Shown() returns (r: ResolvedSlide, link: Option<string>, alt: string)
      requires Valid() && !PlaceholderShown(loading, |slides|)
      ensures currentSlide < |slides|
      ensures r == Resolve(slides[currentSlide])
      ensures link == LinkTarget(slides[currentSlide])
      ensures link.Some? <==> IsNewsLinked(slides[currentSlide])
      ensures alt == AltText(slides[currentSlide])
    {
      var slide := slides[currentSlide];
      r := Resolve(slide);
      link := LinkTarget(slide);
      alt := AltText(slide);
    }
  }
}
