# Tutoring-school website: component logic in Dafny

The site is a React single-page application for a tutoring school. Its
components read rows (courses, faculty, hero slides, news articles) from a
remote table store and render them. This project models the logic inside six
of those components and proves what they promise:

- **CourseThemes** (`CourseThemes.dfy`): the course catalogue. A per-tab title
  allow-list filters courses, five courses show per page, and the previous/next
  handlers are guarded. A course detail modal opens on a card click.
- **TeamSection** (`TeamSection.dfy`): the faculty roster. A subject switch runs
  in timed phases, and on narrow screens a one-card carousel shows the current
  subject's team.
- **HeroSection** (`HeroSection.dfy`): the hero carousel. It auto-advances, and a
  slide takes its fields from a joined news article when it has one.
- **LatestNews** (`LatestNews.dfy`): the news feed. It reveals six articles at a
  time and links each to its article page.
- **NewsDetail** (`NewsDetail.dfy`, `Linkify.dfy`): the article page. Its load
  lifecycle reads the article, writes back the view count and reads the related
  courses. Its body splits into lines, and each line splits into plain text and
  `http://`/`https://` links.
- **CourseDetail** (`CourseDetail.dfy`): the course page. Its load lifecycle is
  followed by a side panel of the information fields the course fills in.

`Common.dfy` holds the JavaScript list operations the components rely on:
`Array.filter`, `Array.slice` with its clamping, and wrap-around stepping with
`%`. It also holds the loading / not-found / found choice both detail pages
make. `Records.dfy` holds the row types (the columns the components read) and
the `/news/:slug` route.

State that a component updates in place is a `class`. Each `useState` hook
becomes a field. Some classes add fields for what the component does outside
its state: the roster's pending timers, whether the hero interval is
scheduled, and the news page's log of calls to the store. Each handler, effect
or timer firing is a `modifies this` method that states the whole new state.
The roster, carousel, catalogue and feed keep an invariant, `Valid()`; the two
detail pages have none beyond their fields' types.
Derived values and rendering decisions are functions with named results, and
the lemmas beside them state the properties.

Replies from the table store are inputs to the methods. `None` stands for an
error or an absent row; a list of rows is already filtered to active rows,
ordered and limited. Timers are event methods that the environment fires. A
column that can be null and is only tested for truthiness is the empty string.

## Model

| member | source | states |
|---|---|---|
| Common.Succ | src/components/TeamSection.tsx:49-51 | `(i + 1) % n` stays below `n`. It is `i + 1` except at the last position, which wraps to 0. |
| Common.Pred | src/components/TeamSection.tsx:53-55 | `(i - 1 + n) % n` stays below `n`. It is `i - 1` except at position 0, which wraps to `n - 1`. |
| Common.PredSuccInverse | src/components/TeamSection.tsx:49-55 | Previous after next restores the index, and next after previous does too. |
| Common.SuccIterWraps | src/components/HeroSection.tsx:47 | `k <= n` steps from `i` land on `i + k`, less `n` once past the end. |
| Common.FullCycle | src/components/HeroSection.tsx:43-51 | After `n` ticks the carousel is back where it started, and from 0 the ticks visit every slide in order. |
| Common.JsSlice | src/components/CourseThemes.tsx:91 | `slice(start, end)` with non-negative bounds has length `max(0, min(end, n) - min(start, n))`. Its elements are those of the list from `start` on. |
| Common.Filter | src/components/CourseThemes.tsx:84-86 | `filter` keeps at most the input's elements, and only those that satisfy the predicate. |
| Common.FilterKeeps | src/components/CourseThemes.tsx:84-86 | `filter` keeps every element that satisfies the predicate. |
| Common.FilterAppend | src/components/CourseThemes.tsx:84-86 | `filter` distributes over concatenation, so it keeps load order. |
| Common.DetailViewOf | src/pages/CourseDetail.tsx:31-65 | The loading view shows iff loading. The not-found view shows iff not loading and no row is stored. Otherwise the stored row shows. |
| Routes.NewsRoute | src/main.tsx:15 | A news link is `/news/` followed by the key. |
| Routes.StripSlashes | src/main.tsx:15 | The stripped text is a prefix of the original, only `/` were removed, and it does not end in `/`. |
| Routes.StripSlashesOf | src/main.tsx:15 | Stripping a run of `/` from a key that does not end in `/` gives back the key. |
| Routes.StripSlashesKeeps | src/main.tsx:15 | A character other than `/` is never stripped. |
| Routes.NewsRouteParam | src/main.tsx:15 | A parameter is handed over only as one non-empty segment with no `/`. The path is `/news/` + that segment, followed by zero or more `/`. |
| Routes.NewsRouteMatches | src/main.tsx:15 | The route yields segment `key` iff `key` is a non-empty segment with no `/` and the path is `/news/key` followed by zero or more `/`. |
| Routes.NewsRouteRoundTrip | src/main.tsx:15 | A link built from a one-segment key reaches the article page with exactly that key, whatever run of `/` follows it. |
| Routes.NewsRouteRejects | src/main.tsx:15 | A link built from a key made only of `/` (the empty key included), or from a key with a `/` before some other character, matches no article. |
| Routes.NewsRouteOf | src/main.tsx:15 | For any key, the link opens nothing iff the key is only `/` or spans more than one segment. Otherwise it opens the key less its trailing `/`, which is the key itself for a one-segment key. |
| Routes.NewsRouteSamples | src/main.tsx:15 | `/news/a//` opens `a`, while `/news/a/b` and `/news//` open nothing. |
| CourseThemes.FilteredCourses | src/components/CourseThemes.tsx:64-86 | A course is listed under a tab iff it was loaded and its title is on that tab's allow-list. |
| CourseThemes.FilteredInLoadOrder | src/components/CourseThemes.tsx:84-86 | Filtering splits over concatenation, so the listed courses keep their load order. |
| CourseThemes.TotalPages | src/components/CourseThemes.tsx:88 | The page count is `ceil(n / 5)`: the least count whose pages hold `n` courses. It is 0 exactly when no course matches. |
| CourseThemes.PagerShown | src/components/CourseThemes.tsx:174 | The pager is rendered only when there is more than one page. |
| CourseThemes.PageStart | src/components/CourseThemes.tsx:89 | The first index of page `p` is not negative for `p >= 1`. |
| CourseThemes.DisplayedCourses | src/components/CourseThemes.tsx:89-91 | Page `p` holds exactly `min(start + 5, n) - min(start, n)` courses (at most 5), where `start = (p - 1) * 5`. They are the filtered courses from `start` on. A real page (1 to total) is never empty. |
| CourseThemes.PagesUpToIsPrefix | src/components/CourseThemes.tsx:89-91 | Pages 1 to k, concatenated, are the first `min(5k, n)` filtered courses. |
| CourseThemes.PagesPartition | src/components/CourseThemes.tsx:88-91 | Pages 1 to totalPages, concatenated, are exactly the filtered list. |
| CourseThemes.PrevDisabled | src/components/CourseThemes.tsx:178 | The previous button is disabled exactly on the pages where the previous handler's guard fails. |
| CourseThemes.NextDisabled | src/components/CourseThemes.tsx:195-196 | Within a shown pager, the next button is disabled exactly on the pages where the next handler's guard fails. |
| CourseThemes.CourseCatalog.constructor | src/components/CourseThemes.tsx:9-13 | The catalogue starts loading, on the elementary tab, on page 1, with no course selected. |
| CourseThemes.CourseCatalog.Load | src/components/CourseThemes.tsx:16-31 | Rows are stored only on a successful read. Loading is cleared either way. The page invariant holds. |
| CourseThemes.CourseCatalog.TabChange | src/components/CourseThemes.tsx:93-96 | The chosen tab becomes active, page 1 is current, and nothing else changes. |
| CourseThemes.CourseCatalog.NextPage | src/components/CourseThemes.tsx:98-102 | The page grows by one only below the page count; otherwise nothing changes. `1 <= page <= max(1, totalPages)` is kept. |
| CourseThemes.CourseCatalog.PrevPage | src/components/CourseThemes.tsx:104-108 | The page drops by one only above page 1; otherwise nothing changes. The page invariant is kept. |
| CourseThemes.CourseCatalog.SelectCourse | src/components/CourseThemes.tsx:143 | The clicked course is selected, and the modal is open. |
| CourseThemes.CourseCatalog.CloseModal | src/components/CourseThemes.tsx:210-214 | The selection is cleared, and the modal is closed. |
| TeamSection.CurrentTeam | src/components/TeamSection.tsx:36 | A member is on the team iff they are in the faculty list and teach the selected subject. |
| TeamSection.CurrentTeamInLoadOrder | src/components/TeamSection.tsx:36 | The team keeps the faculty list's order. |
| TeamSection.CardShown | src/components/TeamSection.tsx:280 | The card is rendered only for a non-empty team. |
| TeamSection.ControlsShown | src/components/TeamSection.tsx:280-295 | The carousel controls (two or more members) are shown only with the card (one or more), so no step divides by zero. |
| TeamSection.FacultyRoster.constructor | src/components/TeamSection.tsx:6-10 | The roster starts on `english` at index 0, loading, not fading, with no timer pending. |
| TeamSection.FacultyRoster.Load | src/components/TeamSection.tsx:12-27 | The faculty list is replaced only on a successful read. Loading is cleared either way. |
| TeamSection.FacultyRoster.SubjectChange | src/components/TeamSection.tsx:38-47 | The key is one of the four tab keys. Choosing the selected subject changes nothing. Choosing another starts the fade, resets the index to 0 and queues the swap, while the subject stays for now. |
| TeamSection.FacultyRoster.SwapTimerAsWritten | src/components/TeamSection.tsx:43-45 | The first timer as written swaps in the queued subject, queues the fade end, and keeps the index as it is. |
| TeamSection.FacultyRoster.SwapTimer | src/components/TeamSection.tsx:43-45 | Corrected first timer: it swaps in the queued subject and resets the index to 0, so the card index is in range for the new team. |
| TeamSection.FacultyRoster.FadeTimer | src/components/TeamSection.tsx:45 | The second timer ends the fade, and nothing else changes. |
| TeamSection.FacultyRoster.Next | src/components/TeamSection.tsx:49-51 | The index becomes `(i + 1) mod N` for the team on screen and stays in range. |
| TeamSection.FacultyRoster.Prev | src/components/TeamSection.tsx:53-55 | The index becomes `(i - 1 + N) mod N` for the team on screen and stays in range. |
| TeamSection.FacultyRoster.SelectDot | src/components/TeamSection.tsx:388-393 | A dot click sets the index to that dot's position, which is below N. |
| TeamSection.FacultyRoster.CardMember | src/components/TeamSection.tsx:280-287 | The card shows `currentTeam[currentIndex]`, a loaded member of the selected subject. |
| TeamSection.PendingWindowCounterexample | src/components/TeamSection.tsx:38-55 | Click, next, then the swap as written: the card is shown with an index past the end of the new team. |
| TeamSection.SampleTeams | src/components/TeamSection.tsx:36 | With two English teachers loaded before one mathematics teacher, the English team is the two of them in load order and the mathematics team is the one teacher. |
| HeroSection.IsNewsLinked | src/components/HeroSection.tsx:62 | A slide is linked to an article when its `news_id` is non-empty and the joined article came back. |
| HeroSection.Resolve | src/components/HeroSection.tsx:61-68 | A linked slide takes image, title, excerpt, category and slug from the article. Any other slide takes its own fields and has no category and no slug. |
| HeroSection.PlaceholderShown | src/components/HeroSection.tsx:53 | The placeholder shows while loading or when there is no slide. |
| HeroSection.LinkTarget | src/components/HeroSection.tsx:98-104 | The slide links iff it is news-linked, and the link is `/news/` + the joined slug. A one-segment slug opens that article. An empty slug gives a link that matches no article. |
| HeroSection.AltText | src/components/HeroSection.tsx:76 | The alt text is the slide's own when non-empty, else the resolved title. |
| HeroSection.HeroCarousel.constructor | src/components/HeroSection.tsx:6-8 | The carousel starts at slide 0, loading, with no interval. |
| HeroSection.HeroCarousel.Load | src/components/HeroSection.tsx:10-51 | Slides are stored only on a successful read. Loading is cleared, and the interval runs iff there is a slide. |
| HeroSection.HeroCarousel.Tick | src/components/HeroSection.tsx:46-48 | A tick (only while the interval runs) sets the slide to `(s + 1) mod n`, which stays in range. |
| HeroSection.HeroCarousel.Shown | src/components/HeroSection.tsx:53-104 | Past the placeholder the current slide exists. Its resolution, its link (`LinkTarget` of that slide, present iff the slide is news-linked) and its alt text are those above. |
| LatestNews.VisibleNews | src/components/LatestNews.tsx:28 | The visible articles are the prefix of length `min(displayCount, n)`. |
| LatestNews.HasMore | src/components/LatestNews.tsx:29 | More is offered while the list is longer than the count on display. |
| LatestNews.HasMoreIffHidden | src/components/LatestNews.tsx:28-29 | More is offered iff an article is hidden. Once nothing more is offered, the whole list is visible. |
| LatestNews.VisibleGrows | src/components/LatestNews.tsx:28 | A larger count reveals a list of which the smaller reveal is a prefix. |
| LatestNews.NewsLink | src/components/LatestNews.tsx:83 | The link is `/news/` + the slug, or + the id when the slug is empty. When that key is one segment, the link opens the article page with it. |
| LatestNews.NewsFeed.constructor | src/components/LatestNews.tsx:6-8 | The feed starts loading, showing six. |
| LatestNews.NewsFeed.Load | src/components/LatestNews.tsx:10-26 | Articles are stored only on a successful read. Loading is cleared either way. |
| LatestNews.NewsFeed.LoadMoreShown | src/components/LatestNews.tsx:121 | Past the skeleton, the load-more button shows exactly while some article is hidden. |
| LatestNews.NewsFeed.LoadMore | src/components/LatestNews.tsx:31-33 | The count grows by exactly 6 and stays a positive multiple of 6. The visible list only grows. |
| Linkify.Lines | src/pages/NewsDetail.tsx:145 | `split('\n')` gives at least one line, and no line holds a newline. |
| Linkify.LinesJoin | src/pages/NewsDetail.tsx:145 | Rejoining the lines with newlines gives back the content. |
| Linkify.FirstNewlineCount | src/pages/NewsDetail.tsx:145 | Cutting the content at its first newline removes exactly one newline. |
| Linkify.LinesCount | src/pages/NewsDetail.tsx:145 | There is one line more than there are newlines. |
| Linkify.IsSpace | src/pages/NewsDetail.tsx:146 | `\s` is JavaScript's whitespace set: tab, line feed, vertical tab, form feed, carriage return, space, and the Unicode space separators, line and paragraph separators and the byte-order mark. |
| Linkify.UrlAt | src/pages/NewsDetail.tsx:146 | A match starts at `i` when `https://` or `http://` stands there and a non-whitespace character follows it. |
| Linkify.ContainsUrl | src/pages/NewsDetail.tsx:152 | `part.match(urlRegex)` succeeds when a match starts somewhere in the part. |
| Linkify.RunEnd | src/pages/NewsDetail.tsx:146 | `[^\s]+` runs greedily to the next whitespace or the end of the line. |
| Linkify.NextUrl | src/pages/NewsDetail.tsx:146-147 | The scanner finds the leftmost match, with no match before it. |
| Linkify.ContainsUrlIffScan | src/pages/NewsDetail.tsx:147-152 | A part holds a match iff the leftmost scan of `split` finds one in it. |
| Linkify.SplitFrom | src/pages/NewsDetail.tsx:147 | Splitting a suffix gives an odd number of parts: text, a match, text, and so on. |
| Linkify.SplitLine | src/pages/NewsDetail.tsx:147 | `line.split(urlRegex)` gives an odd number of parts, and exactly one part iff the line holds no match. |
| Linkify.MatchEnd | src/pages/NewsDetail.tsx:146 | A match, which runs to the next whitespace, is never empty (it starts with `h`) and ends within the line. |
| Linkify.SplitFromRoundTrip | src/pages/NewsDetail.tsx:146-147 | The split parts of a suffix concatenate back to that suffix. |
| Linkify.SplitLineRoundTrip | src/pages/NewsDetail.tsx:146-147 | The parts of a line concatenate back to the line, because the capturing split keeps the URLs. |
| Linkify.UrlPieceIsMatch | src/pages/NewsDetail.tsx:146 | The piece cut at a match is itself a match at its start. |
| Linkify.NoMatchBefore | src/pages/NewsDetail.tsx:147 | Text before the leftmost match holds no match. |
| Linkify.TextPiecesCons | src/pages/NewsDetail.tsx:146-147 | Putting match-free text and a match in front of a split whose text pieces are match-free keeps every text piece match-free. |
| Linkify.UrlPiecesCons | src/pages/NewsDetail.tsx:146-147 | Putting text and a maximal whitespace-free match in front of a well-formed split, when whitespace or the end of the line follows the match, keeps every URL piece a maximal match. |
| Linkify.WellSplitCons | src/pages/NewsDetail.tsx:146-147 | Match-free text and a maximal match, put in front of a well-formed split, give a well-formed split. |
| Linkify.SplitFromWellSplit | src/pages/NewsDetail.tsx:146-147 | The parts alternate: text with no match, then a maximal whitespace-free match, and so on, ending on text. |
| Linkify.SplitLineWellSplit | src/pages/NewsDetail.tsx:146-147 | Every line splits into well-formed alternating parts. |
| Linkify.RenderLine | src/pages/NewsDetail.tsx:147-165 | There is one rendered segment per split part, and segment k shows exactly part k. |
| Linkify.ConcatSegmentsIsConcat | src/pages/NewsDetail.tsx:149-165 | The rendered segments show exactly the text of the parts. |
| Linkify.RenderLineLinks | src/pages/NewsDetail.tsx:146-165 | A rendered part is a link iff it is at an odd position, which is iff it is a match. |
| Linkify.RenderLineText | src/pages/NewsDetail.tsx:146-165 | The line's rendered segments show the line exactly. |
| Linkify.RenderContent | src/pages/NewsDetail.tsx:145-168 | There is one block per line of the content. |
| Linkify.RenderContentBlocks | src/pages/NewsDetail.tsx:145 | The block count is the newline count plus one. |
| NewsDetail.SlugPresent | src/pages/NewsDetail.tsx:14 | The fetch runs only for a present, non-empty route parameter. |
| NewsDetail.DisplayedViewCount | src/pages/NewsDetail.tsx:256 | The page shows `view_count`, or 0 when it is null. |
| NewsDetail.WrittenViewCount | src/pages/NewsDetail.tsx:26-29 | The count written back is one more than the count the page shows (the value read). |
| NewsDetail.RelatedIds | src/pages/NewsDetail.tsx:31 | A null id list counts as empty. |
| NewsDetail.FetchRequests | src/pages/NewsDetail.tsx:14-41 | The read comes first. The view-count write follows iff an article came back. The courses read follows iff the article lists related ids. |
| NewsDetail.NewsDetailPage.constructor | src/pages/NewsDetail.tsx:7-10 | The page starts loading with no article and no related courses. |
| NewsDetail.NewsDetailPage.FetchNews | src/pages/NewsDetail.tsx:12-47 | With no slug nothing changes and nothing is requested. Otherwise the requests are as above, the article and related courses are replaced only by what came back, and loading is cleared. |
| NewsDetail.NewsDetailPage.Body | src/pages/NewsDetail.tsx:145-168 | The found article renders one block per line, and each block shows its line exactly. |
| NewsDetail.NoSlugStaysLoading | src/pages/NewsDetail.tsx:14 | Without a slug the page stays on its skeleton and calls the store not at all. |
| NewsDetail.FirstVisit | src/pages/NewsDetail.tsx:12-74 | A first visit ends on the article or on not-found. It makes exactly the requests above. Related courses stay empty unless requested and read. |
| CourseDetail.ShownFields | src/pages/CourseDetail.tsx:164-242 | A field is shown iff it is one of those considered and the course fills it in. |
| CourseDetail.ShownFieldsInOrder | src/pages/CourseDetail.tsx:164-242 | Skipping empty fields keeps the panel order. |
| CourseDetail.InfoPanel | src/pages/CourseDetail.tsx:164-242 | There is one item per filled-in field, and no item has an empty value. |
| CourseDetail.InfoPanelItems | src/pages/CourseDetail.tsx:164-242 | Item k is the k-th filled-in field, under its own label with its own value. |
| CourseDetail.InfoPanelShowsFilled | src/pages/CourseDetail.tsx:164-242 | Each of the eight fields appears in the panel iff the course fills it in. |
| CourseDetail.InfoPanelOrdered | src/pages/CourseDetail.tsx:164-242 | The fields appear in fixed order, at most once each, so there are at most eight items and no label twice. |
| CourseDetail.CaptionsDistinct | src/pages/CourseDetail.tsx:164-242 | Distinct filled-in fields are shown under distinct labels. |
| CourseDetail.CourseDetailPage.constructor | src/pages/CourseDetail.tsx:8-9 | The page starts loading with no course. |
| CourseDetail.CourseDetailPage.FetchCourse | src/pages/CourseDetail.tsx:11-29 | With no slug nothing changes. Otherwise the course is stored only when a row came back, and loading is cleared either way. |
| CourseDetail.FirstVisit | src/pages/CourseDetail.tsx:22-65 | A first visit ends on the course read, or on the not-found view when none came back. |

## Left out

- The table-store client and its query builder. Replies are inputs, and the active-row filter, ordering and limits are assumptions on them. The `news` table's view-count update is recorded as a request, not performed.
- Timer durations (300 ms, 50 ms, 5 s) and interval cancellation on unmount. Timers fire as event methods in the order scheduled.
- Asynchronous hazards: state set after unmount, and two effect runs racing for one slug. The lost update on the view count is also left out.
- Date formatting with `toLocaleDateString`. It is a locale library call, and no property depends on it.
- `src/components/CourseModal.tsx` is not part of this model. The model covers only whether the modal is open, not its scroll lock or HTML rendering.
- Static sections (About, Footer, CourseTimeSlots), the header's menu toggle, routing beyond the `/news/` route, and all markup and styling.
- CourseDetail's highlight, curriculum and outcome lists: each renders one entry per element with no condition, so the row's lists are the rendered lists.
- Strings are sequences of code points, not UTF-16 code units. Whitespace for the URL pattern is JavaScript's `\s` set, listed code point by code point.
- A column that can be null is modelled as the empty string where the component only tests it for truthiness. Elsewhere the model takes the column as present: it does not model the error JavaScript throws when null article text is split, or when a null course list is mapped. A joined article's null slug gives `/news/` here, which matches no article. JavaScript would give `/news/null`, which opens the page for the slug `null`.
- Routes.NewsRouteParam: matches the `/news/` prefix in exact case. The router also accepts other letter cases of the prefix. The router itself (react-router-dom v6) is not part of this model. Its rule for `/news/:slug` is taken as one non-empty segment with no `/`, followed by any run of `/`.
- Routes.NewsRouteRoundTrip: treats the link as a pathname. A key holding `?`, `#` or a percent escape would be cut or decoded by the router; that is not modelled.
- NewsDetail.NewsDetailPage.FetchNews and CourseDetail.CourseDetailPage.FetchCourse: state is not reset when the slug changes, so a run that finds nothing keeps the previous row. The contracts state this as the code does.
- LatestNews.NewsLink: an item without a slug links by id, while the article page looks articles up by slug. This holds as written and is not corrected.
- TeamSection.FacultyRoster.SubjectChange: during the swap window, a click on the subject still on screen is ignored (it equals the selected subject), even though another subject is already queued.

## Findings

The reset `setCurrentIndex(0)` at TeamSection.tsx:42 exists so that the new team's carousel starts at its first member. The card then reads `currentTeam[currentIndex]` with no bound check (TeamSection.tsx:286). The model follows the code in `SwapTimerAsWritten`, and `SwapTimer` is the corrected form.

| source | as written | input that shows it | evidently intended | confidence | as-written member | corrected member |
|---|---|---|---|---|---|---|
| src/components/TeamSection.tsx:41-44 | The index is reset at the click, but the subject is swapped 300 ms later. Next, previous or a dot click in between moves the index within the old team, and the swap keeps that index. | Load two English teachers and one mathematics teacher. Click the mathematics tab, then press next within 300 ms. After the swap the index is 1 and the team has one member, so `currentTeam[1]` is undefined and the card throws. | The carousel starts at the first member of the new team whenever the subject changes. | not executed | TeamSection.PendingWindowCounterexample | TeamSection.FacultyRoster.SwapTimer |
