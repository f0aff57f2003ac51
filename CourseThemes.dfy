/** The course catalogue on the home page: three level tabs, each showing the
    loaded courses whose title is on that tab's hand-kept list, five courses
    to a page, and a modal for the course whose card was clicked. */
module CourseThemes {
  import opened Common
  import opened Records

  datatype Tab = Elementary | JuniorHigh | HighSchool   // 國小, 國中, 高中

  const CoursesPerPage: nat := 5

  /** The titles each tab lists, as written in the component. */
  function TabTitles(tab: Tab): seq<string>
  {
    match tab
    case Elementary => ["薇閣國小課輔班", "學姊英文小團班", "小獵豹（薇閣專班）", "薇閣升國七實力班", "學姐英文個人班"]
    case JuniorHigh => ["獵豹數學（薇閣專班）", "學姐英文（薇閣專班）", "鎮麟自然（薇閣專班）", "易學國文（薇閣專班）"]
    case HighSchool => ["TOEFL/SAT/AP 個人班", "海外留學諮詢"]
  }

  function ListedUnder(tab: Tab): Course -> bool
  {
    (c: Course) => c.title in TabTitles(tab)
  }

  /** `filteredCourses`: exactly the loaded courses whose title is on the tab's
      list, so a course on no list is shown under no tab. */
  function FilteredCourses(courses: seq<Course>, tab: Tab): (r: seq<Course>)
    ensures forall c :: c in r <==> c in courses && c.title in TabTitles(tab)
  {
    forall c | c in courses && c.title in TabTitles(tab) ensures c in Filter(ListedUnder(tab), courses) {
      FilterKeeps(ListedUnder(tab), courses, c);
    }
    Filter(ListedUnder(tab), courses)
  }

  /** The filtered list keeps load order: the courses of an earlier stretch of
      the load come before those of a later one. */
  lemma FilteredInLoadOrder(a: seq<Course>, b: seq<Course>, tab: Tab)
    ensures FilteredCourses(a + b, tab) == FilteredCourses(a, tab) + FilteredCourses(b, tab)
  {
    FilterAppend(ListedUnder(tab), a, b);
  }

  /** `Math.ceil(n / 5)`: the least page count that holds `n` courses; zero
      when no course matches. */
  function TotalPages(n: nat): (r: nat)
    ensures r * CoursesPerPage >= n
    ensures r > 0 ==> (r - 1) * CoursesPerPage < n
    ensures r == 0 <==> n == 0
  {
    (n + CoursesPerPage - 1) / CoursesPerPage
  }

  /** `startIndex`: the position of the first course of a page. */
  function PageStart(page: int): (start: int)
    ensures page >= 1 ==> start >= 0
  {
    (page - 1) * CoursesPerPage
  }

  /** `displayedCourses`: `filtered.slice(startIndex, startIndex + 5)` with
      `startIndex = (page - 1) * 5`. */
  function DisplayedCourses(filtered: seq<Course>, page: int): (r: seq<Course>)
    ensures |r| <= CoursesPerPage
    ensures page >= 1 ==>
              |r| == Max(0, Min(PageStart(page) + CoursesPerPage, |filtered|) - Min(PageStart(page), |filtered|))
    ensures page >= 1 && |r| > 0 ==> PageStart(page) + |r| <= |filtered|
    ensures page >= 1 ==>
              forall i :: 0 <= i < |r| ==> r[i] == filtered[PageStart(page) + i]
    ensures 1 <= page <= TotalPages(|filtered|) ==> |r| > 0
  {
    var start := PageStart(page);
    JsSlice(filtered, start, start + CoursesPerPage)
  }

  /** Pages 1 to `k` laid end to end. */
  function PagesUpTo(filtered: seq<Course>, k: nat): seq<Course>
  {
    if k == 0 then [] else PagesUpTo(filtered, k - 1) + DisplayedCourses(filtered, k)
  }

  lemma {:induction false} PagesUpToIsPrefix(filtered: seq<Course>, k: nat)
    ensures PagesUpTo(filtered, k) == filtered[..Min(k * CoursesPerPage, |filtered|)]
  {
    if k > 0 {
      PagesUpToIsPrefix(filtered, k - 1);
      var page := DisplayedCourses(filtered, k);
      var lo := Min((k - 1) * CoursesPerPage, |filtered|);
      var hi := Min(k * CoursesPerPage, |filtered|);
      assert page == filtered[lo..hi];
      assert filtered[..lo] + filtered[lo..hi] == filtered[..hi];
    }
  }

  /** Pages 1 to `totalPages` partition the filtered list: each course appears
      on exactly one page, in order, and none is left over. */
  lemma PagesPartition(filtered: seq<Course>)
    ensures PagesUpTo(filtered, TotalPages(|filtered|)) == filtered
  {
    PagesUpToIsPrefix(filtered, TotalPages(|filtered|));
  }

  /** The pager is rendered only when there is more than one page. */
  function PagerShown(totalPages: nat): bool { totalPages > 1 }

  /** The previous-page control is disabled on page 1, the next-page control on
      the last page; within the pager these are exactly the pages where the
      handlers' guards fail. */
  function PrevDisabled(page: int): (d: bool)
    ensures page >= 1 ==> (d <==> !(page > 1))
  {
    page == 1
  }

  function NextDisabled(page: int, totalPages: nat): (d: bool)
    ensures PagerShown(totalPages) && 1 <= page <= totalPages ==> (d <==> !(page < totalPages))
  {
    page == totalPages
  }

  /** The catalogue component's state. */
  class CourseCatalog {
    var courses: seq<Course>
    var loading: bool
    var activeTab: Tab
    var currentPage: int
    var selectedCourse: Option<Course>

    function Filtered(): seq<Course>
      reads this
    {
      FilteredCourses(courses, activeTab)
    }

    function PageCount(): nat
      reads this
    {
      TotalPages(|Filtered()|)
    }

    function Displayed(): seq<Course>
      reads this
    {
      DisplayedCourses(Filtered(), currentPage)
    }

    /** The modal is open exactly while a course is selected. */
    function ModalOpen(): bool
      reads this
    {
      selectedCourse.Some?
    }

    /** The current page is always a real page, or page 1 when there is none.
        While the read is pending nothing is loaded and page 1 is current. */
    ghost predicate Valid()
      reads this
    {
      && 1 <= currentPage <= Max(1, PageCount())
      && (loading ==> courses == [] && currentPage == 1)
    }

    constructor ()
      ensures Valid()
      ensures courses == [] && loading && activeTab == Elementary
      ensures currentPage == 1 && selectedCourse == None
    {
      courses := [];
      loading := true;
      activeTab := Elementary;
      currentPage := 1;
      selectedCourse := None;
    }

    /** The one read on mount: rows are stored only when the read succeeded,
        and loading is cleared either way. */
    method Load(result: Option<seq<Course>>)
      requires Valid() && loading
      modifies this
      ensures Valid() && !loading
      ensures courses == (if result.Some? then result.value else old(courses))
      ensures activeTab == old(activeTab) && currentPage == old(currentPage)
      ensures selectedCourse == old(selectedCourse)
    {
      if result.Some? {
        courses := result.value;
      }
      loading := false;
    }

    method TabChange(tab: Tab)
      requires Valid()
      modifies this
      ensures Valid()
      ensures activeTab == tab && currentPage == 1
      ensures courses == old(courses) && loading == old(loading)
      ensures selectedCourse == old(selectedCourse)
    {
      activeTab := tab;
      currentPage := 1;
    }

    method NextPage()
      requires Valid()
      modifies this
      ensures Valid()
      ensures currentPage == if old(currentPage) < old(PageCount()) then old(currentPage) + 1 else old(currentPage)
      ensures courses == old(courses) && loading == old(loading)
      ensures activeTab == old(activeTab) && selectedCourse == old(selectedCourse)
    {
      if currentPage < PageCount() {
        currentPage := currentPage + 1;
      }
    }

    method PrevPage()
      requires Valid()
      modifies this
      ensures Valid()
      ensures currentPage == if old(currentPage) > 1 then old(currentPage) - 1 else old(currentPage)
      ensures courses == old(courses) && loading == old(loading)
      ensures activeTab == old(activeTab) && selectedCourse == old(selectedCourse)
    {
      if currentPage > 1 {
        currentPage := currentPage - 1;
      }
    }

    /** A click on a card opens the modal on that course. */
    method SelectCourse(c: Course)
      requires Valid()
      modifies this
      ensures Valid() && ModalOpen()
      ensures selectedCourse == Some(c)
      ensures courses == old(courses) && loading == old(loading)
      ensures activeTab == old(activeTab) && currentPage == old(currentPage)
    {
      selectedCourse := Some(c);
    }

    method CloseModal()
      requires Valid()
      modifies this
      ensures Valid() && !ModalOpen()
      ensures selectedCourse == None
      ensures courses == old(courses) && loading == old(loading)
      ensures activeTab == old(activeTab) && currentPage == old(currentPage)
    {
      selectedCourse := None;
    }
  }
}
