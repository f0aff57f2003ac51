/** The course page, `/courses/:slug`: one read of the active course with that
    slug, then the course's description, its three lists and a panel of the
    information fields it fills in. */
module CourseDetail {
  import opened Common
  import opened Records

  /** The optional information fields of the side panel, in display order. */
  datatype InfoField =
    | Ages | Duration | ClassSize | ScheduleDays | ScheduleTime
    | Location | Prerequisites | TargetAudience

  /** The position of a field in the panel. */
  function Rank(f: InfoField): (r: nat)
    ensures r < 8
  {
    match f
    case Ages => 0
    case Duration => 1
    case ClassSize => 2
    case ScheduleDays => 3
    case ScheduleTime => 4
    case Location => 5
    case Prerequisites => 6
    case TargetAudience => 7
  }

  const AllFields: seq<InfoField> :=
    [Ages, Duration, ClassSize, ScheduleDays, ScheduleTime, Location, Prerequisites, TargetAudience]

  /** The label each field is shown under. */
  function Label(f: InfoField): string
  {
    match f
    case Ages => "適合年級"
    case Duration => "課程期間"
    case ClassSize => "班級人數"
    case ScheduleDays => "上課日期"
    case ScheduleTime => "上課時間"
    case Location => "上課地點"
    case Prerequisites => "報名條件"
    case TargetAudience => "適合對象"
  }

  function FieldValue(c: Course, f: InfoField): string
  {
    match f
    case Ages => c.ages
    case Duration => c.duration
    case ClassSize => c.classSize
    case ScheduleDays => c.scheduleDays
    case ScheduleTime => c.scheduleTime
    case Location => c.location
    case Prerequisites => c.prerequisites
    case TargetAudience => c.targetAudience
  }

  /** Fields listed strictly in panel order. */
  predicate InPanelOrder(fs: seq<InfoField>)
  {
    forall i, j :: 0 <= i < j < |fs| ==> Rank(fs[i]) < Rank(fs[j])
  }

  /** Each `{course.<field> && …}` block in turn: the fields of `fs` whose value
      is truthy (non-empty), kept in their order. */
  function ShownFields(c: Course, fs: seq<InfoField>): (r: seq<InfoField>)
    ensures forall f :: f in r <==> f in fs && FieldValue(c, f) != ""
  {
    if fs == [] then []
    else
      var rest := ShownFields(c, fs[1..]);
      assert forall f :: f in fs <==> f == fs[0] || f in fs[1..];
      if FieldValue(c, fs[0]) != "" then [fs[0]] + rest else rest
  }

  /** Dropping fields keeps the panel order. */
  lemma {:induction false} ShownFieldsInOrder(c: Course, fs: seq<InfoField>)
    requires InPanelOrder(fs)
    ensures InPanelOrder(ShownFields(c, fs))
  {
    if fs != [] {
      var tail := fs[1..];
      assert InPanelOrder(tail) by {
        forall i, j | 0 <= i < j < |tail| ensures Rank(tail[i]) < Rank(tail[j]) {
          assert tail[i] == fs[i+1] && tail[j] == fs[j+1];
        }
      }
      ShownFieldsInOrder(c, tail);
      var rest := ShownFields(c, tail);
      if FieldValue(c, fs[0]) != "" {
        forall j | 0 <= j < |rest| ensures Rank(fs[0]) < Rank(rest[j]) {
          assert rest[j] in tail;
          var k :| 0 <= k < |tail| && tail[k] == rest[j];
          assert fs[k+1] == rest[j];
        }
        assert ShownFields(c, fs) == [fs[0]] + rest;
      }
    }
  }

  datatype InfoItem = InfoItem(caption: string, value: string)

  /** The side panel: one item per filled-in field, in panel order. */
  function InfoPanel(c: Course): (items: seq<InfoItem>)
    ensures |items| == |ShownFields(c, AllFields)|
    ensures forall k :: 0 <= k < |items| ==> items[k].value != ""
  {
    var fs := ShownFields(c, AllFields);
    seq(|fs|, k requires 0 <= k < |fs| => InfoItem(Label(fs[k]), FieldValue(c, fs[k])))
  }

  /** Every field appears in the panel list. */
  lemma EveryFieldListed(f: InfoField)
    ensures f in AllFields
  {
    match f
    case Ages => assert AllFields[0] == f;
    case Duration => assert AllFields[1] == f;
    case ClassSize => assert AllFields[2] == f;
    case ScheduleDays => assert AllFields[3] == f;
    case ScheduleTime => assert AllFields[4] == f;
    case Location => assert AllFields[5] == f;
    case Prerequisites => assert AllFields[6] == f;
    case TargetAudience => assert AllFields[7] == f;
  }

  /** Item k of the panel is the k-th filled-in field, under its own label
      with its own value. */
  lemma InfoPanelItems(c: Course)
    ensures forall k :: 0 <= k < |InfoPanel(c)| ==>
              var f := ShownFields(c, AllFields)[k];
              InfoPanel(c)[k] == InfoItem(Label(f), FieldValue(c, f)) && FieldValue(c, f) != ""
  {
    var fs := ShownFields(c, AllFields);
    forall k | 0 <= k < |fs| ensures FieldValue(c, fs[k]) != "" {
      assert fs[k] in fs;
    }
  }

  /** The panel shows a field exactly when the course fills it in. */
  lemma InfoPanelShowsFilled(c: Course, f: InfoField)
    ensures (exists k :: 0 <= k < |InfoPanel(c)| && InfoPanel(c)[k] == InfoItem(Label(f), FieldValue(c, f)))
            <==> FieldValue(c, f) != ""
  {
    var fs := ShownFields(c, AllFields);
    var items := InfoPanel(c);
    EveryFieldListed(f);
    if FieldValue(c, f) != "" {
      assert f in fs;
      var k :| 0 <= k < |fs| && fs[k] == f;
      assert items[k] == InfoItem(Label(f), FieldValue(c, f));
    }
    if k :| 0 <= k < |items| && items[k] == InfoItem(Label(f), FieldValue(c, f)) {
      LabelInjective(fs[k], f);
      assert fs[k] in fs;
    }
  }

  /** The panel lists its fields in the fixed order, each at most once, so it
      has at most eight items and no label twice. */
  lemma InfoPanelOrdered(c: Course)
    ensures InPanelOrder(ShownFields(c, AllFields))
    ensures |InfoPanel(c)| <= 8
    ensures forall i, j :: 0 <= i < j < |InfoPanel(c)| ==> InfoPanel(c)[i].caption != InfoPanel(c)[j].caption
  {
    var fs := ShownFields(c, AllFields);
    AllFieldsInOrder();
    ShownFieldsInOrder(c, AllFields);
    PanelFieldsDistinct(fs);
    CaptionsDistinct(c, fs);
  }

  /** Distinct fields are shown under distinct labels. */
  lemma CaptionsDistinct(c: Course, fs: seq<InfoField>)
    requires fs == ShownFields(c, AllFields)
    requires forall i, j :: 0 <= i < j < |fs| ==> fs[i] != fs[j]
    ensures forall i, j :: 0 <= i < j < |InfoPanel(c)| ==> InfoPanel(c)[i].caption != InfoPanel(c)[j].caption
  {
    var items := InfoPanel(c);
    forall i, j | 0 <= i < j < |items| ensures items[i].caption != items[j].caption {
      assert items[i].caption == Label(fs[i]) && items[j].caption == Label(fs[j]);
      if Label(fs[i]) == Label(fs[j]) {
        LabelInjective(fs[i], fs[j]);
      }
    }
  }

  /** The k-th field of the panel list has rank k. */
  lemma AllFieldsInOrder()
    ensures forall k :: 0 <= k < |AllFields| ==> Rank(AllFields[k]) == k
    ensures InPanelOrder(AllFields)
  {
  }

  lemma LabelInjective(f: InfoField, g: InfoField)
    requires Label(f) == Label(g)
    ensures f == g
  {
  }

  /** Fields in panel order are at most eight and pairwise distinct. */
  lemma PanelFieldsDistinct(fs: seq<InfoField>)
    requires InPanelOrder(fs)
    ensures |fs| <= 8
    ensures forall i, j :: 0 <= i < j < |fs| ==> fs[i] != fs[j]
  {
    if |fs| > 8 {
      RanksClimb(fs, 8);
    }
  }

  /** The rank of the k-th field of an ordered list is at least k. */
  lemma {:induction false} RanksClimb(fs: seq<InfoField>, k: nat)
    requires InPanelOrder(fs) && k < |fs|
    ensures Rank(fs[k]) >= k
  {
    if k > 0 {
      RanksClimb(fs, k - 1);
    }
  }

  class CourseDetailPage {
    var course: Option<Course>
    var loading: bool

    function View(): DetailView<Course>
      reads this
    {
      DetailViewOf(loading, course)
    }

    constructor ()
      ensures course == None && loading
    {
      course := None;
      loading := true;
    }

    /** One run of the fetch effect for the route parameter `slug`; `found` is
        the reply to the read (None for no row or an error). Without a slug
        nothing changes; with one, the course is replaced only by a row that
        came back, and loading is cleared either way. */
    method FetchCourse(slug: Option<string>, found: Option<Course>)
      modifies this
      ensures !(slug.Some? && slug.value != "") ==> course == old(course) && loading == old(loading)
      ensures slug.Some? && slug.value != "" ==>
                !loading && course == (if found.Some? then found else old(course))
    {
      if !(slug.Some? && slug.value != "") {
        return;
      }
      if found.Some? {
        course := found;
      }
      loading := false;
    }
  }

  /** The first visit to a course page: the skeleton gives way to the course
      the read returned, or to the not-found view when none came back. */
  method FirstVisit(slug: string, found: Option<Course>) returns (page: CourseDetailPage)
    requires slug != ""
    ensures found.Some? ==> page.View() == Found(found.value)
    ensures found.None? ==> page.View() == NotFound
  {
    page := new CourseDetailPage();
    page.FetchCourse(Some(slug), found);
  }
}
