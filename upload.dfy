/** What `add_course` (app.py) does to the directory tree, stated as
    functions of the tree before the call. The handler refuses an id for
    which a path already exists; otherwise it creates the course directory
    and, date by date, a date directory holding "01.html" with that date's
    content. Creating a date directory whose path already exists raises,
    which ends the request with a server error after the directories made
    so far have stayed on disk. */
module Upload {
  import opened FileTree
  import opened Scanner

  /** One element of the request's `dates` list. */
  datatype DateUpload = DateUpload(date: string, content: string)

  /** The outcome the handler reports. */
  datatype Status = Created | Conflict | ServerError {
    function Code(): int {
      match this
      case Created => 201
      case Conflict => 400
      case ServerError => 500
    }
  }

  /** The one file name the handler writes in every date directory. */
  const LessonName: string := "01.html"

  /** `os.path.exists` of a one-component path relative to a directory:
      "." and ".." always exist, the empty path never does. */
  predicate PathExists(listing: seq<Entry>, name: string) {
    name == "." || name == ".." || name in Names(listing)
  }

  /** Joined to the course directory, these date names give a path that
      is the course directory itself or its parent, so it always exists. */
  predicate NamesExistingDir(date: string) {
    date == "" || date == "." || date == ".."
  }

  /** The k-th date cannot be created: its path already exists once the
      dates before it have been created. */
  predicate Clashes(ds: seq<DateUpload>, k: nat)
    requires k < |ds|
  {
    NamesExistingDir(ds[k].date) || exists j :: 0 <= j < k && ds[j].date == ds[k].date
  }

  /** The index of the first date whose creation raises, or |ds| if none does. */
  function FirstClash(ds: seq<DateUpload>): (k: nat)
    ensures k <= |ds|
  {
    if ds == [] then 0
    else
      var k := FirstClash(ds[..|ds| - 1]);
      if k < |ds| - 1 then k
      else if Clashes(ds, |ds| - 1) then |ds| - 1
      else |ds|
  }

  /** The date directory made for one upload: "01.html" holding its content. */
  function LessonDir(u: DateUpload): Entry {
    Entry(u.date, Dir([Entry(LessonName, File(u.content))]))
  }

  /** The listing of a course directory after the given dates were created,
      in creation order. */
  function CourseTree(ds: seq<DateUpload>): seq<Entry> {
    seq(|ds|, i requires 0 <= i < |ds| => LessonDir(ds[i]))
  }

  /** The status `add_course` reports. */
  function AddStatus(root: seq<Entry>, id: string, ds: seq<DateUpload>): Status {
    if PathExists(root, id) then Conflict
    else if id == "" then ServerError
    else if FirstClash(ds) < |ds| then ServerError
    else Created
  }

  /** The root listing after `add_course`: unchanged when the id exists or
      is empty, otherwise extended by the course directory holding every
      date created before the first clash. */
  function AfterAdd(root: seq<Entry>, id: string, ds: seq<DateUpload>): seq<Entry> {
    if PathExists(root, id) || id == "" then root
    else root + [Entry(id, Dir(CourseTree(ds[..FirstClash(ds)])))]
  }

  /** The date entries `get_courses` reports for a course made by the
      handler from these uploads. */
  function Uploaded(id: string, ds: seq<DateUpload>): seq<DateInfo> {
    seq(|ds|, i requires 0 <= i < |ds| => DateInfo(ds[i].date, Description(id, ds[i].date), [LessonName]))
  }

  /** The dates are all creatable: none names an existing directory and no
      two are equal. */
  predicate DistinctFreshDates(ds: seq<DateUpload>) {
    (forall k :: 0 <= k < |ds| ==> !NamesExistingDir(ds[k].date)) &&
    (forall j, k :: 0 <= j < k < |ds| ==> ds[j].date != ds[k].date)
  }

  /** FirstClash is the first clash: no date before it clashes, and the date
      at it does. */
  lemma {:induction false} FirstClashIsFirst(ds: seq<DateUpload>)
    ensures forall k :: 0 <= k < FirstClash(ds) ==> !Clashes(ds, k)
    ensures FirstClash(ds) < |ds| ==> Clashes(ds, FirstClash(ds))
  {
    if ds != [] {
      var init := ds[..|ds| - 1];
      FirstClashIsFirst(init);
      forall k | 0 <= k < |init| ensures Clashes(init, k) <==> Clashes(ds, k) {
        assert init[k] == ds[k];
        assert forall j :: 0 <= j < k ==> init[j] == ds[j];
      }
    }
  }

  /** Every date can be created exactly when the dates are distinct and none
      names an existing directory. */
  lemma AllDatesCreatableIff(ds: seq<DateUpload>)
    ensures FirstClash(ds) == |ds| <==> DistinctFreshDates(ds)
  {
    FirstClashIsFirst(ds);
    if FirstClash(ds) == |ds| {
      forall j, k | 0 <= j < k < |ds| ensures ds[j].date != ds[k].date {
        assert !Clashes(ds, k);
      }
      forall k | 0 <= k < |ds| ensures !NamesExistingDir(ds[k].date) {
        assert !Clashes(ds, k);
      }
    }
  }

  /** The request succeeds exactly when no path named by the id exists, the
      id is not empty, and the dates are distinct and creatable. */
  lemma AddSucceedsIff(root: seq<Entry>, id: string, ds: seq<DateUpload>)
    ensures AddStatus(root, id, ds) == Created <==>
      !PathExists(root, id) && id != "" && DistinctFreshDates(ds)
    ensures AddStatus(root, id, ds).Code() == 400 <==> PathExists(root, id)
  {
    AllDatesCreatableIff(ds);
  }

  /** The handler's own check of a date, "does the path course/date exist",
      taken on the course directory as it stands when the k-th date is
      reached, is the clash condition. */
  lemma DateExistsIffClashes(ds: seq<DateUpload>, k: nat)
    requires k < |ds|
    ensures (ds[k].date == "" || PathExists(CourseTree(ds[..k]), ds[k].date)) <==> Clashes(ds, k)
  {
    var t := CourseTree(ds[..k]);
    if ds[k].date in Names(t) {
      var j :| 0 <= j < |t| && Names(t)[j] == ds[k].date;
      assert ds[j].date == ds[k].date;
    }
    if exists j :: 0 <= j < k && ds[j].date == ds[k].date {
      var j :| 0 <= j < k && ds[j].date == ds[k].date;
      assert Names(t)[j] == ds[k].date;
    }
  }

  /** A course made from distinct, creatable dates with valid names is a
      well-formed listing. */
  lemma CourseTreeWellFormed(ds: seq<DateUpload>)
    requires DistinctFreshDates(ds)
    requires forall k :: 0 <= k < |ds| ==> '/' !in ds[k].date
    ensures WellFormed(CourseTree(ds))
  {
    var t := CourseTree(ds);
    forall i | 0 <= i < |t| ensures ValidName(t[i].name) && WellFormed(t[i].node.children) {
      var inner := t[i].node.children;
      assert inner == [Entry(LessonName, File(ds[i].content))];
      LessonNameIsLesson();
    }
  }

  /** `add_course` keeps the tree well formed, on every outcome. */
  lemma AddPreservesWellFormed(root: seq<Entry>, id: string, ds: seq<DateUpload>)
    requires WellFormed(root)
    requires '/' !in id
    requires forall k :: 0 <= k < |ds| ==> '/' !in ds[k].date
    ensures WellFormed(AfterAdd(root, id, ds))
  {
    if !PathExists(root, id) && id != "" {
      var created := ds[..FirstClash(ds)];
      FirstClashIsFirst(ds);
      forall j, k | 0 <= j < k < |created| ensures created[j].date != created[k].date {
        assert !Clashes(ds, k);
      }
      forall k | 0 <= k < |created| ensures !NamesExistingDir(created[k].date) {
        assert !Clashes(ds, k);
      }
      CourseTreeWellFormed(created);
      var r := AfterAdd(root, id, ds);
      assert r[|root|].name == id;
      forall i | 0 <= i < |root| ensures root[i].name != id {
        assert Names(root)[i] == root[i].name;
      }
    }
  }

  /** "01.html" is a valid name and a lesson name. */
  lemma LessonNameIsLesson()
    ensures ValidName(LessonName) && IsLessonFile(LessonName)
  {
    assert LessonName[2..] == ".html";
    assert LessonName[..1] == "0";
  }

  /** The date directory made for one upload is listed with "01.html". */
  lemma LessonDirListed(id: string, u: DateUpload)
    ensures DateOf(id, LessonDir(u)) == [DateInfo(u.date, Description(id, u.date), [LessonName])]
  {
    var listing := [Entry(LessonName, File(u.content))];
    LessonNameIsLesson();
    assert listing[..0] == [];
    assert LessonFiles(listing) == [LessonName];
  }

  /** Creating one more date appends its directory to the course listing. */
  lemma CourseTreeSnoc(ds: seq<DateUpload>)
    requires ds != []
    ensures CourseTree(ds) == CourseTree(ds[..|ds| - 1]) + [LessonDir(ds[|ds| - 1])]
  {
  }

  /** Creating one more date appends its entry to the uploaded dates. */
  lemma UploadedSnoc(id: string, ds: seq<DateUpload>)
    requires ds != []
    ensures var u := ds[|ds| - 1];
      Uploaded(id, ds) == Uploaded(id, ds[..|ds| - 1]) + [DateInfo(u.date, Description(id, u.date), [LessonName])]
  {
  }

  /** The date entries of a course directory made by the handler: one per
      created date, in creation order, each listing just "01.html". */
  lemma {:induction false} UploadedDateEntries(id: string, ds: seq<DateUpload>)
    ensures DateEntries(id, CourseTree(ds)) == Uploaded(id, ds)
  {
    if ds != [] {
      var init, u := ds[..|ds| - 1], ds[|ds| - 1];
      UploadedDateEntries(id, init);
      var t := CourseTree(ds);
      CourseTreeSnoc(ds);
      assert t[..|t| - 1] == CourseTree(init);
      LessonDirListed(id, u);
      UploadedSnoc(id, ds);
    }
  }

  /** After the handler made a course (whether or not a later date raised),
      `get_courses` lists every course it listed before, unchanged and in
      the same order, followed by the new course when its id does not start
      with '.' and at least one date was created. */
  lemma AddThenList(root: seq<Entry>, id: string, ds: seq<DateUpload>)
    requires !PathExists(root, id) && id != ""
    ensures var created := ds[..FirstClash(ds)];
      Courses(AfterAdd(root, id, ds)) ==
        Courses(root) +
        (if !StartsWith(id, ".") && created != [] then [Course(id, id, Uploaded(id, created))] else [])
  {
    var created := ds[..FirstClash(ds)];
    var e := Entry(id, Dir(CourseTree(created)));
    CoursesAppend(root, [e]);
    assert Courses([e]) == CourseOf(e) by {
      assert [e][..0] == [];
    }
    UploadedDateEntries(id, created);
  }
}
