/** The course catalog that `get_courses` (app.py) builds from the directory
    tree, stated as functions of the tree. The scan walks three levels:
    course directories at the root, date directories inside a course, and
    lesson file names inside a date directory. Each function below consumes
    a listing from its last entry backwards, so that the catalog of a
    listing prefix extended by one entry is the old catalog plus what that
    entry contributes: exactly the step of the scanning loops. */
module Scanner {
  import opened FileTree
  import opened ListingOrder

  datatype DateInfo = DateInfo(date: string, description: string, files: seq<string>)

  datatype Course = Course(id: string, title: string, dates: seq<DateInfo>)

  /** The file-level filter: it looks at the name only, never at whether the
      entry is a file. */
  predicate IsLessonFile(name: string) {
    EndsWith(name, ".html") && StartsWith(name, "0")
  }

  /** The course-level filter: a directory whose name does not start with '.'. */
  predicate IsCourseDir(e: Entry) {
    e.node.Dir? && !StartsWith(e.name, ".")
  }

  /** The text the scan puts in a date entry's description. */
  function Description(course: string, date: string): string {
    course + " - " + date
  }

  /** The lesson names of one date directory's listing, in listing order. */
  function LessonFiles(listing: seq<Entry>): seq<string> {
    if listing == [] then []
    else
      var last := listing[|listing| - 1];
      LessonFiles(listing[..|listing| - 1]) + (if IsLessonFile(last.name) then [last.name] else [])
  }

  /** What one entry of a course directory contributes: a date entry when it
      is a directory holding at least one lesson name, nothing otherwise.
      A name starting with '.' is not skipped at this level. */
  function DateOf(course: string, e: Entry): seq<DateInfo> {
    if e.node.Dir? && LessonFiles(e.node.children) != [] then
      [DateInfo(e.name, Description(course, e.name), LessonFiles(e.node.children))]
    else []
  }

  function DateEntries(course: string, listing: seq<Entry>): seq<DateInfo> {
    if listing == [] then []
    else DateEntries(course, listing[..|listing| - 1]) + DateOf(course, listing[|listing| - 1])
  }

  /** What one root entry contributes: a course when it is a course directory
      with at least one date entry. The title is the directory name. */
  function CourseOf(e: Entry): seq<Course> {
    if IsCourseDir(e) && DateEntries(e.name, e.node.children) != [] then
      [Course(e.name, e.name, DateEntries(e.name, e.node.children))]
    else []
  }

  /** The catalog `get_courses` returns for a root listing. */
  function Courses(root: seq<Entry>): seq<Course> {
    if root == [] then []
    else Courses(root[..|root| - 1]) + CourseOf(root[|root| - 1])
  }

  /** One step of the file-level loop. */
  lemma LessonFilesStep(listing: seq<Entry>, k: nat)
    requires k < |listing|
    ensures LessonFiles(listing[..k + 1]) ==
      LessonFiles(listing[..k]) + (if IsLessonFile(listing[k].name) then [listing[k].name] else [])
  {
    assert listing[..k + 1][..k] == listing[..k];
  }

  /** One step of the date-level loop. */
  lemma DateEntriesStep(course: string, listing: seq<Entry>, j: nat)
    requires j < |listing|
    ensures DateEntries(course, listing[..j + 1]) == DateEntries(course, listing[..j]) + DateOf(course, listing[j])
  {
    assert listing[..j + 1][..j] == listing[..j];
  }

  /** One step of the course-level loop. */
  lemma CoursesStep(root: seq<Entry>, i: nat)
    requires i < |root|
    ensures Courses(root[..i + 1]) == Courses(root[..i]) + CourseOf(root[i])
  {
    assert root[..i + 1][..i] == root[..i];
  }

  function DateNames(ds: seq<DateInfo>): (r: seq<string>)
    ensures |r| == |ds|
    ensures forall i :: 0 <= i < |ds| ==> r[i] == ds[i].date
  {
    if ds == [] then [] else DateNames(ds[..|ds| - 1]) + [ds[|ds| - 1].date]
  }

  function CourseIds(cs: seq<Course>): (r: seq<string>)
    ensures |r| == |cs|
    ensures forall i :: 0 <= i < |cs| ==> r[i] == cs[i].id
  {
    if cs == [] then [] else CourseIds(cs[..|cs| - 1]) + [cs[|cs| - 1].id]
  }

  /** A directory holds a lesson name somewhere one level down. */
  predicate HasLessonName(e: Entry) {
    e.node.Dir? && exists f :: f in e.node.children && IsLessonFile(f.name)
  }

  /** A course directory holds a lesson name two levels down. */
  predicate HasLessonTwoDown(e: Entry) {
    e.node.Dir? && exists d :: d in e.node.children && HasLessonName(d)
  }

  // ---------------------------------------------------------------------
  // File level
  // ---------------------------------------------------------------------

  /** A name is listed for a date directory exactly when it ends in ".html",
      starts with "0" and is the name of some entry there, whatever that
      entry's kind. */
  lemma {:induction false} LessonFilesExact(listing: seq<Entry>, name: string)
    ensures name in LessonFiles(listing) <==> IsLessonFile(name) && name in Names(listing)
  {
    if listing != [] {
      var init, last := listing[..|listing| - 1], listing[|listing| - 1];
      LessonFilesExact(init, name);
      assert Names(listing) == Names(init) + [last.name];
    }
  }

  /** The lesson names keep their listing order; nothing is sorted. */
  lemma {:induction false} LessonFilesKeepOrder(listing: seq<Entry>)
    ensures IsSubseq(LessonFiles(listing), Names(listing))
  {
    if listing != [] {
      var init, last := listing[..|listing| - 1], listing[|listing| - 1];
      LessonFilesKeepOrder(init);
      assert Names(listing) == Names(init) + [last.name];
      if IsLessonFile(last.name) {
        SubseqKeep(LessonFiles(init), Names(init), last.name);
      } else {
        assert LessonFiles(listing) == LessonFiles(init);
        SubseqSkip(LessonFiles(init), Names(init), last.name);
      }
    }
  }

  lemma {:induction false} LessonFilesEmptyIff(listing: seq<Entry>)
    ensures LessonFiles(listing) != [] <==> exists f :: f in listing && IsLessonFile(f.name)
  {
    if listing != [] {
      var init, last := listing[..|listing| - 1], listing[|listing| - 1];
      LessonFilesEmptyIff(init);
      assert forall f :: f in listing <==> f in init || f == last;
    }
  }

  // ---------------------------------------------------------------------
  // Date level
  // ---------------------------------------------------------------------

  /** Every date entry comes from a directory of the listing with that name;
      its files are that directory's lesson names, of which there is at least
      one, and its description is "<course> - <date>". */
  lemma {:induction false} DateEntriesShape(course: string, listing: seq<Entry>)
    ensures forall d :: d in DateEntries(course, listing) ==>
      d.files != [] &&
      d.description == course + " - " + d.date &&
      exists i :: 0 <= i < |listing| && listing[i].name == d.date && listing[i].node.Dir? &&
        d.files == LessonFiles(listing[i].node.children)
  {
    if listing != [] {
      var init, last := listing[..|listing| - 1], listing[|listing| - 1];
      DateEntriesShape(course, init);
      forall d | d in DateEntries(course, listing)
        ensures exists i :: (0 <= i < |listing| && listing[i].name == d.date && listing[i].node.Dir? &&
                             d.files == LessonFiles(listing[i].node.children))
      {
        if d in DateEntries(course, init) {
          var i :| 0 <= i < |init| && init[i].name == d.date && init[i].node.Dir? &&
            d.files == LessonFiles(init[i].node.children);
          assert listing[i] == init[i];
        } else {
          assert listing[|listing| - 1] == last;
        }
      }
    }
  }

  /** A name is a date of the course exactly when some directory of that name
      in the course directory holds a lesson name; names starting with '.'
      are not excluded. */
  lemma {:induction false} DateListedIff(course: string, listing: seq<Entry>, name: string)
    ensures (exists d :: d in DateEntries(course, listing) && d.date == name) <==>
            (exists e :: e in listing && e.name == name && HasLessonName(e))
  {
    if listing != [] {
      var init, last := listing[..|listing| - 1], listing[|listing| - 1];
      DateListedIff(course, init, name);
      assert forall e :: e in listing <==> e in init || e == last;
      DateOfIff(course, last);
      if exists d :: d in DateEntries(course, listing) && d.date == name {
        var d :| d in DateEntries(course, listing) && d.date == name;
        if d !in DateEntries(course, init) {
          assert d in DateOf(course, last);
          assert last in listing && last.name == name && HasLessonName(last);
        }
      }
      if exists e :: e in listing && e.name == name && HasLessonName(e) {
        var e :| e in listing && e.name == name && HasLessonName(e);
        if e !in init {
          assert e == last;
          var d := DateOf(course, last)[0];
          assert d in DateEntries(course, listing) && d.date == name;
        }
      }
    }
  }

  /** An entry of a course directory yields a date entry exactly when it is a
      directory holding a lesson name. */
  lemma DateOfIff(course: string, e: Entry)
    ensures DateOf(course, e) != [] <==> HasLessonName(e)
    ensures DateOf(course, e) != [] ==> DateOf(course, e)[0].date == e.name
  {
    if e.node.Dir? {
      LessonFilesEmptyIff(e.node.children);
    }
  }

  /** The dates keep their listing order; nothing is sorted. */
  lemma {:induction false} DateEntriesKeepOrder(course: string, listing: seq<Entry>)
    ensures IsSubseq(DateNames(DateEntries(course, listing)), Names(listing))
  {
    if listing != [] {
      var init, last := listing[..|listing| - 1], listing[|listing| - 1];
      DateEntriesKeepOrder(course, init);
      var before := DateEntries(course, init);
      assert Names(listing) == Names(init) + [last.name];
      if DateOf(course, last) != [] {
        var ds := before + DateOf(course, last);
        assert ds[..|ds| - 1] == before;
        assert DateNames(ds) == DateNames(before) + [last.name];
        SubseqKeep(DateNames(before), Names(init), last.name);
      } else {
        assert DateEntries(course, listing) == before;
        SubseqSkip(DateNames(before), Names(init), last.name);
      }
    }
  }

  // ---------------------------------------------------------------------
  // Course level
  // ---------------------------------------------------------------------

  /** Every course comes from a root directory of that name not starting with
      '.'; its title is its id and its dates are that directory's date
      entries, of which there is at least one. */
  lemma {:induction false} CoursesShape(root: seq<Entry>)
    ensures forall c :: c in Courses(root) ==>
      c.title == c.id && c.dates != [] &&
      exists i :: 0 <= i < |root| && root[i].name == c.id && IsCourseDir(root[i]) &&
        c.dates == DateEntries(c.id, root[i].node.children)
  {
    if root != [] {
      var init, last := root[..|root| - 1], root[|root| - 1];
      CoursesShape(init);
      forall c | c in Courses(root)
        ensures exists i :: (0 <= i < |root| && root[i].name == c.id && IsCourseDir(root[i]) &&
                             c.dates == DateEntries(c.id, root[i].node.children))
      {
        if c in Courses(init) {
          var i :| 0 <= i < |init| && init[i].name == c.id && IsCourseDir(init[i]) &&
            c.dates == DateEntries(c.id, init[i].node.children);
          assert root[i] == init[i];
        } else {
          assert root[|root| - 1] == last;
        }
      }
    }
  }

  /** The catalog invariant: every course has at least one date, every date
      at least one file, every file name is a lesson name, the title is the
      id and each description is "<id> - <date>". */
  lemma CatalogWellShaped(root: seq<Entry>)
    ensures forall c :: c in Courses(root) ==>
      c.title == c.id && c.dates != [] &&
      forall d :: d in c.dates ==>
        d.files != [] && d.description == c.id + " - " + d.date &&
        forall f :: f in d.files ==> IsLessonFile(f)
  {
    CoursesShape(root);
    forall c | c in Courses(root)
      ensures forall d :: d in c.dates ==>
        d.files != [] && d.description == c.id + " - " + d.date &&
        forall f :: f in d.files ==> IsLessonFile(f)
    {
      var i :| 0 <= i < |root| && root[i].name == c.id && IsCourseDir(root[i]) &&
        c.dates == DateEntries(c.id, root[i].node.children);
      DateEntriesShape(c.id, root[i].node.children);
      forall d, f | d in c.dates && f in d.files ensures IsLessonFile(f) {
        var j :| 0 <= j < |root[i].node.children| && root[i].node.children[j].name == d.date &&
          root[i].node.children[j].node.Dir? &&
          d.files == LessonFiles(root[i].node.children[j].node.children);
        LessonFilesExact(root[i].node.children[j].node.children, f);
      }
    }
  }

  /** A root entry yields a course exactly when it is a course directory
      with a lesson name two levels down. */
  lemma CourseOfIff(e: Entry)
    ensures CourseOf(e) != [] <==> IsCourseDir(e) && HasLessonTwoDown(e)
  {
    if IsCourseDir(e) {
      var ds := DateEntries(e.name, e.node.children);
      if ds != [] {
        DateListedIff(e.name, e.node.children, ds[0].date);
        assert ds[0] in ds;
      }
      if HasLessonTwoDown(e) {
        var d :| d in e.node.children && HasLessonName(d);
        DateListedIff(e.name, e.node.children, d.name);
      }
    }
  }

  /** Completeness: a name is a course id exactly when some root entry of
      that name is a directory not starting with '.' that holds a lesson name
      inside one of its subdirectories. */
  lemma {:induction false} CourseListedIff(root: seq<Entry>, name: string)
    ensures (exists c :: c in Courses(root) && c.id == name) <==>
            (exists e :: e in root && e.name == name && IsCourseDir(e) && HasLessonTwoDown(e))
  {
    if root != [] {
      var init, last := root[..|root| - 1], root[|root| - 1];
      CourseListedIff(init, name);
      assert forall e :: e in root <==> e in init || e == last;
      CourseOfIff(last);
      if exists c :: c in Courses(root) && c.id == name {
        var c :| c in Courses(root) && c.id == name;
        if c !in Courses(init) {
          assert c in CourseOf(last);
          assert last in root && last.name == name;
        }
      }
      if exists e :: e in root && e.name == name && IsCourseDir(e) && HasLessonTwoDown(e) {
        var e :| e in root && e.name == name && IsCourseDir(e) && HasLessonTwoDown(e);
        if e !in init {
          assert e == last;
          var c := CourseOf(last)[0];
          assert c in Courses(root) && c.id == name;
        }
      }
    }
  }

  /** The same, for one root entry in a listing without repeated names. */
  lemma CourseDirListedIff(root: seq<Entry>, i: nat)
    requires UniqueNames(root)
    requires i < |root| && IsCourseDir(root[i])
    ensures (exists c :: c in Courses(root) && c.id == root[i].name) <==> HasLessonTwoDown(root[i])
  {
    CourseListedIff(root, root[i].name);
    if exists e :: e in root && e.name == root[i].name && IsCourseDir(e) && HasLessonTwoDown(e) {
      var e :| e in root && e.name == root[i].name && IsCourseDir(e) && HasLessonTwoDown(e);
      var j :| 0 <= j < |root| && root[j] == e;
      assert j == i;
    }
  }

  /** The courses keep the root listing order; nothing is sorted. */
  lemma {:induction false} CoursesKeepOrder(root: seq<Entry>)
    ensures IsSubseq(CourseIds(Courses(root)), Names(root))
  {
    if root != [] {
      var init, last := root[..|root| - 1], root[|root| - 1];
      CoursesKeepOrder(init);
      var before := Courses(init);
      assert Names(root) == Names(init) + [last.name];
      if CourseOf(last) != [] {
        var cs := before + CourseOf(last);
        assert cs[..|cs| - 1] == before;
        assert CourseIds(cs) == CourseIds(before) + [last.name];
        SubseqKeep(CourseIds(before), Names(init), last.name);
      } else {
        assert Courses(root) == before;
        SubseqSkip(CourseIds(before), Names(init), last.name);
      }
    }
  }

  /** The catalog of a listing with entries appended is the old catalog
      followed by the new entries' contributions. */
  lemma {:induction false} CoursesAppend(a: seq<Entry>, b: seq<Entry>)
    ensures Courses(a + b) == Courses(a) + Courses(b)
    decreases |b|
  {
    if b == [] {
      assert a + b == a;
    } else {
      var b', last := b[..|b| - 1], b[|b| - 1];
      assert (a + b)[..|a + b| - 1] == a + b';
      assert (a + b)[|a + b| - 1] == last;
      assert Courses(a + b) == Courses(a + b') + CourseOf(last);
      CoursesAppend(a, b');
      assert Courses(b) == Courses(b') + CourseOf(last);
    }
  }
}
