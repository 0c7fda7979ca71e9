/** The two handlers of app.py that walk or change the application
    directory, over a `Disk` object that holds the directory's listing.
    `GetCourses` is `get_courses` with its three nested loops, proved to
    return the catalog `Scanner.Courses` specifies; `AddCourse` is
    `add_course`, changing the tree one `makedirs` or file write at a time
    and proved to end in the state `Upload.AfterAdd` specifies. */
module App {
  import opened FileTree
  import opened Scanner
  import opened Upload

  class Disk {
    /** The listing of the process's working directory, taken to be the
        directory that holds app.py. */
    var root: seq<Entry>

    ghost predicate Valid()
      reads this
    {
      WellFormed(root)
    }

    constructor (root: seq<Entry>)
      requires WellFormed(root)
      ensures Valid() && this.root == root
    {
      this.root := root;
    }

    /** `get_courses`: scan the courses, their dates and their lesson files. */
    method GetCourses() returns (courses: seq<Course>)
      ensures courses == Courses(root)
    {
      courses := [];
      var i := 0;
      while i < |root|
        invariant 0 <= i <= |root|
        invariant courses == Courses(root[..i])
      {
        var courseDir := root[i];
        if courseDir.node.Dir? && !StartsWith(courseDir.name, ".") {
          var dates := ScanCourseDir(courseDir.name, courseDir.node.children);
          if dates != [] {
            courses := courses + [Course(courseDir.name, courseDir.name, dates)];
          }
        } else {
          assert CourseOf(courseDir) == [];
        }
        CoursesStep(root, i);
        i := i + 1;
      }
      assert root[..i] == root;
    }

    /** `add_course`: refuse an existing id, otherwise create the course
        directory and, for each date in turn, the date directory and its
        "01.html". A date whose path already exists makes `makedirs` raise:
        the request ends with a server error and what was created stays. */
    method AddCourse(id: string, title: string, dates: seq<DateUpload>) returns (status: Status)
      requires Valid()
      requires '/' !in id
      requires forall k :: 0 <= k < |dates| ==> '/' !in dates[k].date
      modifies this
      ensures Valid()
      ensures status == AddStatus(old(root), id, dates)
      ensures root == AfterAdd(old(root), id, dates)
    {
      AddPreservesWellFormed(root, id, dates);
      if PathExists(root, id) {
        return Conflict;
      }
      if id == "" {
        // os.makedirs("") raises
        return ServerError;
      }
      var before := root;
      var course: seq<Entry> := [];
      root := before + [Entry(id, Dir(course))];
      FirstClashIsFirst(dates);
      var i := 0;
      while i < |dates|
        invariant 0 <= i <= FirstClash(dates)
        invariant course == CourseTree(dates[..i])
        invariant root == before + [Entry(id, Dir(course))]
      {
        var date := dates[i];
        DateExistsIffClashes(dates, i);
        if date.date == "" || PathExists(course, date.date) {
          // os.makedirs(id/date) raises: the path exists
          assert i == FirstClash(dates);
          return ServerError;
        }
        course := course + [Entry(date.date, Dir([]))];
        root := before + [Entry(id, Dir(course))];
        course := course[..i] + [Entry(date.date, Dir([Entry(LessonName, File(date.content))]))];
        root := before + [Entry(id, Dir(course))];
        assert course == CourseTree(dates[..i + 1]);
        i := i + 1;
      }
      assert dates[..i] == dates;
      return Created;
    }
  }

  /** The middle loop of `get_courses`: the date entries of one course
      directory's listing. */
  method ScanCourseDir(course: string, listing: seq<Entry>) returns (dates: seq<DateInfo>)
    ensures dates == DateEntries(course, listing)
  {
    dates := [];
    var j := 0;
    while j < |listing|
      invariant 0 <= j <= |listing|
      invariant dates == DateEntries(course, listing[..j])
    {
      var dateDir := listing[j];
      if dateDir.node.Dir? {
        var files := ScanDateDir(dateDir.node.children);
        if files != [] {
          dates := dates + [DateInfo(dateDir.name, Description(course, dateDir.name), files)];
        }
      }
      DateEntriesStep(course, listing, j);
      j := j + 1;
    }
    assert listing[..j] == listing;
  }

  /** The innermost loop of `get_courses`: the lesson names of one date
      directory's listing. */
  method ScanDateDir(listing: seq<Entry>) returns (files: seq<string>)
    ensures files == LessonFiles(listing)
  {
    files := [];
    var k := 0;
    while k < |listing|
      invariant 0 <= k <= |listing|
      invariant files == LessonFiles(listing[..k])
    {
      if IsLessonFile(listing[k].name) {
        files := files + [listing[k].name];
      }
      LessonFilesStep(listing, k);
      k := k + 1;
    }
    assert listing[..k] == listing;
  }
}
