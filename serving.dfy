/** The "found or 404" rule of the two file routes of app.py: `serve_file`
    answers with the file at a path relative to the working directory,
    taken to be the directory holding app.py, and `serve_course_file` with
    the file at course/date/file. Both answer 404 "File not found" unless
    the path leads to a regular file. */
module Serving {
  import opened FileTree
  import opened Scanner
  import opened Upload

  datatype FileResponse = Found(content: string) | NotFound {
    function Code(): int {
      if Found? then 200 else 404
    }
  }

  /** `serve_file`, with the path already split into its components. */
  function ServeFile(root: seq<Entry>, path: seq<string>): (r: FileResponse)
    ensures r.Found? <==> IsFile(root, path)
    ensures r.Found? ==> Lookup(root, path) == Some(File(r.content))
    ensures r.Code() == 404 <==> !IsFile(root, path)
  {
    match Lookup(root, path)
    case Some(File(content)) => Found(content)
    case _ => NotFound
  }

  /** `serve_course_file`: the path course_id/date/file. */
  function ServeCourseFile(root: seq<Entry>, courseId: string, date: string, file: string): (r: FileResponse)
    ensures r.Found? <==> IsFile(root, [courseId, date, file])
    ensures r.Found? ==> Lookup(root, [courseId, date, file]) == Some(File(r.content))
  {
    ServeFile(root, [courseId, date, file])
  }

  /** Looking up a three-component path in a well-formed tree, through
      entries known by their positions. */
  lemma LookupThree(root: seq<Entry>, i: nat, j: nat, name: string)
    requires WellFormed(root)
    requires i < |root| && root[i].node.Dir?
    requires j < |root[i].node.children| && root[i].node.children[j].node.Dir?
    ensures Lookup(root, [root[i].name, root[i].node.children[j].name, name]) ==
            Find(root[i].node.children[j].node.children, name)
  {
    var ch := root[i].node.children;
    FindUnique(root, i);
    assert WellFormed(ch);
    FindUnique(ch, j);
    var path := [root[i].name, ch[j].name, name];
    LookupStep(root, path, ch);
    assert path[1..] == [ch[j].name, name];
    LookupStep(ch, path[1..], ch[j].node.children);
    assert path[1..][1..] == [name];
    LookupLast(ch[j].node.children, name);
  }

  /** Every path course/date/file that `get_courses` lists leads to an
      existing entry of the tree. The entry need not be a regular file: see
      ListedDirectoryIsNotServed. */
  lemma ListedLessonExists(root: seq<Entry>, c: Course, d: DateInfo, f: string)
    requires WellFormed(root)
    requires c in Courses(root) && d in c.dates && f in d.files
    ensures Lookup(root, [c.id, d.date, f]).Some?
  {
    CoursesShape(root);
    var i :| 0 <= i < |root| && root[i].name == c.id && IsCourseDir(root[i]) &&
      c.dates == DateEntries(c.id, root[i].node.children);
    var ch := root[i].node.children;
    DateEntriesShape(c.id, ch);
    var j :| 0 <= j < |ch| && ch[j].name == d.date && ch[j].node.Dir? &&
      d.files == LessonFiles(ch[j].node.children);
    LessonFilesExact(ch[j].node.children, f);
    LookupThree(root, i, j, f);
  }

  /** A lesson name is listed whatever the entry's kind, so a directory
      named "01.html" inside a date directory is listed by `get_courses` and
      then answered with 404 by `serve_course_file`. */
  lemma ListedDirectoryIsNotServed(course: string, date: string)
    requires ValidName(course) && !StartsWith(course, ".") && ValidName(date)
    ensures var root := [Entry(course, Dir([Entry(date, Dir([Entry(LessonName, Dir([]))]))]))];
      Courses(root) == [Course(course, course, [DateInfo(date, Description(course, date), [LessonName])])] &&
      ServeCourseFile(root, course, date, LessonName) == NotFound
  {
    var file := Entry(LessonName, Dir([]));
    var dateDir := Entry(date, Dir([file]));
    var courseDir := Entry(course, Dir([dateDir]));
    LessonNameIsLesson();
    assert LessonFiles([file]) == [LessonName] by {
      assert [file][..0] == [];
    }
    assert DateEntries(course, [dateDir]) == [DateInfo(date, Description(course, date), [LessonName])] by {
      assert [dateDir][..0] == [];
    }
    assert Courses([courseDir]) == CourseOf(courseDir) by {
      assert [courseDir][..0] == [];
    }
    var path := [course, date, LessonName];
    LookupStep([courseDir], path, [dateDir]);
    assert path[1..] == [date, LessonName];
    LookupStep([dateDir], path[1..], [file]);
    assert path[1..][1..] == [LessonName];
    LookupLast([file], LessonName);
  }

  /** After a successful `add_course`, every requested date's "01.html" is
      served with exactly that date's content. */
  lemma AddedLessonsServed(root: seq<Entry>, id: string, ds: seq<DateUpload>, k: nat)
    requires AddStatus(root, id, ds) == Created
    requires k < |ds|
    ensures ServeCourseFile(AfterAdd(root, id, ds), id, ds[k].date, LessonName) == Found(ds[k].content)
  {
    AddSucceedsIff(root, id, ds);
    AllDatesCreatableIff(ds);
    assert ds[..FirstClash(ds)] == ds;
    var t := CourseTree(ds);
    var after := AfterAdd(root, id, ds);
    FindAppend(root, [Entry(id, Dir(t))], id);
    assert Find(after, id) == Some(Dir(t));
    assert UniqueNames(t) by {
      forall a, b | 0 <= a < b < |t| ensures t[a].name != t[b].name {
        assert t[a].name == ds[a].date && t[b].name == ds[b].date;
      }
    }
    FindUnique(t, k);
    var path := [id, ds[k].date, LessonName];
    LookupStep(after, path, t);
    assert path[1..] == [ds[k].date, LessonName];
    LookupStep(t, path[1..], [Entry(LessonName, File(ds[k].content))]);
    assert path[1..][1..] == [LessonName];
    LookupLast([Entry(LessonName, File(ds[k].content))], LessonName);
  }

  /** `add_course` alters no pre-existing entry: every path not starting
      with the new course id leads where it led before, on every outcome. */
  lemma AddKeepsOtherPaths(root: seq<Entry>, id: string, ds: seq<DateUpload>, path: seq<string>)
    requires path != [] && path[0] != id
    ensures Lookup(AfterAdd(root, id, ds), path) == Lookup(root, path)
    ensures ServeFile(AfterAdd(root, id, ds), path) == ServeFile(root, path)
  {
    var after := AfterAdd(root, id, ds);
    if after != root {
      var e := Entry(id, Dir(CourseTree(ds[..FirstClash(ds)])));
      FindAppend(root, [e], path[0]);
      LookupSameFirst(after, root, path);
    }
  }
}
