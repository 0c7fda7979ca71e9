# Course catalog backend: a Dafny model of `app.py`

The application serves a directory of course-assignment HTML files. Its
working directory is laid out as `course/date/file`. `get_courses` walks that
tree and builds a JSON catalog: a list of courses, each with a list of dates,
each date with a list of lesson file names. `add_course` creates a new course
directory with one `01.html` per requested date. It answers 400 "Course already
exists" when the id is already taken. Two file routes answer with the file at a
path, or with 404 "File not found".

The model replaces the real filesystem with an abstract tree (`FileTree`). A
directory is an ordered listing, which is what `os.listdir` returns. Each entry
has a name and is either a directory with its own listing or a file with its
text.

- `Scanner` states the catalog as functions of the tree, with three filter
  levels:
  - a course is a root directory whose name does not start with `.`;
  - a date is any subdirectory, including one whose name starts with `.`;
  - a lesson is any name ending in `.html` and starting with `0`, whatever
    kind of entry it is.

  Empty dates and courses are dropped. Nothing is sorted, and no `order` field
  is assigned. The titles and descriptions are derived from the names.
- `Upload` states `add_course` as a transition on the tree. When a date's path
  already exists (a repeated date, or `""`, `.` or `..`), `os.makedirs` raises
  and the request ends with a 500. The directories created before that point
  stay on disk.
- `Serving` states the "regular file or 404" rule of `serve_file` and
  `serve_course_file`.
- `App.Disk` holds the tree. Its `GetCourses` is the three nested loops of
  `get_courses`, proved to return `Scanner.Courses`. Its `AddCourse` changes the
  tree one `makedirs` or file write at a time, and is proved to end in
  `Upload.AfterAdd` with status `Upload.AddStatus`.
- `ListingOrder.IsSubseq` is "a subsequence of". The order lemmas use it to
  state that the output keeps the listing order.

`app.py` does not sort dates, skips no directory other than those whose
name starts with `.`, assigns no `order` field, and does not require a lesson
to be a regular file. It keeps no JSON catalog on disk, so there is no merge,
reorder or delete. `serve_course_file` looks only at `course/date/file` under
the application directory, with no `courses/` or `static/courses/` fallback.
The model follows the code.

## Model

| member | source | states |
|---|---|---|
| `App.Disk.GetCourses` | app.py:9-32 | the course-level loop returns exactly the catalog `Scanner.Courses` of the root listing |
| `App.ScanCourseDir` | app.py:18-29 | the date-level loop over one course directory returns exactly its date entries `Scanner.DateEntries` |
| `App.ScanDateDir` | app.py:25-27 | the file-level loop over one date directory returns exactly its lesson names `Scanner.LessonFiles` |
| `Scanner.CatalogWellShaped` | app.py:13-31 | every listed course has title = id and at least one date; every date has at least one file and description "id - date"; every file name ends in `.html` and starts with `0` |
| `Scanner.LessonFilesExact` | app.py:25-27 | a name is listed for a date directory iff it ends in `.html`, starts with `0` and names some entry there, whatever the entry's kind |
| `Scanner.LessonFilesEmptyIff` | app.py:25-28 | a date directory yields files iff some entry in it has a lesson name |
| `Scanner.LessonFilesKeepOrder` | app.py:25-27 | the listed file names are a subsequence of the directory listing (listing order, no sorting) |
| `Scanner.DateEntriesShape` | app.py:18-29 | every date entry comes from a subdirectory of that name; its files are that subdirectory's lesson names (at least one); its description is "course - date" |
| `Scanner.DateOfIff` | app.py:19-29 | one entry of a course directory yields a date entry iff it is a directory holding a lesson name, and the date is its name |
| `Scanner.DateListedIff` | app.py:18-29 | a name is a date of the course iff some subdirectory of that name holds a lesson name; names starting with `.` are not excluded |
| `Scanner.DateEntriesKeepOrder` | app.py:18-29 | the dates are a subsequence of the course directory listing (no sorting) |
| `Scanner.CoursesShape` | app.py:11-31 | every course comes from a root directory of that name not starting with `.`; its title is its id; its dates are that directory's date entries (at least one) |
| `Scanner.CourseOfIff` | app.py:12-31 | a root entry yields a course iff it is a directory not starting with `.` with a lesson name two levels down |
| `Scanner.CourseListedIff` | app.py:11-31 | a name is a course id iff some root entry of that name is a directory not starting with `.` holding a subdirectory that holds a lesson name |
| `Scanner.CourseDirListedIff` | app.py:11-31 | for one root directory not starting with `.` in a listing without repeated names: it is listed iff it has a lesson name two levels down |
| `Scanner.CoursesKeepOrder` | app.py:11-31 | the course ids are a subsequence of the root listing (no sorting) |
| `Scanner.CoursesAppend` | app.py:11-31 | the catalog of a listing with entries appended is the old catalog followed by the new entries' courses |
| `Upload.FirstClashIsFirst` | app.py:49-51 | no date before `FirstClash` has an existing path, and the date at `FirstClash` has one |
| `Upload.AllDatesCreatableIff` | app.py:49-51 | every date's `makedirs` succeeds iff the dates are pairwise distinct and none is `""`, `.` or `..` |
| `Upload.DateExistsIffClashes` | app.py:50-51 | the path `id/date`, checked against the course directory built so far, exists iff the date clashes |
| `Upload.AddSucceedsIff` | app.py:45-57 | the request answers 201 iff the id does not exist, is not empty, and the dates are distinct and creatable; it answers 400 iff a path named by the id exists |
| `Upload.CourseTreeWellFormed` | app.py:48-55 | a course directory built from distinct, creatable dates has unique, valid names at every level |
| `Upload.AddPreservesWellFormed` | app.py:45-57 | on every outcome the tree stays well formed (unique valid names at every level) |
| `Upload.UploadedDateEntries` | app.py:49-55 | the scan of a course directory made by the handler lists one date per created date, in creation order, each with files `["01.html"]` and description "id - date" |
| `Upload.AddThenList` | app.py:38-57 | after a fresh id is added, `get_courses` returns the old catalog unchanged, followed by the new course when its id does not start with `.` and at least one date was created |
| `App.Disk.AddCourse` | app.py:38-57 | an existing id answers 400 and the empty id 500, both leaving the tree unchanged; otherwise the tree gains the course directory with each date's `01.html` created before the first clash, and the answer is 201 or 500; the tree stays well formed |
| `Serving.ServeFile` | app.py:59-66 | the answer is the file's content iff the path leads to a regular file, and its code is 404 otherwise |
| `Serving.ServeCourseFile` | app.py:69-75 | the answer is the file's content iff course/date/file leads to a regular file, and 404 otherwise |
| `Serving.LookupThree` | app.py:70-72 | in a well-formed tree the path course/date/file leads into the entries those names denote |
| `Serving.ListedLessonExists` | app.py:69-75 | every course/date/file path that `get_courses` lists leads to an existing entry |
| `Serving.ListedDirectoryIsNotServed` | app.py:26 | a directory named `01.html` inside a date directory is listed by `get_courses` and answered with 404 by `serve_course_file` |
| `Serving.AddedLessonsServed` | app.py:48-57 | after a 201, `id/date/01.html` is served with exactly that date's content, for every requested date |
| `Serving.AddKeepsOtherPaths` | app.py:48-57 | on every outcome of `add_course`, every path not starting with the id leads where it did before and is served as before |

## Left out

- Flask setup, route decorators, CORS, `jsonify`, `send_from_directory` and `app.run` are HTTP glue. The model works with status values and response datatypes.
- The working directory and the directory holding app.py are taken to be the same directory, and the tree models it. `os.listdir('.')` and `os.path.isfile` look in the working directory, while `send_from_directory('.', …)` reads from the directory holding app.py. When the server is started elsewhere, a listed file can answer 404 or be read from another file, and the model does not capture this.
- Reading and writing real files: file contents are modelled as strings. No encoding is modelled, and no OS error is modelled except `os.makedirs` on an existing path or on the empty path.
- Requests are modelled as running one at a time, each as one atomic change of the tree. Flask's development server, started by `app.run`, handles each request on its own thread. Two `add_course` requests with the same new id can both pass the `os.path.exists` check; the second then fails in `os.makedirs` and answers 500, not 400. A `get_courses` running during an `add_course` can list a course that is only partly built. The model captures neither interleaving.
- Names are compared exactly and `/` is the only path separator, as on a case-sensitive POSIX filesystem such as Linux's. On a filesystem that ignores case (the macOS and Windows defaults), `os.path.exists` finds `math` when asked for `Math`, so the source answers 400 for an id that differs from an existing entry only in case, and `os.makedirs` raises for a second date that differs from an earlier one only in case, so the source answers 500. The model answers 201 in both cases and captures neither. On Windows `\` is also a separator, which the requirement that names contain no `/` does not exclude.
- Symbolic links are not modelled: an entry is a directory or a regular file.
- The order of `os.listdir` depends on the filesystem. The model takes listing order as sequence order, and places a newly created directory at the end of its parent's listing.
- Errors while scanning, such as an unreadable directory, are not modelled.
- App.Disk.AddCourse: it requires that the id and the date names contain no `/`. The real handler would create nested directories for such names, and multi-component names are not modelled.
- App.Disk.AddCourse: the request body is taken as typed values. A missing key (a `KeyError`, answered with 500) is not modelled. `title` is accepted and ignored, as in the source.
- Serving.ServeFile and Serving.ServeCourseFile: the path is taken already split into components, and a component is looked up by name. `os.path.isfile` resolves a `.` component to the same directory and `..` to the parent, so a path such as `math/./01.html` can lead to a file that the model answers with 404. Flask's `<date>` and `<file>` converters accept such components. Empty and absolute components, and the check of `send_from_directory` that the path stays inside its directory, are not modelled either.
- A persisted JSON catalog, merging, reordering, deleting and time-based caching are not part of `app.py`, so they are not modelled.
- `JQuery/1129/static/js/reg.js` and `JQuery/1018/js/star.js` are browser event handlers over the DOM, with no logic of their own to model.
