/**
 * The student list (app/dashboard/students/page.tsx): the sample roster, the
 * name search that picks the rows of the table, and the links of each row.
 */
module StudentsPage {
  import opened Wrappers
  import opened Sequences
  import opened JsStrings
  import AuthProvider

  datatype Student = Student(
    id: string, name: string, classGroup: string, age: int, gender: string,
    height: real, weight: real, lastUpdated: string)

  /** The sample roster the page shows. */
  const Students: seq<Student> := [
    Student("1", "Emma Johnson", "Grade 5-A", 10, "Female", 142.5, 35.2, "2023-04-15T09:30:00"),
    Student("2", "Michael Chen", "Grade 5-B", 11, "Male", 145.8, 38.1, "2023-04-14T10:45:00"),
    Student("3", "Sophia Garcia", "Grade 5-A", 10, "Female", 138.4, 33.6, "2023-04-15T11:15:00"),
    Student("4", "Liam Wilson", "Grade 6-A", 12, "Male", 151.2, 42.3, "2023-04-13T09:00:00"),
    Student("5", "Olivia Martinez", "Grade 6-B", 11, "Female", 147.6, 39.8, "2023-04-14T14:30:00"),
    Student("6", "Noah Lee", "Grade 6-A", 12, "Male", 152.8, 43.5, "2023-04-15T10:00:00"),
    Student("7", "Ava Williams", "Grade 5-B", 10, "Female", 140.1, 34.9, "2023-04-15T13:45:00"),
    Student("8", "Ethan Brown", "Grade 6-B", 11, "Male", 149.4, 41.2, "2023-04-13T11:30:00")
  ]

  /** The test applied to each student: the lower-cased name contains the lower-cased search. */
  predicate NameMatches(student: Student, search: string) {
    Includes(ToLower(student.name), ToLower(search))
  }

  function MatchesSearch(search: string): Student -> bool {
    (student: Student) => NameMatches(student, search)
  }

  /** The rows handed to the table: the students whose name matches, in roster order. */
  function SearchStudents(students: seq<Student>, search: string): (shown: seq<Student>)
    ensures |shown| <= |students|
    ensures forall i :: 0 <= i < |shown| ==> NameMatches(shown[i], search)
  {
    Filter(students, MatchesSearch(search))
  }

  /** A student is shown exactly when the name matches, and only roster students are shown. */
  lemma SearchMembership(students: seq<Student>, search: string)
    ensures forall i :: 0 <= i < |students| ==>
      (students[i] in SearchStudents(students, search) <==> NameMatches(students[i], search))
    ensures forall i :: 0 <= i < |SearchStudents(students, search)| ==> SearchStudents(students, search)[i] in students
  {
    FilterMembers(students, MatchesSearch(search));
  }

  /** The shown rows keep the roster's order. */
  lemma SearchKeepsOrder(students: seq<Student>, search: string)
    ensures IsSubsequence(SearchStudents(students, search), students)
  {
    FilterIsSubsequence(students, MatchesSearch(search));
  }

  /** The empty search, the page's initial state, shows every student. */
  lemma EmptySearchShowsAll(students: seq<Student>)
    ensures SearchStudents(students, "") == students
  {
    forall i | 0 <= i < |students|
      ensures MatchesSearch("")(students[i])
    {
      IncludesEmpty(ToLower(students[i].name));
    }
    FilterAllOrNone(students, MatchesSearch(""));
  }

  /** Two searches that lower-case alike show the same rows. */
  lemma SearchIgnoresCase(students: seq<Student>, a: string, b: string)
    requires ToLower(a) == ToLower(b)
    ensures SearchStudents(students, a) == SearchStudents(students, b)
  {
    FilterCongruent(students, MatchesSearch(a), MatchesSearch(b));
  }

  /** In particular, searching for the lower-cased text shows the same rows. */
  lemma SearchLowerCased(students: seq<Student>, search: string)
    ensures SearchStudents(students, ToLower(search)) == SearchStudents(students, search)
  {
    ToLowerIdempotent(search);
    SearchIgnoresCase(students, ToLower(search), search);
  }

  /** Searching for a student's full name, in any case, shows that student. */
  lemma FullNameFindsStudent(students: seq<Student>, i: nat, search: string)
    requires i < |students| && ToLower(search) == ToLower(students[i].name)
    ensures students[i] in SearchStudents(students, search)
  {
    IncludesSelf(ToLower(students[i].name));
    SearchMembership(students, search);
  }

  /** The page's state: the search box and the class select, which no row depends on. */
  datatype PageState = PageState(search: string, classSelect: string)

  function Rows(state: PageState): seq<Student> {
    SearchStudents(Students, state.search)
  }

  /** Changing the class select, or pressing the filter button, leaves the rows as they are. */
  lemma RowsIgnoreClassSelect(a: PageState, b: PageState)
    requires a.search == b.search
    ensures Rows(a) == Rows(b)
  {
  }

  /** The link of a row's name and of its "View Details" item. */
  function DetailPath(id: string): (path: string)
    ensures |path| >= 10 && path[..10] == "/dashboard"
  {
    "/dashboard/students/" + id
  }

  /** The link of a row's "Edit" item. */
  function EditPath(id: string): (path: string)
    ensures |path| >= 10 && path[..10] == "/dashboard"
  {
    "/dashboard/students/" + id + "/edit"
  }

  /** Different students get different detail and edit links, and the edit link extends the detail link. */
  lemma LinksIdentifyStudent(a: string, b: string)
    ensures DetailPath(a) == DetailPath(b) ==> a == b
    ensures EditPath(a) == EditPath(b) ==> a == b
    ensures EditPath(a) == DetailPath(a) + "/edit"
  {
    var p := "/dashboard/students/";
    if DetailPath(a) == DetailPath(b) {
      assert a == DetailPath(a)[|p|..] == DetailPath(b)[|p|..] == b;
    }
    if EditPath(a) == EditPath(b) {
      assert |a| == |b|;
      assert a == EditPath(a)[|p|..|p| + |a|] == EditPath(b)[|p|..|p| + |b|] == b;
    }
  }

  /** A visitor who is not signed in and follows any row link is sent to the sign-in page. */
  lemma RowLinksNeedSignIn(id: string)
    ensures AuthProvider.Guard(false, Option.None, DetailPath(id)) == Option.Some("/login")
    ensures AuthProvider.Guard(false, Option.None, EditPath(id)) == Option.Some("/login")
  {
    AuthProvider.DashboardNeedsUser(DetailPath(id));
    AuthProvider.DashboardNeedsUser(EditPath(id));
  }

  /** The roster's ids are distinct, so each row's links lead to that row's student. */
  lemma SampleIdsDistinct()
    ensures forall i, j :: 0 <= i < j < |Students| ==> Students[i].id != Students[j].id
  {
  }
}
