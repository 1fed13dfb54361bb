/** The request handlers that read or change enrollments: the POST branch of
    course_detail (enroll and unenroll), course_delete with its cascade, the
    cascade of a deleted account, and my_courses.

    Each handler that changes the store is a method of EnrollmentStore, and
    each such method is specified by a pure step function over the store's
    old contents; the lemmas below state what the handlers promise in terms
    of those step functions. Rendering, flash messages and redirects are
    reduced to an Outcome value. */
module Views {
  import opened Models

  datatype Option<T> = None | Some(value: T)

  /** The requesting account as the authentication layer reports it. */
  datatype User = User(id: StudentId, isStaff: bool)

  /** The "action" field of a course_detail POST. */
  datatype Action = EnrollAction | UnenrollAction | OtherAction

  /** What a handler answers, without its rendering. */
  datatype Outcome =
    | NotFound         // get_object_or_404 found no such course
    | RedirectToLogin  // the request is anonymous
    | Forbidden        // a staff-only action asked for by a non-staff account
    | CourseFull       // "This course is full."
    | Enrolled         // "Enrolled successfully."
    | Unenrolled       // "You have unenrolled from this course."
    | Deleted          // "Course deleted."
    | ShowPage         // nothing was done; the detail page is rendered

  /** An outcome together with the enrollment table it leaves behind. */
  datatype Step = Step(outcome: Outcome, rows: seq<Enrollment>)

  /** No element occurs twice. */
  predicate Distinct<T(==)>(s: seq<T>)
  {
    forall i, j :: 0 <= i < j < |s| ==> s[i] != s[j]
  }

  /** The is_enrolled flag course_detail computes for the requesting student. */
  predicate IsEnrolled(s: seq<Enrollment>, st: StudentId, c: CourseId): (b: bool)
    ensures b <==> Select(s, ByPair(st, c)) != []
  {
    var rows := Select(s, ByPair(st, c));
    assert rows != [] ==> rows[0] in rows;
    Enrollment(st, c) in s
  }

  /** The capacity check of the enroll branch. A capacity of 0 is falsy, so
      for it the check is skipped and the course never counts as full. */
  predicate IsFull(course: Course, c: CourseId, s: seq<Enrollment>): (b: bool)
    ensures b <==> course.capacity != 0 && SeatsRemaining(course, c, s) == 0
  {
    course.capacity != 0 && EnrolledCount(s, c) >= course.capacity
  }

  /** The enroll branch of course_detail for an authenticated student. */
  function EnrollStep(courses: map<CourseId, Course>, s: seq<Enrollment>, st: StudentId, c: CourseId): (r: Step)
    ensures c !in courses ==> r == Step(NotFound, s)
    ensures c in courses && IsEnrolled(s, st, c) ==> r == Step(ShowPage, s)
    ensures r.outcome == CourseFull <==> c in courses && !IsEnrolled(s, st, c) && IsFull(courses[c], c, s)
    ensures r.outcome == Enrolled <==> c in courses && !IsEnrolled(s, st, c) && !IsFull(courses[c], c, s)
    ensures r.outcome == Enrolled ==> r.rows == s + [Enrollment(st, c)]
    ensures r.outcome != Enrolled ==> r.rows == s
    ensures IsEnrolled(s, st, c) || r.outcome == Enrolled ==> IsEnrolled(r.rows, st, c)
    ensures Unique(s) ==> Unique(r.rows)
  {
    if c !in courses then Step(NotFound, s)
    else if IsEnrolled(s, st, c) then Step(ShowPage, s)
    else if IsFull(courses[c], c, s) then Step(CourseFull, s)
    else Step(Enrolled, GetOrCreate(s, Enrollment(st, c)))
  }

  /** The unenroll branch of course_detail for an authenticated student. */
  function UnenrollStep(courses: map<CourseId, Course>, s: seq<Enrollment>, st: StudentId, c: CourseId): (r: Step)
    ensures c !in courses ==> r == Step(NotFound, s)
    ensures r.outcome == Unenrolled <==> c in courses && IsEnrolled(s, st, c)
    ensures r.outcome != Unenrolled ==> r.rows == s
    ensures c in courses ==> forall e :: e in r.rows <==> e in s && e != Enrollment(st, c)
    ensures Unique(s) ==> Unique(r.rows)
  {
    if c !in courses then Step(NotFound, s)
    else if IsEnrolled(s, st, c) then Step(Unenrolled, Remove(s, ByPair(st, c)))
    else Step(ShowPage, s)
  }

  /** A POST to course_detail: the course lookup, then the login check, then
      the branch the action selects. */
  function CourseDetailPostStep(
    courses: map<CourseId, Course>, s: seq<Enrollment>,
    user: Option<User>, c: CourseId, action: Action): (r: Step)
    ensures c !in courses ==> r == Step(NotFound, s)
    ensures c in courses && user.None? ==> r == Step(RedirectToLogin, s)
    ensures action == OtherAction && c in courses && user.Some? ==> r == Step(ShowPage, s)
    ensures r.rows != s ==> user.Some? && c in courses && action != OtherAction
    ensures user.Some? ==> forall e :: e != Enrollment(user.value.id, c) ==> (e in r.rows <==> e in s)
    ensures Unique(s) ==> Unique(r.rows)
  {
    if c !in courses then Step(NotFound, s)
    else if user.None? then Step(RedirectToLogin, s)
    else
      match action
      case EnrollAction => EnrollStep(courses, s, user.value.id, c)
      case UnenrollAction => UnenrollStep(courses, s, user.value.id, c)
      case OtherAction => Step(ShowPage, s)
  }

  /** The courses of a student's enrollments, one per enrollment, newest
      enrollment first (the table's default ordering is by descending
      enrolled_at); MyCourseIdsOrder states the order. */
  function MyCourseIds(s: seq<Enrollment>, st: StudentId): (r: seq<CourseId>)
    ensures |r| == |Select(s, ByStudent(st))|
    ensures forall c :: c in r <==> Enrollment(st, c) in s
  {
    if s == [] then []
    else
      var prefix, last := s[..|s| - 1], s[|s| - 1];
      assert s == prefix + [last];
      (if last.student == st then [last.course] else []) + MyCourseIds(prefix, st)
  }

  /** my_courses: the course records behind MyCourseIds. Every enrollment
      references an existing course (a foreign key). */
  function MyCourses(courses: map<CourseId, Course>, s: seq<Enrollment>, st: StudentId): (r: seq<Course>)
    requires forall e :: e in s ==> e.course in courses
    ensures |r| == |MyCourseIds(s, st)|
    ensures forall k :: 0 <= k < |r| ==> MyCourseIds(s, st)[k] in courses && r[k] == courses[MyCourseIds(s, st)[k]]
    ensures forall c :: c in courses && Enrollment(st, c) in s ==> courses[c] in r
  {
    var ids := MyCourseIds(s, st);
    assert forall k :: 0 <= k < |ids| ==> ids[k] in courses by {
      forall k | 0 <= k < |ids|
        ensures ids[k] in courses
      {
        assert ids[k] in ids;
        assert Enrollment(st, ids[k]) in s;
      }
    }
    var r := seq(|ids|, k requires 0 <= k < |ids| => courses[ids[k]]);
    assert forall c :: c in courses && Enrollment(st, c) in s ==> courses[c] in r by {
      forall c | c in courses && Enrollment(st, c) in s
        ensures courses[c] in r
      {
        var k :| 0 <= k < |ids| && ids[k] == c;
        assert r[k] == courses[c];
      }
    }
    r
  }

  /** The rows left after enrolling each of `sts` in course `c`, in turn. */
  function EnrollEach(courses: map<CourseId, Course>, s: seq<Enrollment>, sts: seq<StudentId>, c: CourseId): seq<Enrollment>
  {
    if sts == [] then s
    else EnrollStep(courses, EnrollEach(courses, s, sts[..|sts| - 1], c), sts[|sts| - 1], c).rows
  }

  /** One row per student of `sts` for course `c`, in the same order. */
  function RowsFor(sts: seq<StudentId>, c: CourseId): seq<Enrollment>
  {
    seq(|sts|, i requires 0 <= i < |sts| => Enrollment(sts[i], c))
  }

  // ---------------------------------------------------------------------
  // Lemmas about enroll and unenroll

  /** A successful enroll raises the course's count by one and leaves every
      other course's rows as they were. */
  lemma EnrollCounts(courses: map<CourseId, Course>, s: seq<Enrollment>, st: StudentId, c: CourseId, d: CourseId)
    ensures EnrollStep(courses, s, st, c).outcome == Enrolled ==>
              EnrolledCount(EnrollStep(courses, s, st, c).rows, c) == EnrolledCount(s, c) + 1
    ensures d != c ==> Select(EnrollStep(courses, s, st, c).rows, ByCourse(d)) == Select(s, ByCourse(d))
  {
    var e := Enrollment(st, c);
    FilterAppend(s, e, ByCourse(c), true);
    FilterAppend(s, e, ByCourse(d), true);
  }

  /** The capacity ceiling: for a course with a non-zero capacity whose count
      is within it, enrolling keeps the count within it. */
  lemma EnrollKeepsCeiling(courses: map<CourseId, Course>, s: seq<Enrollment>, st: StudentId, c: CourseId)
    requires c in courses && courses[c].capacity > 0
    requires EnrolledCount(s, c) <= courses[c].capacity
    ensures EnrolledCount(EnrollStep(courses, s, st, c).rows, c) <= courses[c].capacity
  {
    CountAfterCreate(s, Enrollment(st, c), c);
  }

  /** The two readings of capacity 0 side by side: the enroll branch treats
      it as unlimited and admits any student not yet enrolled, although
      seats_remaining reports 0 seats both before and after. */
  lemma ZeroCapacityAdmitsWithNoSeats(courses: map<CourseId, Course>, s: seq<Enrollment>, st: StudentId, c: CourseId)
    requires c in courses && courses[c].capacity == 0
    requires !IsEnrolled(s, st, c)
    ensures SeatsRemaining(courses[c], c, s) == 0
    ensures EnrollStep(courses, s, st, c).outcome == Enrolled
    ensures SeatsRemaining(courses[c], c, EnrollStep(courses, s, st, c).rows) == 0
    ensures EnrolledCount(EnrollStep(courses, s, st, c).rows, c) == EnrolledCount(s, c) + 1
  {
    CountAfterCreate(s, Enrollment(st, c), c);
  }

  /** The enrollment test: a course created with default values (capacity 0)
      takes a first student, who then has exactly that one row. */
  lemma DefaultCourseAcceptsEnrollment(st: StudentId, c: CourseId)
    ensures var courses := map[c := NewCourse("", "Test Course", "")];
            EnrollStep(courses, [], st, c) == Step(Enrolled, [Enrollment(st, c)])
  {
  }

  /** Enrolling twice leaves the table as the first enroll left it, and the
      second call reports the detail page, not a new row. */
  lemma EnrollIdempotent(courses: map<CourseId, Course>, s: seq<Enrollment>, st: StudentId, c: CourseId)
    ensures var first := EnrollStep(courses, s, st, c);
            EnrollStep(courses, first.rows, st, c).rows == first.rows
    ensures var first := EnrollStep(courses, s, st, c);
            first.outcome == Enrolled ==> EnrollStep(courses, first.rows, st, c).outcome == ShowPage
  {
  }

  /** Unenrolling an enrolled student removes exactly one row, lowers the
      course's count by one and leaves other courses' rows as they were. */
  lemma UnenrollCounts(courses: map<CourseId, Course>, s: seq<Enrollment>, st: StudentId, c: CourseId, d: CourseId)
    requires Unique(s) && c in courses && IsEnrolled(s, st, c)
    ensures |UnenrollStep(courses, s, st, c).rows| == |s| - 1
    ensures EnrolledCount(UnenrollStep(courses, s, st, c).rows, c) == EnrolledCount(s, c) - 1
    ensures d != c ==> Select(UnenrollStep(courses, s, st, c).rows, ByCourse(d)) == Select(s, ByCourse(d))
  {
    CountAfterRemovePair(s, st, c);
    if d != c {
      RemovePairKeepsOtherCourses(s, st, c, d);
    }
  }

  /** Dropping and enrolling again succeeds, provided the count was within a
      non-zero capacity (or the capacity is 0), and leaves exactly one row
      for the pair. */
  lemma UnenrollThenEnroll(courses: map<CourseId, Course>, s: seq<Enrollment>, st: StudentId, c: CourseId)
    requires Unique(s) && c in courses && IsEnrolled(s, st, c)
    requires courses[c].capacity == 0 || EnrolledCount(s, c) <= courses[c].capacity
    ensures var dropped := UnenrollStep(courses, s, st, c).rows;
            EnrollStep(courses, dropped, st, c).outcome == Enrolled
    ensures var again := EnrollStep(courses, UnenrollStep(courses, s, st, c).rows, st, c).rows;
            |Select(again, ByPair(st, c))| == 1
  {
    var dropped := UnenrollStep(courses, s, st, c).rows;
    CountAfterRemovePair(s, st, c);
    var again := EnrollStep(courses, dropped, st, c).rows;
    PairOccursOnce(again, st, c);
  }

  /** The rows of a list of students end with the row of its last one. */
  lemma RowsForAppend(sts: seq<StudentId>, c: CourseId)
    requires sts != []
    ensures RowsFor(sts, c) == RowsFor(sts[..|sts| - 1], c) + [Enrollment(sts[|sts| - 1], c)]
  {
    var prev := sts[..|sts| - 1];
    var lhs, rhs := RowsFor(sts, c), RowsFor(prev, c) + [Enrollment(sts[|sts| - 1], c)];
    assert |lhs| == |rhs|;
    forall i | 0 <= i < |lhs|
      ensures lhs[i] == rhs[i]
    {
      if i < |prev| {
        assert rhs[i] == RowsFor(prev, c)[i];
      }
    }
  }

  /** A student outside `sts` has no row among theirs. */
  lemma NotInRowsFor(sts: seq<StudentId>, x: StudentId, c: CourseId)
    requires x !in sts
    ensures Enrollment(x, c) !in RowsFor(sts, c)
  {
    var rows := RowsFor(sts, c);
    assert forall i :: 0 <= i < |rows| ==> rows[i].student == sts[i];
  }

  /** A student not yet enrolled in a course that is not full is admitted:
      exactly their row is appended and the count grows by one. */
  lemma AdmitNewStudent(courses: map<CourseId, Course>, s: seq<Enrollment>, st: StudentId, c: CourseId)
    requires c in courses && Enrollment(st, c) !in s
    requires courses[c].capacity == 0 || EnrolledCount(s, c) < courses[c].capacity
    ensures EnrollStep(courses, s, st, c) == Step(Enrolled, s + [Enrollment(st, c)])
    ensures EnrolledCount(s + [Enrollment(st, c)], c) == EnrolledCount(s, c) + 1
  {
    CountAfterCreate(s, Enrollment(st, c), c);
  }

  /** The rows of a list of students all belong to the one course, so
      appending them to a table with no rows for it counts exactly them. */
  lemma {:induction false} CountOfFill(s: seq<Enrollment>, sts: seq<StudentId>, c: CourseId)
    requires EnrolledCount(s, c) == 0
    ensures EnrolledCount(s + RowsFor(sts, c), c) == |sts|
  {
    if sts != [] {
      var prev, x := sts[..|sts| - 1], sts[|sts| - 1];
      CountOfFill(s, prev, c);
      RowsForAppend(sts, c);
      assert s + RowsFor(sts, c) == (s + RowsFor(prev, c)) + [Enrollment(x, c)];
      CountAfterCreate(s + RowsFor(prev, c), Enrollment(x, c), c);
    }
  }

  /** One step of filling a course: a new student joining the students
      already admitted is admitted too. */
  lemma FillStep(courses: map<CourseId, Course>, s: seq<Enrollment>, prev: seq<StudentId>, x: StudentId, c: CourseId)
    requires c in courses && EnrolledCount(s, c) == 0 && x !in prev
    requires courses[c].capacity == 0 || |prev| < courses[c].capacity
    ensures EnrollStep(courses, s + RowsFor(prev, c), x, c) == Step(Enrolled, s + RowsFor(prev + [x], c))
  {
    var rows, e := s + RowsFor(prev, c), Enrollment(x, c);
    CountOfFill(s, prev, c);
    NotInRowsFor(prev, x, c);
    assert e !in s;
    assert e !in rows;
    AdmitNewStudent(courses, rows, x, c);
    assert (prev + [x])[..|prev|] == prev;
    RowsForAppend(prev + [x], c);
    assert s + RowsFor(prev + [x], c) == rows + [e];
  }

  /** Dropping the last element of a duplicate-free list keeps it
      duplicate-free, and the dropped element is not among the rest. */
  lemma DistinctInit<T>(s: seq<T>)
    requires s != [] && Distinct(s)
    ensures Distinct(s[..|s| - 1]) && s[|s| - 1] !in s[..|s| - 1]
  {
    var prev := s[..|s| - 1];
    assert forall i :: 0 <= i < |prev| ==> prev[i] == s[i];
  }

  /** Enrolling distinct new students, up to a non-zero capacity or any
      number of them when the capacity is 0, into a course with no rows
      admits every one of them: the table gains exactly their rows, in
      order. */
  lemma {:induction false} FillRows(courses: map<CourseId, Course>, s: seq<Enrollment>, sts: seq<StudentId>, c: CourseId)
    requires c in courses && EnrolledCount(s, c) == 0
    requires courses[c].capacity == 0 || |sts| <= courses[c].capacity
    requires Distinct(sts)
    ensures EnrollEach(courses, s, sts, c) == s + RowsFor(sts, c)
  {
    if sts != [] {
      var prev, x := sts[..|sts| - 1], sts[|sts| - 1];
      DistinctInit(sts);
      FillRows(courses, s, prev, c);
      assert EnrollEach(courses, s, sts, c) == EnrollStep(courses, s + RowsFor(prev, c), x, c).rows;
      FillStep(courses, s, prev, x, c);
      assert prev + [x] == sts;
    }
  }

  /** Filling a course with no rows with distinct new students, within its
      capacity, leaves exactly their rows and a count of exactly their
      number. */
  lemma FillToCapacity(courses: map<CourseId, Course>, s: seq<Enrollment>, sts: seq<StudentId>, c: CourseId)
    requires c in courses && EnrolledCount(s, c) == 0
    requires courses[c].capacity == 0 || |sts| <= courses[c].capacity
    requires Distinct(sts)
    ensures EnrollEach(courses, s, sts, c) == s + RowsFor(sts, c)
    ensures EnrolledCount(EnrollEach(courses, s, sts, c), c) == |sts|
  {
    FillRows(courses, s, sts, c);
    CountOfFill(s, sts, c);
  }

  /** Once as many distinct students as a non-zero capacity have enrolled,
      the next new student is refused as full and no row is added. */
  lemma FullAfterCapacity(courses: map<CourseId, Course>, s: seq<Enrollment>, sts: seq<StudentId>, c: CourseId, next: StudentId)
    requires c in courses && EnrolledCount(s, c) == 0
    requires courses[c].capacity > 0 && |sts| == courses[c].capacity
    requires Distinct(sts) && next !in sts
    ensures var filled := EnrollEach(courses, s, sts, c);
            EnrollStep(courses, filled, next, c) == Step(CourseFull, filled)
  {
    FillToCapacity(courses, s, sts, c);
    var filled := EnrollEach(courses, s, sts, c);
    NotInRowsFor(sts, next, c);
  }

  // ---------------------------------------------------------------------
  // Lemmas about my_courses

  /** Under the uniqueness constraint no course is listed twice. */
  lemma {:induction false} MyCourseIdsDistinct(s: seq<Enrollment>, st: StudentId)
    requires Unique(s)
    ensures Distinct(MyCourseIds(s, st))
  {
    if s != [] {
      var prefix, last := s[..|s| - 1], s[|s| - 1];
      MyCourseIdsDistinct(prefix, st);
      assert last !in prefix;
    }
  }

  /** The list is the student's rows of the table, as the filter by student
      returns them, read backwards: newest enrollment first. */
  lemma {:induction false} MyCourseIdsOrder(s: seq<Enrollment>, st: StudentId)
    ensures forall k :: 0 <= k < |MyCourseIds(s, st)| ==>
              MyCourseIds(s, st)[k] == Select(s, ByStudent(st))[|MyCourseIds(s, st)| - 1 - k].course
  {
    if s != [] {
      var prefix, last := s[..|s| - 1], s[|s| - 1];
      MyCourseIdsOrder(prefix, st);
      var r, rest := MyCourseIds(s, st), MyCourseIds(prefix, st);
      var mine, older := Select(s, ByStudent(st)), Select(prefix, ByStudent(st));
      var mineLast := last.student == st;
      assert r == (if mineLast then [last.course] else []) + rest;
      assert mine == older + (if mineLast then [last] else []);
      forall k | 0 <= k < |r|
        ensures r[k] == mine[|r| - 1 - k].course
      {
        if !mineLast || k > 0 {
          var j := if mineLast then k - 1 else k;
          assert r[k] == rest[j] == older[|rest| - 1 - j].course;
          assert mine[|r| - 1 - k] == older[|rest| - 1 - j];
        }
      }
    }
  }

  // ---------------------------------------------------------------------
  // The store

  /** The shared store: the course table and the enrollment table. */
  class EnrollmentStore {
    var courses: map<CourseId, Course>
    var enrollments: seq<Enrollment>

    /** The database's constraints: the unique pair, and a foreign key from
        every enrollment to an existing course. */
    ghost predicate Valid()
      reads this
    {
      Unique(enrollments) && forall e :: e in enrollments ==> e.course in courses
    }

    /** A store holding the given courses and no enrollments. */
    constructor (catalogue: map<CourseId, Course>)
      ensures Valid()
      ensures courses == catalogue && enrollments == []
    {
      courses := catalogue;
      enrollments := [];
    }

    /** The enroll branch of course_detail. */
    method Enroll(st: StudentId, c: CourseId) returns (outcome: Outcome)
      requires Valid()
      modifies this
      ensures Valid() && courses == old(courses)
      ensures Step(outcome, enrollments) == EnrollStep(old(courses), old(enrollments), st, c)
    {
      if c !in courses {
        return NotFound;
      }
      if Enrollment(st, c) in enrollments {
        return ShowPage;
      }
      var course := courses[c];
      if course.capacity != 0 && EnrolledCount(enrollments, c) >= course.capacity {
        return CourseFull;
      }
      enrollments := GetOrCreate(enrollments, Enrollment(st, c));
      outcome := Enrolled;
    }

    /** The unenroll branch of course_detail. */
    method Unenroll(st: StudentId, c: CourseId) returns (outcome: Outcome)
      requires Valid()
      modifies this
      ensures Valid() && courses == old(courses)
      ensures Step(outcome, enrollments) == UnenrollStep(old(courses), old(enrollments), st, c)
    {
      if c !in courses {
        return NotFound;
      }
      if Enrollment(st, c) !in enrollments {
        return ShowPage;
      }
      enrollments := Remove(enrollments, ByPair(st, c));
      outcome := Unenrolled;
    }

    /** A POST to course_detail. */
    method CourseDetailPost(user: Option<User>, c: CourseId, action: Action) returns (outcome: Outcome)
      requires Valid()
      modifies this
      ensures Valid() && courses == old(courses)
      ensures Step(outcome, enrollments) == CourseDetailPostStep(old(courses), old(enrollments), user, c, action)
    {
      if c !in courses {
        return NotFound;
      }
      if user.None? {
        return RedirectToLogin;
      }
      match action
      case EnrollAction =>
        outcome := Enroll(user.value.id, c);
      case UnenrollAction =>
        outcome := Unenroll(user.value.id, c);
      case OtherAction =>
        outcome := ShowPage;
    }

    /** A POST to course_delete: login required, staff only, then the course
        and, by cascade, its enrollments are deleted. */
    method DeleteCourse(user: Option<User>, c: CourseId) returns (outcome: Outcome)
      requires Valid()
      modifies this
      ensures Valid()
      ensures user.None? ==> outcome == RedirectToLogin
      ensures user.Some? && !user.value.isStaff ==> outcome == Forbidden
      ensures user.Some? && user.value.isStaff && c !in old(courses) ==> outcome == NotFound
      ensures outcome == Deleted <==> user.Some? && user.value.isStaff && c in old(courses)
      ensures outcome == Deleted ==>
                courses == old(courses) - {c} && enrollments == Remove(old(enrollments), ByCourse(c))
      ensures outcome != Deleted ==> courses == old(courses) && enrollments == old(enrollments)
    {
      if user.None? {
        return RedirectToLogin;
      }
      if !user.value.isStaff {
        return Forbidden;
      }
      if c !in courses {
        return NotFound;
      }
      courses := courses - {c};
      enrollments := Remove(enrollments, ByCourse(c));
      outcome := Deleted;
    }

    /** Deleting a student account cascades to its enrollments. */
    method DeleteStudent(st: StudentId)
      requires Valid()
      modifies this
      ensures Valid()
      ensures courses == old(courses) && enrollments == Remove(old(enrollments), ByStudent(st))
    {
      enrollments := Remove(enrollments, ByStudent(st));
    }
  }
}
