/** The data layer of the enrollment application: course records, the
    enrollment table with its (student, course) uniqueness constraint, the
    derived seat counts, and the filtered queries and cascading deletes that
    the views rely on.

    The enrollment table is a sequence of rows in insertion order: the
    position of a row stands for its enrolled_at timestamp, so a later row was
    enrolled later. Under the uniqueness constraint the sequence holds each
    (student, course) pair at most once, i.e. it is a set of pairs with an
    order on it. */
module Models {

  /** Opaque primary keys. Students are accounts of the authentication system. */
  type StudentId = nat
  type CourseId = nat

  /** A course record; credits and capacity are PositiveIntegerFields, so
      they are never negative. */
  datatype Course = Course(
    code: string,
    title: string,
    description: string,
    semester: string,
    credits: nat,
    capacity: nat)

  /** One enrollment row: a student linked to a course. */
  datatype Enrollment = Enrollment(student: StudentId, course: CourseId)

  /** A course created with only its text fields set: credits and capacity
      take their declared default of 0, the description its blank value. */
  function NewCourse(code: string, title: string, semester: string): (c: Course)
    ensures c.credits == 0 && c.capacity == 0
    ensures c.code == code && c.title == title && c.semester == semester
  {
    Course(code, title, "", semester, 0, 0)
  }

  /** The constraint unique_student_course_enrollment: no pair occurs twice. */
  predicate Unique(s: seq<Enrollment>)
  {
    forall i, j :: 0 <= i < j < |s| ==> s[i] != s[j]
  }

  /** The lookups handed to the ORM's filter(): by course (the course's
      related enrollments), by student, or by both. */
  datatype Selector =
    | ByCourse(course: CourseId)
    | ByStudent(student: StudentId)
    | ByPair(student: StudentId, course: CourseId)

  predicate Matches(sel: Selector, e: Enrollment)
  {
    match sel
    case ByCourse(c) => e.course == c
    case ByStudent(st) => e.student == st
    case ByPair(st, c) => e.student == st && e.course == c
  }

  /** No row can match both selectors. */
  ghost predicate Disjoint(a: Selector, b: Selector)
  {
    forall e :: Matches(a, e) ==> !Matches(b, e)
  }

  /** The rows whose match against `sel` is `keep`, in table order. */
  function Filter(s: seq<Enrollment>, sel: Selector, keep: bool): (r: seq<Enrollment>)
    ensures |r| <= |s|
    ensures forall e :: e in r <==> e in s && Matches(sel, e) == keep
    ensures Unique(s) ==> Unique(r)
  {
    if s == [] then []
    else
      var prefix, last := s[..|s| - 1], s[|s| - 1];
      assert Unique(s) ==> last !in prefix;
      var rest := Filter(prefix, sel, keep);
      if Matches(sel, last) == keep then rest + [last] else rest
  }

  /** filter(sel): the matching rows, in table order. */
  function Select(s: seq<Enrollment>, sel: Selector): (r: seq<Enrollment>)
    ensures |r| <= |s|
    ensures forall e :: e in r <==> e in s && Matches(sel, e)
    ensures Unique(s) ==> Unique(r)
  {
    Filter(s, sel, true)
  }

  /** filter(sel).delete(), and the cascade of a deleted course or student:
      the table without the matching rows, the rest in their old order. */
  function Remove(s: seq<Enrollment>, sel: Selector): (r: seq<Enrollment>)
    ensures |r| <= |s|
    ensures forall e :: e in r <==> e in s && !Matches(sel, e)
    ensures Unique(s) ==> Unique(r)
  {
    Filter(s, sel, false)
  }

  /** Course.enrolled_count: the number of rows that reference the course. */
  function EnrolledCount(s: seq<Enrollment>, c: CourseId): (n: nat)
    ensures n <= |s|
    ensures n == 0 <==> forall e :: e in s ==> e.course != c
  {
    var rows := Select(s, ByCourse(c));
    assert rows != [] ==> rows[0] in rows;
    |rows|
  }

  /** Course.seats_remaining for the course `course` stored under `id`:
      capacity minus the enrolled count, floored at zero. A capacity of 0
      therefore always reports 0 seats. */
  function SeatsRemaining(course: Course, id: CourseId, s: seq<Enrollment>): (r: nat)
    ensures r <= course.capacity
    ensures r == 0 <==> EnrolledCount(s, id) >= course.capacity
    ensures r > 0 ==> r + EnrolledCount(s, id) == course.capacity
  {
    var diff := course.capacity - EnrolledCount(s, id);
    if diff > 0 then diff else 0
  }

  /** What saving a new row does under the uniqueness constraint. */
  datatype SaveResult = Saved(rows: seq<Enrollment>) | IntegrityError

  /** Enrollment.objects.create / save(): the database refuses a second row
      for a pair it already holds. */
  function Create(s: seq<Enrollment>, e: Enrollment): (r: SaveResult)
    ensures r.IntegrityError? <==> e in s
    ensures r.Saved? ==> r.rows == s + [e]
    ensures r.Saved? && Unique(s) ==> Unique(r.rows)
  {
    if e in s then IntegrityError else Saved(s + [e])
  }

  /** get_or_create: the existing row if there is one, otherwise a created
      one. It never reports the integrity error. */
  function GetOrCreate(s: seq<Enrollment>, e: Enrollment): (r: seq<Enrollment>)
    ensures e in r
    ensures forall x :: x in r <==> x in s || x == e
    ensures |s| <= |r| <= |s| + 1 && r[..|s|] == s
    ensures Unique(s) ==> Unique(r)
  {
    match Create(s, e)
    case Saved(rows) => rows
    case IntegrityError => s
  }

  // ---------------------------------------------------------------------
  // Lemmas about the queries

  /** Appending a row extends the filter by that row exactly when it is kept. */
  lemma FilterAppend(s: seq<Enrollment>, e: Enrollment, sel: Selector, keep: bool)
    ensures Filter(s + [e], sel, keep)
         == Filter(s, sel, keep) + (if Matches(sel, e) == keep then [e] else [])
  {
    assert (s + [e])[..|s|] == s;
  }

  /** Filtering distributes over concatenation: the kept rows of an earlier
      part of the table come before those of a later part. With
      FilterAppend this fixes the result as the kept rows in table order. */
  lemma {:induction false} FilterConcat(a: seq<Enrollment>, b: seq<Enrollment>, sel: Selector, keep: bool)
    ensures Filter(a + b, sel, keep) == Filter(a, sel, keep) + Filter(b, sel, keep)
  {
    if b == [] {
      assert a + b == a;
    } else {
      var init, last := b[..|b| - 1], b[|b| - 1];
      var tail := if Matches(sel, last) == keep then [last] else [];
      calc {
        Filter(a + b, sel, keep);
        { assert a + b == (a + init) + [last]; }
        Filter((a + init) + [last], sel, keep);
        { FilterAppend(a + init, last, sel, keep); }
        Filter(a + init, sel, keep) + tail;
        { FilterConcat(a, init, sel, keep); }
        Filter(a, sel, keep) + Filter(init, sel, keep) + tail;
        { assert b == init + [last]; FilterAppend(init, last, sel, keep); }
        Filter(a, sel, keep) + Filter(b, sel, keep);
      }
    }
  }

  /** Every row is either selected or kept by the removal. */
  lemma {:induction false} SelectRemoveSplit(s: seq<Enrollment>, sel: Selector)
    ensures |Select(s, sel)| + |Remove(s, sel)| == |s|
  {
    if s != [] {
      SelectRemoveSplit(s[..|s| - 1], sel);
    }
  }

  /** Removing rows that nothing in the table matches leaves it unchanged. */
  lemma {:induction false} RemoveNothing(s: seq<Enrollment>, sel: Selector)
    requires forall e :: e in s ==> !Matches(sel, e)
    ensures Remove(s, sel) == s
  {
    if s != [] {
      var prefix := s[..|s| - 1];
      assert forall e :: e in prefix ==> e in s;
      RemoveNothing(prefix, sel);
      assert s == prefix + [s[|s| - 1]];
    }
  }

  /** Removing rows that everything in the table matches empties it. */
  lemma {:induction false} RemoveEverything(s: seq<Enrollment>, sel: Selector)
    requires forall e :: e in s ==> Matches(sel, e)
    ensures Remove(s, sel) == []
  {
    if s != [] {
      var prefix := s[..|s| - 1];
      assert forall e :: e in prefix ==> e in s;
      RemoveEverything(prefix, sel);
    }
  }

  /** Selecting after a removal is removing after a selection. */
  lemma {:induction false} SelectRemoveCommute(s: seq<Enrollment>, a: Selector, b: Selector)
    ensures Select(Remove(s, a), b) == Remove(Select(s, b), a)
  {
    if s != [] {
      var prefix, last := s[..|s| - 1], s[|s| - 1];
      SelectRemoveCommute(prefix, a, b);
      FilterAppend(Filter(prefix, a, false), last, b, true);
      FilterAppend(Filter(prefix, b, true), last, a, false);
    }
  }

  /** Removing the rows of `a` leaves the rows of a disjoint `b` as they were,
      contents and order. */
  lemma RemoveKeepsOthers(s: seq<Enrollment>, a: Selector, b: Selector)
    requires Disjoint(a, b)
    ensures Select(Remove(s, a), b) == Select(s, b)
  {
    SelectRemoveCommute(s, a, b);
    RemoveNothing(Select(s, b), a);
  }

  /** The rows of one pair of a course are the rows of that pair. */
  lemma {:induction false} SelectPairWithinCourse(s: seq<Enrollment>, st: StudentId, c: CourseId)
    ensures Select(Select(s, ByCourse(c)), ByPair(st, c)) == Select(s, ByPair(st, c))
  {
    if s != [] {
      var prefix, last := s[..|s| - 1], s[|s| - 1];
      SelectPairWithinCourse(prefix, st, c);
      FilterAppend(Select(prefix, ByCourse(c)), last, ByPair(st, c), true);
    }
  }

  /** Under the uniqueness constraint a present pair has exactly one row. */
  lemma PairOccursOnce(s: seq<Enrollment>, st: StudentId, c: CourseId)
    requires Unique(s) && Enrollment(st, c) in s
    ensures |Select(s, ByPair(st, c))| == 1
  {
    var rows := Select(s, ByPair(st, c));
    UniqueCardinality(rows);
    assert (set e | e in rows) == {Enrollment(st, c)};
  }

  /** The elements of a duplicate-free table, as a set, are as many as its rows. */
  lemma {:induction false} UniqueCardinality(s: seq<Enrollment>)
    requires Unique(s)
    ensures |set e | e in s| == |s|
  {
    if s != [] {
      var prefix, last := s[..|s| - 1], s[|s| - 1];
      UniqueCardinality(prefix);
      assert last !in prefix;
      assert (set e | e in s) == (set e | e in prefix) + {last};
    }
  }

  // ---------------------------------------------------------------------
  // Lemmas about the derived counts

  /** enrolled_count is the number of distinct enrollment pairs that
      reference the course. */
  lemma CountIsNumberOfPairs(s: seq<Enrollment>, c: CourseId)
    requires Unique(s)
    ensures EnrolledCount(s, c) == |set e | e in s && e.course == c|
  {
    var rows := Select(s, ByCourse(c));
    UniqueCardinality(rows);
    assert (set e | e in rows) == (set e | e in s && e.course == c);
  }

  /** A created row raises the count of its own course by one and no other. */
  lemma CountAfterCreate(s: seq<Enrollment>, e: Enrollment, c: CourseId)
    ensures EnrolledCount(s + [e], c)
         == EnrolledCount(s, c) + (if e.course == c then 1 else 0)
  {
    FilterAppend(s, e, ByCourse(c), true);
  }

  /** Deleting a present pair lowers its course's count by exactly one. */
  lemma CountAfterRemovePair(s: seq<Enrollment>, st: StudentId, c: CourseId)
    requires Unique(s) && Enrollment(st, c) in s
    ensures EnrolledCount(Remove(s, ByPair(st, c)), c) == EnrolledCount(s, c) - 1
    ensures |Remove(s, ByPair(st, c))| == |s| - 1
  {
    var ofCourse := Select(s, ByCourse(c));
    SelectRemoveCommute(s, ByPair(st, c), ByCourse(c));
    SelectRemoveSplit(ofCourse, ByPair(st, c));
    SelectPairWithinCourse(s, st, c);
    PairOccursOnce(s, st, c);
    SelectRemoveSplit(s, ByPair(st, c));
  }

  /** Deleting the rows of a pair leaves other courses' rows as they were. */
  lemma RemovePairKeepsOtherCourses(s: seq<Enrollment>, st: StudentId, c: CourseId, d: CourseId)
    requires d != c
    ensures Select(Remove(s, ByPair(st, c)), ByCourse(d)) == Select(s, ByCourse(d))
  {
    RemoveKeepsOthers(s, ByPair(st, c), ByCourse(d));
  }

  /** Cascade of a deleted course: none of its rows remain, and every other
      course keeps its rows (contents and order) and so its count. */
  lemma CourseCascade(s: seq<Enrollment>, c: CourseId, d: CourseId)
    ensures EnrolledCount(Remove(s, ByCourse(c)), c) == 0
    ensures d != c ==> Select(Remove(s, ByCourse(c)), ByCourse(d)) == Select(s, ByCourse(d))
    ensures d != c ==> EnrolledCount(Remove(s, ByCourse(c)), d) == EnrolledCount(s, d)
  {
    if d != c {
      RemoveKeepsOthers(s, ByCourse(c), ByCourse(d));
    }
  }

  /** Cascade of a deleted student: none of their rows remain, and every
      other student keeps their rows (contents and order). */
  lemma StudentCascade(s: seq<Enrollment>, st: StudentId, other: StudentId)
    ensures Select(Remove(s, ByStudent(st)), ByStudent(st)) == []
    ensures other != st ==> Select(Remove(s, ByStudent(st)), ByStudent(other)) == Select(s, ByStudent(other))
  {
    SelectRemoveCommute(s, ByStudent(st), ByStudent(st));
    RemoveEverything(Select(s, ByStudent(st)), ByStudent(st));
    if other != st {
      RemoveKeepsOthers(s, ByStudent(st), ByStudent(other));
    }
  }

  /** The test-suite scenario: saving a second row for a pair is refused. */
  lemma DuplicateSaveRejected(s: seq<Enrollment>, e: Enrollment)
    requires e !in s
    ensures Create(s, e).Saved?
    ensures Create(Create(s, e).rows, e) == IntegrityError
  {
  }
}
