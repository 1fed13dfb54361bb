# Course enrollment store — a verified model

This project models the core of a course-enrollment web application. Students
enroll in courses and drop them, subject to each course's capacity. Staff
delete courses. A student can list the courses they are enrolled in.

Two Dafny modules follow the two core source files:

- `Models` (`models.dfy`) models `enrollment/models.py`. It holds the course
  record, the enrollment table, the `unique_student_course_enrollment`
  constraint, `enrolled_count` and `seats_remaining`, and the ORM operations
  the views use. Those operations are a `filter()` by course, by student or
  by both; `filter().delete()` and the cascades; `create`; and
  `get_or_create`. All of these are pure functions.
- `Views` (`views.dfy`) models `enrollment/views.py`.
  - Pure step functions specify the POST branch of `course_detail`:
    `EnrollStep`, `UnenrollStep` and `CourseDetailPostStep`.
  - The class `EnrollmentStore` holds the course table and the enrollment
    table. Its methods `Enroll`, `Unenroll`, `CourseDetailPost`,
    `DeleteCourse` and `DeleteStudent` change them in place. Each method's
    postcondition ties its outcome and its new state to the step function,
    or to the cascade, applied to the old state.
  - `MyCourses` models `my_courses`.

The enrollment table is a sequence of `(student, course)` rows in insertion
order. A row's position stands for its `enrolled_at` timestamp. The store
invariant `Valid()` states the database's two constraints:

- Uniqueness: no pair occurs twice, so the sequence is a set of pairs with
  an order on it.
- A foreign key: every enrollment references an existing course.

The order is only needed for `my_courses`. That view lists courses newest
enrollment first, because the enrollment table's default ordering is by
descending `enrolled_at`.

## Capacity 0

The two files disagree about what a capacity of 0 means. The model keeps
both definitions exactly as written:

- The enroll branch of `course_detail` (`enrollment/views.py:29`) skips the
  capacity check when the capacity is 0, because 0 is falsy. So 0 means
  "unlimited" (`Views.IsFull`).
- `seats_remaining` (`enrollment/models.py:26`) reports `max(0 - count, 0) = 0`
  seats for such a course (`Models.SeatsRemaining`).

`Views.ZeroCapacityAdmitsWithNoSeats` proves the clash. For a course of
capacity 0, every student not yet enrolled is admitted, yet the course
reports 0 seats remaining both before and after. A course created with
default values has capacity 0. `Views.DefaultCourseAcceptsEnrollment` shows
that the repository's own enrollment test depends on the "unlimited"
reading.

An enroll by an already-enrolled student falls through and renders the
detail page (`ShowPage` here); it is not reported as an error. The student
is always the logged-in account, so only a missing course yields
`NotFound`.

## Model

| member | source | states |
|---|---|---|
| `Models.NewCourse` | enrollment/models.py:5-11 | a new course's credits and capacity default to 0; both are non-negative by type |
| `Models.Unique` | enrollment/models.py:40-42 | the constraint itself: no (student, course) pair occurs twice in the table |
| `Models.Select` | enrollment/views.py:96 | a lookup returns exactly the matching rows; it is never longer than the table, and it is duplicate-free when the table is |
| `Models.FilterConcat` | enrollment/views.py:96 | a lookup or delete over a table split in two is the lookup over the first part followed by the lookup over the second, so the kept rows stay in table order |
| `Models.Remove` | enrollment/views.py:37 | a `filter().delete()` keeps exactly the non-matching rows, and it keeps uniqueness |
| `Models.EnrolledCount` | enrollment/models.py:20-22 | the count is at most the table's size, and it is 0 exactly when no row references the course |
| `Models.CountIsNumberOfPairs` | enrollment/models.py:21-22 | under uniqueness, the count equals the number of distinct pairs that reference the course |
| `Models.SeatsRemaining` | enrollment/models.py:24-26 | seats remaining are at most the capacity; they are 0 exactly when the count has reached the capacity; otherwise seats plus count equal the capacity |
| `Models.Create` | enrollment/models.py:38-42 | saving a row fails with an integrity error exactly when the pair already exists; otherwise it appends the row and keeps uniqueness |
| `Models.DuplicateSaveRejected` | enrollment/tests.py:21-25 | saving a new pair succeeds once; saving the same pair again is rejected |
| `Models.GetOrCreate` | enrollment/views.py:32 | `get_or_create` leaves the pair present, adds nothing else, extends the table by at most that one row at the end, and never breaks uniqueness |
| `Models.PairOccursOnce` | enrollment/models.py:40-42 | under the constraint, a present pair has exactly one row |
| `Models.CountAfterCreate` | enrollment/views.py:32 | a new row raises the count of its own course by one and no other course's count |
| `Models.CountAfterRemovePair` | enrollment/views.py:37 | deleting a present pair removes exactly one row and lowers its course's count by one |
| `Models.RemovePairKeepsOtherCourses` | enrollment/views.py:37 | deleting a pair leaves every other course's rows unchanged, contents and order |
| `Models.RemoveKeepsOthers` | enrollment/models.py:30-35 | removing the rows of one lookup leaves the rows of any disjoint lookup unchanged |
| `Models.CourseCascade` | enrollment/models.py:35 | after a course is deleted, none of its enrollments remain; every other course keeps its rows and its count |
| `Models.StudentCascade` | enrollment/models.py:30-34 | after a student is deleted, none of their enrollments remain; every other student keeps their rows |
| `Views.IsEnrolled` | enrollment/views.py:21 | the `is_enrolled` flag holds exactly when the filter by student and course returns a row |
| `Views.IsFull` | enrollment/views.py:29 | the enroll branch's capacity check holds exactly when the capacity is non-zero and `seats_remaining` is 0; for capacity 0 it never holds |
| `Views.EnrollStep` | enrollment/views.py:28-34 | enroll on a missing course is `NotFound`; an enrolled student changes nothing; the result is "full" exactly when the capacity is non-zero and the count is at least the capacity, and then nothing changes; otherwise exactly the one pair is appended; uniqueness is kept |
| `Views.UnenrollStep` | enrollment/views.py:36-39 | unenroll succeeds exactly when the pair is present; the resulting rows are the old ones without that pair; otherwise nothing changes |
| `Views.CourseDetailPostStep` | enrollment/views.py:17-39 | a missing course gives `NotFound`; an anonymous request gives the login redirect; neither changes anything, nor does an unknown action; no pair other than the requester's own pair with this course changes; uniqueness is kept |
| `Views.EnrollCounts` | enrollment/views.py:32 | a successful enroll raises the course's count by one; other courses' rows are unchanged |
| `Views.EnrollKeepsCeiling` | enrollment/views.py:29-33 | with a non-zero capacity and a count within it, the count after an enroll is still within it |
| `Views.ZeroCapacityAdmitsWithNoSeats` | enrollment/views.py:29-32 | with capacity 0, a student not yet enrolled is always admitted and the count grows, while seats remaining are 0 before and after |
| `Views.DefaultCourseAcceptsEnrollment` | enrollment/tests.py:10-19 | a course created with defaults admits a first student, leaving exactly that student's row |
| `Views.EnrollIdempotent` | enrollment/views.py:28-34 | a second enroll of the same pair changes nothing; after a successful first enroll it only shows the page |
| `Views.UnenrollCounts` | enrollment/views.py:36-37 | unenrolling an enrolled student removes exactly one row and lowers the count by one; other courses' rows are unchanged |
| `Views.UnenrollThenEnroll` | enrollment/views.py:28-37 | drop followed by enroll succeeds, and it leaves exactly one row for the pair |
| `Views.AdmitNewStudent` | enrollment/views.py:29-33 | a student not yet enrolled in a course that is not full is admitted, with exactly their row appended, and the count grows by one |
| `Views.FillToCapacity` | enrollment/views.py:28-33 | enrolling distinct new students, up to a non-zero capacity or any number under capacity 0, admits each of them in turn and adds exactly their rows |
| `Views.FullAfterCapacity` | enrollment/views.py:29-30 | once capacity-many distinct students are enrolled, the next new student is refused as full and nothing changes |
| `Views.MyCourseIds` | enrollment/views.py:96-97 | the list has one course per enrollment of the student, and it holds exactly the courses the student is enrolled in |
| `Views.MyCourseIdsOrder` | enrollment/models.py:39 | the k-th listed course is that of the k-th newest row returned by the filter by student, i.e. newest enrollment first |
| `Views.MyCourseIdsDistinct` | enrollment/views.py:96-97 | under uniqueness, no course is listed twice |
| `Views.MyCourses` | enrollment/views.py:94-98 | one course record per listed course id, in the order of `MyCourseIds`; every enrolled course's record is listed |
| `Views.EnrollmentStore.Valid` | enrollment/models.py:30-42 | the store invariant: no pair twice, and every enrollment references an existing course |
| `Views.EnrollmentStore.constructor` | enrollment/models.py:29-42 | a store over a catalogue of courses starts with no enrollments and satisfies `Valid()` |
| `Views.EnrollmentStore.Enroll` | enrollment/views.py:28-34 | outcome and new table are those of `EnrollStep` on the old state; the courses are unchanged; `Valid()` is kept |
| `Views.EnrollmentStore.Unenroll` | enrollment/views.py:36-39 | outcome and new table are those of `UnenrollStep` on the old state; the courses are unchanged; `Valid()` is kept |
| `Views.EnrollmentStore.CourseDetailPost` | enrollment/views.py:17-39 | outcome and new table are those of `CourseDetailPostStep` on the old state; `Valid()` is kept |
| `Views.EnrollmentStore.DeleteCourse` | enrollment/views.py:81-90 | an anonymous request is redirected to login; a non-staff account is forbidden; a staff account on a missing course gets `NotFound`; a staff account on an existing course deletes it and, by cascade, exactly its enrollments; every other outcome changes nothing |
| `Views.EnrollmentStore.DeleteStudent` | enrollment/models.py:30-34 | deleting a student removes exactly that student's enrollments; the courses are unchanged; `Valid()` is kept |

## Left out

- Rendering, flash messages, redirects and the GET paths of `course_detail`
  and `course_delete` are presentation. They are reduced to the `Outcome`
  value or not modelled.
- `course_list`, `course_create` and `course_edit` are left out. The form
  that `course_create` and `course_edit` use lists columns that the `Course`
  model no longer has. Neither view touches enrollments.
- `signup`, the sign-up form, login, the admin screens and the URL routing
  are left out. Authentication is external: a request carries an
  `Option<User>`.
- `my_courses` is behind `login_required`. `Views.MyCourses` takes the
  logged-in student and does not model the redirect of an anonymous
  request.
- Deleting a student account is done by the authentication system, outside
  these views. `DeleteStudent` models only its cascade onto enrollments.
- The views filter on `user=` while the model field is `student`. The model
  uses one opaque student id for both.
- Concurrency is left out. Operations run one at a time, so the race between
  the count check and the insert in the enroll branch is not modelled.
- Timestamps are left out. `enrolled_at` becomes the row's position. Two
  rows with equal timestamps are not modelled. `created_at` is unused.
- The `__str__` methods and the `Enrollment.user` alias are left out.
- Migrations and seed data are left out.
- The capacity ceiling is a per-step guarantee (`EnrollKeepsCeiling`), not
  a store invariant. Capacity 0 means unlimited, and an edit to a course
  could lower its capacity below its count.
