# Course-management route handlers

This project models the decision logic of three HTTP route handlers in a
course-management web application:

- **add-to-course** (`POST`): a teacher enrols a list of users, given by
  email, into an existing course;
- **create-course** (`POST`): a teacher creates a course under the composite
  id `school_id + "_" + code`;
- **delete-row** (`DELETE`): a user, given by email, is removed.

The ORM client is replaced by an in-memory store, the class
`Store.Database`. It has two fields that the handlers update in place:
`users` maps an email to `User(email, role, joinedCourses)`, and `courses`
maps a course id to `Course(code, name, creatorId, schoolId)`. The ORM calls
become the store's methods:

- `findUnique` is a map lookup (`FindUser`, `FindCourse`);
- `update … connect` adds the course id to the user's `joinedCourses` (`ConnectCourse`);
- `create` inserts into the map (`CreateCourse`);
- `delete` removes from the map (`DeleteUser`).

`Database.Valid()` says that every user row is stored under its own email.

Each handler is a method that returns `Response(status, payload)` and
changes the store. Each method is proved equal to a specification function
`Outcome`, which gives the response and the new table from the old tables
and the request. The lemmas beside each `Outcome` state the status/effect
mapping, the frame ("nothing else changes") and the properties that link
several calls.

Files: `store.dfy` (module `Store`), `http.dfy` (module `Http`: responses and
their fixed messages), `add_to_course.dfy`, `create_course.dfy` and
`delete_row.dfy` (one module per route file).

## Model

| member | source | states |
|---|---|---|
| `Store.Connect` | src/app/api/course-management/add-to-course/route.ts:79-90 | the connected row has joined the course; its email and role are kept, and so is every other course it had joined |
| `Store.ConnectIdempotent` | src/app/api/course-management/add-to-course/route.ts:79-90 | connecting a course the user has already joined writes the same row |
| `Store.Database.constructor` | src/app/api/course-management/add-to-course/route.ts:28-32 | a store over tables keyed by email is valid and holds exactly those tables |
| `Store.Database.FindUser` | src/app/api/course-management/add-to-course/route.ts:28-32 | the lookup finds a row exactly when the email is a key, and the row it returns is that key's row, carrying that email |
| `Store.Database.FindCourse` | src/app/api/course-management/add-to-course/route.ts:48-52 | the lookup finds a row exactly when the id is a key, and the row it returns is that key's row |
| `Store.Database.ConnectCourse` | src/app/api/course-management/add-to-course/route.ts:79-90 | only that user's row changes, to its connected row; the course table is unchanged; the returned row is the new row and has that email |
| `Store.Database.CreateCourse` | src/app/api/course-management/create-course/route.ts:109-117 | the course table gains the row at the fresh id; the user table is unchanged; the created row is returned |
| `Store.Database.DeleteUser` | src/app/api/user-management/delete-row/route.ts:66-71 | the user table loses exactly that key; the course table is unchanged; the deleted row is returned and has that email |
| `AddToCourse.Enrolled` | src/app/api/course-management/add-to-course/route.ts:64-95 | enrolling keeps the set of user keys |
| `AddToCourse.FirstUnknown` | src/app/api/course-management/add-to-course/route.ts:64-77 | it returns the index of an email that no user has, and every email before that index (every email, if none is returned) belongs to a user |
| `AddToCourse.EnrolledStep` | src/app/api/course-management/add-to-course/route.ts:64-95 | one more loop iteration connects one more known email on that user's current row, duplicates included |
| `AddToCourse.Post` | src/app/api/course-management/add-to-course/route.ts:20-101 | the response and the new user table are those of `Outcome`; the course table is unchanged; the store stays keyed by email |
| `AddToCourse.UnknownRequestorRejected` | src/app/api/course-management/add-to-course/route.ts:28-39 | an unknown requestor gets 404 "Not a valid user." and nothing changes |
| `AddToCourse.NonTeacherRejected` | src/app/api/course-management/add-to-course/route.ts:40-46 | a requestor who is not a teacher gets 403 with the permission message and nothing changes, whatever the course table, course id and emails |
| `AddToCourse.UnknownCourseRejected` | src/app/api/course-management/add-to-course/route.ts:48-60 | a teacher naming an absent course id gets 404 "Invalid course ID." and nothing changes |
| `AddToCourse.SucceedsIff` | src/app/api/course-management/add-to-course/route.ts:28-101 | the status is 200 if and only if the requestor is a teacher, the course exists and every listed email belongs to a user |
| `AddToCourse.SuccessEnrolsAll` | src/app/api/course-management/add-to-course/route.ts:62-101 | on 200, `addedUsers` is the request's list in order with duplicates, and every listed user has joined the course |
| `AddToCourse.EmptyListSucceeds` | src/__tests__/api/course-management/add-to-course/route.test.ts:85-129 | a teacher, an existing course and an empty list give 200 with `[]` and no change |
| `AddToCourse.FirstUnknownStops` | src/app/api/course-management/add-to-course/route.ts:64-77 | if the first unknown email is at index i, the answer is 404 naming it; the emails before i have joined; every user not listed before i keeps its row |
| `AddToCourse.EnrolmentFrame` | src/app/api/course-management/add-to-course/route.ts:79-90 | enrolment keeps the keys, emails and roles; listed users gain exactly the course, unlisted users keep their courses, and a user who had already joined keeps the same row |
| `AddToCourse.EnrolledKeyedByEmail` | src/app/api/course-management/add-to-course/route.ts:79-90 | enrolment keeps every row under its own email |
| `AddToCourse.AnyTeacherMayEnrol` | src/app/api/course-management/add-to-course/route.ts:40-60 | the outcome depends only on which course ids exist, not on a course's creator or school |
| `CreateCourse.CourseId` | src/app/api/course-management/create-course/route.ts:93 | the id is the school id, then one underscore, then the code |
| `CreateCourse.Post` | src/app/api/course-management/create-course/route.ts:74-123 | the response and the new course table are those of `Outcome`; the user table is unchanged |
| `CreateCourse.NonTeacherForbidden` | src/app/api/course-management/create-course/route.ts:85-91 | a stated role other than TEACHER gets 403 with the permission message, whatever the course table, and nothing changes |
| `CreateCourse.DuplicateRejected` | src/app/api/course-management/create-course/route.ts:95-107 | a teacher's request whose id is taken gets 409 "Course already exists." and nothing changes |
| `CreateCourse.CreatesExactlyOne` | src/app/api/course-management/create-course/route.ts:109-123 | a teacher's request with a free id gets 200 carrying the new row; the table gains exactly that id, holding code, name, creator = user id and school id; all other rows are kept |
| `CreateCourse.SucceedsIff` | src/app/api/course-management/create-course/route.ts:85-123 | the status is 200 if and only if the stated role is TEACHER and the id is free |
| `CreateCourse.RepeatConflicts` | src/app/api/course-management/create-course/route.ts:95-117 | sending a successful request again gets 409 and changes nothing |
| `CreateCourse.CourseIdInjective` | src/app/api/course-management/create-course/route.ts:93 | when neither school id holds an underscore, equal ids mean equal school ids and equal codes |
| `CreateCourse.CourseIdCollision` | src/app/api/course-management/create-course/route.ts:93 | ("a_b", "c") and ("a", "b_c") both give the id "a_b_c" |
| `CreateCourse.CollidingCreateRejected` | src/app/api/course-management/create-course/route.ts:93-107 | once school "a_b" has course "c", creating course "b_c" in school "a" gets 409 and changes nothing |
| `DeleteRow.Delete` | src/app/api/user-management/delete-row/route.ts:46-79 | the response and the new user table are those of `Outcome`; the course table is unchanged; the store stays keyed by email |
| `DeleteRow.UnknownEmailNotFound` | src/app/api/user-management/delete-row/route.ts:52-64 | an email no user has gets 404 "Not a valid user." and nothing changes |
| `DeleteRow.ExistingUserDeleted` | src/app/api/user-management/delete-row/route.ts:66-79 | an existing user is removed whatever its role, the response is 200 echoing that email, and every other user keeps its row |
| `DeleteRow.DeleteTwice` | src/app/api/user-management/delete-row/route.ts:58-71 | deleting the same email twice gets 200 and then 404, and the second call changes nothing |
| `DeleteRow.NoCaseFolding` | src/app/api/user-management/delete-row/route.ts:52-56 | the lookup is by the exact string: "alice@x.com" does not find "Alice@x.com" |

## Left out

- Request parsing (`req.json()`) and `NextResponse` construction: requests are datatypes and responses a `Response(status, payload)` datatype.
- The exception path that answers 500 with the error's message: it depends on faults of the ORM and the network, which the model does not have.
- Store.Database.ConnectCourse, Store.Database.DeleteUser: the ORM throws when the row is missing. The model makes this a precondition, which the handlers always meet because they look the row up first.
- Store.Database.CreateCourse: the ORM throws on a duplicate id. The model makes this a precondition, which create-course meets through its duplicate check.
- The guard `added !== null && added.email !== null` in add-to-course: the updated row always exists and carries the email it was looked up by, so the model pushes it unconditionally.
- Races between concurrent requests, such as another request creating the same course between create-course's duplicate check and its insert: the model is sequential.
- ORM behaviour that these files do not show: cascades and relation bookkeeping on delete (a deleted user's course links), the reverse side of the user–course relation, and schema constraints.
- User fields that the handlers never read (id, password, school) and the school table.
- The forgot-password route, the registration form and the course layout: they call code that is not part of this model (token creation, mail sending, validation, sign-in) or are UI.
- The role in a create-course request is the string the client sent, compared with "TEACHER". The model does not restrict it to the schema's enumeration, because the JSON body is not validated.
