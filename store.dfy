/** The data the handlers read and write, and the in-memory table store that
    stands in for the ORM client: one map per table, keyed by the table's
    unique column (a user's email, a course's id). */
module Store {

  datatype Option<T> = None | Some(value: T)

  /** The user roles of the schema. */
  datatype Role = Student | Teacher

  /** A user row: its unique email, its role and the ids of the courses it
      has joined. */
  datatype User = User(email: string, role: Role, joinedCourses: set<string>)

  /** A course row, stored under its composite id. */
  datatype Course = Course(code: string, name: string, creatorId: string, schoolId: string)

  /** Every user row is stored under its own email, the table's unique key. */
  predicate KeyedByEmail(users: map<string, User>)
  {
    forall e :: e in users ==> users[e].email == e
  }

  /** The row `update … joined_courses: { connect: { id: courseId } }` writes. */
  function Connect(u: User, courseId: string): (r: User)
    ensures courseId in r.joinedCourses
    ensures r.email == u.email && r.role == u.role
    ensures forall c :: c != courseId ==> (c in r.joinedCourses <==> c in u.joinedCourses)
  {
    u.(joinedCourses := u.joinedCourses + {courseId})
  }

  /** Connecting a course the user has already joined writes the same row. */
  lemma ConnectIdempotent(u: User, courseId: string)
    requires courseId in u.joinedCourses
    ensures Connect(u, courseId) == u
  {
  }

  /** The user and course tables, updated in place by the handlers. */
  class Database {
    var users: map<string, User>
    var courses: map<string, Course>

    ghost predicate Valid()
      reads this
    {
      KeyedByEmail(users)
    }

    constructor (users: map<string, User>, courses: map<string, Course>)
      requires KeyedByEmail(users)
      ensures Valid()
      ensures this.users == users && this.courses == courses
    {
      this.users := users;
      this.courses := courses;
    }

    /** `user.findUnique({ where: { email } })`. */
    method FindUser(email: string) returns (u: Option<User>)
      requires Valid()
      ensures u.Some? <==> email in users
      ensures u.Some? ==> u.value == users[email] && u.value.email == email
    {
      if email in users {
        u := Some(users[email]);
      } else {
        u := None;
      }
    }

    /** `course.findUnique({ where: { id } })`. */
    method FindCourse(id: string) returns (c: Option<Course>)
      ensures c.Some? <==> id in courses
      ensures c.Some? ==> c.value == courses[id]
    {
      if id in courses {
        c := Some(courses[id]);
      } else {
        c := None;
      }
    }

    /** `user.update` connecting `courseId` to the user's joined courses; it
        returns the updated row. */
    method ConnectCourse(email: string, courseId: string) returns (updated: User)
      requires Valid()
      requires email in users
      modifies this
      ensures Valid()
      ensures users == old(users)[email := Connect(old(users)[email], courseId)]
      ensures courses == old(courses)
      ensures updated == users[email] && updated.email == email
    {
      users := users[email := Connect(users[email], courseId)];
      updated := users[email];
    }

    /** `course.create` of a row under a fresh id; it returns the created row. */
    method CreateCourse(id: string, course: Course) returns (created: Course)
      requires id !in courses
      modifies this
      ensures courses == old(courses)[id := course]
      ensures users == old(users)
      ensures created == course
    {
      courses := courses[id := course];
      created := course;
    }

    /** `user.delete({ where: { email } })`; it returns the deleted row. */
    method DeleteUser(email: string) returns (deleted: User)
      requires Valid()
      requires email in users
      modifies this
      ensures Valid()
      ensures users == old(users) - {email}
      ensures courses == old(courses)
      ensures deleted == old(users)[email] && deleted.email == email
    {
      deleted := users[email];
      users := users - {email};
    }
  }
}
