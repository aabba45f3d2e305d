/** POST /api/course-management/create-course: a teacher creates a course
    in a school, stored under the composite id `school_id + "_" + code`. */
module CreateCourse {
  import opened Store
  import opened Http

  /** The request body. `userRole` is compared as the string the client sent. */
  datatype Request = Request(userId: string, userRole: string, schoolId: string, code: string, name: string)

  /** The name of the teacher value of the schema's role enumeration. */
  const TeacherRole := "TEACHER"

  /** The composite course id: the school id, an underscore, the code. */
  function CourseId(schoolId: string, code: string): (id: string)
    ensures |id| == |schoolId| + 1 + |code|
    ensures id[..|schoolId|] == schoolId && id[|schoolId|] == '_' && id[|schoolId| + 1..] == code
  {
    schoolId + "_" + code
  }

  /** The row the handler creates for a request. */
  function NewCourse(req: Request): Course
  {
    Course(req.code, req.name, req.userId, req.schoolId)
  }

  /** What the handler answers and the course table it leaves. The user table
      is never read or written. */
  function Outcome(courses: map<string, Course>, req: Request): (Response, map<string, Course>)
  {
    if req.userRole != TeacherRole then
      (Response(403, Error(NoPermission)), courses)
    else
      var id := CourseId(req.schoolId, req.code);
      if id in courses then
        (Response(409, Error(CourseAlreadyExists)), courses)
      else
        (Response(200, CourseCreated(id, NewCourse(req))), courses[id := NewCourse(req)])
  }

  /** The handler: role gate, duplicate lookup, insert. */
  method Post(db: Database, req: Request) returns (resp: Response)
    requires db.Valid()
    modifies db
    ensures db.Valid()
    ensures (resp, db.courses) == Outcome(old(db.courses), req)
    ensures db.users == old(db.users)
  {
    if req.userRole != TeacherRole {
      return Response(403, Error(NoPermission));
    }
    var courseId := CourseId(req.schoolId, req.code);
    var duplicateCourse := db.FindCourse(courseId);
    if duplicateCourse.Some? {
      return Response(409, Error(CourseAlreadyExists));
    }
    var courseToCreate := db.CreateCourse(CourseId(req.schoolId, req.code),
                                          Course(req.code, req.name, req.userId, req.schoolId));
    return Response(200, CourseCreated(courseId, courseToCreate));
  }

  /** A caller whose stated role is not TEACHER gets 403; the answer does not
      depend on the course table, and the table is left as it was. */
  lemma NonTeacherForbidden(courses: map<string, Course>, req: Request)
    requires req.userRole != TeacherRole
    ensures Outcome(courses, req) == (Response(403, Error(NoPermission)), courses)
  {
  }

  /** A request whose composite id is taken gets 409 and the table is left as
      it was. */
  lemma DuplicateRejected(courses: map<string, Course>, req: Request)
    requires req.userRole == TeacherRole
    requires CourseId(req.schoolId, req.code) in courses
    ensures Outcome(courses, req) == (Response(409, Error(CourseAlreadyExists)), courses)
  {
  }

  /** A teacher's request with a fresh id gets 200; the table gains exactly one
      row, at that id, holding the request's code, name, user id and school id,
      and the response carries that row. */
  lemma CreatesExactlyOne(courses: map<string, Course>, req: Request)
    requires req.userRole == TeacherRole
    requires CourseId(req.schoolId, req.code) !in courses
    ensures var id, (resp, after) := CourseId(req.schoolId, req.code), Outcome(courses, req);
      && resp == Response(200, CourseCreated(id, after[id]))
      && after.Keys == courses.Keys + {id}
      && after[id] == Course(req.code, req.name, req.userId, req.schoolId)
      && forall k :: k in courses ==> after[k] == courses[k]
  {
  }

  /** The request succeeds exactly when the stated role is TEACHER and the id
      is free. */
  lemma SucceedsIff(courses: map<string, Course>, req: Request)
    ensures Outcome(courses, req).0.status == 200 <==>
      req.userRole == TeacherRole && CourseId(req.schoolId, req.code) !in courses
  {
  }

  /** Sending a successful request again gets 409 and changes nothing. */
  lemma RepeatConflicts(courses: map<string, Course>, req: Request)
    requires Outcome(courses, req).0.status == 200
    ensures var after := Outcome(courses, req).1;
      Outcome(after, req) == (Response(409, Error(CourseAlreadyExists)), after)
  {
  }

  /** Within schools whose ids hold no underscore, the composite id determines
      the school id and the code. */
  lemma CourseIdInjective(school1: string, code1: string, school2: string, code2: string)
    requires '_' !in school1 && '_' !in school2
    requires CourseId(school1, code1) == CourseId(school2, code2)
    ensures school1 == school2 && code1 == code2
  {
  }

  /** Without that restriction the id is not injective: school "a_b" with code
      "c" and school "a" with code "b_c" share the id "a_b_c". */
  lemma CourseIdCollision()
    ensures CourseId("a_b", "c") == CourseId("a", "b_c") == "a_b_c"
  {
  }

  /** So once school "a_b" has course "c", a teacher creating course "b_c" in
      school "a" gets 409 and the table is left as it was. */
  lemma CollidingCreateRejected(courses: map<string, Course>, user1: string, user2: string, name1: string, name2: string)
    requires CourseId("a_b", "c") !in courses
    ensures var first := Request(user1, TeacherRole, "a_b", "c", name1);
      var second := Request(user2, TeacherRole, "a", "b_c", name2);
      var afterFirst := Outcome(courses, first).1;
      && Outcome(courses, first).0.status == 200
      && Outcome(afterFirst, second) == (Response(409, Error(CourseAlreadyExists)), afterFirst)
  {
    CourseIdCollision();
  }
}
