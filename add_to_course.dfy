/** POST /api/course-management/add-to-course: a teacher enrols a list of
    users, given by email, into an existing course. */
module AddToCourse {
  import opened Store
  import opened Http

  datatype Request = Request(requestorEmail: string, courseId: string, emailsToAdd: seq<string>)

  /** The user table once every user whose email is in `emails` has joined
      `courseId`; nobody else changes. */
  function Enrolled(users: map<string, User>, courseId: string, emails: seq<string>): (r: map<string, User>)
    ensures r.Keys == users.Keys
  {
    map k | k in users :: if k in emails then Connect(users[k], courseId) else users[k]
  }

  /** The index of the first email that no user has, if there is one. */
  function FirstUnknown(users: map<string, User>, emails: seq<string>): (r: Option<nat>)
    ensures r.Some? ==> r.value < |emails| && emails[r.value] !in users
    ensures forall j :: 0 <= j < |emails| && (r.None? || j < r.value) ==> emails[j] in users
  {
    if |emails| == 0 then None
    else if emails[0] !in users then Some(0)
    else match FirstUnknown(users, emails[1..])
      case None => None
      case Some(i) => Some(i + 1)
  }

  /** What the handler answers and the user table it leaves. The course
      table is never written. */
  function Outcome(users: map<string, User>, courses: map<string, Course>, req: Request): (Response, map<string, User>)
  {
    if req.requestorEmail !in users then
      (Response(404, Error(NotAValidUser)), users)
    else if users[req.requestorEmail].role != Teacher then
      (Response(403, Error(NoPermission)), users)
    else if req.courseId !in courses then
      (Response(404, Error(InvalidCourseId)), users)
    else match FirstUnknown(users, req.emailsToAdd)
      case Some(i) =>
        (Response(404, Error(UnknownUser(req.emailsToAdd[i]))),
         Enrolled(users, req.courseId, req.emailsToAdd[..i]))
      case None =>
        (Response(200, AddedUsers(req.emailsToAdd)), Enrolled(users, req.courseId, req.emailsToAdd))
  }

  /** Enrolling one more known email extends the enrolled table by one
      connect on that user's current row. */
  lemma EnrolledStep(users: map<string, User>, courseId: string, emails: seq<string>, i: nat)
    requires i < |emails| && emails[i] in users
    ensures Enrolled(users, courseId, emails[..i + 1])
         == Enrolled(users, courseId, emails[..i])[emails[i] := Connect(Enrolled(users, courseId, emails[..i])[emails[i]], courseId)]
  {
  }

  /** The handler. It looks up the requestor, checks the role, looks up the
      course, then connects the listed users one by one; on the first unknown
      email it stops, keeping the connects already made. */
  method Post(db: Database, req: Request) returns (resp: Response)
    requires db.Valid()
    modifies db
    ensures db.Valid()
    ensures (resp, db.users) == Outcome(old(db.users), old(db.courses), req)
    ensures db.courses == old(db.courses)
  {
    var requestor := db.FindUser(req.requestorEmail);
    if requestor.None? {
      return Response(404, Error(NotAValidUser));
    } else if requestor.value.role != Teacher {
      return Response(403, Error(NoPermission));
    }
    var course := db.FindCourse(req.courseId);
    if course.None? {
      return Response(404, Error(InvalidCourseId));
    }
    ghost var users0 := db.users;
    var emails := req.emailsToAdd;
    var addedUsers: seq<string> := [];
    for i := 0 to |emails|
      invariant db.Valid()
      invariant db.courses == old(db.courses)
      invariant addedUsers == emails[..i]
      invariant forall j :: 0 <= j < i ==> emails[j] in users0
      invariant db.users == Enrolled(users0, req.courseId, emails[..i])
    {
      var email := emails[i];
      var user := db.FindUser(email);
      if user.None? {
        return Response(404, Error(UnknownUser(email)));
      }
      EnrolledStep(users0, req.courseId, emails, i);
      var added := db.ConnectCourse(email, req.courseId);
      addedUsers := addedUsers + [added.email];
    }
    assert emails[..|emails|] == emails;
    return Response(200, AddedUsers(addedUsers));
  }

  /** An unknown requestor gets 404 and nothing changes. */
  lemma UnknownRequestorRejected(users: map<string, User>, courses: map<string, Course>, req: Request)
    requires req.requestorEmail !in users
    ensures Outcome(users, courses, req) == (Response(404, Error(NotAValidUser)), users)
  {
  }

  /** A requestor who is not a teacher gets 403 and nothing changes, whatever
      the course table, the course id and the email list: the course is never
      looked up. */
  lemma NonTeacherRejected(users: map<string, User>, courses: map<string, Course>, req: Request)
    requires req.requestorEmail in users && users[req.requestorEmail].role != Teacher
    ensures Outcome(users, courses, req) == (Response(403, Error(NoPermission)), users)
  {
  }

  /** A teacher naming a course id that is not in the table gets 404 and
      nothing changes, whatever the email list. */
  lemma UnknownCourseRejected(users: map<string, User>, courses: map<string, Course>, req: Request)
    requires req.requestorEmail in users && users[req.requestorEmail].role == Teacher
    requires req.courseId !in courses
    ensures Outcome(users, courses, req) == (Response(404, Error(InvalidCourseId)), users)
  {
  }

  /** The request succeeds exactly when the requestor is a teacher, the course
      exists and every listed email belongs to a user. */
  lemma SucceedsIff(users: map<string, User>, courses: map<string, Course>, req: Request)
    ensures Outcome(users, courses, req).0.status == 200 <==>
      && req.requestorEmail in users
      && users[req.requestorEmail].role == Teacher
      && req.courseId in courses
      && forall j :: 0 <= j < |req.emailsToAdd| ==> req.emailsToAdd[j] in users
  {
  }

  /** On success every listed user has joined the course, and `addedUsers`
      is the request's list, in order and with its duplicates. */
  lemma SuccessEnrolsAll(users: map<string, User>, courses: map<string, Course>, req: Request)
    requires Outcome(users, courses, req).0.status == 200
    ensures Outcome(users, courses, req).0.payload == AddedUsers(req.emailsToAdd)
    ensures forall e :: e in req.emailsToAdd ==>
      e in Outcome(users, courses, req).1 && req.courseId in Outcome(users, courses, req).1[e].joinedCourses
  {
  }

  /** An empty list succeeds with an empty `addedUsers` and changes nothing. */
  lemma EmptyListSucceeds(users: map<string, User>, courses: map<string, Course>, req: Request)
    requires req.requestorEmail in users && users[req.requestorEmail].role == Teacher
    requires req.courseId in courses && req.emailsToAdd == []
    ensures Outcome(users, courses, req) == (Response(200, AddedUsers([])), users)
  {
    var enrolled := Enrolled(users, req.courseId, req.emailsToAdd);
    assert forall k :: k in users ==> enrolled[k] == users[k];
    assert enrolled == users;
  }

  /** If the first unknown email is at index `i`, the answer is 404 naming it;
      the emails before `i` have joined the course, and every user not listed
      before `i` (the ones from `i` on included) is untouched. */
  lemma FirstUnknownStops(users: map<string, User>, courses: map<string, Course>, req: Request, i: nat)
    requires req.requestorEmail in users && users[req.requestorEmail].role == Teacher
    requires req.courseId in courses
    requires i < |req.emailsToAdd| && req.emailsToAdd[i] !in users
    requires forall j :: 0 <= j < i ==> req.emailsToAdd[j] in users
    ensures Outcome(users, courses, req).0 == Response(404, Error(UnknownUser(req.emailsToAdd[i])))
    ensures forall j :: 0 <= j < i ==> req.courseId in Outcome(users, courses, req).1[req.emailsToAdd[j]].joinedCourses
    ensures forall k :: k in users && k !in req.emailsToAdd[..i] ==> Outcome(users, courses, req).1[k] == users[k]
  {
  }

  /** Enrolment only adds the course to the listed users' joined courses: no
      key, email or role changes, unlisted users keep their rows, and a listed
      user who had already joined keeps the same row. */
  lemma EnrolmentFrame(users: map<string, User>, courseId: string, emails: seq<string>)
    ensures Enrolled(users, courseId, emails).Keys == users.Keys
    ensures forall k :: k in users ==>
      && Enrolled(users, courseId, emails)[k].email == users[k].email
      && Enrolled(users, courseId, emails)[k].role == users[k].role
      && Enrolled(users, courseId, emails)[k].joinedCourses
         == (if k in emails then users[k].joinedCourses + {courseId} else users[k].joinedCourses)
    ensures forall k :: k in users && courseId in users[k].joinedCourses ==> Enrolled(users, courseId, emails)[k] == users[k]
  {
  }

  /** Enrolment keeps the table keyed by email. */
  lemma EnrolledKeyedByEmail(users: map<string, User>, courseId: string, emails: seq<string>)
    requires KeyedByEmail(users)
    ensures KeyedByEmail(Enrolled(users, courseId, emails))
  {
  }

  /** There is no creator or school check: the outcome depends only on which
      course ids exist, so any teacher may enrol users into any course. */
  lemma AnyTeacherMayEnrol(users: map<string, User>, courses1: map<string, Course>, courses2: map<string, Course>, req: Request)
    requires courses1.Keys == courses2.Keys
    ensures Outcome(users, courses1, req) == Outcome(users, courses2, req)
  {
  }
}
