/** The JSON responses the handlers return: a status code and a body. */
module Http {
  import opened Store

  datatype Payload =
    | Error(error: string)
    | AddedUsers(addedUsers: seq<string>)
    | CourseCreated(id: string, course: Course)
    | Deleted(email: string)

  datatype Response = Response(status: int, payload: Payload)

  const NotAValidUser := "Not a valid user."
  const NoPermission := "You do not have the permission to make this request."
  const InvalidCourseId := "Invalid course ID."
  const CourseAlreadyExists := "Course already exists."

  /** The error of add-to-course for an email no user has. */
  function UnknownUser(email: string): string
  {
    "User with email: " + email + " does not exist."
  }
}
