/**
 * The records of the UniFlow store (types.ts). Identifiers, names and codes are
 * strings; every timestamp and class date, which the application stores as a
 * date string and compares through its millisecond value, is an integer here.
 */
module Types {
  import opened Wrappers

  datatype Role = Admin | Student

  datatype Status = Scheduled | Cancelled | Completed

  datatype User = User(
    id: string,
    name: string,
    email: string,
    avatar: Option<string>,
    institution: Option<string>,
    major: Option<string>,
    semester: Option<string>)

  datatype Course = Course(
    id: string,
    name: string,
    subject: string,
    description: string,
    code: string,
    creatorId: string,
    createdAt: int)

  /** The record that gives a user a role in a course; identified by (courseId, userId). */
  datatype Membership = Membership(courseId: string, userId: string, role: Role, joinedAt: int)

  datatype ClassSession = ClassSession(
    id: string,
    courseId: string,
    date: int,
    time: string,
    location: string,
    topic: string,
    notes: Option<string>,
    status: Status)

  datatype Announcement = Announcement(
    id: string,
    courseId: string,
    authorId: string,
    content: string,
    createdAt: int,
    isPinned: bool)

  datatype Observation = Observation(
    id: string,
    courseId: string,
    studentId: string,
    authorId: string,
    content: string,
    createdAt: int)

  /** A course as listed for one user, with that user's role in it. */
  datatype CourseWithRole = CourseWithRole(course: Course, myRole: Role)

  /** A member of a course: the user record and the role of the membership. */
  datatype Member = Member(user: User, role: Role)

  /** An announcement as shown in a course feed, with its author's display name. */
  datatype AnnouncementView = AnnouncementView(item: Announcement, authorName: string)

  /**
   * A partial user record, as merged by a profile update. A field that is None is
   * not supplied. For the optional fields, Some(None) is a field supplied with the
   * value `undefined`, which clears it.
   */
  datatype UserPatch = UserPatch(
    id: Option<string>,
    name: Option<string>,
    email: Option<string>,
    avatar: Option<Option<string>>,
    institution: Option<Option<string>>,
    major: Option<Option<string>>,
    semester: Option<Option<string>>)

  /** The fields a caller gives when creating a course. */
  datatype CourseDraft = CourseDraft(name: string, subject: string, description: string)

  /** A class session without its id. */
  datatype ClassDraft = ClassDraft(
    courseId: string,
    date: int,
    time: string,
    location: string,
    topic: string,
    notes: Option<string>,
    status: Status)

  /** An announcement without its id. */
  datatype AnnouncementDraft = AnnouncementDraft(
    courseId: string,
    authorId: string,
    content: string,
    createdAt: int,
    isPinned: bool)

  /** An observation without its id and creation time. */
  datatype ObservationDraft = ObservationDraft(
    courseId: string,
    studentId: string,
    authorId: string,
    content: string)
}
