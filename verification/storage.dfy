/**
 * The UniFlow store (services/storage.ts): six collections, append-only except
 * that users are updated in place, and the current-session slot. The mutating
 * operations are methods that rewrite the collections they touch; the queries
 * are functions over the collections.
 * Generated ids and access codes, and the clock, are supplied by the caller.
 */
module Storage {
  import opened Wrappers
  import opened Types
  import opened StableSort
  import opened Queries

  /** The errors the store throws. */
  datatype Error = NameRequired | UserNotFound {
    function Message(): string {
      match this
      case NameRequired => "Nombre requerido para nuevos usuarios"
      case UserNotFound => "Usuario no encontrado"
    }
  }

  /** What `joinCourse` returns instead of throwing. */
  datatype JoinResult = JoinResult(success: bool, message: string, courseId: Option<string>)

  const InvalidCode := "Código inválido"
  const AlreadyMember := "Ya eres miembro de este curso"
  const Joined := "Te uniste correctamente"

  /** Everything the store holds at one moment. */
  datatype Snapshot = Snapshot(
    users: seq<User>,
    courses: seq<Course>,
    memberships: seq<Membership>,
    classes: seq<ClassSession>,
    announcements: seq<Announcement>,
    observations: seq<Observation>,
    session: Option<User>)

  class Store {
    var users: seq<User>
    var courses: seq<Course>
    var memberships: seq<Membership>
    var classes: seq<ClassSession>
    var announcements: seq<Announcement>
    var observations: seq<Observation>
    var session: Option<User>

    /** The session, when there is one, is a record stored in the users collection. */
    ghost predicate Valid()
      reads this
    {
      session.Some? ==> session.value in users
    }

    ghost function State(): Snapshot
      reads this
    {
      Snapshot(users, courses, memberships, classes, announcements, observations, session)
    }

    /** A first run: every collection is empty and nobody is logged in. */
    constructor ()
      ensures Valid()
      ensures State() == Snapshot([], [], [], [], [], [], None)
    {
      users, courses, memberships := [], [], [];
      classes, announcements, observations := [], [], [];
      session := None;
    }

    // --- Accounts and session ---

    function CheckEmailExists(email: string): (b: bool)
      reads this
      ensures b <==> exists i :: 0 <= i < |users| && users[i].email == email
    {
      UserByEmail(users, email).Some?
    }

    /**
     * Logs in the first user with this email, or registers a new one when a
     * non-empty name is given; with no name for an unknown email, throws.
     */
    method Login(email: string, name: Option<string>, freshId: string) returns (r: Result<User, Error>)
      requires Valid()
      modifies this
      ensures Valid()
      ensures match UserByEmail(old(users), email)
        case Some(u) =>
          r == Ok(u) && State() == old(State()).(session := Some(u))
        case None =>
          if name.None? || name.value == "" then
            r == Err(NameRequired) && State() == old(State())
          else
            && r == Ok(NewUser(freshId, name.value, email))
            && State() == old(State()).(users := old(users) + [r.value], session := Some(r.value))
      ensures r.Ok? ==> r.value.email == email && CheckEmailExists(email) && session == Some(r.value)
    {
      var found := UserByEmail(users, email);
      if found.None? {
        if name.None? || name.value == "" {
          return Err(NameRequired);
        }
        var user := NewUser(freshId, name.value, email);
        users := users + [user];
        assert users[|users| - 1] == user;
        session := Some(user);
        return Ok(user);
      }
      session := found;
      r := Ok(found.value);
    }

    /**
     * Merges the patch into the first user with this id and refreshes the session
     * when it holds that id; throws when no user has the id.
     */
    method UpdateUser(userId: string, patch: UserPatch) returns (r: Result<User, Error>)
      requires Valid()
      modifies this
      ensures Valid()
      ensures match UserIndex(old(users), userId)
        case None =>
          r == Err(UserNotFound) && State() == old(State())
        case Some(i) =>
          && r == Ok(Merge(old(users)[i], patch))
          && users == old(users)[i := r.value]
          && session == (if old(session).Some? && old(session).value.id == userId then Some(r.value) else old(session))
          && State() == old(State()).(users := users, session := session)
    {
      var index := UserIndex(users, userId);
      if index.None? {
        return Err(UserNotFound);
      }
      var i := index.value;
      var updated := Merge(users[i], patch);
      ghost var before := users;
      users := users[i := updated];
      if session.Some? && session.value.id == userId {
        assert users[i] == updated;
        session := Some(updated);
      } else if session.Some? {
        ghost var k :| 0 <= k < |before| && before[k] == session.value;
        assert k != i;
        assert users[k] == session.value;
      }
      r := Ok(updated);
    }

    function GetSession(): (r: Option<User>)
      reads this
      requires Valid()
      ensures r.Some? ==> r.value in users
    {
      session
    }

    /** Clears the session slot only. */
    method Logout()
      requires Valid()
      modifies this
      ensures Valid()
      ensures State() == old(State()).(session := None)
      ensures GetSession() == None
    {
      session := None;
    }

    // --- Courses ---

    /** The courses the user belongs to, with the user's role, in membership order. */
    function GetMyCourses(userId: string): (r: seq<CourseWithRole>)
      reads this
      ensures |r| <= |MembershipsOfUser(memberships, userId)|
      ensures forall i :: 0 <= i < |r| ==>
                exists j :: 0 <= j < |memberships| && memberships[j].userId == userId &&
                            CourseById(courses, memberships[j].courseId) == Some(r[i].course) &&
                            r[i].myRole == memberships[j].role
      ensures forall j :: 0 <= j < |memberships| && memberships[j].userId == userId &&
                          CourseById(courses, memberships[j].courseId).Some? ==>
                CourseWithRole(CourseById(courses, memberships[j].courseId).value, memberships[j].role) in r
    {
      MyCoursesSpec(memberships, courses, userId);
      MyCourses(memberships, courses, userId)
    }

    /**
     * Adds a course created by the user under the given id, code and time, and
     * the user's admin membership of it.
     */
    method CreateCourse(userId: string, data: CourseDraft, freshId: string, code: string, now: int) returns (c: Course)
      requires Valid()
      modifies this
      ensures Valid()
      ensures c == Course(freshId, data.name, data.subject, data.description, code, userId, now)
      ensures State() == old(State()).(courses := old(courses) + [c],
                                       memberships := old(memberships) + [Membership(c.id, userId, Admin, now)])
      ensures CourseById(courses, c.id).Some?
      ensures CourseWithRole(CourseById(courses, c.id).value, Admin) in MyCourses(memberships, courses, userId)
      ensures CourseById(old(courses), c.id).None? &&
              (forall j :: 0 <= j < |old(memberships)| ==> old(memberships)[j].courseId != c.id) ==>
                MyCourses(memberships, courses, userId) ==
                MyCourses(old(memberships), old(courses), userId) + [CourseWithRole(c, Admin)]
      ensures UniquePairs(old(memberships)) && !HasMembership(old(memberships), c.id, userId) ==> UniquePairs(memberships)
    {
      c := Course(freshId, data.name, data.subject, data.description, code, userId, now);
      var m := Membership(c.id, userId, Admin, now);
      ghost var before := State();
      courses := courses + [c];
      memberships := memberships + [m];
      assert State() == before.(courses := courses, memberships := memberships);
      if UniquePairs(before.memberships) && !HasMembership(before.memberships, c.id, userId) {
        AppendNewPairKeepsUnique(before.memberships, m);
      }
      CreateCourseAddsAdminEntry(before.memberships, before.courses, c, now);
      if CourseById(before.courses, c.id).None? &&
         forall j :: 0 <= j < |before.memberships| ==> before.memberships[j].courseId != c.id
      {
        CreateCourseListsCourse(before.memberships, before.courses, c, now);
      }
    }

    /**
     * Enrols the user as a student of the first course with this code. Reports,
     * without throwing, an unknown code or an existing membership of the pair.
     */
    method JoinCourse(userId: string, code: string, now: int) returns (r: JoinResult)
      requires Valid()
      modifies this
      ensures Valid()
      ensures match CourseByCode(old(courses), code)
        case None =>
          r == JoinResult(false, InvalidCode, None) && State() == old(State())
        case Some(c) =>
          if HasMembership(old(memberships), c.id, userId) then
            r == JoinResult(false, AlreadyMember, None) && State() == old(State())
          else
            && r == JoinResult(true, Joined, Some(c.id))
            && State() == old(State()).(memberships := old(memberships) + [Membership(c.id, userId, Student, now)])
      ensures r.success ==> PairCount(memberships, r.courseId.value, userId) == 1
      ensures UniquePairs(old(memberships)) ==> UniquePairs(memberships)
    {
      var found := CourseByCode(courses, code);
      if found.None? {
        return JoinResult(false, InvalidCode, None);
      }
      var course := found.value;
      if HasMembership(memberships, course.id, userId) {
        return JoinResult(false, AlreadyMember, None);
      }
      var m := Membership(course.id, userId, Student, now);
      PairCountPositive(memberships, course.id, userId);
      PairCountAppend(memberships, m, course.id, userId);
      if UniquePairs(memberships) {
        AppendNewPairKeepsUnique(memberships, m);
      }
      memberships := memberships + [m];
      r := JoinResult(true, Joined, Some(course.id));
    }

    // --- Classes ---

    /** The course's classes, by date ascending; classes on the same date keep their stored order. */
    function GetClasses(courseId: string): (r: seq<ClassSession>)
      reads this
      ensures IsStableSortOf(r, ClassesOfCourse(classes, courseId), ClassDate, DateBefore)
      ensures multiset(r) == multiset(ClassesOfCourse(classes, courseId))
      ensures forall c :: c in r <==> c in classes && c.courseId == courseId
      ensures forall i, j :: 0 <= i < j < |r| ==> r[i].date <= r[j].date
    {
      ClassesByDateSpec(classes, courseId);
      ClassesByDate(classes, courseId)
    }

    method CreateClass(data: ClassDraft, freshId: string) returns (c: ClassSession)
      requires Valid()
      modifies this
      ensures Valid()
      ensures c == ClassSession(freshId, data.courseId, data.date, data.time, data.location, data.topic, data.notes, data.status)
      ensures State() == old(State()).(classes := old(classes) + [c])
    {
      c := ClassSession(freshId, data.courseId, data.date, data.time, data.location, data.topic, data.notes, data.status);
      classes := classes + [c];
    }

    // --- Announcements ---

    /**
     * The course's announcements: pinned ones first, newest first within each
     * group, each with its author's name.
     */
    function GetAnnouncements(courseId: string): (r: seq<AnnouncementView>)
      reads this
      ensures IsStableSortOf(Items(r), AnnouncementsOfCourse(announcements, courseId), FeedKey, FeedBefore)
      ensures multiset(Items(r)) == multiset(AnnouncementsOfCourse(announcements, courseId))
      ensures forall i, j :: 0 <= i < j < |r| && r[j].item.isPinned ==> r[i].item.isPinned
      ensures forall i, j :: 0 <= i < j < |r| && r[i].item.isPinned == r[j].item.isPinned ==>
                r[i].item.createdAt >= r[j].item.createdAt
      ensures forall i :: 0 <= i < |r| ==> r[i].authorName == AuthorName(users, r[i].item.authorId)
    {
      FeedSpec(announcements, users, courseId);
      Feed(announcements, users, courseId)
    }

    method CreateAnnouncement(data: AnnouncementDraft, freshId: string) returns (a: Announcement)
      requires Valid()
      modifies this
      ensures Valid()
      ensures a == Announcement(freshId, data.courseId, data.authorId, data.content, data.createdAt, data.isPinned)
      ensures State() == old(State()).(announcements := old(announcements) + [a])
    {
      a := Announcement(freshId, data.courseId, data.authorId, data.content, data.createdAt, data.isPinned);
      announcements := announcements + [a];
    }

    // --- Members and observations ---

    /** The course's members, each with the role of the membership, in membership order. */
    function GetMembers(courseId: string): (r: seq<Member>)
      reads this
      ensures |r| <= |MembershipsOfCourse(memberships, courseId)|
      ensures forall i :: 0 <= i < |r| ==>
                exists j :: 0 <= j < |memberships| && memberships[j].courseId == courseId &&
                            UserById(users, memberships[j].userId) == Some(r[i].user) &&
                            r[i].role == memberships[j].role
      ensures forall j :: 0 <= j < |memberships| && memberships[j].courseId == courseId &&
                          UserById(users, memberships[j].userId).Some? ==>
                Member(UserById(users, memberships[j].userId).value, memberships[j].role) in r
    {
      MembersOfSpec(memberships, users, courseId);
      MembersOf(memberships, users, courseId)
    }

    /** The observations about the student in the course, in stored order. */
    function GetObservations(courseId: string, studentId: string): (r: seq<Observation>)
      reads this
      ensures forall o :: o in r <==> o in observations && o.courseId == courseId && o.studentId == studentId
      ensures forall o :: multiset(r)[o] ==
                if o.courseId == courseId && o.studentId == studentId then multiset(observations)[o] else 0
    {
      ObservationsOfMultiset(observations, courseId, studentId);
      ObservationsOf(observations, courseId, studentId)
    }

    method CreateObservation(data: ObservationDraft, freshId: string, now: int) returns (o: Observation)
      requires Valid()
      modifies this
      ensures Valid()
      ensures o == Observation(freshId, data.courseId, data.studentId, data.authorId, data.content, now)
      ensures State() == old(State()).(observations := old(observations) + [o])
    {
      o := Observation(freshId, data.courseId, data.studentId, data.authorId, data.content, now);
      observations := observations + [o];
    }
  }
}
