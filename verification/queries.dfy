/**
 * The read side of the store (services/storage.ts) over plain sequences: the
 * lookups by email, id and code, the joins of memberships with courses and users,
 * the per-course filters and the two sort orders.
 */
module Queries {
  import opened Wrappers
  import opened Types
  import opened Seqs
  import opened StableSort

  // ---------------------------------------------------------------------------
  // Lookups: each returns the FIRST matching record, as `find` and `findIndex` do.

  function UserByEmail(users: seq<User>, email: string): (r: Option<User>)
    ensures r.None? <==> forall i :: 0 <= i < |users| ==> users[i].email != email
    ensures r.Some? ==> exists i :: 0 <= i < |users| && users[i] == r.value && r.value.email == email &&
                          forall j :: 0 <= j < i ==> users[j].email != email
  {
    Find(users, (u: User) => u.email == email)
  }

  function UserIndex(users: seq<User>, id: string): (r: Option<nat>)
    ensures r.None? <==> forall i :: 0 <= i < |users| ==> users[i].id != id
    ensures r.Some? ==> r.value < |users| && users[r.value].id == id
    ensures r.Some? ==> forall j :: 0 <= j < r.value ==> users[j].id != id
  {
    FindIndex(users, (u: User) => u.id == id)
  }

  function UserById(users: seq<User>, id: string): (r: Option<User>)
    ensures r.None? <==> forall i :: 0 <= i < |users| ==> users[i].id != id
    ensures r.Some? ==> exists i :: 0 <= i < |users| && users[i] == r.value && r.value.id == id &&
                          forall j :: 0 <= j < i ==> users[j].id != id
  {
    Find(users, (u: User) => u.id == id)
  }

  function CourseById(courses: seq<Course>, id: string): (r: Option<Course>)
    ensures r.None? <==> forall i :: 0 <= i < |courses| ==> courses[i].id != id
    ensures r.Some? ==> exists i :: 0 <= i < |courses| && courses[i] == r.value && r.value.id == id &&
                          forall j :: 0 <= j < i ==> courses[j].id != id
  {
    Find(courses, (c: Course) => c.id == id)
  }

  function CourseByCode(courses: seq<Course>, code: string): (r: Option<Course>)
    ensures r.None? <==> forall i :: 0 <= i < |courses| ==> courses[i].code != code
    ensures r.Some? ==> exists i :: 0 <= i < |courses| && courses[i] == r.value && r.value.code == code &&
                          forall j :: 0 <= j < i ==> courses[j].code != code
  {
    Find(courses, (c: Course) => c.code == code)
  }

  /** Whether some membership is for the pair (courseId, userId). */
  function HasMembership(ms: seq<Membership>, courseId: string, userId: string): (b: bool)
    ensures b <==> exists i :: 0 <= i < |ms| && ms[i].courseId == courseId && ms[i].userId == userId
  {
    Find(ms, (m: Membership) => m.courseId == courseId && m.userId == userId).Some?
  }

  // ---------------------------------------------------------------------------
  // Membership pairs: the store never records a second membership for a pair.

  /** The number of memberships for the pair (courseId, userId). */
  function PairCount(ms: seq<Membership>, courseId: string, userId: string): nat {
    if |ms| == 0 then 0
    else (if ms[0].courseId == courseId && ms[0].userId == userId then 1 else 0) + PairCount(ms[1..], courseId, userId)
  }

  /** No two memberships are for the same (courseId, userId) pair. */
  ghost predicate UniquePairs(ms: seq<Membership>) {
    forall i, j :: 0 <= i < j < |ms| ==> ms[i].courseId != ms[j].courseId || ms[i].userId != ms[j].userId
  }

  lemma {:induction false} PairCountAppend(ms: seq<Membership>, m: Membership, courseId: string, userId: string)
    ensures PairCount(ms + [m], courseId, userId) ==
            PairCount(ms, courseId, userId) + (if m.courseId == courseId && m.userId == userId then 1 else 0)
  {
    if |ms| > 0 {
      assert (ms + [m])[1..] == ms[1..] + [m];
      PairCountAppend(ms[1..], m, courseId, userId);
    }
  }

  /** A pair has a membership exactly when its count is positive. */
  lemma {:induction false} PairCountPositive(ms: seq<Membership>, courseId: string, userId: string)
    ensures PairCount(ms, courseId, userId) > 0 <==> HasMembership(ms, courseId, userId)
  {
    if |ms| > 0 {
      PairCountPositive(ms[1..], courseId, userId);
      assert HasMembership(ms[1..], courseId, userId) ==> HasMembership(ms, courseId, userId) by {
        if HasMembership(ms[1..], courseId, userId) {
          var i :| 0 <= i < |ms[1..]| && ms[1..][i].courseId == courseId && ms[1..][i].userId == userId;
          assert ms[i + 1] == ms[1..][i];
        }
      }
    }
  }

  /** With unique pairs, every pair has at most one membership. */
  lemma {:induction false} UniquePairsCount(ms: seq<Membership>, courseId: string, userId: string)
    requires UniquePairs(ms)
    ensures PairCount(ms, courseId, userId) <= 1
  {
    if |ms| > 0 {
      assert UniquePairs(ms[1..]) by {
        forall i, j | 0 <= i < j < |ms[1..]|
          ensures ms[1..][i].courseId != ms[1..][j].courseId || ms[1..][i].userId != ms[1..][j].userId
        {
          assert ms[1..][i] == ms[i + 1] && ms[1..][j] == ms[j + 1];
        }
      }
      UniquePairsCount(ms[1..], courseId, userId);
      if ms[0].courseId == courseId && ms[0].userId == userId {
        PairCountPositive(ms[1..], courseId, userId);
      }
    }
  }

  /** Appending a membership for a pair that has none keeps the pairs unique. */
  lemma AppendNewPairKeepsUnique(ms: seq<Membership>, m: Membership)
    requires UniquePairs(ms)
    requires !HasMembership(ms, m.courseId, m.userId)
    ensures UniquePairs(ms + [m])
  {
    var t := ms + [m];
    forall i, j | 0 <= i < j < |t| ensures t[i].courseId != t[j].courseId || t[i].userId != t[j].userId {
      if j == |ms| {
        assert t[i] == ms[i] && t[j] == m;
      } else {
        assert t[i] == ms[i] && t[j] == ms[j];
      }
    }
  }

  // ---------------------------------------------------------------------------
  // Filters by foreign key, in stored order.

  function MembershipsOfUser(ms: seq<Membership>, userId: string): (r: seq<Membership>)
    ensures forall m :: m in r <==> m in ms && m.userId == userId
  {
    Filter(ms, (m: Membership) => m.userId == userId)
  }

  function MembershipsOfCourse(ms: seq<Membership>, courseId: string): (r: seq<Membership>)
    ensures forall m :: m in r <==> m in ms && m.courseId == courseId
  {
    Filter(ms, (m: Membership) => m.courseId == courseId)
  }

  function ClassesOfCourse(classes: seq<ClassSession>, courseId: string): (r: seq<ClassSession>)
    ensures forall c :: c in r <==> c in classes && c.courseId == courseId
  {
    Filter(classes, (c: ClassSession) => c.courseId == courseId)
  }

  function AnnouncementsOfCourse(items: seq<Announcement>, courseId: string): (r: seq<Announcement>)
    ensures forall a :: a in r <==> a in items && a.courseId == courseId
  {
    Filter(items, (a: Announcement) => a.courseId == courseId)
  }

  /** The observations about one student in one course, in stored order. */
  function ObservationsOf(obs: seq<Observation>, courseId: string, studentId: string): (r: seq<Observation>)
    ensures forall o :: o in r <==> o in obs && o.courseId == courseId && o.studentId == studentId
  {
    Filter(obs, (o: Observation) => o.courseId == courseId && o.studentId == studentId)
  }

  /** Every occurrence of a matching observation is kept, and no other. */
  lemma ObservationsOfMultiset(obs: seq<Observation>, courseId: string, studentId: string)
    ensures forall o :: multiset(ObservationsOf(obs, courseId, studentId))[o] ==
              if o.courseId == courseId && o.studentId == studentId then multiset(obs)[o] else 0
  {
    forall o {
      FilterMultiset(obs, (x: Observation) => x.courseId == courseId && x.studentId == studentId, o);
    }
  }

  /** Appending an observation extends the list of its own (course, student) pair only. */
  lemma ObservationsOfAppend(obs: seq<Observation>, o: Observation, courseId: string, studentId: string)
    ensures ObservationsOf(obs + [o], courseId, studentId) ==
            ObservationsOf(obs, courseId, studentId) + (if o.courseId == courseId && o.studentId == studentId then [o] else [])
  {
    var p := (x: Observation) => x.courseId == courseId && x.studentId == studentId;
    FilterAppend(obs, [o], p);
    assert [o][1..] == [];
  }

  // ---------------------------------------------------------------------------
  // Joins: memberships resolved against courses or users; unresolved ones dropped.

  /** Each membership paired with its course (the first with that id) and its role. */
  function ResolveCourses(ms: seq<Membership>, courses: seq<Course>): (r: seq<CourseWithRole>)
    ensures |r| <= |ms|
  {
    var f := (m: Membership) => ResolveCourse(m, courses);
    FlatMapAtMostOne(ms, f);
    FlatMap(ms, f)
  }

  /** One membership's course with its role, or nothing when the course is gone. */
  function ResolveCourse(m: Membership, courses: seq<Course>): (r: seq<CourseWithRole>)
    ensures |r| <= 1
  {
    match CourseById(courses, m.courseId)
    case None => []
    case Some(x) => [CourseWithRole(x, m.role)]
  }

  /** Every listed course is the course of some membership, with that membership's role. */
  lemma ResolveCoursesSound(ms: seq<Membership>, courses: seq<Course>, i: nat)
    requires i < |ResolveCourses(ms, courses)|
    ensures exists j :: 0 <= j < |ms| && CourseById(courses, ms[j].courseId) == Some(ResolveCourses(ms, courses)[i].course) &&
                        ResolveCourses(ms, courses)[i].myRole == ms[j].role
  {
    var r := ResolveCourses(ms, courses);
    FlatMapSound(ms, (m: Membership) => ResolveCourse(m, courses), i);
    var j :| 0 <= j < |ms| && r[i] in ResolveCourse(ms[j], courses);
    ResolveCourseSound(ms[j], courses, r[i]);
  }

  /** A resolved entry carries the course its membership's id finds, and the membership's role. */
  lemma ResolveCourseSound(m: Membership, courses: seq<Course>, x: CourseWithRole)
    requires x in ResolveCourse(m, courses)
    ensures CourseById(courses, m.courseId) == Some(x.course) && x.myRole == m.role
  {
  }

  /** Every membership whose course exists is listed, with its role. */
  lemma ResolveCoursesComplete(ms: seq<Membership>, courses: seq<Course>, j: nat)
    requires j < |ms| && CourseById(courses, ms[j].courseId).Some?
    ensures CourseWithRole(CourseById(courses, ms[j].courseId).value, ms[j].role) in ResolveCourses(ms, courses)
  {
    var y := CourseWithRole(CourseById(courses, ms[j].courseId).value, ms[j].role);
    assert ResolveCourse(ms[j], courses) == [y];
    FlatMapComplete(ms, (m: Membership) => ResolveCourse(m, courses), j, y);
  }

  /** When every membership's course exists, nothing is dropped. */
  lemma ResolveCoursesKeepsAll(ms: seq<Membership>, courses: seq<Course>)
    requires forall j :: 0 <= j < |ms| ==> CourseById(courses, ms[j].courseId).Some?
    ensures |ResolveCourses(ms, courses)| == |ms|
  {
    FlatMapExactlyOne(ms, (m: Membership) => ResolveCourse(m, courses));
  }

  /** Resolving a concatenation resolves each part, in order. */
  lemma ResolveCoursesAppend(a: seq<Membership>, b: seq<Membership>, courses: seq<Course>)
    ensures ResolveCourses(a + b, courses) == ResolveCourses(a, courses) + ResolveCourses(b, courses)
  {
    FlatMapAppend(a, b, (m: Membership) => ResolveCourse(m, courses));
  }

  /** The courses of a user with the user's role in each: `getMyCourses`. */
  function MyCourses(ms: seq<Membership>, courses: seq<Course>, userId: string): (r: seq<CourseWithRole>)
    ensures |r| <= |MembershipsOfUser(ms, userId)|
  {
    ResolveCourses(MembershipsOfUser(ms, userId), courses)
  }

  /**
   * The user's course list holds exactly the resolvable memberships of the user,
   * each once per membership and with its role.
   */
  lemma MyCoursesSpec(ms: seq<Membership>, courses: seq<Course>, userId: string)
    ensures |MyCourses(ms, courses, userId)| <= |MembershipsOfUser(ms, userId)|
    ensures forall i :: 0 <= i < |MyCourses(ms, courses, userId)| ==>
              exists j :: 0 <= j < |ms| && ms[j].userId == userId &&
                          CourseById(courses, ms[j].courseId) == Some(MyCourses(ms, courses, userId)[i].course) &&
                          MyCourses(ms, courses, userId)[i].myRole == ms[j].role
    ensures forall j :: 0 <= j < |ms| && ms[j].userId == userId && CourseById(courses, ms[j].courseId).Some? ==>
              CourseWithRole(CourseById(courses, ms[j].courseId).value, ms[j].role) in MyCourses(ms, courses, userId)
  {
    var mine := MembershipsOfUser(ms, userId);
    var r := MyCourses(ms, courses, userId);
    forall i | 0 <= i < |r|
      ensures exists j :: 0 <= j < |ms| && ms[j].userId == userId &&
                          CourseById(courses, ms[j].courseId) == Some(r[i].course) && r[i].myRole == ms[j].role
    {
      ResolveCoursesSound(mine, courses, i);
      var k :| 0 <= k < |mine| && CourseById(courses, mine[k].courseId) == Some(r[i].course) && r[i].myRole == mine[k].role;
      assert mine[k] in ms && mine[k].userId == userId;
      var j :| 0 <= j < |ms| && ms[j] == mine[k];
      assert ms[j].userId == userId && CourseById(courses, ms[j].courseId) == Some(r[i].course) && r[i].myRole == ms[j].role;
    }
    forall j | 0 <= j < |ms| && ms[j].userId == userId && CourseById(courses, ms[j].courseId).Some?
      ensures CourseWithRole(CourseById(courses, ms[j].courseId).value, ms[j].role) in r
    {
      assert ms[j] in mine;
      var k :| 0 <= k < |mine| && mine[k] == ms[j];
      ResolveCoursesComplete(mine, courses, k);
    }
  }

  /** A later membership adds its course, if any, after the earlier ones. */
  lemma MyCoursesAppend(ms: seq<Membership>, m: Membership, courses: seq<Course>, userId: string)
    ensures MyCourses(ms + [m], courses, userId) ==
            MyCourses(ms, courses, userId) + (if m.userId == userId then ResolveCourses([m], courses) else [])
  {
    FilterAppend(ms, [m], (x: Membership) => x.userId == userId);
    assert [m][1..] == [];
    ResolveCoursesAppend(MembershipsOfUser(ms, userId), MembershipsOfUser([m], userId), courses);
  }

  /**
   * After a course and its creator's admin membership are appended, the
   * creator's list holds the course the new id resolves to, as admin.
   */
  lemma CreateCourseAddsAdminEntry(ms: seq<Membership>, courses: seq<Course>, c: Course, now: int)
    ensures CourseById(courses + [c], c.id).Some?
    ensures CourseWithRole(CourseById(courses + [c], c.id).value, Admin) in
              MyCourses(ms + [Membership(c.id, c.creatorId, Admin, now)], courses + [c], c.creatorId)
  {
    var m := Membership(c.id, c.creatorId, Admin, now);
    var t := courses + [c];
    assert t[|courses|] == c;
    var mine := MembershipsOfUser(ms + [m], c.creatorId);
    assert (ms + [m])[|ms|] == m;
    assert m in mine;
    var k :| 0 <= k < |mine| && mine[k] == m;
    ResolveCoursesComplete(mine, t, k);
  }

  /** A course appended under an unused id is found by that id. */
  lemma CourseByIdAppendNew(courses: seq<Course>, c: Course)
    requires CourseById(courses, c.id).None?
    ensures CourseById(courses + [c], c.id) == Some(c)
  {
    var t := courses + [c];
    assert t[|courses|] == c;
    assert forall i :: 0 <= i < |courses| ==> t[i] == courses[i];
  }

  /** Appending a course does not change what an existing id resolves to. */
  lemma CourseByIdAppendOther(courses: seq<Course>, c: Course, id: string)
    requires id != c.id
    ensures CourseById(courses + [c], id) == CourseById(courses, id)
  {
    var t := courses + [c];
    assert forall i :: 0 <= i < |courses| ==> t[i] == courses[i];
    assert t[|courses|] == c;
  }

  /** Appending a course under an id no membership uses changes no membership's resolution. */
  lemma ResolveCoursesAppendCourse(ms: seq<Membership>, courses: seq<Course>, c: Course)
    requires forall j :: 0 <= j < |ms| ==> ms[j].courseId != c.id
    ensures ResolveCourses(ms, courses + [c]) == ResolveCourses(ms, courses)
  {
    forall j | 0 <= j < |ms|
      ensures ResolveCourse(ms[j], courses + [c]) == ResolveCourse(ms[j], courses)
    {
      CourseByIdAppendOther(courses, c, ms[j].courseId);
    }
    FlatMapAgree(ms, (m: Membership) => ResolveCourse(m, courses + [c]), (m: Membership) => ResolveCourse(m, courses));
  }

  /**
   * Creating a course under a fresh id, with its admin membership, adds exactly
   * that course, as admin, at the end of the creator's course list.
   */
  lemma CreateCourseListsCourse(ms: seq<Membership>, courses: seq<Course>, c: Course, now: int)
    requires CourseById(courses, c.id).None?
    requires forall j :: 0 <= j < |ms| ==> ms[j].courseId != c.id
    ensures MyCourses(ms + [Membership(c.id, c.creatorId, Admin, now)], courses + [c], c.creatorId) ==
            MyCourses(ms, courses, c.creatorId) + [CourseWithRole(c, Admin)]
  {
    var m := Membership(c.id, c.creatorId, Admin, now);
    MyCoursesAppend(ms, m, courses + [c], c.creatorId);
    CourseByIdAppendNew(courses, c);
    var mine := MembershipsOfUser(ms, c.creatorId);
    assert forall j :: 0 <= j < |mine| ==> mine[j].courseId != c.id by {
      forall j | 0 <= j < |mine| ensures mine[j].courseId != c.id {
        assert mine[j] in ms;
      }
    }
    ResolveCoursesAppendCourse(mine, courses, c);
    assert ResolveCourses([m], courses + [c]) == [CourseWithRole(c, Admin)] by {
      assert [m][0] == m && [m][1..] == [];
      assert ResolveCourse(m, courses + [c]) == [CourseWithRole(c, Admin)];
    }
  }

  /** Each membership paired with its user (the first with that id) and its role. */
  function ResolveUsers(ms: seq<Membership>, users: seq<User>): (r: seq<Member>)
    ensures |r| <= |ms|
  {
    var f := (m: Membership) => ResolveUser(m, users);
    FlatMapAtMostOne(ms, f);
    FlatMap(ms, f)
  }

  /** One membership's user with its role, or nothing when the user is gone. */
  function ResolveUser(m: Membership, users: seq<User>): (r: seq<Member>)
    ensures |r| <= 1
  {
    match UserById(users, m.userId)
    case None => []
    case Some(x) => [Member(x, m.role)]
  }

  /** Every listed user is the user of some membership, with that membership's role. */
  lemma ResolveUsersSound(ms: seq<Membership>, users: seq<User>, i: nat)
    requires i < |ResolveUsers(ms, users)|
    ensures exists j :: 0 <= j < |ms| && UserById(users, ms[j].userId) == Some(ResolveUsers(ms, users)[i].user) &&
                        ResolveUsers(ms, users)[i].role == ms[j].role
  {
    var r := ResolveUsers(ms, users);
    FlatMapSound(ms, (m: Membership) => ResolveUser(m, users), i);
    var j :| 0 <= j < |ms| && r[i] in ResolveUser(ms[j], users);
    ResolveUserSound(ms[j], users, r[i]);
  }

  /** A resolved entry carries the user its membership's id finds, and the membership's role. */
  lemma ResolveUserSound(m: Membership, users: seq<User>, x: Member)
    requires x in ResolveUser(m, users)
    ensures UserById(users, m.userId) == Some(x.user) && x.role == m.role
  {
  }

  /** Every membership whose user exists is listed, with its role. */
  lemma ResolveUsersComplete(ms: seq<Membership>, users: seq<User>, j: nat)
    requires j < |ms| && UserById(users, ms[j].userId).Some?
    ensures Member(UserById(users, ms[j].userId).value, ms[j].role) in ResolveUsers(ms, users)
  {
    var y := Member(UserById(users, ms[j].userId).value, ms[j].role);
    assert ResolveUser(ms[j], users) == [y];
    FlatMapComplete(ms, (m: Membership) => ResolveUser(m, users), j, y);
  }

  /** When every membership's user exists, nothing is dropped. */
  lemma ResolveUsersKeepsAll(ms: seq<Membership>, users: seq<User>)
    requires forall j :: 0 <= j < |ms| ==> UserById(users, ms[j].userId).Some?
    ensures |ResolveUsers(ms, users)| == |ms|
  {
    FlatMapExactlyOne(ms, (m: Membership) => ResolveUser(m, users));
  }

  /** Resolving a concatenation resolves each part, in order. */
  lemma ResolveUsersAppend(a: seq<Membership>, b: seq<Membership>, users: seq<User>)
    ensures ResolveUsers(a + b, users) == ResolveUsers(a, users) + ResolveUsers(b, users)
  {
    FlatMapAppend(a, b, (m: Membership) => ResolveUser(m, users));
  }

  /** The members of a course with their roles: `getMembers`. */
  function MembersOf(ms: seq<Membership>, users: seq<User>, courseId: string): (r: seq<Member>)
    ensures |r| <= |MembershipsOfCourse(ms, courseId)|
  {
    ResolveUsers(MembershipsOfCourse(ms, courseId), users)
  }

  /**
   * The member list holds exactly the resolvable memberships of the course, each
   * once per membership and with its role.
   */
  lemma MembersOfSpec(ms: seq<Membership>, users: seq<User>, courseId: string)
    ensures |MembersOf(ms, users, courseId)| <= |MembershipsOfCourse(ms, courseId)|
    ensures forall i :: 0 <= i < |MembersOf(ms, users, courseId)| ==>
              exists j :: 0 <= j < |ms| && ms[j].courseId == courseId &&
                          UserById(users, ms[j].userId) == Some(MembersOf(ms, users, courseId)[i].user) &&
                          MembersOf(ms, users, courseId)[i].role == ms[j].role
    ensures forall j :: 0 <= j < |ms| && ms[j].courseId == courseId && UserById(users, ms[j].userId).Some? ==>
              Member(UserById(users, ms[j].userId).value, ms[j].role) in MembersOf(ms, users, courseId)
  {
    var theirs := MembershipsOfCourse(ms, courseId);
    var r := MembersOf(ms, users, courseId);
    forall i | 0 <= i < |r|
      ensures exists j :: 0 <= j < |ms| && ms[j].courseId == courseId &&
                          UserById(users, ms[j].userId) == Some(r[i].user) && r[i].role == ms[j].role
    {
      ResolveUsersSound(theirs, users, i);
      var k :| 0 <= k < |theirs| && UserById(users, theirs[k].userId) == Some(r[i].user) && r[i].role == theirs[k].role;
      assert theirs[k] in ms && theirs[k].courseId == courseId;
      var j :| 0 <= j < |ms| && ms[j] == theirs[k];
      assert ms[j].courseId == courseId && UserById(users, ms[j].userId) == Some(r[i].user) && r[i].role == ms[j].role;
    }
    forall j | 0 <= j < |ms| && ms[j].courseId == courseId && UserById(users, ms[j].userId).Some?
      ensures Member(UserById(users, ms[j].userId).value, ms[j].role) in r
    {
      assert ms[j] in theirs;
      var k :| 0 <= k < |theirs| && theirs[k] == ms[j];
      ResolveUsersComplete(theirs, users, k);
    }
  }

  /** A later membership adds its member, if any, after the earlier ones. */
  lemma MembersOfAppend(ms: seq<Membership>, m: Membership, users: seq<User>, courseId: string)
    ensures MembersOf(ms + [m], users, courseId) ==
            MembersOf(ms, users, courseId) + (if m.courseId == courseId then ResolveUsers([m], users) else [])
  {
    FilterAppend(ms, [m], (x: Membership) => x.courseId == courseId);
    assert [m][1..] == [];
    ResolveUsersAppend(MembershipsOfCourse(ms, courseId), MembershipsOfCourse([m], courseId), users);
  }

  // ---------------------------------------------------------------------------
  // Sort orders of the two sorted queries.

  function ClassDate(c: ClassSession): int { c.date }

  /** Class dates are ordered ascending. */
  predicate DateBefore(x: int, y: int) { x < y }

  /** The comparator `getClasses` passes to `sort`: the difference of the two dates. */
  function CompareClasses(a: ClassSession, b: ClassSession): (r: int)
    ensures r < 0 <==> a.date < b.date
    ensures r == 0 <==> a.date == b.date
  {
    a.date - b.date
  }

  function FeedKey(a: Announcement): (bool, int) { (a.isPinned, a.createdAt) }

  /** Pinned before unpinned; within either group, the later creation time first. */
  predicate FeedBefore(x: (bool, int), y: (bool, int)) {
    if x.0 == y.0 then y.1 < x.1 else x.0
  }

  /** The comparator `getAnnouncements` passes to `sort`. */
  function CompareAnnouncements(a: Announcement, b: Announcement): (r: int)
    ensures r < 0 <==> (a.isPinned && !b.isPinned) || (a.isPinned == b.isPinned && a.createdAt > b.createdAt)
    ensures r == 0 <==> a.isPinned == b.isPinned && a.createdAt == b.createdAt
  {
    if b.isPinned == a.isPinned then b.createdAt - a.createdAt
    else if b.isPinned then 1 else -1
  }

  /** The key orders put one record before another exactly when the comparators are negative. */
  lemma OrdersMatchComparators(a: ClassSession, b: ClassSession, x: Announcement, y: Announcement)
    ensures DateBefore(ClassDate(a), ClassDate(b)) <==> CompareClasses(a, b) < 0
    ensures ClassDate(a) == ClassDate(b) <==> CompareClasses(a, b) == 0
    ensures FeedBefore(FeedKey(x), FeedKey(y)) <==> CompareAnnouncements(x, y) < 0
    ensures FeedKey(x) == FeedKey(y) <==> CompareAnnouncements(x, y) == 0
  {
  }

  lemma DateBeforeIsStrictTotalOrder()
    ensures StrictTotalOrder(DateBefore)
  {
  }

  lemma FeedBeforeIsStrictTotalOrder()
    ensures StrictTotalOrder(FeedBefore)
  {
  }

  /** The classes of a course, stably sorted by date: `getClasses`. */
  function ClassesByDate(classes: seq<ClassSession>, courseId: string): (r: seq<ClassSession>)
    ensures multiset(r) == multiset(ClassesOfCourse(classes, courseId))
  {
    Sort(ClassesOfCourse(classes, courseId), ClassDate, DateBefore)
  }

  /** The class list is the stable sort by date of the course's classes. */
  lemma ClassesByDateSpec(classes: seq<ClassSession>, courseId: string)
    ensures IsStableSortOf(ClassesByDate(classes, courseId), ClassesOfCourse(classes, courseId), ClassDate, DateBefore)
    ensures multiset(ClassesByDate(classes, courseId)) == multiset(ClassesOfCourse(classes, courseId))
    ensures forall c :: c in ClassesByDate(classes, courseId) <==> c in classes && c.courseId == courseId
    ensures forall i, j :: 0 <= i < j < |ClassesByDate(classes, courseId)| ==>
              ClassesByDate(classes, courseId)[i].date <= ClassesByDate(classes, courseId)[j].date
  {
    DateBeforeIsStrictTotalOrder();
    SortIsStableSort(ClassesOfCourse(classes, courseId), ClassDate, DateBefore);
    var r := ClassesByDate(classes, courseId);
    forall c ensures c in r <==> c in ClassesOfCourse(classes, courseId) {
      assert c in r <==> c in multiset(r);
      assert c in ClassesOfCourse(classes, courseId) <==> c in multiset(ClassesOfCourse(classes, courseId));
    }
    forall i, j | 0 <= i < j < |r| ensures r[i].date <= r[j].date {
      assert !DateBefore(ClassDate(r[j]), ClassDate(r[i]));
    }
  }

  // ---------------------------------------------------------------------------
  // The announcement feed.

  /** The name of the first user with the author's id; "Usuario" when there is none or it is empty. */
  function AuthorName(users: seq<User>, authorId: string): (r: string)
    ensures r != ""
    ensures (forall i :: 0 <= i < |users| ==> users[i].id != authorId) ==> r == "Usuario"
    ensures r == "Usuario" ||
            exists i :: 0 <= i < |users| && users[i].id == authorId && users[i].name == r &&
                        forall j :: 0 <= j < i ==> users[j].id != authorId
    ensures forall i :: 0 <= i < |users| && users[i].id == authorId && (forall j :: 0 <= j < i ==> users[j].id != authorId) ==>
              r == (if users[i].name != "" then users[i].name else "Usuario")
  {
    match UserById(users, authorId)
    case None => "Usuario"
    case Some(u) => if u.name != "" then u.name else "Usuario"
  }

  /** The announcements of a course, pinned first and newest first, with author names: `getAnnouncements`. */
  function Feed(items: seq<Announcement>, users: seq<User>, courseId: string): (r: seq<AnnouncementView>)
    ensures |r| == |AnnouncementsOfCourse(items, courseId)|
    ensures forall i :: 0 <= i < |r| ==> r[i].authorName == AuthorName(users, r[i].item.authorId)
  {
    var selected := AnnouncementsOfCourse(items, courseId);
    var sorted := Sort(selected, FeedKey, FeedBefore);
    assert |sorted| == |selected| by {
      assert |multiset(sorted)| == |multiset(selected)|;
    }
    seq(|sorted|, i requires 0 <= i < |sorted| => AnnouncementView(sorted[i], AuthorName(users, sorted[i].authorId)))
  }

  /**
   * The feed is the stable sort of the course's announcements, pinned first and
   * newest first within each group.
   */
  lemma FeedSpec(items: seq<Announcement>, users: seq<User>, courseId: string)
    ensures Items(Feed(items, users, courseId)) == Sort(AnnouncementsOfCourse(items, courseId), FeedKey, FeedBefore)
    ensures IsStableSortOf(Items(Feed(items, users, courseId)), AnnouncementsOfCourse(items, courseId), FeedKey, FeedBefore)
    ensures multiset(Items(Feed(items, users, courseId))) == multiset(AnnouncementsOfCourse(items, courseId))
    ensures forall i, j :: 0 <= i < j < |Feed(items, users, courseId)| && Feed(items, users, courseId)[j].item.isPinned ==>
              Feed(items, users, courseId)[i].item.isPinned
    ensures forall i, j ::
              (0 <= i < j < |Feed(items, users, courseId)| &&
               Feed(items, users, courseId)[i].item.isPinned == Feed(items, users, courseId)[j].item.isPinned) ==>
              Feed(items, users, courseId)[i].item.createdAt >= Feed(items, users, courseId)[j].item.createdAt
    ensures forall i :: 0 <= i < |Feed(items, users, courseId)| ==>
              Feed(items, users, courseId)[i].authorName == AuthorName(users, Feed(items, users, courseId)[i].item.authorId)
  {
    var sorted := Sort(AnnouncementsOfCourse(items, courseId), FeedKey, FeedBefore);
    var r := Feed(items, users, courseId);
    assert Items(r) == sorted;
    FeedBeforeIsStrictTotalOrder();
    SortIsStableSort(AnnouncementsOfCourse(items, courseId), FeedKey, FeedBefore);
    forall i, j | 0 <= i < j < |r|
      ensures r[j].item.isPinned ==> r[i].item.isPinned
      ensures r[i].item.isPinned == r[j].item.isPinned ==> r[i].item.createdAt >= r[j].item.createdAt
    {
      assert r[i].item == sorted[i] && r[j].item == sorted[j];
      assert !FeedBefore(FeedKey(sorted[j]), FeedKey(sorted[i]));
    }
  }

  /** The announcements of a feed, without their author names. */
  function Items(r: seq<AnnouncementView>): seq<Announcement> {
    seq(|r|, i requires 0 <= i < |r| => r[i].item)
  }

  /** Three announcements of one course: one unpinned and two pinned ones. */
  const ExampleOld := Announcement("a1", "c1", "u1", "old", 10, false)
  const ExamplePinned := Announcement("a2", "c1", "u1", "pinned", 5, true)
  const ExampleNewest := Announcement("a3", "c1", "u1", "newest", 20, true)

  /** The two pinned ones, sorted: the newer first. */
  lemma SortPinnedExample()
    ensures Sort([ExamplePinned, ExampleNewest], FeedKey, FeedBefore) == [ExampleNewest, ExamplePinned]
  {
    SortCons(ExampleNewest, [], FeedKey, FeedBefore);
    InsertHere(ExampleNewest, [], FeedKey, FeedBefore);
    SortCons(ExamplePinned, [ExampleNewest], FeedKey, FeedBefore);
    InsertPast(ExamplePinned, ExampleNewest, [], FeedKey, FeedBefore);
    InsertHere(ExamplePinned, [], FeedKey, FeedBefore);
  }

  /** The unpinned one goes past both pinned ones. */
  lemma InsertOldExample()
    ensures Insert(ExampleOld, [ExampleNewest, ExamplePinned], FeedKey, FeedBefore)
         == [ExampleNewest, ExamplePinned, ExampleOld]
  {
    InsertPast(ExampleOld, ExampleNewest, [ExamplePinned], FeedKey, FeedBefore);
    InsertPast(ExampleOld, ExamplePinned, [], FeedKey, FeedBefore);
    InsertHere(ExampleOld, [], FeedKey, FeedBefore);
  }

  /** All three, sorted: the pinned ones first, newest first, and the unpinned one last. */
  lemma SortExample()
    ensures Sort([ExampleOld, ExamplePinned, ExampleNewest], FeedKey, FeedBefore)
         == [ExampleNewest, ExamplePinned, ExampleOld]
  {
    SortPinnedExample();
    SortCons(ExampleOld, [ExamplePinned, ExampleNewest], FeedKey, FeedBefore);
    InsertOldExample();
  }

  /** Selecting a course's announcements from a list that holds only that course's keeps the list. */
  lemma AnnouncementsOfCourseKeepsAll(items: seq<Announcement>, courseId: string)
    requires forall i :: 0 <= i < |items| ==> items[i].courseId == courseId
    ensures AnnouncementsOfCourse(items, courseId) == items
  {
    FilterKeepsAll(items, (a: Announcement) => a.courseId == courseId);
  }

  /** The feed of that course, read with no registered users. */
  lemma FeedExample()
    ensures Items(Feed([ExampleOld, ExamplePinned, ExampleNewest], [], "c1"))
         == [ExampleNewest, ExamplePinned, ExampleOld]
  {
    AnnouncementsOfCourseKeepsAll([ExampleOld, ExamplePinned, ExampleNewest], "c1");
    FeedSpec([ExampleOld, ExamplePinned, ExampleNewest], [], "c1");
    SortExample();
  }

  // ---------------------------------------------------------------------------
  // Accounts.

  const AvatarPrefix := "https://ui-avatars.com/api/?name="
  const AvatarSuffix := "&background=random"

  /** The default avatar of a newly registered user: the name, unencoded, between a fixed prefix and suffix. */
  function AvatarUrl(name: string): (r: string)
    ensures |r| == |AvatarPrefix| + |name| + |AvatarSuffix|
    ensures r[..|AvatarPrefix|] == AvatarPrefix
    ensures r[|AvatarPrefix|..|AvatarPrefix| + |name|] == name
    ensures r[|AvatarPrefix| + |name|..] == AvatarSuffix
  {
    AvatarPrefix + name + AvatarSuffix
  }

  /** The record `login` registers for a new email. */
  function NewUser(id: string, name: string, email: string): (r: User)
    ensures r.id == id && r.name == name && r.email == email
    ensures r.avatar == Some(AvatarUrl(name))
    ensures r.institution.None? && r.major.None? && r.semester.None?
  {
    User(id, name, email, Some(AvatarUrl(name)), None, None, None)
  }

  /** `{ ...u, ...p }`: each field that p supplies overrides u's. */
  function Merge(u: User, p: UserPatch): (r: User)
    ensures p.id.None? ==> r.id == u.id
    ensures p.id.Some? ==> r.id == p.id.value
    ensures p.name.None? ==> r.name == u.name
    ensures p.name.Some? ==> r.name == p.name.value
    ensures p.email.None? ==> r.email == u.email
    ensures p.email.Some? ==> r.email == p.email.value
    ensures p.avatar.None? ==> r.avatar == u.avatar
    ensures p.avatar.Some? ==> r.avatar == p.avatar.value
    ensures p.institution.None? ==> r.institution == u.institution
    ensures p.institution.Some? ==> r.institution == p.institution.value
    ensures p.major.None? ==> r.major == u.major
    ensures p.major.Some? ==> r.major == p.major.value
    ensures p.semester.None? ==> r.semester == u.semester
    ensures p.semester.Some? ==> r.semester == p.semester.value
  {
    User(
      if p.id.Some? then p.id.value else u.id,
      if p.name.Some? then p.name.value else u.name,
      if p.email.Some? then p.email.value else u.email,
      if p.avatar.Some? then p.avatar.value else u.avatar,
      if p.institution.Some? then p.institution.value else u.institution,
      if p.major.Some? then p.major.value else u.major,
      if p.semester.Some? then p.semester.value else u.semester)
  }

  /** The patch that supplies no field. */
  const NoChange := UserPatch(None, None, None, None, None, None, None)

  /** `{ ...p, ...q }`: q's fields override p's. */
  function Then(p: UserPatch, q: UserPatch): UserPatch {
    UserPatch(
      if q.id.Some? then q.id else p.id,
      if q.name.Some? then q.name else p.name,
      if q.email.Some? then q.email else p.email,
      if q.avatar.Some? then q.avatar else p.avatar,
      if q.institution.Some? then q.institution else p.institution,
      if q.major.Some? then q.major else p.major,
      if q.semester.Some? then q.semester else p.semester)
  }

  /** Merging no field leaves the record as it is. */
  lemma MergeNoChange(u: User)
    ensures Merge(u, NoChange) == u
  {
  }

  /** Two successive merges are one merge of the combined patch (last write wins per field). */
  lemma MergeThen(u: User, p: UserPatch, q: UserPatch)
    ensures Merge(Merge(u, p), q) == Merge(u, Then(p, q))
    ensures Merge(Merge(u, p), p) == Merge(u, p)
  {
  }

  /** Supplying only `major` changes only `major`. */
  lemma MergeMajorOnly(u: User, major: string)
    ensures Merge(u, NoChange.(major := Some(Some(major)))) == u.(major := Some(major))
  {
  }
}
