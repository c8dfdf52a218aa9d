# UniFlow store, modelled in Dafny

UniFlow is a small course-management web application. All of its data lives in
one client-side store, `services/storage.ts`. The store holds six collections,
append-only except that users are updated in place, and a current-session slot:

- users
- courses
- memberships: a user's role, admin or student, in a course
- class sessions
- announcements
- observations about students

This project models that store.

- `Storage.Store` is a class with one `seq` field per collection and an
  `Option<User>` session.
- The operations that change the store are its methods: `login`, `updateUser`,
  `logout`, `createCourse`, `joinCourse`, `createClass`, `createAnnouncement` and
  `createObservation`. Each states its whole new state.
- The read operations are functions over its fields: `checkEmailExists`,
  `getSession`, `getMyCourses`, `getMembers`, `getClasses`, `getAnnouncements`
  and `getObservations`.

The read side is written over plain sequences in module `Queries`:

- Lookups return the first match, as `find` and `findIndex` do.
- Joins of memberships with courses and users drop memberships whose course or
  user is gone.
- The two sort orders are the comparators of `getClasses` and `getAnnouncements`.

Module `StableSort` holds a generic stable insertion sort by key. It proves that
the sort is a stable, sorted permutation, and that any stable sort of the same
input gives the same list. This is the behaviour of JavaScript's `Array.prototype.sort`
with these comparators. Module `Seqs` holds `find`, `findIndex`, `filter` and the
map-then-drop-missing step of the joins (`FlatMap`).

Modules:

- `Wrappers`: Option and Result.
- `Types`: the records of `types.ts`.
- `Seqs`: searches, the filter and the flat map.
- `StableSort`: the sort.
- `Queries`: the read side.
- `Storage`: the store.

Generated ids, access codes and clock readings are parameters of the methods
(`freshId`, `code`, `now`). Dates and timestamps are integers.

Two details of the code worth noting:

- `login` refuses an unknown email with an empty name as well as with no name.
  The check is `!name`, at `services/storage.ts:43`.
- An announcement's author name falls back to `"Usuario"` when the author's name
  is empty, as well as when no author record exists. This follows the `||` at
  `services/storage.ts:176`.

## Model

| member | source | states |
|---|---|---|
| Seqs.FindIndex | services/storage.ts:61 | the index of the first element satisfying the predicate, or None exactly when no element does |
| Seqs.Find | services/storage.ts:40 | the first element satisfying the predicate, or None exactly when no element does |
| Seqs.Filter | services/storage.ts:92 | the kept elements are exactly those of the input that satisfy the predicate, and there are no more of them than input elements |
| Seqs.FilterAppend | services/storage.ts:92 | filtering a concatenation concatenates the filtered parts, so stored order is kept |
| Seqs.FilterKeepsAll | services/storage.ts:92 | when every element passes, the filter returns its input unchanged |
| Seqs.FilterMultiset | services/storage.ts:203 | every occurrence of a passing element is kept, and no occurrence of another |
| Seqs.FlatMap | services/storage.ts:94-98 | the mapped-then-compacted list is empty exactly when every element maps to nothing |
| Seqs.FlatMapSound | services/storage.ts:94-98 | every element of a mapped-then-compacted list comes from some input element |
| Seqs.FlatMapComplete | services/storage.ts:94-98 | everything an input element maps to appears in the result |
| Seqs.FlatMapAppend | services/storage.ts:94-98 | mapping a concatenation concatenates the mapped parts, so input order is kept |
| Seqs.FlatMapAtMostOne | services/storage.ts:94-98 | when each element maps to at most one entry, the result is no longer than the input |
| Seqs.FlatMapExactlyOne | services/storage.ts:94-98 | when each element maps to exactly one entry, the result is as long as the input |
| Seqs.FlatMapAgree | services/storage.ts:94-98 | two maps that agree on every input element give the same result |
| StableSort.Insert | services/storage.ts:155 | inserting adds exactly the inserted element to the multiset of the list |
| StableSort.Sort | services/storage.ts:155 | the sorted list is a permutation of the input |
| StableSort.InsertSorted | services/storage.ts:155 | inserting into a sorted list gives a sorted list |
| StableSort.SortSorted | services/storage.ts:155 | the result is sorted by key under a strict total order |
| StableSort.WithKeyInsert | services/storage.ts:155 | inserting places the new element before every existing element with an equal key, and keeps their order |
| StableSort.SortStable | services/storage.ts:155 | elements with equal keys keep their input order |
| StableSort.SortIsStableSort | services/storage.ts:155 | the sort is a stable, sorted permutation of its input |
| StableSort.SortedSameClassesEqual | services/storage.ts:155 | two sorted lists with the same elements per key, in the same order, are equal |
| StableSort.StableSortUnique | services/storage.ts:155 | any stable sorted permutation of the input equals the sort, so the result is determined by the comparator |
| Queries.UserByEmail | services/storage.ts:40 | the first user with exactly this email, or None exactly when no user has it |
| Queries.UserIndex | services/storage.ts:61 | the index of the first user with this id, or None exactly when no user has it |
| Queries.UserById | services/storage.ts:195 | the first user with this id, or None exactly when no user has it |
| Queries.CourseById | services/storage.ts:95 | the first course with this id, or None exactly when no course has it |
| Queries.CourseByCode | services/storage.ts:133 | the first course with exactly this code, or None exactly when no course has it |
| Queries.HasMembership | services/storage.ts:136 | true exactly when some membership is for this (course, user) pair |
| Queries.PairCountAppend | services/storage.ts:146 | appending a membership raises its own pair's count by one and leaves every other pair's count alone |
| Queries.PairCountPositive | services/storage.ts:136 | a pair has a positive count exactly when it has a membership |
| Queries.UniquePairsCount | services/storage.ts:129-150 | when no two memberships share a pair, every pair has at most one |
| Queries.AppendNewPairKeepsUnique | services/storage.ts:136-147 | appending a membership for a pair that has none keeps pairs unique |
| Queries.MembershipsOfUser | services/storage.ts:92 | exactly the memberships of the user |
| Queries.MembershipsOfCourse | services/storage.ts:193 | exactly the memberships of the course |
| Queries.ClassesOfCourse | services/storage.ts:155 | exactly the classes of the course |
| Queries.AnnouncementsOfCourse | services/storage.ts:172 | exactly the announcements of the course |
| Queries.AnnouncementsOfCourseKeepsAll | services/storage.ts:172 | selecting a course's announcements from a list of only that course's keeps the list |
| Queries.ObservationsOf | services/storage.ts:203 | exactly the observations with both the course id and the student id |
| Queries.ObservationsOfMultiset | services/storage.ts:203 | every occurrence of a matching observation is kept, and no other |
| Queries.ObservationsOfAppend | services/storage.ts:203 | a new observation extends the list of its own (course, student) pair, at the end, and no other list |
| Queries.ResolveCourses | services/storage.ts:94-98 | resolving memberships to courses yields at most one entry per membership |
| Queries.ResolveCourse | services/storage.ts:95-97 | one membership resolves to at most one course entry |
| Queries.ResolveCourseSound | services/storage.ts:95-97 | a resolved entry is the course found by the membership's course id, with the membership's role |
| Queries.ResolveCoursesSound | services/storage.ts:94-98 | every resolved entry is the course of some membership, with that membership's role |
| Queries.ResolveCoursesComplete | services/storage.ts:94-98 | every membership whose course exists is resolved, with its role |
| Queries.ResolveCoursesKeepsAll | services/storage.ts:94-98 | when every membership's course exists, nothing is dropped |
| Queries.ResolveCoursesAppend | services/storage.ts:94-98 | resolution follows membership order |
| Queries.MyCourses | services/storage.ts:88-99 | the user's list has at most one entry per membership of the user |
| Queries.MyCoursesSpec | services/storage.ts:88-99 | the user's list holds only courses of the user's memberships, with their roles, and every such course that exists; it is no longer than the user's memberships |
| Queries.MyCoursesAppend | services/storage.ts:88-99 | a later membership adds its course, if any, after the earlier ones |
| Queries.CourseByIdAppendNew | services/storage.ts:120 | a course appended under an unused id is found by that id |
| Queries.CourseByIdAppendOther | services/storage.ts:120 | appending a course does not change what any other id finds |
| Queries.ResolveCoursesAppendCourse | services/storage.ts:120 | appending a course no membership refers to changes no membership's resolution |
| Queries.CreateCourseAddsAdminEntry | services/storage.ts:101-127 | after a course and its creator's admin membership are appended, the creator's list holds, as admin, the course the new id finds |
| Queries.CreateCourseListsCourse | services/storage.ts:101-127 | with a fresh course id, the creator's list gains exactly the new course as admin, at the end |
| Queries.ResolveUsers | services/storage.ts:194-198 | resolving memberships to users yields at most one entry per membership |
| Queries.ResolveUser | services/storage.ts:195-197 | one membership resolves to at most one member entry |
| Queries.ResolveUserSound | services/storage.ts:195-197 | a resolved entry is the user found by the membership's user id, with the membership's role |
| Queries.ResolveUsersSound | services/storage.ts:194-198 | every resolved entry is the user of some membership, with that membership's role |
| Queries.ResolveUsersComplete | services/storage.ts:194-198 | every membership whose user exists is resolved, with its role |
| Queries.ResolveUsersKeepsAll | services/storage.ts:194-198 | when every membership's user exists, nothing is dropped |
| Queries.ResolveUsersAppend | services/storage.ts:194-198 | resolution follows membership order |
| Queries.MembersOf | services/storage.ts:189-199 | the member list has at most one entry per membership of the course |
| Queries.MembersOfSpec | services/storage.ts:189-199 | the member list holds only users of the course's memberships, with their roles, and every such user that exists; it is no longer than the course's memberships |
| Queries.MembersOfAppend | services/storage.ts:189-199 | a later membership adds its member, if any, after the earlier ones |
| Queries.CompareClasses | services/storage.ts:155 | negative exactly when the first class's date is earlier, zero exactly when the dates are equal |
| Queries.CompareAnnouncements | services/storage.ts:173 | negative exactly when the first is pinned and the second not, or both share the pinning and the first is newer; zero exactly when pinning and creation time are equal |
| Queries.OrdersMatchComparators | services/storage.ts:155 | the date order and the feed order rank one record before another exactly when the source's comparators are negative, and tie exactly when they are zero |
| Queries.DateBeforeIsStrictTotalOrder | services/storage.ts:155 | ascending date order is a strict total order on keys |
| Queries.FeedBeforeIsStrictTotalOrder | services/storage.ts:173 | the pinned-then-newest order is a strict total order on keys |
| Queries.ClassesByDate | services/storage.ts:153-156 | the class list is a permutation of the course's classes |
| Queries.ClassesByDateSpec | services/storage.ts:153-156 | the class list is a stable sorted permutation of exactly the course's classes, with non-decreasing dates |
| Queries.Feed | services/storage.ts:167-178 | one entry per announcement of the course, each named by its author's name as AuthorName gives it |
| Queries.AuthorName | services/storage.ts:176 | never empty; "Usuario" when no user has the author's id; otherwise the name of the first user with that id when it is non-empty, and "Usuario" when it is empty |
| Queries.FeedSpec | services/storage.ts:167-178 | the feed is the stable sort of exactly the course's announcements, every pinned one before every unpinned one, newest first within each group, each with its author name |
| Queries.SortPinnedExample | services/storage.ts:173 | of two pinned announcements, the newer one sorts first |
| Queries.InsertOldExample | services/storage.ts:173 | an unpinned announcement sorts after pinned ones, even older ones |
| Queries.SortExample | services/storage.ts:173 | three announcements sort as newer pinned, older pinned, unpinned |
| Queries.FeedExample | services/storage.ts:167-178 | the feed of that course lists the three announcements in that order |
| Queries.Merge | services/storage.ts:64 | each field the patch supplies overrides the user's, and every field it omits keeps the user's value |
| Queries.AvatarUrl | services/storage.ts:49 | the URL is the fixed prefix, then the name unchanged, then the fixed suffix, so the name can be read back from it |
| Queries.NewUser | services/storage.ts:45-50 | the new record has the given id, name and email, the default avatar for that name, and no institution, major or semester |
| Queries.MergeNoChange | services/storage.ts:64 | a patch that supplies no field leaves the user as it is |
| Queries.MergeThen | services/storage.ts:64 | two merges are one merge of the combined patch, with the later field winning, and repeating a merge changes nothing |
| Queries.MergeMajorOnly | services/storage.ts:64 | a patch that supplies only `major` changes only `major` |
| Storage.Store.constructor | services/storage.ts:17-26 | a first run starts with every collection empty and no session |
| Storage.Store.CheckEmailExists | services/storage.ts:33-36 | true exactly when some stored user has exactly this email |
| Storage.Store.Login | services/storage.ts:38-57 | a known email logs in its first user and changes only the session, ignoring the name; an unknown email with no or empty name fails with the "Nombre requerido" error and changes nothing; otherwise exactly one new user with that name, email and default avatar is appended and becomes the session; afterwards the email exists |
| Storage.Store.UpdateUser | services/storage.ts:59-76 | an unknown id fails with "Usuario no encontrado" and changes nothing; otherwise the first user with the id becomes the merge of the patch into it, every other index is unchanged, and the session is replaced only when it held that id |
| Storage.Store.GetSession | services/storage.ts:78-81 | the session, when present, is a stored user |
| Storage.Store.Logout | services/storage.ts:83-85 | only the session changes, and it is then empty |
| Storage.Store.GetMyCourses | services/storage.ts:88-99 | the user's courses with roles: only courses of the user's memberships, every such course that exists, at most one per membership |
| Storage.Store.CreateCourse | services/storage.ts:101-127 | exactly one course is appended, with the given fields, creator and time, and exactly one admin membership for the creator; nothing else changes; the creator's list then holds the course as admin, at the end when the id is fresh; unique pairs stay unique when the creator had no membership under the new id |
| Storage.Store.JoinCourse | services/storage.ts:129-150 | an unknown code gives "Código inválido" and an existing pair gives "Ya eres miembro de este curso", both with no change; otherwise exactly one student membership is appended and the course id returned; after a success the pair has exactly one membership; unique pairs stay unique |
| Storage.Store.GetClasses | services/storage.ts:153-156 | a stable permutation of exactly the course's classes, dates non-decreasing |
| Storage.Store.CreateClass | services/storage.ts:158-164 | exactly one class with the given fields and id is appended; nothing else changes |
| Storage.Store.GetAnnouncements | services/storage.ts:167-178 | a stable permutation of exactly the course's announcements, pinned first and newest first within each group, each named by its author |
| Storage.Store.CreateAnnouncement | services/storage.ts:180-186 | exactly one announcement with the given fields and id is appended; nothing else changes |
| Storage.Store.GetMembers | services/storage.ts:189-199 | the course's members with roles: only users of the course's memberships, every such user that exists, at most one per membership |
| Storage.Store.GetObservations | services/storage.ts:201-204 | exactly the observations with both ids, with every occurrence kept |
| Storage.Store.CreateObservation | services/storage.ts:206-212 | exactly one observation with the given fields, id and time is appended; nothing else changes |

## Left out

- Persistence is not modelled. The store's collections are fields, and every operation sees the values the previous one left. This covers `localStorage`, JSON serialisation and re-reading each collection on every call.
- `seedData` is modelled only as the constructor's empty store. Its check for an already-stored users key, and a session that survives a restart, are not modelled.
- `generateId` and `generateCode` are random, so the fresh id and the access code are parameters. Nothing claims they are unique. The properties that need a fresh id, such as `Queries.CreateCourseListsCourse`, take freshness as a hypothesis.
- Clock readings and date strings are integers. `new Date(...).getTime()` and its parsing are not modelled, nor is the NaN an invalid date string would give a comparator.
- Storage.Store.CreateCourse: the two clock reads, for `createdAt` and `joinedAt`, are one `now` parameter, so the model assumes both reads return the same time.
- Storage.Store.UpdateUser: the patch is a `UserPatch` with the fields of `User`. A patch carrying keys outside `User`, which the spread would also copy, is not modelled; nor is a patch that supplies `id`, `name` or `email` as `undefined`, which the spread would copy over the stored value, because those three patch fields are `Option<string>`.
- Storage.Store.CreateCourse: the draft carries only name, subject and description. A draft carrying other keys, which the spread would let override the generated ones, is not modelled.
- The React pages and components, the authentication context, the service worker and the build configuration are not part of this model.
- Two caller-side assumptions are not modelled: the dashboard upper-cases a join code before calling `joinCourse`, and the course page relies on `getMyCourses` to gate access.
