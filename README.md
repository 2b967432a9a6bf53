# LMS — a verified model of the server's handlers and the client's session, routing and course pages

This project models the core of a small learning-management system. The
system has an Express/Mongoose server and a React client.

- Students enrol in courses, watch lessons (YouTube videos), mark them
  completed and take quizzes.
- Instructors create courses and lessons.
- Admins see platform-wide statistics.
- Access is guarded by JSON Web Tokens carried in cookies. The client
  refreshes an expired access token once and retries the request.

## Structure

**Server.**
- The MongoDB collections are one `Store.Tables` value. It holds users,
  courses, lessons and progress records, each in insertion order, plus a
  counter for fresh ids.
- `Store.Db` is the mutable database handle the handlers update.
- Each handler is modelled twice:
  - a pure function from the old tables and the request to the new tables
    and the response (`EnrollmentController.Enroll`,
    `CourseController.UpdateCourse`, ...);
  - a method on `Db` that performs the handler's database calls in order.
    Its postcondition ties the new snapshot and the response to that
    function.
- Lemmas about the functions state what each handler promises: error
  answers, what changes and what stays, idempotence, and that the
  consistency of the store (`Store.Consistent`: ids below the counter,
  no `_id` shared by two users, courses or lessons, schema-valid
  documents, the unique (student, course) index) is kept.
- The schemas (`ProgressModel`, `CourseModel`, `LessonModel`) give
  validation, setters and defaults.
- `AuthController` models token signing, the refresh token and the cookie
  jar. `AuthMiddleware` models `protect` and `authorize`.

**Client.**
- `AuthContext` models the axios interceptor and the session provider as a
  class whose network is a script of answers.
- `ClientUtils` models the thumbnail and embed-URL helpers.
- `CourseDetail` models the course page: initial lesson, percentage and
  completion.
- `QuizPlayer` and `QuizBuilder` model the quiz components. The builder
  keeps its shared option arrays as Dafny arrays.
- `StudentDashboard`, `PrivateRoute` and `AppRoutes` model the dashboard
  lists and the route table. Paths are matched as React Router 6 matches
  them: ignoring ASCII case, with any trailing slashes.

`WebUrl` is a small model of the WHATWG URL parser, limited to what the
lesson controller and the client helpers read: scheme, host, path and
query.

## Model

| member | source | states |
|---|---|---|
| ProgressModel.Validate | server/models/Progress.js:3-24 | a draft is stored exactly when `student` and `course` are given; `completedLessons` is kept and `isCompleted` defaults to false |
| ProgressModel.Initial | server/controllers/enrollmentController.js:25-29 | the record `enrollCourse` creates is for the caller and the course, with no completed lessons and not completed |
| ProgressModel.FindPair | server/controllers/enrollmentController.js:43-46 | `findOne({ student, course })` returns the first record of the pair, and nothing exactly when no record has that pair |
| ProgressModel.FindPairUnique | server/models/Progress.js:26-27 | under the unique (student, course) index the record found is the only one of its pair |
| ProgressModel.Insert | server/models/Progress.js:26-27 | an insert is refused exactly when the pair already has a record; otherwise the record is appended and the index stays unique |
| ProgressModel.DeletePair | server/controllers/enrollmentController.js:118-121 | `findOneAndDelete` leaves every record of other pairs and none of this pair |
| ProgressModel.DeletePairKeepsUnique | server/models/Progress.js:26-27 | deleting a pair keeps the (student, course) index unique |
| CourseModel.CourseErrors | server/models/Course.js:3-25 | a draft has no validation message exactly when the trimmed title, the description, the instructor and the category are all present |
| CourseModel.Validate | server/models/Course.js:3-34 | a valid draft becomes a well-formed course with the title trimmed, `students` defaulting to empty and the placeholder image as default; an invalid one yields exactly its messages |
| CourseModel.LessonsOf | server/models/Course.js:44-49 | the `lessons` virtual holds exactly the lessons whose `course` is this course |
| CourseModel.RemoveHook | server/models/Course.js:37-41 | the `pre('remove')` hook deletes exactly the lessons of the course |
| CourseModel.RemoveHookKeepsDistinct | server/models/Course.js:37-41 | the hook leaves the remaining lessons' ids distinct |
| LessonModel.ParseType | server/models/Lesson.js:9-13 | a type is accepted exactly when it is one of video, text, quiz and assignment |
| LessonModel.LessonErrors | server/models/Lesson.js:3-34 | a draft has no validation message exactly when its trimmed title and video URL are non-blank, its course is given and its type, if given, is in the enum |
| LessonModel.Validate | server/models/Lesson.js:3-37 | a valid draft becomes a well-formed lesson with type defaulting to video and order to 0; an invalid one yields exactly its messages |
| Store.FindCourse | server/controllers/enrollmentController.js:9 | `Course.findById` finds a course with that id, and nothing exactly when no course has it |
| Store.FindLesson | server/controllers/lessonController.js:71 | `Lesson.findById` finds a lesson with that id, and nothing exactly when there is none |
| Store.FindUserByEmail | server/controllers/authController.js:59 | `User.findOne({ email })` finds a user with that email, and nothing exactly when there is none |
| Store.Db.NewId | server/controllers/enrollmentController.js:25-29 | each created document gets an id never handed out before |
| Store.Db.InsertUser | server/controllers/authController.js:65-70 | the new user is appended under the next id, nothing else changes, and the store stays consistent |
| Store.Db.InsertCourse | server/controllers/courseController.js:76 | a validated course is appended under the next id, nothing else changes, and the store stays consistent |
| Store.Db.InsertLesson | server/controllers/lessonController.js:53 | a validated lesson is appended under the next id, nothing else changes, and the store stays consistent |
| EnrollmentController.EnrollCourse | server/controllers/enrollmentController.js:7-36 | the handler's steps (find, refuse a duplicate, push and save, create the record) leave the store and the response exactly as `Enroll` says, and keep it consistent |
| EnrollmentController.EnrollKeepsConsistent | server/controllers/enrollmentController.js:7-36 | enrolling keeps the store consistent, including the unique (student, course) index |
| EnrollmentController.EnrollMissingCourse | server/controllers/enrollmentController.js:11-13 | an unknown course gives 404 "Course not found" and changes nothing |
| EnrollmentController.EnrollAlreadyEnrolled | server/controllers/enrollmentController.js:16-18 | a caller already in `students` gets 400 "Already enrolled" and nothing changes |
| EnrollmentController.EnrollSucceeds | server/controllers/enrollmentController.js:21-31 | on success the caller is appended to that course's `students`, one empty, uncompleted record is added, and nothing else changes |
| EnrollmentController.EnrollPartialFailure | server/controllers/enrollmentController.js:21-35 | when a record for the pair exists but the caller is not in `students`, the course is saved with the caller and the answer is 500: the two writes are not atomic |
| EnrollmentController.EnrollTwice | server/controllers/enrollmentController.js:16-29 | after a successful enroll a second one is refused with 400 and there is exactly one record for the pair |
| EnrollmentController.Populate | server/controllers/enrollmentController.js:46 | `populate('completedLessons')` yields only existing lessons whose ids were listed, never more than listed |
| EnrollmentController.PopulateKeepsAll | server/controllers/enrollmentController.js:46 | when every listed lesson exists, none is dropped |
| EnrollmentController.GetProgress | server/controllers/enrollmentController.js:41-56 | 404 "Progress not found" exactly when the caller has no record for the course; otherwise the caller's record for that course: its id and `isCompleted`, and its completed lessons populated with the stored lesson documents |
| EnrollmentController.UpdateProgressIn | server/controllers/enrollmentController.js:61-86 | the handler's steps leave the store and the response exactly as `UpdateProgress` says, and keep it consistent |
| EnrollmentController.UpdateKeepsConsistent | server/controllers/enrollmentController.js:61-86 | marking a lesson keeps the store consistent |
| EnrollmentController.UpdateProgressNotEnrolled | server/controllers/enrollmentController.js:70-72 | with no record for the pair the answer is 404 "Not enrolled or progress not found" and nothing changes |
| EnrollmentController.UpdateProgressIdempotent | server/controllers/enrollmentController.js:77-80 | marking the same lesson twice is the same as marking it once |
| EnrollmentController.UpdateProgressAppendsOnce | server/controllers/enrollmentController.js:77-82 | the record's list grows only by the lesson id, at the end, when absent; no duplicate appears and nothing else changes |
| EnrollmentController.UpdateProgressIgnoresLessons | server/controllers/enrollmentController.js:74-80 | the lesson id is recorded without looking at the lessons collection |
| EnrollmentController.Summary | server/controllers/enrollmentController.js:93-97 | the populated course is present exactly when a course with that id exists |
| EnrollmentController.GetMyCourses | server/controllers/enrollmentController.js:91-102 | one entry per record of the caller |
| EnrollmentController.MyCoursesOf | server/controllers/enrollmentController.js:93-98 | every entry belongs to the caller, one per record of theirs |
| EnrollmentController.MyCoursesAreRecords | server/controllers/enrollmentController.js:93-98 | the list is the caller's records in store order, each with its course summary |
| EnrollmentController.RemoveStudentFrom | server/controllers/enrollmentController.js:108-128 | the handler's steps leave the store and the response exactly as `RemoveStudent` says, and keep it consistent |
| EnrollmentController.RemoveKeepsConsistent | server/controllers/enrollmentController.js:108-128 | removing a student keeps the store consistent |
| EnrollmentController.RemoveStudentEffect | server/controllers/enrollmentController.js:115-121 | afterwards the student is not in the course's list, every other student still is, nobody is added, their record is gone and every other record stays; users, lessons and every other course are unchanged |
| EnrollmentController.RemoveKeepsOrder | server/controllers/enrollmentController.js:110-116 | after a removal the course's list is the old list without the student, in the old order: split the old list anywhere and the new one is what remains of the first part followed by what remains of the second |
| EnrollmentController.LedgerNeverCompletes | server/controllers/enrollmentController.js:7-128 | no handler of the ledger ever sets `isCompleted` |
| CourseController.ParseIntDecimal | server/controllers/courseController.js:9-10 | `parseInt` reads back any decimal page or limit |
| CourseController.PaginationDefaults | server/controllers/courseController.js:9-10 | an absent, non-numeric or zero page is 1 and an absent, non-numeric or zero limit is 50; other decimal values are used as given |
| CourseController.NegativePageKept | server/controllers/courseController.js:9-10 | every negative page or limit `-n` is accepted as it is |
| CourseController.HexAndInfinity | server/controllers/courseController.js:9 | `parseInt` reads a `0x` prefix as hexadecimal, and `Infinity` is `NaN`, so the page defaults to 1 |
| CourseController.PageParam | server/controllers/courseController.js:9 | the page is never 0 |
| CourseController.LimitParam | server/controllers/courseController.js:10 | the limit is never 0 |
| CourseController.PagesBounds | server/controllers/courseController.js:37 | with a positive limit, `Math.ceil(total / limit)` is 0 exactly when there are no results, and otherwise the last page holds the last result |
| CourseController.Window | server/controllers/courseController.js:27-29 | `skip(skip).limit(limit)` fails exactly on a negative skip; otherwise it returns the results from `skip` on, at most `abs(limit)` of them, in order |
| CourseController.GetCourses | server/controllers/courseController.js:7-44 | a search term makes the handler answer 500; a listing counts its own data, totals the courses of the instructor filter and contains only such courses |
| CourseController.NegativeSkipFails | server/controllers/courseController.js:23-29 | a page and limit with a negative skip give 500 |
| CourseController.PageOfResult | server/controllers/courseController.js:23-37 | with a positive limit every matching course appears on exactly one page, at its place, and that page is within `pages` |
| CourseController.ListingShape | server/controllers/courseController.js:23-39 | an accepted listing is the selected page's window of the matching courses, with their total, the page and the page count |
| CourseController.PageWithinPages | server/controllers/courseController.js:37 | the page holding a result is one of the pages reported |
| CourseController.GetCourse | server/controllers/courseController.js:49-64 | 404 "Course not found" exactly when no course has the id; otherwise that course with exactly its lessons |
| CourseController.CreateCourseIn | server/controllers/courseController.js:69-98 | the handler's steps leave the store and the response exactly as `CreateCourse` says, and keep it consistent |
| CourseController.CreateKeepsConsistent | server/controllers/courseController.js:69-98 | creating a course keeps the store consistent |
| CourseController.CreatorIsInstructor | server/controllers/courseController.js:74 | a created course's instructor is the caller whatever the body says, and the answer is 201 |
| CourseController.CreateOutcome | server/controllers/courseController.js:76-95 | a body missing the title, description or category is refused with 400 and nothing is stored; a complete one is appended under a fresh id |
| CourseController.ApplyPatch | server/controllers/courseController.js:116-119 | the update validators fail exactly on a title that is blank once trimmed, an empty description or an empty category; otherwise the title is the body's trimmed title, every other field the body's value where given and the old one where not, the id is kept and the course stays well-formed |
| CourseController.UpdateCourseIn | server/controllers/courseController.js:103-135 | the handler's steps leave the store and the response exactly as `UpdateCourse` says, and keep it consistent |
| CourseController.UpdateKeepsConsistent | server/controllers/courseController.js:103-135 | updating a course keeps the store consistent |
| CourseController.ManageGuards | server/controllers/courseController.js:105-114 | update and delete answer 404 for an unknown course and 403 for a caller who is neither its instructor nor an admin, changing nothing |
| CourseController.UpdateCourseWrites | server/controllers/courseController.js:103-134 | for the instructor or an admin, an update fails with 500 and changes nothing exactly when the validators reject the body; otherwise the course at its place becomes the patched course, with the body's title trimmed |
| CourseController.UpdateTouchesOneCourse | server/controllers/courseController.js:116-131 | a successful update answers 200 with the course under the same id and changes no other course, lesson, record or user |
| CourseController.Without | server/controllers/courseController.js:153 | removing the course at an index keeps every other course, in order |
| CourseController.WithoutDropsOne | server/controllers/courseController.js:153 | with distinct ids, no course left has the removed course's id and every other course stays |
| CourseController.DeleteCourseIn | server/models/Course.js:37-41 | the corrected delete's steps leave the store and the response exactly as `DeleteCourseCascade` says, and keep it consistent |
| CourseController.DeleteKeepsConsistent | server/controllers/courseController.js:140-160 | both the delete as written and the cascading delete keep the store consistent |
| CourseController.DeleteLeavesOrphans | server/controllers/courseController.js:153 | in a consistent store, after a delete as written the course is gone and every other course stays, while its lessons and progress records all stay |
| CourseController.CascadeLeavesNoLessons | server/models/Course.js:37-41 | after the cascading delete no lesson refers to the course and every other lesson is kept |
| LessonController.NormalizeVideoUrl | server/controllers/lessonController.js:32-51 | the normalised video URL is the value as given or an embed link |
| LessonController.FromLink | server/controllers/lessonController.js:38-44 | a parsed link either becomes an embed link or is kept as given |
| LessonController.NormalizeField | server/controllers/lessonController.js:31-32 | an absent or empty `videoUrl` is passed on untouched; any other is normalised |
| LessonController.NormalizeBareId | server/controllers/lessonController.js:35-36 | a bare 11-character id becomes its embed link |
| LessonController.NormalizeWatchLink | server/controllers/lessonController.js:38-40 | a `youtube.com/watch?v=<id>` link becomes the embed link of `<id>` |
| LessonController.WatchLinkParts | server/controllers/lessonController.js:38-39 | `new URL` splits a watch link into scheme, host, path and the `v` query |
| LessonController.NormalizeShortLink | server/controllers/lessonController.js:41-43 | a `youtu.be/<id>` link becomes the embed link of `<id>`, whatever the id's length |
| LessonController.NormalizeKeepsUnparsable | server/controllers/lessonController.js:47-50 | a value `new URL` rejects, and that is not a bare id, is kept as given |
| LessonController.NormalizeStable | server/controllers/lessonController.js:83-98 | an embed link is left as it is when saved again: normalising is idempotent on its own output |
| LessonController.EmbedLinkParts | server/controllers/lessonController.js:38 | an embed link parses to the `www.youtube.com` host and the `/embed/<id>` path |
| LessonController.EmbedTrimmed | server/models/Lesson.js:18-22 | the `trim` setter leaves an embed link unchanged |
| LessonController.AddLessonIn | server/controllers/lessonController.js:9-64 | the handler's steps leave the store and the response exactly as `AddLesson` says, and keep it consistent |
| LessonController.AddKeepsConsistent | server/controllers/lessonController.js:9-64 | adding a lesson keeps the store consistent |
| LessonController.AddLessonOutcome | server/controllers/lessonController.js:17-55 | the new lesson belongs to the route's course whatever the body says and is stored last under a fresh id with 201; an unknown course is 404 and a caller who may not manage it is 403, with nothing changed |
| LessonController.AddLessonValidation | server/controllers/lessonController.js:53-60 | a draft failing the schema is refused with 400 and its messages joined by ", "; a passing one is accepted |
| LessonController.AddLessonStoresEmbed | server/controllers/lessonController.js:35-36 | a lesson added with a bare video id is stored with the embed link |
| LessonController.ApplyLessonPatch | server/controllers/lessonController.js:104-107 | an update fails exactly on a blank title, a blank video URL or a type outside the enum; otherwise the title and video URL are the body's trimmed, the type the parsed enum value, content, duration, course and order the body's where given, every absent field keeps its old value, the id is kept and the lesson stays well-formed |
| LessonController.UpdateLessonIn | server/controllers/lessonController.js:69-113 | the handler's steps leave the store and the response exactly as `UpdateLesson` says, and keep it consistent |
| LessonController.UpdateKeepsConsistent | server/controllers/lessonController.js:69-113 | updating a lesson keeps the store consistent |
| LessonController.UpdateLessonWrites | server/controllers/lessonController.js:69-112 | for the course's instructor or an admin, an update fails with 500 and changes nothing exactly when the patch (video URL normalised) is rejected; otherwise the lesson at its place becomes the patched lesson, with the body's title trimmed |
| LessonController.UpdateTouchesOneLesson | server/controllers/lessonController.js:104-109 | a successful update replaces that one lesson under its id and changes no course, record or user; a `course` in the body moves the lesson |
| LessonController.WithoutLesson | server/controllers/lessonController.js:132 | removing a lesson leaves one fewer and adds none |
| LessonController.DeleteLessonIn | server/controllers/lessonController.js:118-137 | the handler's steps leave the store and the response exactly as `DeleteLesson` says, and keep it consistent |
| LessonController.DeleteKeepsConsistent | server/controllers/lessonController.js:118-137 | deleting a lesson keeps the store consistent |
| LessonController.LessonGuards | server/controllers/lessonController.js:71-81 | update and delete answer 404 for an unknown lesson and 403 for a caller who may not manage its course, changing nothing |
| LessonController.DeleteRemovesOne | server/controllers/lessonController.js:132-133 | a successful delete removes exactly the first lesson with that id, keeps the others in order and leaves courses and records alone |
| LessonController.OrphanLessonsAreStuck | server/controllers/lessonController.js:77-79 | in a consistent store, after a course is deleted as written, updating or deleting one of its lessons is 500 for every caller |
| LessonController.CascadeLeavesNoStuckLessons | server/models/Course.js:37-41 | after the cascading delete no stored lesson refers to the deleted course |
| AnalyticsController.CompletionRate | server/controllers/analyticsController.js:58 | no enrollments give 0; otherwise the rate is the percentage rounded to the nearest integer, halves up |
| AnalyticsController.CompletionRateBounds | server/controllers/analyticsController.js:58 | a rate lies between 0 and 100; none completed gives 0 and all completed gives 100 |
| AnalyticsController.StatOf | server/controllers/analyticsController.js:49-59 | a course's entry carries its title, never more completions than enrollments, and a rate of at most 100 |
| AnalyticsController.InstructorStats | server/controllers/analyticsController.js:39-71 | one entry per course of the caller, in query order; `totalCourses` is their number and `totalStudents` the sum of their enrollments, which in a consistent store is the number of the caller's courses' progress records |
| AnalyticsController.TotalStudentsCountsRecords | server/controllers/analyticsController.js:47-52 | for any list of courses with distinct ids, the summed enrollments are the number of progress records of those courses, each counted once |
| AnalyticsController.InstructorTotalCountsRecords | server/controllers/analyticsController.js:39-52 | in a consistent store, `totalStudents` is the number of progress records of the instructor's courses, each counted once |
| AnalyticsController.NoCompletionsReported | server/controllers/analyticsController.js:50-58 | as nothing sets `isCompleted`, every course reports 0 completions and a rate of 0 |
| AnalyticsController.StudentStats | server/controllers/analyticsController.js:76-107 | 500 exactly when one of the caller's records has lost its course; otherwise one entry per record, with completed and in-progress counts adding up to the total |
| AnalyticsController.Summarize | server/controllers/analyticsController.js:81-102 | the pass over the records fails exactly on a record whose course is gone, and otherwise summarises every record |
| AnalyticsController.AdminStats | server/controllers/analyticsController.js:8-34 | the totals are the sizes of the users, courses and progress collections; the role groups are exactly the roles that occur, each with the number of users of that role, at least one and at most all users |
| AnalyticsController.EnrollmentTotal | server/controllers/analyticsController.js:12 | `totalEnrollments` rises by one with each successful enroll and stays the same after a refused one |
| AuthController.Sign | server/controllers/authController.js:5-16 | a signed token is never empty |
| AuthController.Verify | server/controllers/authController.js:114 | a token that verifies has not expired |
| AuthController.DecodeSign | server/controllers/authController.js:5-16 | a signed token decodes back to its claims and key |
| AuthController.VerifySign | server/controllers/authController.js:114 | a token verifies exactly under the key that signed it and before its expiry, and yields the claims it was signed with |
| AuthController.TokensDifferOnlyInExpiry | server/controllers/authController.js:5-16 | access and refresh tokens carry the same payload and verify for 900 and 604800 seconds respectively |
| AuthController.SendTokenResponse | server/controllers/authController.js:18-46 | the reply sets a seven-day refresh-token cookie and a fifteen-minute access-token cookie, both `httpOnly`, `lax` and `secure` only in production, and its body is the user's profile without a token |
| AuthController.Receive | server/controllers/authController.js:31-37 | receiving a cookie changes no cookie of another name |
| AuthController.Lookup | server/controllers/authController.js:107 | the browser sends only a stored value under that name |
| AuthController.RegisterIn | server/controllers/authController.js:51-81 | the handler's steps leave the store and the reply exactly as `Register` says, and keep it consistent |
| AuthController.RegisterKeepsConsistent | server/controllers/authController.js:51-81 | registering keeps the store consistent |
| AuthController.RegisterOutcome | server/controllers/authController.js:54-73 | a missing field gives 400 "Please add all fields" and a taken email 400 "User already exists", adding nobody; otherwise exactly one user with the given role, or student, is appended and answered with 201 |
| AuthController.RegisterKeepsEmailsUnique | server/controllers/authController.js:59-63 | registration keeps emails unique |
| AuthController.Login | server/controllers/authController.js:86-101 | login succeeds exactly for the first user with that email when the password matches; every failure is the same 401 with no cookies |
| AuthController.LoginCorrect | server/controllers/authController.js:90-95 | with unique emails, login succeeds exactly for a stored email and its password, and answers that user's profile with 200 |
| AuthController.CookiesLiveAsLongAsTokens | server/controllers/authController.js:23-37 | after register or login the browser sends each cookie exactly while the token it holds still verifies, and that token names the user |
| AuthController.Refresh | server/controllers/authController.js:106-137 | success sets only a new access-token cookie; every failure is 401 and sets no cookie |
| AuthController.RefreshOutcome | server/controllers/authController.js:107-132 | refresh succeeds exactly for a truthy cookie that verifies and whose user still exists, and the new access token is for that user; no cookie gives 401 "Not authorized, no refresh token" |
| AuthController.RefreshKeepsRefreshToken | server/controllers/authController.js:123-130 | the refresh token is not rotated: after a refresh the browser holds the same refresh cookie |
| AuthController.Logout | server/controllers/authController.js:142-152 | logout always answers 200 and overwrites both cookies with an empty value expiring at the epoch |
| AuthController.LogoutClearsJar | server/controllers/authController.js:143-150 | after logout the browser holds neither token, whatever it held before |
| AuthMiddleware.Authenticate | server/middleware/authMiddleware.js:9-29 | every failure of the token check or the user lookup is the single plain 401 "Not authorized" |
| AuthMiddleware.Protect | server/middleware/authMiddleware.js:4-36 | every response `protect` writes is a 401, and it writes at least one whenever it stops the request |
| AuthMiddleware.EmptyTokenFails | server/middleware/authMiddleware.js:15 | an empty token never verifies |
| AuthMiddleware.NoHeaderNoEntry | server/middleware/authMiddleware.js:8-35 | without a header starting with "Bearer" the answer is the single 401 "Not authorized, no token" |
| AuthMiddleware.BareBearerAnswersTwice | server/middleware/authMiddleware.js:8-35 | the header "Bearer" alone makes `protect` send the catch's 401, then try a second "no token" 401 on the response already sent |
| AuthMiddleware.ProtectAcceptsExactly | server/middleware/authMiddleware.js:8-25 | `Bearer <token>` is admitted exactly when the token verifies now and names a stored user, and the next handler sees that user's profile; otherwise one plain 401 |
| AuthMiddleware.HeaderToken | server/middleware/authMiddleware.js:11 | the token taken from `Bearer <token>` is the token itself when it has no space |
| AuthMiddleware.TokenHasNoSpace | server/controllers/authController.js:5-16 | a signed token holds no space, so it survives the header split |
| AuthMiddleware.RefreshTokenPassesProtect | server/middleware/authMiddleware.js:15 | a refresh token sent in the header is admitted like an access token for its whole seven days |
| AuthMiddleware.Authorize | server/middleware/authMiddleware.js:39-46 | the request goes on exactly when the user's role is listed, unchanged; otherwise 403 with the message naming the role |
| AuthMiddleware.GuardAdmits | server/routes/courseRoutes.js:32-37 | a route guarded by `protect` and `authorize` runs only for an authenticated user whose role is listed, and for every such user |
| AuthMiddleware.CookieSessionRejected | server/middleware/authMiddleware.js:8-35 | after login the browser holds a valid access-token cookie, yet `protect` without a header answers 401 "no token" |
| AuthMiddleware.ProtectWithCookie | server/middleware/authMiddleware.js:4-36 | with a Bearer header the repaired guard behaves exactly as `protect` |
| AuthMiddleware.CookieSessionAdmitted | server/middleware/authMiddleware.js:4-36 | with the cookie fallback, the session login set is admitted as that user for fifteen minutes |
| AuthContext.Dispatch | client/src/context/AuthContext.jsx:13-44 | a request through the interceptor uses at most the answers it is given, and one still pending has used them all |
| AuthContext.MarkedOrOtherErrorRejected | client/src/context/AuthContext.jsx:22-37 | a request already marked, or rejected with a status other than 401, is rejected with its own status and uses one answer, with no refresh |
| AuthContext.RetriedOnce | client/src/context/AuthContext.jsx:22-29 | after a 401 and a successful refresh the request is re-issued exactly once, and that answer is final |
| AuthContext.RefreshFailureClears | client/src/context/AuthContext.jsx:30-35 | a refresh rejected with a status other than 401 clears the session and the request is rejected with the refresh's status |
| AuthContext.UnauthorizedForeverHangs | client/src/context/AuthContext.jsx:22-29 | when the server answers only 401, an unmarked request never settles, however many answers come |
| AuthContext.DispatchFixed | client/src/context/AuthContext.jsx:13-44 | the repaired interceptor uses at most the answers it is given |
| AuthContext.MarkedTakesOne | client/src/context/AuthContext.jsx:22-37 | under the repair a marked request settles on one answer and never clears the session |
| AuthContext.FixedSettles | client/src/context/AuthContext.jsx:22-35 | under the repair every request settles within three answers |
| AuthContext.FixedAgreesOtherwise | client/src/context/AuthContext.jsx:22-37 | the repair behaves as the original unless the refresh itself is answered 401 |
| AuthContext.AfterCheck | client/src/context/AuthContext.jsx:47-62 | the initial check sets `user` to the `/me` body or to null on failure, and ends `loading` once the request settles |
| AuthContext.StartupWithoutSessionNeverRenders | client/src/context/AuthContext.jsx:47-87 | with no session every answer is 401, so `loading` stays true and nothing below the provider renders |
| AuthContext.AuthProvider.constructor | client/src/context/AuthContext.jsx:9-10 | the provider starts with no user and `loading` true |
| AuthContext.AuthProvider.Request | client/src/context/AuthContext.jsx:13-44 | the interceptor's steps settle the request as `Dispatch` says, mark the config on a first 401, and clear the session only when a refresh fails |
| AuthContext.AuthProvider.CheckAuth | client/src/context/AuthContext.jsx:47-62 | the check on mount leaves the state that `AfterCheck` describes |
| AuthContext.AuthProvider.SignIn | client/src/context/AuthContext.jsx:64-74 | login and register set `user` to the answered profile on success; a rejection only passes on the interceptor's effect |
| AuthContext.AuthProvider.Logout | client/src/context/AuthContext.jsx:76-83 | logout sets `user` to null once the request settles, whether it succeeded or failed |
| WebUrl.Parse | client/src/lib/utils.js:35 | a parsed url with a special scheme always has a non-empty host |
| WebUrl.ParseHttps | server/controllers/lessonController.js:38 | an `https://host/path?query` string made of plain host and path characters parses back to exactly that host, path and query |
| WebUrl.GetFirst | client/src/lib/utils.js:40-41 | `searchParams.get('v')` on a query that starts with `v=<value>` gives that value |
| WebUrl.SliceFrom1 | client/src/lib/utils.js:39 | `pathname.slice(1)` drops the first character, and gives '' for an empty path |
| ClientUtils.MarkerLength | client/src/lib/utils.js:17 | an alternative of the marker group matches at a position only with the length and the closing character of the alternative its first letter selects |
| ClientUtils.LineEnd | client/src/lib/utils.js:17 | `^.*` spans exactly the characters before the first line terminator |
| ClientUtils.LastMarker | client/src/lib/utils.js:17 | the greedy prefix makes the match use the rightmost marker of the first line, and there is none exactly when no marker starts on that line |
| ClientUtils.ThumbnailCapture | client/src/lib/utils.js:17-18 | the captured id never holds `#`, `&` or `?` |
| ClientUtils.Thumbnail | client/src/lib/utils.js:9-26 | null exactly for a falsy url; otherwise the url itself or the `hqdefault.jpg` image of the captured id |
| ClientUtils.ThumbnailIsImage | client/src/lib/utils.js:13-21 | a thumbnail url passes the image-url test |
| ClientUtils.ThumbnailIdempotent | client/src/lib/utils.js:9-26 | taking the thumbnail of a thumbnail changes nothing |
| ClientUtils.ThumbnailFromCapture | client/src/lib/utils.js:20-21 | a non-image url whose capture has eleven characters gives that capture's image |
| ClientUtils.ThumbnailOfEmbed | client/src/lib/utils.js:9-26 | the thumbnail of an embed link with an eleven-character id is the image of that id |
| ClientUtils.ThumbnailOfWatchLink | client/src/lib/utils.js:9-26 | the thumbnail of a `watch?v=` link with an eleven-character id is the image of that id |
| ClientUtils.VideoIdOf | client/src/lib/utils.js:37-42 | the id is the path after its first character on a `youtu.be` host, and the `v` parameter or '' on any other |
| ClientUtils.EmbedUrl | client/src/lib/utils.js:29-48 | '' exactly for a falsy url; otherwise the url itself or an embed link |
| ClientUtils.EmbedUrlIdempotent | client/src/lib/utils.js:29-48 | taking the embed url of an embed url changes nothing |
| ClientUtils.EmbedUrlKeepsEmbed | client/src/lib/utils.js:32 | a stored embed link is shown as it is |
| ClientUtils.EmbedOfShortLink | client/src/lib/utils.js:35-44 | `https://youtu.be/<id>` gives the embed link of `<id>` |
| ClientUtils.EmbedOfWatchLink | client/src/lib/utils.js:35-44 | `https://www.youtube.com/watch?v=<id>` gives the embed link of `<id>` |
| CourseDetail.FirstOpen | client/src/pages/CourseDetail.jsx:26-29 | with lessons, the page opens the first lesson not yet done, or the first lesson when all are done; nothing without lessons |
| CourseDetail.Percentage | client/src/pages/CourseDetail.jsx:67 | with no lessons and nothing completed the page shows 0% |
| CourseDetail.NextLesson | client/src/pages/CourseDetail.jsx:50-53 | the lesson after the current one in course order, none after the last, and the first lesson when the current one is not found |
| CourseDetail.RoundedPercent | client/src/pages/CourseDetail.jsx:67 | rounded, the share of lessons done is at most 100%, and 100% when all are done |
| CourseDetail.RoundedShort | client/src/pages/CourseDetail.jsx:67 | rounded, with fewer than 200 lessons an unfinished course shows less than 100% |
| CourseDetail.RoundedAlmost | client/src/pages/CourseDetail.jsx:67 | rounded, with more than 200 lessons all but one done shows 100% |
| CourseDetail.FlooredPercent | client/src/pages/CourseDetail.jsx:67 | rounded down, the share is at most 100%, and 100% exactly when all are done |
| CourseDetail.SubsetLength | client/src/pages/CourseDetail.jsx:67 | a list of distinct completed lessons is no longer than the course, and as long only when it names every lesson |
| CourseDetail.PercentageBounds | client/src/pages/CourseDetail.jsx:67-131 | for a sound completed list the page shows at most 100%, 100% when every lesson is done, and, under 200 lessons, 100% only then |
| CourseDetail.AlmostDoneShowsComplete | client/src/pages/CourseDetail.jsx:67-131 | with more than 200 lessons, completing all but the last shows 100% and the "Course Completed!" banner |
| CourseDetail.FloorPercentage | client/src/pages/CourseDetail.jsx:67 | rounded down, a course with fewer entries than lessons shows less than 100% |
| CourseDetail.FloorPercentageExact | client/src/pages/CourseDetail.jsx:67-131 | rounded down, 100% is shown exactly when every lesson of a non-empty course is done |
| CourseDetail.ReloadForgetsProgress | client/src/pages/CourseDetail.jsx:28 | completed lessons that come back populated match no id, so after a reload the page opens the first lesson and no button is disabled |
| CourseDetail.RecompletingOverflows | client/src/pages/CourseDetail.jsx:46-97 | a lesson finished before a reload can be marked again; it is listed twice and a one-lesson course shows 200% |
| CourseDetail.FixedResumes | client/src/pages/CourseDetail.jsx:28 | comparing by id, the page reopens at the first lesson not yet done |
| CourseDetail.CoursePage.constructor | client/src/pages/CourseDetail.jsx:10-13 | the page starts with nothing loaded and `loading` true |
| CourseDetail.CoursePage.Load | client/src/pages/CourseDetail.jsx:16-38 | loading always ends; on success the course and progress are set and the opening lesson is chosen when there are lessons; a failure sets nothing else |
| CourseDetail.CoursePage.HandleComplete | client/src/pages/CourseDetail.jsx:40-57 | an accepted request appends the current lesson's id and moves to the next lesson unless it is the last; a failure changes nothing |
| CourseDetail.CoursePage.CompleteLast | client/src/pages/CourseDetail.jsx:40-97 | after the last lesson is marked the page stays on it and its button is disabled |
| QuizPlayer.Blank | client/src/components/QuizPlayer.jsx:6 | a fresh quiz has one empty slot per question |
| QuizPlayer.Selected | client/src/components/QuizPlayer.jsx:13-14 | selecting sets that question's slot to the option and leaves every other slot as it was |
| QuizPlayer.SelectAll | client/src/components/QuizPlayer.jsx:11-16 | selections never change the number of slots |
| QuizPlayer.SelectAllFills | client/src/components/QuizPlayer.jsx:11-16 | a filled slot stays filled and every picked question ends filled |
| QuizPlayer.AnsweringEveryQuestion | client/src/components/QuizPlayer.jsx:11-22 | answering every question, in any order and with changes of mind, leaves no empty slot, so the quiz can be submitted |
| QuizPlayer.FreshQuizMissing | client/src/components/QuizPlayer.jsx:6-19 | a fresh quiz has an empty slot exactly when it has a question |
| QuizPlayer.Player.constructor | client/src/components/QuizPlayer.jsx:6-9 | the player starts with every slot empty, no result, not submitting and no error |
| QuizPlayer.Player.HandleSelect | client/src/components/QuizPlayer.jsx:11-16 | a selection fills its slot unless a result is shown, and changes nothing else |
| QuizPlayer.Player.HandleSubmit | client/src/components/QuizPlayer.jsx:18-37 | with an empty slot nothing is sent and the error asks for every answer; otherwise the result or the failure message is set, submitting ends false, and `onComplete` runs exactly for a passed result |
| QuizPlayer.Player.TryAgain | client/src/components/QuizPlayer.jsx:59-61 | "Try Again" clears the result and empties every slot, keeping their number |
| QuizBuilder.Question.Blank | client/src/components/QuizBuilder.jsx:9 | a new question has empty text, four empty options in a fresh array, and option 0 marked correct |
| QuizBuilder.Question.Edited | client/src/components/QuizBuilder.jsx:15 | the edited copy differs from the original only in the named field and shares its options array |
| QuizBuilder.AddQuestion | client/src/components/QuizBuilder.jsx:6-11 | the list handed on is the old list with one new blank question at the end |
| QuizBuilder.UpdateQuestion | client/src/components/QuizBuilder.jsx:13-17 | only the question at the index is replaced, by a new copy that changes the named field and shares the options array |
| QuizBuilder.UpdateOption | client/src/components/QuizBuilder.jsx:19-23 | the option is written into the shared array, so the caller's list sees it; no other option changes |
| QuizBuilder.RemoveAt | client/src/components/QuizBuilder.jsx:25-28 | removing at an index in range drops exactly that question and keeps the others in order; any other index keeps the list |
| QuizBuilder.RemoveKeepsOthers | client/src/components/QuizBuilder.jsx:26 | removing a question leaves the questions before it followed by those after it |
| QuizBuilder.EditThroughCopy | client/src/components/QuizBuilder.jsx:13-23 | after a text edit and an option edit, the option shows through both the new and the previous list |
| StudentDashboard.ArrayOrEmpty | client/src/pages/Dashboards/StudentDashboard.jsx:38-40 | an array body is kept as it is and any other body becomes the empty list |
| StudentDashboard.CourseCards | client/src/pages/Dashboards/StudentDashboard.jsx:38 | the explore list holds one card per course, in order |
| StudentDashboard.MyCards | client/src/pages/Dashboards/StudentDashboard.jsx:40-44 | the my-courses list has one card per enrollment whose course still exists, each with a title and the record's id |
| StudentDashboard.MyCardsAreEnrollments | client/src/pages/Dashboards/StudentDashboard.jsx:41-44 | a card is on the my-courses list exactly when it is made from an enrollment whose course still exists |
| StudentDashboard.Load | client/src/pages/Dashboards/StudentDashboard.jsx:28-54 | both lists are set exactly when both requests succeed, and the my-courses list is the cards of the enrollments |
| StudentDashboard.HandleEnroll | client/src/pages/Dashboards/StudentDashboard.jsx:56-78 | the lists are replaced as on load exactly when the enroll and both reloads succeed; any rejection keeps the lists and shows an error, the enroll's own message when the enroll fails |
| StudentDashboard.EnrolledCourseListed | client/src/pages/Dashboards/StudentDashboard.jsx:56-70 | after the server accepts an enrollment, the reload lists the course on the caller's my-courses list with the new record's id, and no error is shown |
| StudentDashboard.CoursesToShow | client/src/pages/Dashboards/StudentDashboard.jsx:84-90 | a card is shown exactly when it is on the list of the current view and its title or category holds the search, ignoring case |
| StudentDashboard.SearchKeepsOrder | client/src/pages/Dashboards/StudentDashboard.jsx:84-90 | the search works card by card in list order: a list `a + b` shows the matches of `a` then those of `b`, and one card is shown once exactly when it matches |
| StudentDashboard.LowerIdempotent | client/src/pages/Dashboards/StudentDashboard.jsx:88-89 | lowering a string twice is lowering it once |
| StudentDashboard.SearchIgnoresCase | client/src/pages/Dashboards/StudentDashboard.jsx:87-90 | searching for the lowered text shows the same cards as searching for the text |
| StudentDashboard.FilterKeepsAll | client/src/pages/Dashboards/StudentDashboard.jsx:87-90 | a filter whose test every card passes keeps the list, in order |
| StudentDashboard.EmptySearchShowsAll | client/src/pages/Dashboards/StudentDashboard.jsx:87-90 | an empty search shows the whole list of the view, in order |
| StudentDashboard.ExploreAlwaysEmpty | client/src/pages/Dashboards/StudentDashboard.jsx:38 | because `getCourses` answers with an object, the explore view shows no course, whatever the store holds and whatever is searched |
| StudentDashboard.LoadFixed | client/src/pages/Dashboards/StudentDashboard.jsx:28-54 | with the listing's `data` read, the explore list is the cards of the listed courses and the my-courses list the cards of the enrollments |
| StudentDashboard.ExploreShowsFirstPage | client/src/pages/Dashboards/StudentDashboard.jsx:38-90 | with the fix and an empty search, the explore view shows the first fifty courses of the store, in order |
| StudentDashboard.ExploreMarksEnrollments | client/src/pages/Dashboards/StudentDashboard.jsx:164-169 | with the fix, an explore card is marked enrolled exactly when the caller has a record for that course and the course exists |
| PrivateRoute.Decide | client/src/components/PrivateRoute.jsx:4-16 | the page renders exactly for a signed-in user whose role is listed, when roles are given; a signed-out user goes to `/login`, any other to `/` |
| PrivateRoute.EmptyRolesAdmitNobody | client/src/components/PrivateRoute.jsx:11-13 | an empty roles list admits nobody |
| PrivateRoute.WiderRolesAdmitMore | client/src/components/PrivateRoute.jsx:11-13 | adding roles never turns away a user who was admitted |
| AppRoutes.Landing | client/src/App.jsx:18-25 | without a user the root goes to `/login`; an admin to `/admin`, an instructor to `/instructor`, every other role to `/student` |
| AppRoutes.SectionLetters | client/src/App.jsx:39-62 | the root, the public pages and the three sections are told apart by the character after the leading slash |
| AppRoutes.RouteOf | client/src/App.jsx:39-62 | a path, compared without regard to ASCII case and with any trailing slashes, is public exactly when it is `/login`, `/register` or `/profile`; the root exactly when it is `/`; and behind the admin, instructor or student guard exactly when it matches one of that section's patterns (splat, `:id` segment or exact) |
| AppRoutes.CaseAndSlashes | client/src/App.jsx:45-56 | `/Admin` and `/admin/` open the admin section, `/INSTRUCTOR/courses//` the instructor's and `/Student/Course/X1` the student's; `/administrator` matches no route |
| AppRoutes.Visit | client/src/App.jsx:39-62 | an unmatched path renders nothing; public pages render; the root redirects by role; a section renders what its guard decides |
| AppRoutes.LandingPaths | client/src/App.jsx:22-62 | `/` is the root and each landing path is behind its own section's guard |
| AppRoutes.KnownRoleLands | client/src/App.jsx:18-57 | from the root a user of a known role reaches their section, and it renders for them |
| AppRoutes.SignedOutGoesToLogin | client/src/App.jsx:20-62 | without a user the root and every guarded section lead to `/login`, which renders |
| AppRoutes.OtherSectionRefused | client/src/App.jsx:44-57 | a signed-in user in another role's section is sent back to `/` |
| AppRoutes.UnknownRoleCycles | client/src/App.jsx:18-57 | a user of any other role is sent from `/` to `/student` and back for ever, and no page renders |
| CourseController.ParseInt | server/controllers/courseController.js:9-10 | a missing query parameter parses to nothing (`NaN`) |
| Common.RoundHalfUp | client/src/pages/CourseDetail.jsx:67 | `Math.round` of a non-negative fraction is the integer nearest to it, halves rounded up |
| Common.Lower | client/src/pages/Dashboards/StudentDashboard.jsx:88-89 | `toLowerCase` keeps the length and lowers each character |
| Store.FindUser | server/middleware/authMiddleware.js:18 | `findById` finds a user with that id, and nothing exactly when no user has it |

## Left out

- CourseController.GetCourse, CourseController.GetCourses: `.populate('instructor', 'name email')` replaces the instructor id in the answer with `{ _id, name, email }` of that user, or with null when the user was deleted; the model answers with the bare id.
- Database I/O: every Mongoose call (`find`, `findById`, `populate`, `countDocuments`, `save`, `create`, `deleteOne`) is one atomic step on the `Tables` value. Concurrent requests and their interleavings are not modelled.
- Cryptography: a JSON Web Token is modelled as four decimal fields (id, issued-at, expiry, key). Its signature is simply the key, so forgery and any other key-guessing property are out of scope. Password hashing is plain comparison.
- The User model file is not part of this model. So:
  - `User.create` always succeeds;
  - the role is any string, with no enumeration;
  - `matchPassword` is equality.
  This is why `AppRoutes.UnknownRoleCycles` can be reached.
- The clock is a parameter in seconds, and so is the server's secret. Cookie expiry is checked against that clock at whole seconds.
- Socket.io broadcasts after course changes are not modelled: they happen after the response and do not change it.
- The debug log file written by the lesson controller and every `console` call are not modelled.
- Timestamps (`createdAt`, `updatedAt`) are not modelled.
- Floating point: `Math.round` of a percentage is exact round-half-up on rationals (`Common.RoundHalfUp`). IEEE rounding of `x / n * 100` can differ from this by one unit at exact halves.
- `getCourses` with `search` uses a MongoDB `$text` query. `server/models/Course.js` declares no text index, so the server answers 500, and so does the model (`CourseController.GetCourses`); how MongoDB would rank text matches is not modelled.
- Cast errors for malformed ids (the 500 answers Mongoose gives for a non-ObjectId string) are not modelled: ids are naturals.
- `CourseController.ParseInt`: the function follows `parseInt` with no radix (leading JavaScript white space, a sign, a `0x` or `0X` prefix, the longest digit run, `NaN` otherwise). Its own contract states only the missing parameter; the readings of decimal, negative, hexadecimal and `Infinity` inputs are stated by the lemmas beside it.
- `AppRoutes.RouteOf`: it takes the pathname after the browser's percent-decoding, which is not modelled, and lowers ASCII letters only.
- `WebUrl.Parse`: only the parts of the WHATWG URL parser that the helpers read are modelled (scheme, host, path, query). Percent-encoding, IDNA host processing, ports, credentials and IPv6 hosts are not modelled.
- `ClientUtils.ThumbnailCapture`: the regular expression is modelled as the match JavaScript's backtracking finds for this pattern. The `.` in `youtu.be` matches any character but a line terminator.
- `Common.Lower`: only ASCII letters are lowered. JavaScript's `toLowerCase` also maps other Unicode letters.
- The quiz submit route and the lesson's `questions` field do not exist on the server, so no grading is modelled. `QuizPlayer.Player.HandleSubmit` takes the server's answer as a parameter.
- The `/me` request's five-second timeout is not modelled. A request with no answer stays pending (`Hang`), which is what an unbounded refresh loop does.
- `AuthContext`: the axios interceptor's removal on unmount is not modelled. Neither is `getMe` on the server, which answers with the profile `protect` attached (`AuthMiddleware.Protect`'s `Next` user).
- Which of the two requests rejects first under `Promise.all` depends on timing. `StudentDashboard.HandleEnroll` takes the course listing's failure first. The three-second timer that clears the enrollment error is not modelled.
- `StudentDashboard`: `activeTab` is set but never read by the view, which follows the path. `handleContinue` is only navigation.
- The `/profile` route has no role guard and renders for anyone, signed in or not. The profile page itself is not modelled.
- Rendering, styling and the pure-display components are not modelled. Neither is the `cn` class-name helper.
- `AnalyticsController`: the analytics routes are not mounted by the server's entry file. The statistics are modelled as the handler functions, whatever route would reach them.
- `AnalyticsController.AdminStats`: the `$group` result is modelled as a map from role to count. The order of the array MongoDB returns is unspecified and not modelled.

## Findings

| source | as written | input that shows it | evidently intended | confidence | as-written member | corrected member |
|---|---|---|---|---|---|---|
| server/middleware/authMiddleware.js:8-35 | `protect` reads only the `Authorization` header. The server sends tokens only as cookies, and the client never sets the header | a user logs in and then calls any protected route with the cookies the login set | the access-token cookie is accepted when there is no header | not executed | AuthMiddleware.CookieSessionRejected | AuthMiddleware.CookieSessionAdmitted |
| client/src/context/AuthContext.jsx:22-29 | the refresh request goes through the same interceptor with an unmarked config, so a 401 from the refresh starts another refresh | start-up with no session: `/me`, `/refresh`, `/refresh`, ... all answer 401 | the refresh is sent marked, so its 401 is final and the request settles | not executed | AuthContext.UnauthorizedForeverHangs | AuthContext.FixedSettles |
| server/controllers/courseController.js:153 | the cascade hook is registered for `remove`, but the handler calls `deleteOne`, so a deleted course's lessons stay. Updating or deleting such a lesson then answers 500 | delete a course with one lesson, then update that lesson | deleting a course deletes its lessons | not executed | LessonController.OrphanLessonsAreStuck | LessonController.CascadeLeavesNoStuckLessons |
| client/src/pages/Dashboards/StudentDashboard.jsx:38 | the page keeps `/api/courses`'s body only if it is an array, but `getCourses` answers with an object, so the explore view is always empty | any store with a course; open `/student` | the page reads the listing's `data` | not executed | StudentDashboard.ExploreAlwaysEmpty | StudentDashboard.ExploreShowsFirstPage |
| client/src/pages/CourseDetail.jsx:67-131 | the percentage is rounded to the nearest integer, so 100% and "Course Completed!" show with a lesson still open | a course of 201 lessons with 200 completed (99.5% rounds to 100) | 100% only when every lesson is done (rounding down) | not executed | CourseDetail.AlmostDoneShowsComplete | CourseDetail.FloorPercentageExact |
| client/src/pages/CourseDetail.jsx:28 | `getProgress` populates `completedLessons` with lesson documents, and `includes` compares them with ids, so nothing counts as done after a reload | complete the first lesson of a two-lesson course, then reload the page | the page compares by id and reopens at the first lesson not yet done | not executed | CourseDetail.ReloadForgetsProgress | CourseDetail.FixedResumes |
