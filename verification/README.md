# LMS backend service rules in Dafny

This project models the rule-checking core of a NestJS/Prisma learning-management
backend. The system has lecturers who own courses, modules, assignments and quizzes.
Students enroll in courses, read them, submit assignments and take each quiz once.

Every service method is a pure function over an in-memory database `State`. The
`State` holds maps of users, courses, enrollments, course modules, assignments,
assignment submissions, quizzes (with their questions) and quiz submissions. Each
function returns either the exception the service throws (`Err(kind, message)`)
or the new state together with the response.

Some values become parameters of these functions:
- the clock (`now`);
- the ids the database generates;
- the random part of stored file names;
- the password hash function.

The modules follow the services:

- `Wrappers`: `Option`, `Result`, the exception kinds, and JavaScript string
  truthiness.
- `Entities`: the rows, the state, the ownership and enrollment gates, and the
  database invariants (`Valid`: keys match rows, quiz-submission and question
  ids are unique, foreign keys resolve, e-mails are unique). Tables with a
  composite unique key are keyed by that pair.
- `QuizDtos`: the class-validator rules on quiz requests.
- `QuizScoring`: answer-set validation and scoring. `GradeAnswers` is the
  service's counting loop.
- `Quizzes`, `QuizProperties`: the quiz engine, and the properties that relate
  its operations.
- `Courses`, `CourseProperties`, `ModuleAllowList`: course and module
  authoring, the module-type classifier, and its cross-check against the upload
  allow-list.
- `Uploads`: the two multer configurations (allow-lists, file names, size
  limits).
- `Assignments`, `AssignmentProperties`: the assignment service.
- `Enrollments`: the enrollment ledger.
- `Users`: the profile service.
- `Auth`: the bearer-token extractor, the JWT payload mapping and the role
  guard.
- `Text`, `Seqs`, `Sorting`: string, sequence and sorting helpers.

## Model

| member | source | states |
|---|---|---|
| `Entities.ValidHasUniquePairs` | lms-backend/src/enrollments/enrollments.service.ts:30-37 | under the invariants there is at most one enrollment, assignment submission and quiz submission per pair, so the unique-key lookups find at most one row |
| `Sorting.SortBy` | lms-backend/src/quizzes/quizzes.service.ts:65-78 | the question list comes back ascending by `order`, as a permutation of the stored questions |
| `QuizScoring.FindQuestion` | lms-backend/src/quizzes/quizzes.service.ts:467 | the lookup succeeds exactly when some question carries the id. It then returns the first question in list order with that id, as `Array.find` does |
| `QuizScoring.FirstUnknown` | lms-backend/src/quizzes/quizzes.service.ts:466-472 | nothing is reported exactly when every answered id belongs to the quiz. Otherwise the reported id is the first answer, in submission order, whose question the quiz lacks: every earlier answer names a known question |
| `QuizScoring.CountCorrect` | lms-backend/src/quizzes/quizzes.service.ts:473-474 | the number of correct answers never exceeds the number of answers |
| `QuizScoring.GradeAnswers` | lms-backend/src/quizzes/quizzes.service.ts:465-481 | the mapping loop with its running counter yields the graded answers and the count of those marked correct |
| `QuizScoring.CorrectCountIsNumberOfCorrectAnswers` | lms-backend/src/quizzes/quizzes.service.ts:473-474 | `correctCount` equals the number of stored answers whose `isCorrect` holds |
| `QuizScoring.FindsTheNamedQuestion` | lms-backend/src/quizzes/quizzes.service.ts:466-467 | with distinct question ids, looking up a question's id finds exactly that question |
| `QuizScoring.GradedByTheNamedQuestion` | lms-backend/src/quizzes/quizzes.service.ts:466-474 | each stored answer keeps its question id and choice. With distinct question ids it is marked correct iff the question it names has that choice as its correct answer |
| `QuizScoring.CorrectCountBounded` | lms-backend/src/quizzes/quizzes.service.ts:465-484 | with distinct answered question ids, `correctCount <= totalQuestions` and the score lies in 0..100 |
| `QuizScoring.PercentBounded` | lms-backend/src/quizzes/quizzes.service.ts:484 | a count no larger than the total gives a percentage between 0 and 100 |
| `Quizzes.Create` | lms-backend/src/quizzes/quizzes.service.ts:28-86 | a missing course gives NotFound before a foreign course gives Forbidden. On success exactly one quiz is added: it has one question per DTO question with every field copied, and no deadline. The response carries the new id and the request's title, description, duration and course, and lists the questions ascending by `order` without answers |
| `Quizzes.FindOne` | lms-backend/src/quizzes/quizzes.service.ts:211-297 | a missing quiz gives NotFound. A student needs an enrollment (checked first) and an open deadline. The student sees the quiz's title, description, duration and course, and answer-free questions sorted by `order`, and `isCompleted` holds iff a submission exists, whose summary is attached. Any other role must own the course and gets the whole quiz |
| `Quizzes.Update` | lms-backend/src/quizzes/quizzes.service.ts:300-333 | NotFound before Forbidden. `title` changes only when truthy; `description` and `duration` change whenever supplied. Nothing else changes |
| `Quizzes.Delete` | lms-backend/src/quizzes/quizzes.service.ts:343-369 | NotFound before Forbidden. The quiz and its submissions disappear; all other rows are untouched |
| `Quizzes.SubmitQuiz` | lms-backend/src/quizzes/quizzes.service.ts:381-541 | checks run in this order and the first failure wins: missing quiz (NotFound), deadline passed (Forbidden), not enrolled (Forbidden), already submitted (BadRequest), unanswered question (BadRequest), then BadRequest "Question <id> not found" for the first unknown id. On success exactly one row is written under (quiz, student). It holds the per-answer `isCorrect`, the count, the total and `score = correctCount / totalQuestions * 100`. The response repeats the stored id, quiz, title, score, counts and time, and reviews the stored answers against the quiz |
| `Quizzes.GetQuizSubmissions` | lms-backend/src/quizzes/quizzes.service.ts:545-582 | NotFound before Forbidden; the header carries the quiz's id, title and description; returns exactly the quiz's submissions, and `totalSubmissions` is their number |
| `Quizzes.GetSubmissionDetail` | lms-backend/src/quizzes/quizzes.service.ts:584-632 | a missing submission gives NotFound. A student reads a submission iff it is their own. A lecturer reads it iff it belongs to a quiz of a course they own. Otherwise it is Forbidden. Submission ids are unique under the invariants, so the row read is the one with that id |
| `Quizzes.FindAllForStudent` | lms-backend/src/quizzes/quizzes.service.ts:171-209 | exactly the quizzes of the student's enrolled courses, each item built from its stored quiz (id, title, course, question count). Each shows whether the student submitted it, the score if so, and the deadline |
| `QuizProperties.SecondSubmitFails` | lms-backend/src/quizzes/quizzes.service.ts:438-450 | after a successful submit, the same student's next submit of that quiz always fails, with BadRequest while the deadline is open |
| `QuizProperties.SubmitPreservesValid` | lms-backend/src/quizzes/quizzes.service.ts:487-499 | a submission under a fresh id keeps keys, the unique submission ids, foreign keys and unique e-mails intact |
| `QuizProperties.SubmitThenFindOneIsCompleted` | lms-backend/src/quizzes/quizzes.service.ts:255-290 | after submitting, the student's read shows the quiz completed with the stored score |
| `QuizProperties.SubmitThenVisibleToOwner` | lms-backend/src/quizzes/quizzes.service.ts:559-580 | after submitting, the course owner's submission list contains the new row |
| `QuizProperties.SubmitScoreBounded` | lms-backend/src/quizzes/quizzes.service.ts:465-484 | with distinct answer ids, the stored count is at most the question count and the score is within 0..100 |
| `QuizProperties.SubmitCountsCorrectAnswers` | lms-backend/src/quizzes/quizzes.service.ts:473-484 | the stored `correctCount` equals the number of stored answers marked correct |
| `QuizProperties.SubmitResponseShowsCorrectAnswers` | lms-backend/src/quizzes/quizzes.service.ts:523-540 | for every submitted answer, in order, the response shows the chosen option and the correct answer of the question it names. `isCorrect` is as stored, and it holds iff the two agree |
| `QuizProperties.StoredQuestionIdsDistinct` | lms-backend/src/quizzes/quizzes.service.ts:53-63 | each question is created as its own row with a generated primary key, so under the invariants the question ids of a stored quiz are distinct |
| `QuizProperties.SubmitGradesByNamedQuestion` | lms-backend/src/quizzes/quizzes.service.ts:466-474 | for a stored quiz under the invariants, each answer of a submission is marked correct iff the question it names has the chosen option as its correct answer |
| `QuizProperties.SubmitThenDetailReadable` | lms-backend/src/quizzes/quizzes.service.ts:584-632 | after a submit under a fresh id, the student reads the new row by that id, and so does the lecturer who owns the course |
| `QuizProperties.SubmitThenListedCompleted` | lms-backend/src/quizzes/quizzes.service.ts:194-207 | after a submit, the student's quiz list shows the quiz completed, with the stored score |
| `QuizProperties.EnrollThenQuizzesListed` | lms-backend/src/quizzes/quizzes.service.ts:172-183 | after enrolling in a course, every quiz of that course is in the student's quiz list |
| `QuizProperties.RedactIgnoresAnswers` | lms-backend/src/quizzes/quizzes.service.ts:272-280 | two question lists that differ only in `correctAnswer` redact to the same student view |
| `QuizProperties.StudentReadHidesAnswers` | lms-backend/src/quizzes/quizzes.service.ts:264-290 | changing only the correct answers of a quiz leaves every student read of it unchanged |
| `QuizProperties.ValidCreateHasQuestions` | lms-backend/src/quizzes/dto/create-quiz.dto.ts:29-33 | a quiz created from a validated request has at least one question, so the score division is defined |
| `QuizProperties.CreatePreservesValid` | lms-backend/src/quizzes/quizzes.service.ts:47-64 | creating a quiz under a fresh quiz id and fresh, distinct question ids keeps every invariant, question ids staying unique across all quizzes |
| `QuizProperties.CreateThenFindOne` | lms-backend/src/quizzes/quizzes.service.ts:47-86 | the owner reads back the created quiz with questions reordered only. An enrolled student reads it as not completed, with the same questions minus their answers |
| `QuizProperties.UpdateIdempotent` | lms-backend/src/quizzes/quizzes.service.ts:321-329 | repeating an edit changes nothing further |
| `QuizProperties.UpdatePreservesValid` | lms-backend/src/quizzes/quizzes.service.ts:321-329 | editing a quiz keeps every invariant |
| `QuizProperties.DeletePreservesValid` | lms-backend/src/quizzes/quizzes.service.ts:363-365 | deleting a quiz (with its submissions) keeps every invariant |
| `QuizProperties.DeleteThenNotFound` | lms-backend/src/quizzes/quizzes.service.ts:343-365 | after deletion, every read of the quiz is NotFound |
| `QuizProperties.HalfRightScoresFifty` | lms-backend/src/quizzes/quizzes.service.ts:465-484 | two questions with one right answer give `correctCount` 1 and score 50. A second submit is BadRequest |
| `QuizProperties.DuplicateAnswersScoreTwoHundred` | lms-backend/src/quizzes/quizzes.service.ts:453-484 | a validated submission answering one question twice, both correctly, scores 200 with `correctCount` 2 over 1 question |
| `QuizProperties.CheckOrderDiffers` | lms-backend/src/quizzes/quizzes.service.ts:231-252 | for a non-enrolled student past the deadline, `findOne` reports the enrollment while `submitQuiz` reports the deadline |
| `QuizProperties.MissingBeforeUnknown` | lms-backend/src/quizzes/quizzes.service.ts:456-472 | an unanswered question is reported before an answer naming an unknown question |
| `QuizProperties.RepeatedOrderIsValid` | lms-backend/src/quizzes/dto/create-question.dto.ts:28-30 | two questions may share an `order` value |
| `QuizProperties.DuplicateAnswerIdsAreValid` | lms-backend/src/quizzes/dto/submit-quiz.dto.ts:10-25 | answers naming the same question twice pass validation |
| `QuizProperties.ValidatorRejections` | lms-backend/src/quizzes/dto/create-question.dto.ts:4-30 | an answer outside A..D, an `order` below 1, an empty option, a quiz without questions and a submission without answers are all rejected |
| `Uploads.ModuleFileFilter` | lms-backend/src/config/multer.modules.config.ts:23-31 | a module file is accepted iff its MIME type is one of the seven listed; a rejection carries the fixed message |
| `Uploads.StoredFileName` | lms-backend/src/config/multer.modules.config.ts:17-21 | a stored name is the fixed prefix (`module-` here, `course-` in the course image configuration), then the suffix, then the original extension, and the suffix can be read back |
| `Uploads.ModuleLimitIsFiftyMebibytes` | lms-backend/src/config/multer.modules.config.ts:32-34 | 52428800 bytes pass and one more byte does not |
| `Uploads.CourseImageFilterMatchesPattern` | lms-backend/src/config/multer.config.ts:13-21 | the image filter accepts iff the MIME type ends in `/` followed by jpg, jpeg, png, gif or webp |
| `Uploads.ImageFilterAcceptsAnyTopLevelType` | lms-backend/src/config/multer.config.ts:15 | `application/png` is accepted |
| `Uploads.ImageFilterRejectsSvg` | lms-backend/src/config/multer.config.ts:15 | `image/svg+xml` is rejected |
| `Uploads.ImageFilterRejectsXPng` | lms-backend/src/config/multer.config.ts:15 | `image/x-png` is rejected |
| `Uploads.CourseImageLimitIsFiveMebibytes` | lms-backend/src/config/multer.config.ts:23-25 | 5242880 bytes pass and one more byte does not |
| `Courses.FindOne` | lms-backend/src/courses/courses.service.ts:133-187 | a missing course gives NotFound; otherwise the stored course is returned |
| `Courses.ImageUrl` | lms-backend/src/courses/courses.service.ts:206-211 | with a file, the image URL is `/uploads/courses/` followed by the stored name; without one, it is null |
| `Courses.Create` | lms-backend/src/courses/courses.service.ts:196-221 | the new course belongs to the acting lecturer, copies the request fields and is the only change |
| `Courses.Update` | lms-backend/src/courses/courses.service.ts:237-268 | NotFound before Forbidden. Supplied fields are written and absent ones are kept. Id, image and owner never change |
| `Courses.WithoutCourse` | lms-backend/src/courses/courses.service.ts:303-305 | the course is removed with exactly the rows that depend on it |
| `Courses.Remove` | lms-backend/src/courses/courses.service.ts:281-305 | NotFound before Forbidden. On success the course is gone, and the new state is exactly the old one without the course and its dependent rows |
| `Courses.ResolveModuleType` | lms-backend/src/courses/courses.service.ts:325-330 | the first rule that applies decides: a `video/` prefix gives VIDEO, then containing `powerpoint` gives PPT, then containing `pdf` gives PDF, else OTHER |
| `Courses.ModuleFileUrl` | lms-backend/src/courses/courses.service.ts:369 | the module URL is `/uploads/modules/` followed by the stored name |
| `Courses.AddModule` | lms-backend/src/courses/courses.service.ts:332-380 | a missing course gives NotFound, then a foreign course gives Forbidden, then a missing file gives BadRequest. On success the one new module sits in the path course, with the file URL and the classified type |
| `Courses.GetModules` | lms-backend/src/courses/courses.service.ts:395-427 | NotFound first. A lecturer must own the course; any other role must be enrolled. The result is exactly the course's modules |
| `ModuleAllowList.VideoTypesAreVideo` | lms-backend/src/config/multer.modules.config.ts:8-11 | every allowed video type classifies as VIDEO |
| `ModuleAllowList.PowerPointIsPpt` | lms-backend/src/config/multer.modules.config.ts:5 | the allowed ppt type classifies as PPT |
| `ModuleAllowList.PdfIsPdf` | lms-backend/src/config/multer.modules.config.ts:7 | the allowed pdf type classifies as PDF |
| `ModuleAllowList.PptxIsOther` | lms-backend/src/config/multer.modules.config.ts:6 | the pptx type contains neither `powerpoint` nor `pdf` and classifies as OTHER |
| `ModuleAllowList.OnlyPptxIsOther` | lms-backend/src/config/multer.modules.config.ts:4-12 | among accepted module types, OTHER is given to pptx and to nothing else |
| `CourseProperties.CreateThenOwned` | lms-backend/src/courses/courses.service.ts:213-221 | the creator finds the new course and passes its ownership gate |
| `CourseProperties.CreatePreservesValid` | lms-backend/src/courses/courses.service.ts:213-221 | creating a course keeps every invariant |
| `CourseProperties.UpdateIdempotent` | lms-backend/src/courses/courses.service.ts:261-268 | repeating an edit changes nothing further |
| `CourseProperties.UpdatePreservesValid` | lms-backend/src/courses/courses.service.ts:261-268 | editing a course keeps every invariant |
| `CourseProperties.RemovePreservesValid` | lms-backend/src/courses/courses.service.ts:303-305 | removing a course with its dependants leaves no dangling reference |
| `CourseProperties.RemoveThenNotFound` | lms-backend/src/courses/courses.service.ts:183-185 | after removal, reading the course or its modules gives NotFound |
| `CourseProperties.AddModuleThenListed` | lms-backend/src/courses/courses.service.ts:372-380 | a newly added module appears in the owner's module list |
| `CourseProperties.AddModulePreservesValid` | lms-backend/src/courses/courses.service.ts:372-380 | adding a module keeps every invariant |
| `CourseProperties.CreateCountsForLecturer` | lms-backend/src/users/users.service.ts:83-111 | creating a course raises the creator's lecturer course count by exactly one |
| `CourseProperties.WhitelistedRequestsLeaveBriefAlone` | lms-backend/src/main.ts:17-23 | requests without `brief`, which are all the validation pipe lets through, create courses without one and never change it |
| `Assignments.OwnSubmission` | lms-backend/src/assignments/assignments.service.ts:109-116 | the student's submission is found iff a row exists under (assignment, student) |
| `Assignments.SubmissionsOf` | lms-backend/src/assignments/assignments.service.ts:134-148 | exactly the submissions of the assignment |
| `Assignments.StudentItem` | lms-backend/src/assignments/assignments.service.ts:64-74 | `isSubmitted` holds iff the student's own submission is attached |
| `Assignments.FindAll` | lms-backend/src/assignments/assignments.service.ts:14-75 | a lecturer gets exactly the assignments of owned courses, with submission counts. Anyone else gets exactly those of enrolled courses, each marked with their own submission |
| `Assignments.FindOne` | lms-backend/src/assignments/assignments.service.ts:77-164 | NotFound, then Forbidden for a lecturer who does not own the course, then Forbidden for a student who is not enrolled. A student sees the assignment, their own submission under (assignment, student), and `isSubmitted` iff it exists. A lecturer sees every submission and the count |
| `Assignments.Create` | lms-backend/src/assignments/assignments.service.ts:177-193 | NotFound before Forbidden. Only title, description and course are written; code, brief and due date stay empty |
| `Assignments.Update` | lms-backend/src/assignments/assignments.service.ts:195-218 | NotFound before Forbidden. Title and description change only when supplied; every other field, `dueDate`, `code` and `brief` included, stays |
| `Assignments.Remove` | lms-backend/src/assignments/assignments.service.ts:220-233 | NotFound before Forbidden. The assignment and its submissions disappear |
| `Assignments.Submit` | lms-backend/src/assignments/assignments.service.ts:234-246 | no service check. A row is written unless the storage key already holds one or the assignment is missing, both storage errors |
| `Assignments.GetStudentAssignments` | lms-backend/src/assignments/assignments.service.ts:248-296 | Forbidden when not enrolled; otherwise exactly the course's assignments, each with the student's own submission |
| `Assignments.GetAssignmentSubmissions` | lms-backend/src/assignments/assignments.service.ts:298-339 | NotFound before Forbidden; the stored assignment, exactly its submissions, and `totalSubmissions` is their number |
| `AssignmentProperties.OwnSubmissionIsTheFilteredOne` | lms-backend/src/assignments/assignments.service.ts:50-57 | the student's submissions filtered by row fields are just the row under the key, or none, so the first of them is that row |
| `AssignmentProperties.SubmitChecksNoEnrollment` | lms-backend/src/assignments/assignments.service.ts:234-246 | a student without any enrollment submits successfully |
| `AssignmentProperties.SecondSubmitRejectedByStorage` | lms-backend/src/assignments/assignments.service.ts:239-245 | a second submit by the same student fails only through the storage key |
| `AssignmentProperties.SubmitThenSubmitted` | lms-backend/src/assignments/assignments.service.ts:109-131 | after submitting, an enrolled student's read shows the submission |
| `AssignmentProperties.SubmitPreservesValid` | lms-backend/src/assignments/assignments.service.ts:239-245 | a stored submission keeps every invariant |
| `AssignmentProperties.CreatePreservesValid` | lms-backend/src/assignments/assignments.service.ts:186-192 | creating an assignment keeps every invariant |
| `AssignmentProperties.UpdatePreservesValid` | lms-backend/src/assignments/assignments.service.ts:209-217 | editing an assignment keeps every invariant |
| `AssignmentProperties.UpdateIdempotent` | lms-backend/src/assignments/assignments.service.ts:209-217 | repeating an edit changes nothing further |
| `AssignmentProperties.RemovePreservesValid` | lms-backend/src/assignments/assignments.service.ts:230-232 | removing an assignment with its submissions leaves no dangling reference |
| `AssignmentProperties.CourseListingInOverallListing` | lms-backend/src/assignments/assignments.service.ts:36-74 | a student's per-course listing is contained in their overall listing |
| `AssignmentProperties.SubmitThenVisibleToOwner` | lms-backend/src/assignments/assignments.service.ts:298-339 | a stored submission appears in the owning lecturer's submission list of the assignment |
| `Enrollments.EnrollCourse` | lms-backend/src/enrollments/enrollments.service.ts:19-50 | NotFound before the duplicate check. A duplicate gives BadRequest "Already enrolled". On success exactly one (student, course) row is added and nothing else changes |
| `Enrollments.GetStudentEnrollments` | lms-backend/src/enrollments/enrollments.service.ts:52-67 | exactly the enrollments of the student |
| `Enrollments.GetStudentsByCourse` | lms-backend/src/enrollments/enrollments.service.ts:76-102 | NotFound before Forbidden; exactly the enrollments of the course |
| `Enrollments.EnrollPreservesValid` | lms-backend/src/enrollments/enrollments.service.ts:44-49 | enrolling keeps every invariant, including at most one row per (student, course) |
| `Enrollments.EnrollAddsOneRow` | lms-backend/src/enrollments/enrollments.service.ts:44-49 | the ledger grows by exactly one row |
| `Enrollments.EnrollTwiceFails` | lms-backend/src/enrollments/enrollments.service.ts:30-41 | an immediate second enrollment is BadRequest |
| `Enrollments.EnrollThenListed` | lms-backend/src/enrollments/enrollments.service.ts:44-102 | after enrolling, the student passes the enrollment gate, and the row is listed for the student and for the course owner |
| `Enrollments.EnrollOpensOnlyThatCourse` | lms-backend/src/enrollments/enrollments.service.ts:44-49 | enrolling changes the gate for that one (student, course) pair only |
| `Users.ProfileOf` | lms-backend/src/users/users.service.ts:17-26 | the profile carries every user field except the password |
| `Users.GetProfile` | lms-backend/src/users/users.service.ts:14-34 | a missing user gives NotFound; otherwise the user's profile is returned |
| `Users.UpdateProfile` | lms-backend/src/users/users.service.ts:36-81 | an address held by another user gives Conflict. Only truthy name, e-mail and phone are written. A password is stored only as its hash. An uploaded picture sets the URL `/uploads/profiles/` followed by the stored name. Nothing else changes |
| `Users.UpdateProfilePreservesValid` | lms-backend/src/users/users.service.ts:42-50 | e-mail addresses stay unique |
| `Users.OwnEmailIsNoConflict` | lms-backend/src/users/users.service.ts:47 | re-submitting one's own address is allowed |
| `Users.EmptyFieldsChangeNothing` | lms-backend/src/users/users.service.ts:53-59 | empty strings leave the stored user unchanged |
| `Users.UpdateThenGetProfile` | lms-backend/src/users/users.service.ts:36-81 | after an edit, reading the profile returns the profile the edit returned, with the truthy fields written and the rest kept |
| `Users.CoursesTaughtBy` | lms-backend/src/users/users.service.ts:94-98 | exactly the ids of the course rows the lecturer teaches |
| `Users.GetLecturerDetail` | lms-backend/src/users/users.service.ts:83-111 | a missing user gives NotFound, and so does a user who is not a lecturer; otherwise the profile and course count |
| `Auth.BearerHeader` | lms-backend/src/auth/strategies/jwt.strategy.ts:15-16 | the prefix can be stripped back off |
| `Auth.ExtractToken` | lms-backend/src/auth/strategies/jwt.strategy.ts:8-27 | a missing or empty header gives null. A header without the prefix is returned unchanged. Any result is a suffix of the header 0, 7 or 14 characters shorter |
| `Auth.BearerRoundTrip` | lms-backend/src/auth/strategies/jwt.strategy.ts:15-16 | `Bearer ` followed by a token that does not itself start with `Bearer ` gives back the token |
| `Auth.DoubleBearerRoundTrip` | lms-backend/src/auth/strategies/jwt.strategy.ts:15-20 | `Bearer Bearer ` followed by any token gives back the token |
| `Auth.ThirdBearerStays` | lms-backend/src/auth/strategies/jwt.strategy.ts:15-20 | a third prefix is not stripped |
| `Auth.Validate` | lms-backend/src/auth/strategies/jwt.strategy.ts:39-45 | the subject becomes the id; role and e-mail are copied unchanged |
| `Auth.CanActivate` | lms-backend/src/auth/guards/roles.guard.ts:14-36 | the guard never returns false. It admits iff there is no role list, or the user's role is on it. Otherwise it throws Unauthorized, and a missing user or role gets the fixed message |
| `Auth.EmptyRoleListDeniesAll` | lms-backend/src/auth/guards/roles.guard.ts:29-33 | an empty role list denies every user |
| `Auth.GateDecidesOnTokenRole` | lms-backend/src/auth/guards/roles.guard.ts:25-33 | for a request with a verified token, the guard admits iff the token's role claim is on the list |

## Left out

- Prisma projections. `include`/`select` field lists, joined course and student summaries, `_count` beyond the counts modelled, and `createdAt`/`updatedAt` are left out. Listings are sets, because their `orderBy createdAt` and `orderBy submittedAt` need timestamps the model does not keep. The one projection kept is the removal of `correctAnswer` from student views.
- Cascades: the Prisma schema is not part of this model. Deleting a course, quiz or assignment removes its dependent rows, so that foreign keys stay resolvable.
- Foreign keys on the acting user's id (the student of an enrollment or a submission) are not checked. Principals come from verified tokens.
- `Quizzes.SubmitQuiz`: a quiz with no questions scores 0 where JavaScript would store NaN. Validated quiz creation cannot produce such a quiz. Scores are reals, with no IEEE rounding.
- `Quizzes.SubmitQuiz`: the answers in the response are in submission order; the source reads them back from the database without an order.
- `Quizzes.GetSubmissionDetail` is a ghost function, because it chooses the submission with a given id out of a map. It does not state the answer ordering by question `order`.
- `Quizzes.FindOne`, `Quizzes.FindAllForStudent`: the deadline is an integer instant, and `new Date()` is the parameter `now`.
- `Users.UpdateProfile`: bcrypt is the function parameter `hash`. Updating a user who does not exist is Prisma's record-not-found error (`StorageError`).
- Generated ids (quiz, question, submission and course ids) are parameters. The lemmas that insert a row take them fresh, as the database's generators make them: `QuizProperties.CreatePreservesValid` takes question ids that are distinct and carried by no stored question.
- The JWT signature and expiry checks inside passport are left out. `Auth.Validate` takes a payload whose `sub` is already a number and whose role, if present, is one of the two roles.
- Course `create` and `update` copy a `brief` field that neither request class declares. The global validation pipe (`whitelist` with `forbidNonWhitelisted`, lms-backend/src/main.ts:17-23) rejects a body that carries it, so no request that reaches the service has one. The model keeps `brief` as an optional request field, copied as the service writes it. `CourseProperties.WhitelistedRequestsLeaveBriefAlone` shows that an absent `brief` is never stored or changed. The pipe itself is not modelled.
- `extname` is left out: the original file's extension is a parameter, as is the time-and-random suffix of stored names.
- Two other multer configurations are left out: the submission one and the profile-picture one.
- Operations that are called but not defined in the services are left out. These are grading and rejecting submissions, the assignment submission detail, updating an enrollment and unenrolling.
- Controllers, bootstrapping, Swagger, S3 storage, logging and the seed script are left out.
- The ungated listings `findAllByCourse`, course `findAll`/`findByLecturer` and assignment `findByCourse` are left out. They are plain projections with no rule to check.
- A controller passes an uploaded file where assignment `submit` expects `{content}`. The model follows the service signature.
- An explicit `null` in an update body is not distinguished from an absent field.
