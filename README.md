# Achievement and credential engine of an LMS backend, in Dafny

This project models the part of a learning-management backend that awards achievements:

- **Badge qualification** (`services/badgeService.js`). A user's completed courses, earned badges and
  assessment results are checked against the badge catalogue. The newly earned badge ids are merged into
  the user's badge list with `$addToSet`/`$each` semantics. Module `BadgeService`: the per-result filter,
  the per-badge decision, the catalogue loop (a `while` loop proved against the function `NewlyEarned`) and
  the class `UserDirectory`, whose method `CheckAndAssignBadges` performs the write.
- **The badge data contract** (`models/Badge.js`). Module `BadgeModel`: the closed criteria enum, the
  `Badge` record, the required/enum validators, the unique name index and the `isSecret` default.
- **Certificate lifecycle** (`controllers/certificateController.js`). Module `Certificates` holds the
  records, the `CERT-` identifier and the verification code encoding, the issuance guard chain, the
  read-access rule and the listing filter. Module `CertificateStore` holds the class `Store`, which keeps
  the certificate collection keyed by document id, next to the users (id → role string), enrollments and
  courses it references. Its methods are `Issue` (guard chain, then insert), `Verify` (public lookup by
  digest), `Revoke` and `UpdateDesign`.

Collaborators that are not logic are parameters:
- The SHA-256 digest is the function-valued constant `Store.digest`. It is assumed injective only in
  the lemma that needs it (`OnlyTheIssuedCodeMatches`).
- The random bytes behind the certificate id and the verification code are parameters of `Issue`.
- So are the database's fresh document id, the clock (`now`) and the rendered PDF URL.
- The application URL is the constant `Store.appUrl`.

Role strings are compared literally, as the controller does. Issuance requires the role `"Student"`
(capital S, `controllers/certificateController.js:28` and `:40`). Every read path requires `"student"`
(`:141`, `:191`, `:234`), which is also the name of the student discriminator (`models/Student.js:34`).
The lemma `IssuedCertificateUnreadable` states the consequence. While the student's role is unchanged,
a certificate that `Issue` just created does not resolve: `GetById` answers not-found, the listing omits
it, and `Verify` cannot return it.

Notes on the source's behaviour:
- A duplicate issue is one more 400 response from the guard chain (`AlreadyIssued`), like every other
  refusal.
- The completed-course count is the length of the `completedCourses` array.
- The score bar at `services/badgeService.js:43` reads `badge.minScore`. `models/Badge.js:1-30`
  declares no such path, and the strict schema hides undeclared properties on the documents
  that `Badge.find` returns (line 12). So the program as written never applies the bar: every passed
  result with a nonzero total on the right course counts. The model keeps the designed bar as
  `Badge.minScore`. A badge with `minScore == None` behaves exactly as the program does
  (`AssessmentScoreWithoutBar`), and `CreateBadge` always produces one.
- The public verifier answers with the certificate id, the populated student (first and last name),
  the populated course (title) and the issue date. The digest is compared by plain query equality.
- A missing course on the enrollment is not a validation failure. The comparison at line 62 throws,
  and the error goes to the error handler. This is modelled as `CourseUnresolved`.
- Re-revoking is allowed and re-stamps the date and reason (`RevokeTwice`).

## Model

| member | source | states |
|---|---|---|
| `BadgeModel.ParseCriteria` | models/Badge.js:12-16 | a stored criteria tag is accepted exactly when it names one of the five kinds, and then maps back to that tag |
| `BadgeModel.CriteriaNameRoundTrip` | models/Badge.js:12-16 | each of the five kinds survives being written as its tag and parsed back |
| `BadgeModel.FailingPaths` | models/Badge.js:2-16 | `name` and `icon` fail when absent or empty; `criteria` fails when absent or outside the enum; no other path fails |
| `BadgeModel.CreateBadge` | models/Badge.js:1-30 | creation succeeds iff no validator fails and the name is unused; the result is well formed, keeps catalogue names unique, has `isSecret` false unless set, and has no `minScore`; id, name, icon, description, threshold and course are the draft's |
| `BadgeService.PercentageMatchesQuotient` | services/badgeService.js:40-43 | for a nonzero `totalPoints`, the cross-multiplied integer test agrees with `(score/totalPoints)*100 >= minScore` over exact quotients, for either sign of `totalPoints` |
| `BadgeService.CountPassingIsCardinality` | services/badgeService.js:39-47 | the length of the filtered results equals the number of results that pass the filter |
| `BadgeService.CountPassingAppend` | services/badgeService.js:39-47 | the filtered count over a concatenation is the sum of the counts |
| `BadgeService.AssessmentRule` | services/badgeService.js:38-52 | an `assessment_score` badge qualifies iff a threshold is set and at least that many results count (nonzero total, passed, score bar when `minScore` is set and nonzero, course match when the badge has a course) |
| `BadgeService.Counts` | services/badgeService.js:39-46 | a result counts iff its total is present and nonzero, it passed, its percentage (as an exact quotient) reaches `minScore` when that is set and nonzero, and its course is the badge's when the badge has one |
| `BadgeService.CountPassing` | services/badgeService.js:39-47 | the filtered count never exceeds the number of results |
| `BadgeService.Qualifies` | services/badgeService.js:22-54 | only `course_completion` and `assessment_score` badges can qualify, and an assessment badge needs a threshold no larger than the number of results |
| `BadgeService.CourseCompletionRule` | services/badgeService.js:25-35 | a course-scoped completion badge qualifies iff its course is completed, whatever its threshold; an unscoped one iff a threshold is set and the completed-course count reaches it |
| `BadgeService.NewlyEarned` | services/badgeService.js:17-61 | at most one id per catalogue entry, and never an already earned id |
| `BadgeService.ReservedCriteriaNeverQualify` | services/badgeService.js:24-54 | `streak`, `community` and `custom` badges never qualify |
| `BadgeService.SecrecyIrrelevant` | models/Badge.js:22-25 | changing `isSecret` never changes whether a badge qualifies |
| `BadgeService.QualificationMonotone` | services/badgeService.js:25-52 | more completed courses or more assessment results never withdraw a qualification |
| `BadgeService.AddToSet` | services/badgeService.js:65-67 | the badge list keeps its old entries as a prefix, afterwards holds exactly the old and the new ids, and stays free of duplicates |
| `BadgeService.EvaluateCatalogue` | services/badgeService.js:17-61 | the loop collects exactly `NewlyEarned`: the ids, in catalogue order, of unearned badges that qualify |
| `BadgeService.NewlyEarnedMembers` | services/badgeService.js:19-61 | an id is newly earned iff it is not already earned and some catalogue badge with that id qualifies |
| `BadgeService.NewlyEarnedDisjoint` | services/badgeService.js:13-20 | no already earned badge is newly earned |
| `BadgeService.EvaluationIdempotent` | services/badgeService.js:13-67 | evaluating again after the award, with unchanged history, awards nothing, so nothing is written |
| `BadgeService.CatalogueOrderIrrelevant` | services/badgeService.js:19-61 | two catalogues with the same badges award the same set of ids |
| `BadgeService.UserDirectory.CheckAndAssignBadges` | services/badgeService.js:4-68 | an unknown user changes nothing; otherwise the award is `NewlyEarned`, no write happens when it is empty, only that user's badge list changes (by `AddToSet`), and no user loses a badge |
| `BadgeService.AssessmentScoreExample` | services/badgeService.js:38-52 | the designed outcome, not the program's: threshold 2 with a 70% bar on course C, results of 80%, 60% and 75% qualify, the first two alone do not |
| `BadgeService.AssessmentScoreWithoutBar` | services/badgeService.js:38-52 | the program's outcome, with the bar unreadable through the schema: the same badge without `minScore` qualifies on the 80% and 60% results, and one result alone does not |
| `BadgeService.CourseCountExample` | services/badgeService.js:30-34 | threshold 3 with no course: three completed courses qualify, two do not |
| `Certificates.CertificateIdFrom` | controllers/certificateController.js:10-12 | the id is `CERT-` followed by 16 upper-case hex digits |
| `Certificates.UnhexHex` | controllers/certificateController.js:10-12 | hex encoding of random bytes can be decoded back to the same bytes |
| `Certificates.CertificateIdRoundTrip` | controllers/certificateController.js:10-12 | the random bytes can be recovered from the id, so distinct draws give distinct ids |
| `Certificates.VerificationCodeFrom` | controllers/certificateController.js:89 | the code is 32 lower-case hex digits that decode to the 16 random bytes |
| `Certificates.VerificationUrl` | controllers/certificateController.js:114 | the verification URL is the application URL, then `/api/v1/certificates/verify/`, then the code itself |
| `Certificates.IssueGuards` | controllers/certificateController.js:20-86 | issuance passes iff every condition holds (ids given, `"Student"` role, enrollment completed and matching, course resolving, `"instructor"` role, no certificate for the enrollment); missing ids are reported first; a duplicate is reported only when a certificate has that enrollment; on success the course's instructor is returned |
| `Certificates.Eligible` | controllers/certificateController.js:20-86 | whenever issuance is allowed, the student holds `"Student"` and therefore not `"student"`, and is not the course's instructor |
| `Certificates.Resolves` | controllers/certificateController.js:151 | a certificate resolves only when its student holds `"student"` and its instructor `"instructor"`, so the two are different users |
| `Certificates.Projection` | controllers/certificateController.js:210-216 | the public answer says the certificate is valid and carries its certificate id, student, course and issue date |
| `Certificates.GuardsBeforeDuplicateCheck` | controllers/certificateController.js:20-86 | every refusal other than the duplicate check is independent of the certificate collection |
| `Certificates.NewCertificate` | controllers/certificateController.js:108-124 | the new record is sealed (its hash is the digest of its code, and its URL carries the code), copies the requested ids and the instructor, keeps the given code, certificate id, PDF URL and issue time, takes `template` when given and `default` otherwise, stores the caller's design options as given or the default set when absent, and is unrevoked |
| `Certificates.SecondIssueConflicts` | controllers/certificateController.js:79-86 | once a certificate for the enrollment exists, issuing again for it is refused as a duplicate |
| `Certificates.InsertKeepsOnePerEnrollment` | controllers/certificateController.js:79-86 | inserting for an unused enrollment keeps at most one certificate per enrollment |
| `Certificates.GetById` | controllers/certificateController.js:138-168 | a missing record, or one whose student is not a `"student"` or whose instructor is not an `"instructor"`, is not found; otherwise only an admin, the certificate's student or its instructor gets the record |
| `Certificates.ListCertificates` | controllers/certificateController.js:226-247 | the listing holds exactly the resolving certificates of the query: all of them for any role but `"student"`, and only the requester's own for a `"student"` |
| `Certificates.StudentListingIsOwn` | controllers/certificateController.js:226-247 | a `"student"` is shown exactly their own certificates whose references resolve |
| `Certificates.ListedAreReadable` | controllers/certificateController.js:224-247 | a student or an admin can open every certificate the listing shows them |
| `Certificates.IssuedCertificateUnreadable` | controllers/certificateController.js:136-156 | a certificate whose student has role `"Student"`, as issuance requires, does not resolve: not found by id and absent from every listing |
| `Certificates.VerificationRoundTrip` | controllers/certificateController.js:183-188 | the code taken from a sealed certificate's URL matches that certificate's digest exactly while it is unrevoked |
| `Certificates.OnlyTheIssuedCodeMatches` | controllers/certificateController.js:183-188 | with an injective digest, a presented code matches only certificates issued with exactly that code |
| `Certificates.Revoked` | controllers/certificateController.js:273-275 | revocation sets the flag, stamps the date, records the given reason or `No reason provided`, and changes no other field |
| `Certificates.RevocationEffects` | controllers/certificateController.js:273-277 | after revocation the certificate is no longer a verification candidate, while reading it by id succeeds or fails exactly as before and shows it revoked |
| `Certificates.RevokeTwice` | controllers/certificateController.js:273-275 | revoking again only re-stamps date and reason; the result depends on the last call alone |
| `Certificates.MergeDesign` | controllers/certificateController.js:304 | the merged options have the keys of both; new values win, old values are kept for the rest |
| `Certificates.Redesigned` | controllers/certificateController.js:302-322 | `template` is replaced only when given, the options are merged only when given, `pdfUrl` is replaced, and nothing else changes |
| `Certificates.RedesignKeepsVerification` | controllers/certificateController.js:302-324 | a design update keeps the code, digest and URL bound together and leaves the revocation state alone |
| `CertificateStore.Store.Issue` | controllers/certificateController.js:15-133 | succeeds iff `Eligible`; a refusal is the guard chain's error and changes nothing; a success inserts exactly the new record under the fresh id; afterwards exactly one certificate has that enrollment, it is a verification candidate for its code, and the store invariant holds |
| `CertificateStore.Store.Verify` | controllers/certificateController.js:180-221 | no unrevoked digest match means not found; a result is the projection of an unrevoked match whose references resolve; when matches exist and all resolve the answer is valid; nothing is written |
| `CertificateStore.Store.Revoke` | controllers/certificateController.js:260-286 | an unknown id is not found and changes nothing; otherwise exactly that record becomes `Revoked(...)`; no record is removed, no identity or verification field changes, and no revoked record is un-revoked |
| `CertificateStore.Store.UpdateDesign` | controllers/certificateController.js:289-333 | an unknown id is not found and changes nothing; otherwise exactly that record becomes `Redesigned(...)`, with the same guarantees about the rest of the store |

## Left out

- BadgeService.Counts: applies the designed `minScore` bar whenever a badge carries one, though the
  program as written never reads the bar through its strict schema. Only badges with `minScore == None`,
  which is every badge `CreateBadge` produces, match the program. `AssessmentScoreExample` states the
  designed outcome, not the program's.
- Certificates.Projection: keeps the student and course ids only. The source returns the populated
  student (first and last name) and course (title); names and titles are not modelled.
- BadgeModel.CreateBadge: the `createdAt` timestamp (models/Badge.js:26-29) is not modelled. Nothing in
  badge qualification reads it.
- HTTP plumbing: request parsing, response status codes, `next(error)` and route-level role gating. The
  error variants stand for the 400/403/404 responses. `CourseUnresolved` stands for the exception thrown
  at line 62.
- The User, Enrollment, Course and Certificate schemas are not part of this model. `issueDate` is taken
  to be set from the clock at creation, and `isRevoked` to start false. Schema validation that
  `Certificate.create` might perform is not modelled.
- SHA-256 and `crypto.randomBytes`: the digest is an arbitrary function value, and the random bytes are
  parameters. The document id Mongo assigns is a parameter required to be unused (`Store.Issue` requires
  `docId !in certs`).
- The mocked PDF/Cloudinary upload: `pdfUrl` is an opaque parameter, not the fixed mock URL.
- Mongo query and `populate` semantics are modelled as map lookups. The query term `'student.role'`
  (line 228) is dropped. `Badge.find({ isActive: true })` is replaced by a catalogue passed in, since
  `isActive` is not a schema path.
- `findOne` returning the first match in natural order: `Store.Verify` picks any matching unrevoked
  certificate.
- JavaScript numbers: scores, total points, thresholds and `minScore` are integers, and the percentage
  test is exact rather than floating point. A `null` threshold (which JavaScript compares as 0) is not
  distinguished from an absent one. A missing `score` or result `course` is not modelled.
- Concurrency: the race between two simultaneous issues for one enrollment, and concurrent badge
  evaluations, are out of scope. Each operation is one atomic step on the store.
- `console.log` of awarded badges. `CheckAndAssignBadges` returns the awarded ids, which the source does
  not return.
- Users' roles, enrollments and courses are read but never written by this core. No operation changes
  them.
