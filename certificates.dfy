/**
 * Certificate records and the side-effect-free part of the certificate controller: identifier
 * and code encoding, the issuance guard chain, the read-access rules and the listing filter.
 */
module Certificates {
  import opened Wrappers

  type UserId = string
  type CourseId = string
  type EnrollmentId = string
  /** The database `_id` of a certificate document, the key of `findById`. */
  type DocId = string
  /** A user's role exactly as stored; comparisons are case-sensitive. */
  type Role = string

  type Byte = x: int | 0 <= x < 256

  // ---------------------------------------------------------------------------
  // Hexadecimal encoding of random bytes
  // ---------------------------------------------------------------------------

  /** One hex digit character of the given case. */
  predicate IsHexDigit(c: char, upper: bool)
  {
    ('0' <= c <= '9') || (if upper then 'A' <= c <= 'F' else 'a' <= c <= 'f')
  }

  /** The character for a nibble, as `toString('hex')` writes it, upper-cased on request. */
  function DigitChar(n: int, upper: bool): (c: char)
    requires 0 <= n < 16
    ensures IsHexDigit(c, upper)
  {
    if n < 10 then ('0' as int + n) as char
    else if upper then ('A' as int + n - 10) as char
    else ('a' as int + n - 10) as char
  }

  /** Two hex digits per byte, high nibble first. */
  function Hex(bytes: seq<Byte>, upper: bool): (s: string)
    ensures |s| == 2 * |bytes|
    ensures forall i :: 0 <= i < |s| ==> IsHexDigit(s[i], upper)
  {
    if bytes == [] then []
    else [DigitChar(bytes[0] / 16, upper), DigitChar(bytes[0] % 16, upper)] + Hex(bytes[1..], upper)
  }

  /** The value of one hex digit of the given case, if it is one. */
  function DigitValue(c: char, upper: bool): (r: Option<int>)
    ensures r.Some? <==> IsHexDigit(c, upper)
    ensures r.Some? ==> 0 <= r.value < 16 && DigitChar(r.value, upper) == c
  {
    if '0' <= c <= '9' then Some(c as int - '0' as int)
    else if upper && 'A' <= c <= 'F' then Some(c as int - 'A' as int + 10)
    else if !upper && 'a' <= c <= 'f' then Some(c as int - 'a' as int + 10)
    else None
  }

  /** Decodes a hex string of the given case back into bytes. */
  function Unhex(s: string, upper: bool): Option<seq<Byte>>
    decreases |s|
  {
    if s == [] then Some([])
    else if |s| == 1 then None
    else
      match (DigitValue(s[0], upper), DigitValue(s[1], upper), Unhex(s[2..], upper))
      case (Some(hi), Some(lo), Some(rest)) => Some([hi * 16 + lo] + rest)
      case _ => None
  }

  lemma DigitValueOfDigit(n: int, upper: bool)
    requires 0 <= n < 16
    ensures DigitValue(DigitChar(n, upper), upper) == Some(n)
  {
  }

  /** Hex encoding loses nothing: decoding gives the bytes back. */
  lemma {:induction false} UnhexHex(bytes: seq<Byte>, upper: bool)
    ensures Unhex(Hex(bytes, upper), upper) == Some(bytes)
  {
    if bytes != [] {
      var s := Hex(bytes, upper);
      DigitValueOfDigit(bytes[0] / 16, upper);
      DigitValueOfDigit(bytes[0] % 16, upper);
      UnhexHex(bytes[1..], upper);
      assert s[2..] == Hex(bytes[1..], upper);
      assert [bytes[0]] + bytes[1..] == bytes;
    }
  }

  const CertificateIdPrefix: string := "CERT-"

  /** `CERT-` followed by the upper-case hex of eight random bytes. */
  function CertificateIdFrom(random: seq<Byte>): (id: string)
    requires |random| == 8
    ensures |id| == 21 && id[..5] == CertificateIdPrefix
    ensures forall i :: 5 <= i < 21 ==> IsHexDigit(id[i], true)
  {
    CertificateIdPrefix + Hex(random, true)
  }

  /** Recovers the random bytes from a certificate identifier. */
  function CertificateIdBytes(id: string): Option<seq<Byte>>
  {
    if |id| >= 5 && id[..5] == CertificateIdPrefix then Unhex(id[5..], true) else None
  }

  /** Distinct random draws give distinct certificate identifiers. */
  lemma CertificateIdRoundTrip(random: seq<Byte>)
    requires |random| == 8
    ensures CertificateIdBytes(CertificateIdFrom(random)) == Some(random)
  {
    assert CertificateIdFrom(random)[5..] == Hex(random, true);
    UnhexHex(random, true);
  }

  /** The verification code: the lower-case hex of sixteen random bytes. */
  function VerificationCodeFrom(random: seq<Byte>): (code: string)
    requires |random| == 16
    ensures |code| == 32
    ensures forall i :: 0 <= i < 32 ==> IsHexDigit(code[i], false)
    ensures Unhex(code, false) == Some(random)
  {
    UnhexHex(random, false);
    Hex(random, false)
  }

  const VerifyPath: string := "/api/v1/certificates/verify/"

  /** The public verification URL embeds the secret code, not its digest. */
  function VerificationUrl(appUrl: string, code: string): (url: string)
    ensures |url| == |appUrl| + |VerifyPath| + |code|
    ensures url[..|appUrl|] == appUrl && url[|appUrl|..|appUrl| + |VerifyPath|] == VerifyPath
    ensures url[|appUrl| + |VerifyPath|..] == code
  {
    appUrl + VerifyPath + code
  }

  // ---------------------------------------------------------------------------
  // Records
  // ---------------------------------------------------------------------------

  /** A design option value: a plain string or a nested object such as the colour pair. */
  datatype DesignValue = Text(text: string) | Palette(colours: map<string, string>)

  type DesignOptions = map<string, DesignValue>

  function DefaultDesign(): (d: DesignOptions)
    ensures d.Keys == {"template", "colors", "logo", "signature"}
  {
    map["template" := Text("default"),
        "colors" := Palette(map["primary" := "#000000", "secondary" := "#ffffff"]),
        "logo" := Text("default_logo.png"),
        "signature" := Text("default_signature.png")]
  }

  datatype Certificate = Certificate(
    student: UserId,
    course: CourseId,
    instructor: UserId,
    enrollment: EnrollmentId,
    certificateId: string,
    verificationUrl: string,
    verificationCode: string,
    hash: string,
    template: string,
    designOptions: DesignOptions,
    pdfUrl: string,
    issueDate: int,
    isRevoked: bool,
    revokedDate: Option<int>,
    revokedReason: Option<string>)

  datatype Enrollment = Enrollment(student: UserId, course: CourseId, status: string)

  datatype Course = Course(instructor: UserId, title: string)

  /** The stored digest is the digest of the stored code, and the URL carries that code. */
  predicate Sealed(c: Certificate, digest: string -> string, appUrl: string)
  {
    c.hash == digest(c.verificationCode) && c.verificationUrl == VerificationUrl(appUrl, c.verificationCode)
  }

  /** At most one certificate per enrollment. */
  predicate OnePerEnrollment(certs: map<DocId, Certificate>)
  {
    forall a, b :: a in certs && b in certs && certs[a].enrollment == certs[b].enrollment ==> a == b
  }

  predicate HasRole(users: map<UserId, Role>, id: UserId, role: Role)
  {
    id in users && users[id] == role
  }

  // ---------------------------------------------------------------------------
  // Issuance guards
  // ---------------------------------------------------------------------------

  /** The body of an issue request; absent fields are None. */
  datatype IssueRequest = IssueRequest(
    studentId: Option<string>,
    courseId: Option<string>,
    enrollmentId: Option<string>,
    template: Option<string>,
    designOptions: Option<DesignOptions>)

  /** Why issuance was refused, one variant per guard, in the order the guards run. */
  datatype IssueError =
    | MissingIds          // a required id is absent or empty
    | InvalidStudent      // no user with that id and role "Student"
    | InvalidEnrollment   // no such enrollment, or its student is not a "Student"
    | NotCompleted        // enrollment status is not "completed"
    | EnrollmentMismatch  // enrollment belongs to another student or course
    | CourseUnresolved    // enrollment's course does not resolve: the comparison throws
    | InvalidInstructor   // the course's instructor is not an "instructor"
    | AlreadyIssued       // a certificate already references the enrollment

  /** A string request field is present and truthy. */
  predicate Given(o: Option<string>)
  {
    o.Some? && o.value != ""
  }

  predicate EnrollmentTaken(certs: map<DocId, Certificate>, eid: EnrollmentId)
  {
    exists id :: id in certs && certs[id].enrollment == eid
  }

  /** Every condition of issuance, independent of the order in which they are checked. */
  predicate Eligible(users: map<UserId, Role>, enrollments: map<EnrollmentId, Enrollment>,
                     courses: map<CourseId, Course>, certs: map<DocId, Certificate>, req: IssueRequest)
    ensures Eligible(users, enrollments, courses, certs, req) ==>
              && req.studentId.Some? && req.courseId.Some? && req.courseId.value in courses
              && !HasRole(users, req.studentId.value, "student")
              && req.studentId.value != courses[req.courseId.value].instructor
  {
    && Given(req.studentId) && Given(req.courseId) && Given(req.enrollmentId)
    && HasRole(users, req.studentId.value, "Student")
    && req.enrollmentId.value in enrollments
    && var e := enrollments[req.enrollmentId.value];
    && e.status == "completed"
    && e.student == req.studentId.value
    && e.course == req.courseId.value
    && e.course in courses
    && HasRole(users, courses[e.course].instructor, "instructor")
    && !EnrollmentTaken(certs, req.enrollmentId.value)
  }

  /**
   * The guard chain of certificate generation. On success it yields the course's instructor,
   * who becomes the certificate's instructor.
   */
  function IssueGuards(users: map<UserId, Role>, enrollments: map<EnrollmentId, Enrollment>,
                       courses: map<CourseId, Course>, certs: map<DocId, Certificate>,
                       req: IssueRequest): (r: Result<UserId, IssueError>)
    ensures r.Ok? <==> Eligible(users, enrollments, courses, certs, req)
    ensures r.Ok? ==> r.value == courses[req.courseId.value].instructor
    ensures r == Err(MissingIds) <==> !(Given(req.studentId) && Given(req.courseId) && Given(req.enrollmentId))
    ensures r == Err(AlreadyIssued) ==> EnrollmentTaken(certs, req.enrollmentId.value)
  {
    if !(Given(req.studentId) && Given(req.courseId) && Given(req.enrollmentId)) then Err(MissingIds)
    else
      var sid, cid, eid := req.studentId.value, req.courseId.value, req.enrollmentId.value;
      if !HasRole(users, sid, "Student") then Err(InvalidStudent)
      else if eid !in enrollments || !HasRole(users, enrollments[eid].student, "Student") then Err(InvalidEnrollment)
      else
        var e := enrollments[eid];
        if e.status != "completed" then Err(NotCompleted)
        else if e.student != sid then Err(EnrollmentMismatch)
        else if e.course !in courses then Err(CourseUnresolved)
        else if e.course != cid then Err(EnrollmentMismatch)
        else if !HasRole(users, courses[e.course].instructor, "instructor") then Err(InvalidInstructor)
        else if EnrollmentTaken(certs, eid) then Err(AlreadyIssued)
        else Ok(courses[e.course].instructor)
  }

  /** The record written by a successful issuance. */
  function NewCertificate(req: IssueRequest, instructor: UserId, certificateId: string, code: string,
                          digest: string -> string, appUrl: string, pdfUrl: string, now: int): (c: Certificate)
    requires req.studentId.Some? && req.courseId.Some? && req.enrollmentId.Some?
    ensures Sealed(c, digest, appUrl)
    ensures c.student == req.studentId.value && c.course == req.courseId.value
    ensures c.enrollment == req.enrollmentId.value && c.instructor == instructor
    ensures c.template == (if Given(req.template) then req.template.value else "default")
    ensures c.designOptions == (if req.designOptions.Some? then req.designOptions.value else DefaultDesign())
    ensures c.verificationCode == code && c.certificateId == certificateId
    ensures c.pdfUrl == pdfUrl && c.issueDate == now
    ensures !c.isRevoked && c.revokedDate.None? && c.revokedReason.None?
  {
    Certificate(
      student := req.studentId.value,
      course := req.courseId.value,
      instructor := instructor,
      enrollment := req.enrollmentId.value,
      certificateId := certificateId,
      verificationUrl := VerificationUrl(appUrl, code),
      verificationCode := code,
      hash := digest(code),
      template := if Given(req.template) then req.template.value else "default",
      designOptions := if req.designOptions.Some? then req.designOptions.value else DefaultDesign(),
      pdfUrl := pdfUrl,
      issueDate := now,
      isRevoked := false,
      revokedDate := None,
      revokedReason := None)
  }

  // ---------------------------------------------------------------------------
  // Read paths
  // ---------------------------------------------------------------------------

  /** Both populated references resolve: the student has role "student", the instructor "instructor". */
  predicate Resolves(users: map<UserId, Role>, c: Certificate)
    ensures Resolves(users, c) ==> c.student != c.instructor
  {
    HasRole(users, c.student, "student") && HasRole(users, c.instructor, "instructor")
  }

  /** Only an admin, the certificate's student or its instructor may read it. */
  predicate MayView(c: Certificate, requesterId: UserId, requesterRole: Role)
  {
    requesterRole == "admin" || requesterId == c.student || requesterId == c.instructor
  }

  datatype ReadError = NotFound | Forbidden

  /** Fetching one certificate by document id on behalf of a requester. */
  function GetById(users: map<UserId, Role>, certs: map<DocId, Certificate>, id: DocId,
                   requesterId: UserId, requesterRole: Role): (r: Result<Certificate, ReadError>)
    ensures r.Ok? <==> id in certs && Resolves(users, certs[id]) && MayView(certs[id], requesterId, requesterRole)
    ensures r.Ok? ==> r.value == certs[id]
    ensures r == Err(NotFound) <==> !(id in certs && Resolves(users, certs[id]))
  {
    if id !in certs || !Resolves(users, certs[id]) then Err(NotFound)
    else if !MayView(certs[id], requesterId, requesterRole) then Err(Forbidden)
    else Ok(certs[id])
  }

  /** The query of the listing: a "student" sees their own certificates, any other role all of them. */
  predicate InQuery(c: Certificate, requesterId: UserId, requesterRole: Role)
  {
    requesterRole == "student" ==> c.student == requesterId
  }

  /** The listing: the query's certificates whose references still resolve. */
  function ListCertificates(users: map<UserId, Role>, certs: map<DocId, Certificate>,
                            requesterId: UserId, requesterRole: Role): (ids: set<DocId>)
    ensures ids <= certs.Keys
    ensures forall id :: id in ids ==> Resolves(users, certs[id])
    ensures requesterRole == "student" ==> forall id :: id in ids ==> certs[id].student == requesterId
    ensures forall id :: id in certs && InQuery(certs[id], requesterId, requesterRole) && Resolves(users, certs[id])
                         ==> id in ids
  {
    set id | id in certs && InQuery(certs[id], requesterId, requesterRole) && Resolves(users, certs[id])
  }

  /** The fields the public verifier returns. */
  datatype VerifiedCertificate = VerifiedCertificate(
    certificateId: string, student: UserId, course: CourseId, issueDate: int, isValid: bool)

  function Projection(c: Certificate): (v: VerifiedCertificate)
    ensures v.isValid
    ensures v.certificateId == c.certificateId && v.student == c.student && v.course == c.course
    ensures v.issueDate == c.issueDate
  {
    VerifiedCertificate(c.certificateId, c.student, c.course, c.issueDate, true)
  }

  /** An unrevoked certificate whose stored digest matches. */
  predicate Candidate(certs: map<DocId, Certificate>, hash: string, id: DocId)
  {
    id in certs && certs[id].hash == hash && !certs[id].isRevoked
  }

  // ---------------------------------------------------------------------------
  // Updates
  // ---------------------------------------------------------------------------

  const NoReasonGiven: string := "No reason provided"

  /** Revocation: only the three revocation fields change. */
  function Revoked(c: Certificate, reason: Option<string>, now: int): (r: Certificate)
    ensures r.isRevoked && r.revokedDate == Some(now)
    ensures r.revokedReason == Some(if Given(reason) then reason.value else NoReasonGiven)
    ensures r.(isRevoked := c.isRevoked, revokedDate := c.revokedDate, revokedReason := c.revokedReason) == c
  {
    c.(isRevoked := true, revokedDate := Some(now),
       revokedReason := Some(if Given(reason) then reason.value else NoReasonGiven))
  }

  /** Shallow merge: the old options, overridden key by key by the new ones. */
  function MergeDesign(base: DesignOptions, overrides: DesignOptions): (m: DesignOptions)
    ensures m.Keys == base.Keys + overrides.Keys
    ensures forall k :: k in overrides ==> m[k] == overrides[k]
    ensures forall k :: k in base && k !in overrides ==> m[k] == base[k]
  {
    base + overrides
  }

  /** A design update: template only when given, options merged when given, the artifact replaced. */
  function Redesigned(c: Certificate, template: Option<string>, design: Option<DesignOptions>,
                      pdfUrl: string): (r: Certificate)
    ensures r.template == (if Given(template) then template.value else c.template)
    ensures r.designOptions == (if design.Some? then MergeDesign(c.designOptions, design.value) else c.designOptions)
    ensures r.pdfUrl == pdfUrl
    ensures r.(template := c.template, designOptions := c.designOptions, pdfUrl := c.pdfUrl) == c
  {
    c.(template := if Given(template) then template.value else c.template,
       designOptions := if design.Some? then MergeDesign(c.designOptions, design.value) else c.designOptions,
       pdfUrl := pdfUrl)
  }

  /**
   * How the store may evolve: no certificate disappears, the identity and verification fields
   * never change, and a revoked certificate stays revoked.
   */
  predicate Successor(before: map<DocId, Certificate>, after: map<DocId, Certificate>)
  {
    && before.Keys <= after.Keys
    && forall id :: id in before ==>
         var b, a := before[id], after[id];
         && a.student == b.student && a.course == b.course && a.instructor == b.instructor
         && a.enrollment == b.enrollment && a.certificateId == b.certificateId
         && a.verificationCode == b.verificationCode && a.hash == b.hash
         && a.verificationUrl == b.verificationUrl && a.issueDate == b.issueDate
         && (b.isRevoked ==> a.isRevoked)
  }

  // ---------------------------------------------------------------------------
  // Properties
  // ---------------------------------------------------------------------------

  /** The guards before the duplicate check do not look at the certificate store. */
  lemma GuardsBeforeDuplicateCheck(users: map<UserId, Role>, enrollments: map<EnrollmentId, Enrollment>,
                                    courses: map<CourseId, Course>, certs: map<DocId, Certificate>,
                                    other: map<DocId, Certificate>, req: IssueRequest)
    requires IssueGuards(users, enrollments, courses, certs, req).Err?
    requires IssueGuards(users, enrollments, courses, certs, req) != Err(AlreadyIssued)
    ensures IssueGuards(users, enrollments, courses, other, req) == IssueGuards(users, enrollments, courses, certs, req)
  {
  }

  /** Issuing twice for one enrollment: the second attempt is refused as a duplicate. */
  lemma SecondIssueConflicts(users: map<UserId, Role>, enrollments: map<EnrollmentId, Enrollment>,
                             courses: map<CourseId, Course>, certs: map<DocId, Certificate>,
                             req: IssueRequest, id: DocId, c: Certificate, req2: IssueRequest)
    requires IssueGuards(users, enrollments, courses, certs, req).Ok?
    requires c.enrollment == req.enrollmentId.value
    requires req2.enrollmentId == req.enrollmentId && req2.studentId == req.studentId && req2.courseId == req.courseId
    ensures IssueGuards(users, enrollments, courses, certs[id := c], req2) == Err(AlreadyIssued)
  {
    assert certs[id := c][id].enrollment == req.enrollmentId.value;
  }

  /** Inserting a certificate for a fresh enrollment keeps enrollments unique. */
  lemma InsertKeepsOnePerEnrollment(certs: map<DocId, Certificate>, id: DocId, c: Certificate)
    requires OnePerEnrollment(certs)
    requires id !in certs && !EnrollmentTaken(certs, c.enrollment)
    ensures OnePerEnrollment(certs[id := c])
  {
  }

  /**
   * Issuance requires the role "Student" while the read paths require "student": a freshly
   * issued certificate does not resolve for as long as its student's role is unchanged.
   */
  lemma IssuedCertificateUnreadable(users: map<UserId, Role>, certs: map<DocId, Certificate>, id: DocId,
                                    c: Certificate, requesterId: UserId, requesterRole: Role)
    requires HasRole(users, c.student, "Student")
    ensures !Resolves(users, c)
    ensures GetById(users, certs[id := c], id, requesterId, requesterRole) == Err(NotFound)
    ensures id !in ListCertificates(users, certs[id := c], requesterId, requesterRole)
  {
  }

  /** A student or an admin can open every certificate the listing shows them. */
  lemma ListedAreReadable(users: map<UserId, Role>, certs: map<DocId, Certificate>,
                          requesterId: UserId, requesterRole: Role, id: DocId)
    requires requesterRole == "student" || requesterRole == "admin"
    requires id in ListCertificates(users, certs, requesterId, requesterRole)
    ensures GetById(users, certs, id, requesterId, requesterRole) == Ok(certs[id])
  {
  }

  /** A listed certificate for a "student" requester is one of their own, and every own resolving one is listed. */
  lemma StudentListingIsOwn(users: map<UserId, Role>, certs: map<DocId, Certificate>, requesterId: UserId, id: DocId)
    ensures id in ListCertificates(users, certs, requesterId, "student")
            <==> id in certs && certs[id].student == requesterId && Resolves(users, certs[id])
  {
  }

  /** The code embedded in the verification URL finds its certificate while it is unrevoked. */
  lemma VerificationRoundTrip(certs: map<DocId, Certificate>, digest: string -> string, appUrl: string, id: DocId)
    requires id in certs && Sealed(certs[id], digest, appUrl)
    ensures var url := certs[id].verificationUrl;
            var code := url[|appUrl| + |VerifyPath|..];
            Candidate(certs, digest(code), id) <==> !certs[id].isRevoked
  {
  }

  /**
   * With an injective digest, a presented code matches only certificates issued with exactly
   * that code; in particular a code nobody was issued matches nothing.
   */
  lemma OnlyTheIssuedCodeMatches(certs: map<DocId, Certificate>, digest: string -> string, appUrl: string,
                                 code: string, id: DocId)
    requires forall a, b :: digest(a) == digest(b) ==> a == b
    requires forall k :: k in certs ==> Sealed(certs[k], digest, appUrl)
    requires Candidate(certs, digest(code), id)
    ensures certs[id].verificationCode == code
  {
  }

  /** Revocation withdraws public verifiability but keeps the record readable as before. */
  lemma RevocationEffects(users: map<UserId, Role>, certs: map<DocId, Certificate>, id: DocId,
                          reason: Option<string>, now: int, hash: string, requesterId: UserId, requesterRole: Role)
    requires id in certs
    ensures var after := certs[id := Revoked(certs[id], reason, now)];
            && !Candidate(after, hash, id)
            && GetById(users, after, id, requesterId, requesterRole).Ok?
               == GetById(users, certs, id, requesterId, requesterRole).Ok?
            && (GetById(users, after, id, requesterId, requesterRole).Ok?
                ==> GetById(users, after, id, requesterId, requesterRole).value.isRevoked)
  {
  }

  /** Revoking again re-stamps the date and reason; the outcome depends only on the last call. */
  lemma RevokeTwice(c: Certificate, r1: Option<string>, t1: int, r2: Option<string>, t2: int)
    ensures Revoked(Revoked(c, r1, t1), r2, t2) == Revoked(c, r2, t2)
  {
  }

  /** A design update never breaks the binding between code, digest and URL, nor the revocation state. */
  lemma RedesignKeepsVerification(c: Certificate, digest: string -> string, appUrl: string,
                                  template: Option<string>, design: Option<DesignOptions>, pdfUrl: string)
    requires Sealed(c, digest, appUrl)
    ensures Sealed(Redesigned(c, template, design, pdfUrl), digest, appUrl)
    ensures Redesigned(c, template, design, pdfUrl).isRevoked == c.isRevoked
  {
  }
}
