/**
 * The certificate collection together with the users, enrollments and courses it references,
 * and the controller operations that write to it or search it.
 */
module CertificateStore {
  import opened Wrappers
  import opened Certificates

  class Store {
    /** The one-way digest of verification codes (SHA-256 rendered as hex). */
    const digest: string -> string
    /** The application's base URL that prefixes verification links. */
    const appUrl: string

    var users: map<UserId, Role>
    var enrollments: map<EnrollmentId, Enrollment>
    var courses: map<CourseId, Course>
    var certs: map<DocId, Certificate>

    /** Every certificate is sealed, and no two certificates share an enrollment. */
    ghost predicate Valid()
      reads this
    {
      && (forall id :: id in certs ==> Sealed(certs[id], digest, appUrl))
      && OnePerEnrollment(certs)
    }

    constructor (digest: string -> string, appUrl: string, users: map<UserId, Role>,
                 enrollments: map<EnrollmentId, Enrollment>, courses: map<CourseId, Course>)
      ensures Valid()
      ensures this.digest == digest && this.appUrl == appUrl
      ensures this.users == users && this.enrollments == enrollments && this.courses == courses
      ensures certs == map[]
    {
      this.digest := digest;
      this.appUrl := appUrl;
      this.users := users;
      this.enrollments := enrollments;
      this.courses := courses;
      certs := map[];
    }

    /**
     * Certificate generation. `docId` is the fresh document id the database assigns, `idBytes`
     * and `codeBytes` the random draws, `pdfUrl` the rendered artifact and `now` the clock.
     */
    method Issue(req: IssueRequest, docId: DocId, idBytes: seq<Byte>, codeBytes: seq<Byte>,
                 pdfUrl: string, now: int) returns (r: Result<Certificate, IssueError>)
      requires Valid()
      requires docId !in certs
      requires |idBytes| == 8 && |codeBytes| == 16
      modifies this`certs
      ensures Valid()
      ensures Successor(old(certs), certs)
      ensures r.Ok? <==> Eligible(users, enrollments, courses, old(certs), req)
      ensures r.Err? ==> Err(r.error) == IssueGuards(users, enrollments, courses, old(certs), req) && certs == old(certs)
      ensures r.Ok? ==>
        && r.value == NewCertificate(req, courses[req.courseId.value].instructor, CertificateIdFrom(idBytes),
                                     VerificationCodeFrom(codeBytes), digest, appUrl, pdfUrl, now)
        && certs == old(certs)[docId := r.value]
      ensures r.Ok? ==> forall id :: id in certs && certs[id].enrollment == req.enrollmentId.value <==> id == docId
      ensures r.Ok? ==> Candidate(certs, digest(VerificationCodeFrom(codeBytes)), docId)
    {
      var guard := IssueGuards(users, enrollments, courses, certs, req);
      if guard.Err? {
        return Err(guard.error);
      }
      var code := VerificationCodeFrom(codeBytes);
      var c := NewCertificate(req, guard.value, CertificateIdFrom(idBytes), code, digest, appUrl, pdfUrl, now);
      InsertKeepsOnePerEnrollment(certs, docId, c);
      certs := certs[docId := c];
      r := Ok(c);
    }

    /**
     * Public verification: the digest of the presented code selects an unrevoked certificate,
     * whose student and instructor must still resolve. Nothing is written.
     */
    method Verify(code: string) returns (r: Result<VerifiedCertificate, ReadError>)
      ensures (forall id :: !Candidate(certs, digest(code), id)) ==> r == Err(NotFound)
      ensures r.Ok? ==> exists id :: Candidate(certs, digest(code), id) && Resolves(users, certs[id])
                                     && r.value == Projection(certs[id])
      ensures (exists id :: Candidate(certs, digest(code), id))
              && (forall id :: Candidate(certs, digest(code), id) ==> Resolves(users, certs[id]))
              ==> r.Ok?
      ensures r.Err? ==> r.error == NotFound
    {
      var hash := digest(code);
      var matches := set id | id in certs && certs[id].hash == hash && !certs[id].isRevoked;
      if matches == {} {
        assert forall id :: Candidate(certs, hash, id) ==> id in matches;
        return Err(NotFound);
      }
      var id :| id in matches;
      assert Candidate(certs, hash, id);
      if !Resolves(users, certs[id]) {
        return Err(NotFound);
      }
      r := Ok(Projection(certs[id]));
    }

    /** Revocation: an unknown id changes nothing; otherwise the record is revoked and stamped. */
    method Revoke(id: DocId, reason: Option<string>, now: int) returns (r: Result<Certificate, ReadError>)
      requires Valid()
      modifies this`certs
      ensures Valid()
      ensures Successor(old(certs), certs)
      ensures id !in old(certs) ==> r == Err(NotFound) && certs == old(certs)
      ensures id in old(certs) ==>
        && r == Ok(Revoked(old(certs)[id], reason, now))
        && certs == old(certs)[id := r.value]
    {
      if id !in certs {
        return Err(NotFound);
      }
      var c := Revoked(certs[id], reason, now);
      certs := certs[id := c];
      r := Ok(c);
    }

    /** Design update: template and options as given, the artifact URL replaced. */
    method UpdateDesign(id: DocId, template: Option<string>, design: Option<DesignOptions>, pdfUrl: string)
      returns (r: Result<Certificate, ReadError>)
      requires Valid()
      modifies this`certs
      ensures Valid()
      ensures Successor(old(certs), certs)
      ensures id !in old(certs) ==> r == Err(NotFound) && certs == old(certs)
      ensures id in old(certs) ==>
        && r == Ok(Redesigned(old(certs)[id], template, design, pdfUrl))
        && certs == old(certs)[id := r.value]
    {
      if id !in certs {
        return Err(NotFound);
      }
      var c := Redesigned(certs[id], template, design, pdfUrl);
      certs := certs[id := c];
      r := Ok(c);
    }
  }
}
