/** The badge catalogue's data contract: a badge definition as the schema admits it. */
module BadgeModel {
  import opened Wrappers

  type BadgeId = string
  type CourseId = string

  /** The closed set of rule kinds a badge can be defined with. */
  datatype Criteria = CourseCompletion | Streak | AssessmentScore | Community | Custom

  /** The tag stored in the database for each rule kind. */
  function CriteriaName(c: Criteria): string
  {
    match c
    case CourseCompletion => "course_completion"
    case Streak => "streak"
    case AssessmentScore => "assessment_score"
    case Community => "community"
    case Custom => "custom"
  }

  /** The schema's enum validator: a stored tag is accepted only if it names one of the five kinds. */
  function ParseCriteria(s: string): (r: Option<Criteria>)
    ensures r.Some? ==> CriteriaName(r.value) == s
    ensures r.None? <==> forall c: Criteria :: CriteriaName(c) != s
  {
    if s == "course_completion" then Some(CourseCompletion)
    else if s == "streak" then Some(Streak)
    else if s == "assessment_score" then Some(AssessmentScore)
    else if s == "community" then Some(Community)
    else if s == "custom" then Some(Custom)
    else None
  }

  /**
   * A badge definition. `threshold`, `course` and `minScore` are optional. `minScore` is the
   * score bar the qualification rule is designed around. The strict schema declares no such
   * path, so a badge loaded through it always reads the bar as absent (`minScore == None`).
   */
  datatype Badge = Badge(
    id: BadgeId,
    name: string,
    description: Option<string>,
    icon: string,
    criteria: Criteria,
    threshold: Option<int>,
    course: Option<CourseId>,
    minScore: Option<int>,
    isSecret: bool)

  /** The required paths hold a non-empty value. */
  predicate WellFormed(b: Badge)
  {
    b.name != "" && b.icon != ""
  }

  /** No two badges of a catalogue share a name (the unique index on `name`). */
  predicate UniqueNames(catalogue: seq<Badge>)
  {
    forall i, j :: 0 <= i < j < |catalogue| ==> catalogue[i].name != catalogue[j].name
  }

  predicate NameTaken(catalogue: seq<Badge>, name: string)
  {
    exists i :: 0 <= i < |catalogue| && catalogue[i].name == name
  }

  /** The fields submitted when an administrator creates a badge; absent paths are None. */
  datatype BadgeDraft = BadgeDraft(
    name: Option<string>,
    description: Option<string>,
    icon: Option<string>,
    criteria: Option<string>,
    threshold: Option<int>,
    course: Option<CourseId>,
    isSecret: Option<bool>)

  datatype SchemaError =
    | ValidationFailed(paths: set<string>)   // required or enum validators failed on these paths
    | DuplicateName(name: string)             // the unique index on `name` rejected the insert

  /** A required string path is satisfied only by a present, non-empty string. */
  predicate Filled(o: Option<string>)
  {
    o.Some? && o.value != ""
  }

  /** The paths whose validators fail for a draft. */
  function FailingPaths(d: BadgeDraft): (paths: set<string>)
    ensures "name" in paths <==> !Filled(d.name)
    ensures "icon" in paths <==> !Filled(d.icon)
    ensures "criteria" in paths <==> (d.criteria.None? || ParseCriteria(d.criteria.value).None?)
    ensures paths <= {"name", "icon", "criteria"}
  {
    (if Filled(d.name) then {} else {"name"})
    + (if Filled(d.icon) then {} else {"icon"})
    + (if d.criteria.Some? && ParseCriteria(d.criteria.value).Some? then {} else {"criteria"})
  }

  /**
   * Inserting a draft into the catalogue: validation first, then the unique index.
   * `isSecret` defaults to false and `minScore`, absent from the schema, is never stored.
   */
  function CreateBadge(catalogue: seq<Badge>, id: BadgeId, d: BadgeDraft): (r: Result<Badge, SchemaError>)
    ensures r.Ok? <==> FailingPaths(d) == {} && !NameTaken(catalogue, d.name.value)
    ensures r.Ok? ==> WellFormed(r.value)
    ensures r.Ok? ==> && r.value.id == id && r.value.name == d.name.value && r.value.icon == d.icon.value
                      && r.value.description == d.description && r.value.threshold == d.threshold
                      && r.value.course == d.course
    ensures r.Ok? ==> CriteriaName(r.value.criteria) == d.criteria.value
    ensures r.Ok? ==> r.value.isSecret == (d.isSecret == Some(true))
    ensures r.Ok? ==> r.value.minScore.None?
    ensures r.Ok? && UniqueNames(catalogue) ==> UniqueNames(catalogue + [r.value])
  {
    var failing := FailingPaths(d);
    if failing != {} then Err(ValidationFailed(failing))
    else if NameTaken(catalogue, d.name.value) then Err(DuplicateName(d.name.value))
    else
      var b := Badge(id, d.name.value, d.description, d.icon.value, ParseCriteria(d.criteria.value).value,
                     d.threshold, d.course, None, if d.isSecret.Some? then d.isSecret.value else false);
      assert forall i :: 0 <= i < |catalogue| ==> catalogue[i].name != b.name;
      Ok(b)
  }

  lemma CriteriaNameRoundTrip(c: Criteria)
    ensures ParseCriteria(CriteriaName(c)) == Some(c)
  {
  }
}
