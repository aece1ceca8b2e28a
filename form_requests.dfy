/**
 * The two form requests with logic of their own: the profile update, whose
 * `status` and `role` rules depend on who edits whom, and the lesson
 * preparation request, whose subject rule reads the teacher's profile and
 * whose rules are all made optional for PATCH.
 *
 * A rule is either a `|`-separated string or a list of rule items, as the
 * framework's validator accepts them. The `in:`, `min:` and `max:` items are
 * kept as structured items so that what they admit can be stated.
 */
module FormRequests {
  import opened Wrappers
  import opened Users
  import Policies

  datatype RuleItem =
    | Token(name: string)                        // a rule without a checked parameter here
    | InList(values: seq<string>)                // `in:a,b,c`
    | Min(bound: int)                            // `min:n`
    | Max(bound: int)                            // `max:n`
    | UniqueUserIgnoring(ignored: Option<UserId>) // `Rule::unique('users')->ignore(...)`
    | TeacherSubject                             // the subject-membership closure

  datatype Rule = Piped(text: string) | Items(items: seq<RuleItem>)

  /** A value passes every `in:` item of the rule. */
  predicate InListsAccept(r: Rule, v: string) {
    r.Items? ==> forall x :: x in r.items && x.InList? ==> v in x.values
  }

  /** An integer passes every `min:` and `max:` item of the rule. */
  predicate BoundsAccept(r: Rule, n: int) {
    r.Items? ==> forall x :: x in r.items ==> (x.Min? ==> x.bound <= n) && (x.Max? ==> n <= x.bound)
  }

  // ------------------------------------------------------------ UpdateUserProfileRequest

  /** `authorize`: the gate's `update` answer for the user of the route. */
  function ProfileAuthorize(actor: Option<User>, target: User): (ok: bool)
    ensures ok ==> actor.Some?
    ensures actor.Some? ==> (ok <==> Policies.UserAllows(Policies.Update, actor.value, target))
    ensures actor.Some? && actor.value.id == target.id ==> ok
  {
    actor.Some? && Policies.UserAllows(Policies.Update, actor.value, target)
  }

  /** The caller is an admin, manager or super admin editing someone else. */
  predicate ManagesOthers(actor: Option<User>, target: Option<User>) {
    var updatingSelf := actor.Some? && target.Some? && actor.value.id == target.value.id;
    !updatingSelf && actor.Some? && (IsAdmin(actor.value) || IsManager(actor.value) || IsSuperAdmin(actor.value))
  }

  const ProfileStatuses: seq<string> := ["active", "inactive", "suspended"]
  const ProfileRoles: seq<string> := ["admin", "manager", "teacher", "student", "parent"]

  /** The rules every profile update gets. */
  function BaseProfileRules(target: Option<User>): map<string, Rule> {
    map[
      "name" := Items([Token("sometimes"), Token("string"), Max(255)]),
      "email" := Items([Token("sometimes"), Token("string"), Token("lowercase"), Token("email"), Max(255),
                        UniqueUserIgnoring(if target.Some? then Some(target.value.id) else None)]),
      "name_ar" := Items([Token("nullable"), Token("string"), Max(255)]),
      "gender" := Items([Token("nullable"), Token("string"), InList(["male", "female"])]),
      "date_of_birth" := Items([Token("nullable"), Token("date")]),
      "address" := Items([Token("nullable"), Token("string"), Max(500)]),
      "phone" := Items([Token("nullable"), Token("string"), Max(20)]),
      "years_of_experience" := Items([Token("nullable"), Token("integer")]),
      "wilaya" := Items([Token("nullable"), Token("string"), Max(255)]),
      "municipality" := Items([Token("nullable"), Token("string"), Max(255)]),
      "institution_id" := Items([Token("nullable"), Token("exists:institutions,id")]),
      "user_institution_id" := Items([Token("nullable"), Token("string")]),
      "class" := Items([Token("nullable"), Token("string"), Max(255)]),
      "department" := Items([Token("nullable"), Token("string"), Max(255)]),
      "position" := Items([Token("nullable"), Token("string"), Max(255)]),
      "date_of_hiring" := Items([Token("nullable"), Token("date")]),
      "work_phone" := Items([Token("nullable"), Token("string"), Max(20)]),
      "office_location" := Items([Token("nullable"), Token("string"), Max(255)]),
      "notes" := Items([Token("nullable"), Token("string")]),
      "subjects" := Items([Token("nullable"), Token("array")]),
      "subjects.*" := Items([Token("string"), Max(255)]),
      "levels" := Items([Token("nullable"), Token("array")]),
      "levels.*" := Items([Token("string"), Max(255)])
    ]
  }

  /** The two rules added for a caller who manages someone else. */
  const StatusRule: Rule := Items([Token("sometimes"), Token("string"), InList(ProfileStatuses)])
  const RoleRule: Rule := Items([Token("sometimes"), Token("string"), InList(ProfileRoles)])

  /** The added rules admit exactly the listed statuses and roles. */
  lemma ManagedRulesValues()
    ensures forall v :: InListsAccept(StatusRule, v) <==> v in ProfileStatuses
    ensures forall v :: InListsAccept(RoleRule, v) <==> v in ProfileRoles
  {
    assert StatusRule.items[2] == InList(ProfileStatuses);
    assert RoleRule.items[2] == InList(ProfileRoles);
  }

  /** `rules`: the base rules, plus `status` and `role` when the caller manages someone else. */
  function ProfileRules(actor: Option<User>, target: Option<User>): (r: map<string, Rule>)
    ensures BaseProfileRules(target).Keys <= r.Keys
    ensures "status" in r <==> ManagesOthers(actor, target)
    ensures "role" in r <==> ManagesOthers(actor, target)
    ensures "status" in r ==> forall v :: InListsAccept(r["status"], v) <==> v in ProfileStatuses
    ensures "role" in r ==> forall v :: InListsAccept(r["role"], v) <==> v in ProfileRoles
  {
    var base := BaseProfileRules(target);
    assert "status" !in base && "role" !in base;
    ManagedRulesValues();
    if ManagesOthers(actor, target) then base["status" := StatusRule]["role" := RoleRule] else base
  }

  /** Editing one's own profile never admits `status` or `role`, whatever one's role. */
  lemma SelfUpdateKeepsStatusAndRole(actor: User)
    ensures "status" !in ProfileRules(Some(actor), Some(actor))
    ensures "role" !in ProfileRules(Some(actor), Some(actor))
  {
  }

  /** The role rule never admits `super_admin`, so nobody is promoted to it through this request. */
  lemma NoPromotionToSuperAdmin(actor: Option<User>, target: Option<User>)
    ensures var r := ProfileRules(actor, target);
            "role" in r ==> !InListsAccept(r["role"], RoleSuperAdmin) && InListsAccept(r["role"], RoleTeacher)
  {
  }

  /** Gender is male or female, whoever edits whom. */
  lemma GenderValues(actor: Option<User>, target: Option<User>, v: string)
    ensures "gender" in ProfileRules(actor, target)
    ensures InListsAccept(ProfileRules(actor, target)["gender"], v) <==> v in ["male", "female"]
  {
    var xs := [Token("nullable"), Token("string"), InList(["male", "female"])];
    assert BaseProfileRules(target)["gender"] == Items(xs);
    assert ProfileRules(actor, target)["gender"] == Items(xs);
    assert xs[2] in xs;
  }

  // ------------------------------------------------------------ StoreLessonPreparationRequest

  /** `authorize`: an authenticated teacher. */
  function PreparationAuthorize(actor: Option<User>): (ok: bool)
    ensures ok <==> actor.Some? && actor.value.role == RoleTeacher
  {
    actor.Some? && IsTeacher(actor.value)
  }

  /**
   * The subject closure: `subjects ?? []`, replaced by `[]` when not an
   * array, must contain the value. Membership is exact string equality;
   * the loose comparison of `in_array` without its strict flag, which also
   * equates numeric strings of equal value such as `"1.0"` and `"1"`, is
   * not modelled.
   */
  function SubjectAccepted(subjects: Subjects, v: string): (ok: bool)
    ensures !subjects.SubjectList? ==> !ok
    ensures subjects.SubjectList? ==> (ok <==> v in subjects.items)
  {
    var list := match subjects
      case SubjectList(items) => items
      case NoSubjects => []
      case NotAList => [];
    v in list
  }

  /** The rules as written for POST and PUT. */
  function PreparationBaseRules(): map<string, Rule> {
    map[
      "lesson_number" := Items([Token("required"), Token("integer"), Min(1)]),
      "subject" := Items([Token("required"), Token("string"), TeacherSubject]),
      "level" := Items([Token("required"), Token("string"), Min(1), Max(50)]),
      "date" := Items([Token("required"), Token("date")]),
      "duration_minutes" := Items([Token("required"), Token("integer"), Min(15), Max(480)]),
      "learning_objectives" := Items([Token("required"), Token("array"), Min(1)]),
      "learning_objectives.*" := Items([Token("string"), Min(1), Max(500)]),
      "teaching_methods" := Items([Token("required"), Token("array"), Min(1)]),
      "teaching_methods.*" := Items([Token("string"), Min(1), Max(100)]),
      "resources_needed" := Items([Token("nullable"), Token("array")]),
      "resources_needed.*" := Items([Token("string"), Min(1), Max(500)]),
      "assessment_methods" := Items([Token("nullable"), Token("array")]),
      "assessment_methods.*" := Items([Token("string"), Min(1), Max(100)]),
      "notes" := Items([Token("nullable"), Token("string"), Max(2000)]),
      "status" := Items([Token("required"), InList(["draft", "ready", "delivered"])]),
      "domain" := Items([Token("required"), Token("string"), Min(3), Max(255)]),
      "learning_unit" := Items([Token("required"), Token("string"), Min(3), Max(255)]),
      "knowledge_resource" := Items([Token("required"), Token("string"), Min(3), Max(255)]),
      "lesson_elements" := Items([Token("nullable"), Token("array")]),
      "lesson_elements.*.content" := Items([Token("nullable"), Token("string")]),
      "targeted_knowledge" := Items([Token("nullable"), Token("array")]),
      "targeted_knowledge.*" := Items([Token("string")]),
      "used_materials" := Items([Token("nullable"), Token("array")]),
      "used_materials.*" := Items([Token("string")]),
      "references" := Items([Token("nullable"), Token("array")]),
      "references.*" := Items([Token("string")]),
      "phases" := Items([Token("nullable"), Token("array")]),
      "phases.*.type" := Items([Token("required_with:phases"), Token("string"),
                                InList(["departure", "presentation", "consolidation"])]),
      "phases.*.content" := Items([Token("required_with:phases"), Token("string")]),
      "phases.*.duration_minutes" := Items([Token("required_with:phases"), Token("numeric"), Min(1)]),
      "activities" := Items([Token("nullable"), Token("array")]),
      "activities.*.content" := Items([Token("required_with:activities"), Token("string")]),
      "evaluation_type" := Items([Token("required"), InList(["assessment", "homework"])]),
      "evaluation_content" := Items([Token("required"), Token("string"), Min(3)])
    ]
  }

  const SometimesPrefix: string := "sometimes|"

  /** One rule made optional: `sometimes` in front of a list, `sometimes|` in front of a string. */
  function Sometimes(r: Rule): (r': Rule)
    ensures r'.Items? <==> r.Items?
    ensures r.Items? ==> |r'.items| == |r.items| + 1 && r'.items[0] == Token("sometimes") && r'.items[1..] == r.items
    ensures r.Piped? ==> |r'.text| == |r.text| + 10 && r'.text[..10] == SometimesPrefix && r'.text[10..] == r.text
  {
    match r
    case Items(xs) => Items([Token("sometimes")] + xs)
    case Piped(s) => Piped(SometimesPrefix + s)
  }

  /** The `array_map` over the rules for PATCH. */
  function WithSometimes(rules: map<string, Rule>): (r: map<string, Rule>)
    ensures r.Keys == rules.Keys
    ensures forall k :: k in r ==> r[k] == Sometimes(rules[k])
  {
    map k | k in rules :: Sometimes(rules[k])
  }

  /** Making a rule optional keeps what its `in:`, `min:` and `max:` items admit. */
  lemma {:induction false} SometimesKeepsChecks(r: Rule, v: string, n: int)
    ensures InListsAccept(Sometimes(r), v) <==> InListsAccept(r, v)
    ensures BoundsAccept(Sometimes(r), n) <==> BoundsAccept(r, n)
  {
    if r.Items? {
      var r' := Sometimes(r);
      assert forall x :: x in r'.items <==> x == Token("sometimes") || x in r.items by {
        assert r'.items == [Token("sometimes")] + r.items;
      }
    }
  }

  /** `rules`: rewritten for PATCH, returned unchanged otherwise. */
  function PreparationRules(isPatch: bool): (r: map<string, Rule>)
    ensures r.Keys == PreparationBaseRules().Keys
    ensures !isPatch ==> r == PreparationBaseRules()
    ensures isPatch ==> forall k :: k in r ==> r[k] == Sometimes(PreparationBaseRules()[k])
  {
    if isPatch then WithSometimes(PreparationBaseRules()) else PreparationBaseRules()
  }

  /** What a rule's `in:`, `min:` and `max:` items admit is the same for POST and PATCH. */
  lemma PatchKeepsChecks(isPatch: bool, key: string, v: string, n: int)
    requires key in PreparationBaseRules()
    ensures key in PreparationRules(isPatch)
    ensures InListsAccept(PreparationRules(isPatch)[key], v) <==> InListsAccept(PreparationBaseRules()[key], v)
    ensures BoundsAccept(PreparationRules(isPatch)[key], n) <==> BoundsAccept(PreparationBaseRules()[key], n)
  {
    SometimesKeepsChecks(PreparationBaseRules()[key], v, n);
  }

  /** `lesson_number` is at least 1, for POST and PATCH alike. */
  lemma LessonNumberBound(isPatch: bool, n: int)
    ensures BoundsAccept(PreparationRules(isPatch)["lesson_number"], n) <==> 1 <= n
  {
    var xs := [Token("required"), Token("integer"), Min(1)];
    assert PreparationBaseRules()["lesson_number"] == Items(xs);
    PatchKeepsChecks(isPatch, "lesson_number", "", n);
    assert Min(1) in xs;
  }

  /** `duration_minutes` lies between 15 and 480, for POST and PATCH alike. */
  lemma DurationBounds(isPatch: bool, n: int)
    ensures BoundsAccept(PreparationRules(isPatch)["duration_minutes"], n) <==> 15 <= n <= 480
  {
    var xs := [Token("required"), Token("integer"), Min(15), Max(480)];
    assert PreparationBaseRules()["duration_minutes"] == Items(xs);
    PatchKeepsChecks(isPatch, "duration_minutes", "", n);
    assert Min(15) in xs && Max(480) in xs;
  }

  /** `status` is one of draft, ready and delivered, for POST and PATCH alike. */
  lemma PreparationStatusValues(isPatch: bool, v: string)
    ensures InListsAccept(PreparationRules(isPatch)["status"], v) <==> v in ["draft", "ready", "delivered"]
  {
    var xs := [Token("required"), InList(["draft", "ready", "delivered"])];
    assert PreparationBaseRules()["status"] == Items(xs);
    PatchKeepsChecks(isPatch, "status", v, 0);
    assert xs[1] in xs;
  }

  /** A phase type is one of departure, presentation and consolidation, for POST and PATCH alike. */
  lemma PhaseTypeValues(isPatch: bool, v: string)
    ensures InListsAccept(PreparationRules(isPatch)["phases.*.type"], v)
            <==> v in ["departure", "presentation", "consolidation"]
  {
    var xs := [Token("required_with:phases"), Token("string"), InList(["departure", "presentation", "consolidation"])];
    assert PreparationBaseRules()["phases.*.type"] == Items(xs);
    PatchKeepsChecks(isPatch, "phases.*.type", v, 0);
    assert xs[2] in xs;
  }

  /** `evaluation_type` is assessment or homework, for POST and PATCH alike. */
  lemma EvaluationTypeValues(isPatch: bool, v: string)
    ensures InListsAccept(PreparationRules(isPatch)["evaluation_type"], v) <==> v in ["assessment", "homework"]
  {
    var xs := [Token("required"), InList(["assessment", "homework"])];
    assert PreparationBaseRules()["evaluation_type"] == Items(xs);
    PatchKeepsChecks(isPatch, "evaluation_type", v, 0);
    assert xs[1] in xs;
  }
}
