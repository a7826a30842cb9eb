/**
 * The endorsement validator: it reports every declared constraint the
 * endorsement violates, then every required field left without text, then,
 * unless the level is `specification`, every missing parent field. Nothing
 * stops it early and nothing is deduplicated.
 */
module EndorsementValidator {
  import opened Wrappers
  import opened JavaText
  import opened EndorsementEntity

  /**
   * The validators behind `@MRN` and `@InPredefinedList`, whose code is not
   * part of this model: whether a value is a valid MRN, and whether a value
   * is acceptable for a list of accepted values.
   */
  datatype Checkers = Checkers(mrnValid: JString -> bool, inList: (seq<string>, JString) -> bool)

  /** Whether `v` violates constraint `c`; `@NotBlank` rejects `null` and anything that trims to empty. */
  predicate Violates(ck: Checkers, c: Constraint, v: JString) {
    match c
    case Mrn => !ck.mrnValid(v)
    case NotBlank => v.None? || IsBlank(v.value)
    case InPredefinedList(vals) => !ck.inList(vals, v)
  }

  /** The message of a reported error: a constraint's own message or a fixed text. */
  datatype Message = ConstraintMessage(constraint: Constraint) | Text(text: string)

  /** One rejected value: the field, the error code and the message. */
  datatype FieldError = FieldError(field: Field, code: string, message: Message)

  // ---------------------------------------------------------------------------
  // Keeping the candidates a check rejects
  // ---------------------------------------------------------------------------

  /** The elements of `xs` that `keep` selects, in order. */
  function Keep<T>(xs: seq<T>, keep: T -> bool): (r: seq<T>)
    ensures |r| <= |xs|
    ensures forall i :: 0 <= i < |r| ==> r[i] in xs && keep(r[i])
  {
    if |xs| == 0 then []
    else (if keep(xs[0]) then [xs[0]] else []) + Keep(xs[1..], keep)
  }

  /** A sequence without repeated elements. */
  predicate Distinct<T(==)>(s: seq<T>) {
    forall i, j :: 0 <= i < j < |s| ==> s[i] != s[j]
  }

  /** Occurrences of `x` in `s`. */
  function Count<T(==)>(s: seq<T>, x: T): nat {
    multiset(s)[x]
  }

  /** From distinct candidates, each selected one is kept exactly once and nothing else is. */
  lemma {:induction false} KeepCount<T>(xs: seq<T>, keep: T -> bool, x: T)
    requires Distinct(xs)
    ensures Count(Keep(xs, keep), x) == if x in xs && keep(x) then 1 else 0
  {
    if |xs| > 0 {
      KeepCount(xs[1..], keep, x);
      assert xs == [xs[0]] + xs[1..];
      assert xs[0] !in xs[1..];
    }
  }

  // ---------------------------------------------------------------------------
  // The three groups of errors
  // ---------------------------------------------------------------------------

  /** The error a violated constraint `c` of field `f` reports: its property path, an empty code, its message. */
  function ViolationError(f: Field, c: Constraint): FieldError {
    FieldError(f, [], ConstraintMessage(c))
  }

  /** One candidate violation per annotation, in declaration order. */
  function Declared(): seq<FieldError> {
    seq(|Annotations|, i requires 0 <= i < |Annotations| => ViolationError(Annotations[i].0, Annotations[i].1))
  }

  /** `err` reports a constraint that the value of its field violates. */
  predicate Violated(ck: Checkers, e: Endorsement, err: FieldError) {
    err.message.ConstraintMessage? && Violates(ck, err.message.constraint, Value(e, err.field))
  }

  /** The bean-validation pass: one error per violated declared constraint. */
  function ConstraintViolations(ck: Checkers, e: Endorsement): seq<FieldError> {
    Keep(Declared(), err => Violated(ck, e, err))
  }

  /** The fields that must have text. */
  const RequiredFields: seq<Field> := [ServiceMrn, ServiceVersion, OrgMrn, OrgName, UserMrn, ServiceLevel]

  /** The code of a missing-value error. */
  function EmptyCode(f: Field): string {
    FieldName(f) + ".empty"
  }

  /** The message of a missing required field (with the two spaces it is written with). */
  function RequiredMessage(f: Field): string {
    FieldName(f) + "  is required."
  }

  /** The message of a missing parent field. */
  const ParentMessage: string := "parentMrn and parentVersion is dependant on each other."

  /** The error `rejectIfEmptyOrWhitespace` reports for field `f`. */
  function PresenceError(f: Field, message: string): FieldError {
    FieldError(f, EmptyCode(f), Text(message))
  }

  /** One presence check per required field, each with its own message. */
  function RequiredChecks(): seq<FieldError> {
    seq(|RequiredFields|, i requires 0 <= i < |RequiredFields| => PresenceError(RequiredFields[i], RequiredMessage(RequiredFields[i])))
  }

  /** The two parent checks, sharing one message. */
  const ParentChecks: seq<FieldError> := [PresenceError(ParentMrn, ParentMessage), PresenceError(ParentVersion, ParentMessage)]

  /** `rejectIfEmptyOrWhitespace` rejects the field's value: `null` or without text. */
  predicate Missing(e: Endorsement, err: FieldError) {
    !HasText(Value(e, err.field))
  }

  /** The six presence checks, in order. */
  function PresenceErrors(e: Endorsement): seq<FieldError> {
    Keep(RequiredChecks(), err => Missing(e, err))
  }

  /** The parent checks, made only when the level is not exactly `specification`. */
  function ParentErrors(e: Endorsement): (r: seq<FieldError>)
    ensures e.serviceLevel == Some("specification") ==> r == []
  {
    if e.serviceLevel != Some("specification") then Keep(ParentChecks, err => Missing(e, err)) else []
  }

  /** `validate`: all three groups, accumulated in order. */
  function Validate(ck: Checkers, e: Endorsement): seq<FieldError>
  {
    ConstraintViolations(ck, e) + PresenceErrors(e) + ParentErrors(e)
  }

  // ---------------------------------------------------------------------------
  // What is reported, stated without the loops
  // ---------------------------------------------------------------------------

  /** `err` is the violation of a constraint annotated on its field, and the field's value violates it. */
  predicate ViolationReported(ck: Checkers, e: Endorsement, err: FieldError) {
    && err.message.ConstraintMessage? && err == ViolationError(err.field, err.message.constraint)
    && err.message.constraint in ConstraintsOn(err.field) && Violated(ck, e, err)
  }

  /** `err` is the presence error of a required field that has no text. */
  predicate RequiredReported(e: Endorsement, err: FieldError) {
    err.field in RequiredFields && err == PresenceError(err.field, RequiredMessage(err.field)) && Missing(e, err)
  }

  /** `err` is the presence error of a parent field that has no text, outside a specification. */
  predicate ParentReported(e: Endorsement, err: FieldError) {
    && err.field in {ParentMrn, ParentVersion} && err == PresenceError(err.field, ParentMessage)
    && Missing(e, err) && e.serviceLevel != Some("specification")
  }

  /** Whether `err` is among the errors the validator reports for `e`. */
  predicate Reported(ck: Checkers, e: Endorsement, err: FieldError) {
    ViolationReported(ck, e, err) || RequiredReported(e, err) || ParentReported(e, err)
  }

  /** An endorsement that passes: no violated constraint, every required field and, unless a specification, both parents with text. */
  predicate IsValid(ck: Checkers, e: Endorsement) {
    && (forall f, c :: c in ConstraintsOn(f) ==> !Violates(ck, c, Value(e, f)))
    && (forall f :: f in RequiredFields ==> HasText(Value(e, f)))
    && (e.serviceLevel != Some("specification") ==> HasText(e.parentMrn) && HasText(e.parentVersion))
  }

  // ---------------------------------------------------------------------------
  // The candidates
  // ---------------------------------------------------------------------------

  /** The declared candidates are exactly the annotated (field, constraint) pairs. */
  lemma DeclaredMembership(x: FieldError)
    ensures x in Declared() <==>
      && x.message.ConstraintMessage? && x == ViolationError(x.field, x.message.constraint)
      && x.message.constraint in ConstraintsOn(x.field)
  {
    if x in Declared() {
      var i :| 0 <= i < |Declared()| && Declared()[i] == x;
      AnnotationsAgree(Annotations[i].0, Annotations[i].1);
    }
    if x.message.ConstraintMessage? && x == ViolationError(x.field, x.message.constraint)
       && x.message.constraint in ConstraintsOn(x.field) {
      AnnotationsAgree(x.field, x.message.constraint);
      var i :| 0 <= i < |Annotations| && Annotations[i] == (x.field, x.message.constraint);
      assert Declared()[i] == x;
    }
  }

  /** No annotation is listed twice, so no candidate is. */
  lemma DeclaredDistinct()
    ensures Distinct(Declared())
  {
    AnnotationsDistinct();
  }

  /** The presence checks are one per required field. */
  lemma RequiredChecksMembership(x: FieldError)
    ensures x in RequiredChecks() <==> x.field in RequiredFields && x == PresenceError(x.field, RequiredMessage(x.field))
  {
    if x.field in RequiredFields && x == PresenceError(x.field, RequiredMessage(x.field)) {
      var i :| 0 <= i < |RequiredFields| && RequiredFields[i] == x.field;
      assert RequiredChecks()[i] == x;
    }
  }

  /** No required field is listed twice, so no presence check is. */
  lemma RequiredChecksDistinct()
    ensures Distinct(RequiredChecks())
  {
    assert Distinct(RequiredFields);
  }

  // ---------------------------------------------------------------------------
  // Exactly what is reported
  // ---------------------------------------------------------------------------

  /** The bean-validation pass reports each violated declared constraint exactly once. */
  lemma ConstraintViolationsCount(ck: Checkers, e: Endorsement, err: FieldError)
    ensures Count(ConstraintViolations(ck, e), err) == if ViolationReported(ck, e, err) then 1 else 0
  {
    DeclaredDistinct();
    DeclaredMembership(err);
    KeepCount(Declared(), err => Violated(ck, e, err), err);
  }

  /** The presence checks report each required field without text exactly once. */
  lemma PresenceErrorsCount(e: Endorsement, err: FieldError)
    ensures Count(PresenceErrors(e), err) == if RequiredReported(e, err) then 1 else 0
  {
    RequiredChecksDistinct();
    RequiredChecksMembership(err);
    KeepCount(RequiredChecks(), err => Missing(e, err), err);
  }

  /** The parent checks report each parent field without text exactly once, unless a specification. */
  lemma ParentErrorsCount(e: Endorsement, err: FieldError)
    ensures Count(ParentErrors(e), err) == if ParentReported(e, err) then 1 else 0
  {
    if e.serviceLevel != Some("specification") {
      KeepCount(ParentChecks, err => Missing(e, err), err);
    }
  }

  /**
   * Every reported error occurs exactly once and nothing else occurs: each
   * violated constraint on its field, each required field without text, and
   * each parent field without text when the level is not `specification`.
   */
  lemma ValidateCount(ck: Checkers, e: Endorsement, err: FieldError)
    ensures Count(Validate(ck, e), err) == if Reported(ck, e, err) then 1 else 0
  {
    ConstraintViolationsCount(ck, e, err);
    PresenceErrorsCount(e, err);
    ParentErrorsCount(e, err);
    ValidateCountSplits(ck, e, err);
    ReportsExclusive(ck, e, err);
  }

  /** The count in the whole list is the sum over the three groups. */
  lemma ValidateCountSplits(ck: Checkers, e: Endorsement, err: FieldError)
    ensures Count(Validate(ck, e), err) == Count(ConstraintViolations(ck, e), err) + Count(PresenceErrors(e), err) + Count(ParentErrors(e), err)
  {
    CountConcat(ConstraintViolations(ck, e), PresenceErrors(e), ParentErrors(e), err);
  }

  /** No error belongs to two groups: messages or fields tell them apart. */
  lemma ReportsExclusive(ck: Checkers, e: Endorsement, err: FieldError)
    ensures !(ViolationReported(ck, e, err) && RequiredReported(e, err))
    ensures !(ViolationReported(ck, e, err) && ParentReported(e, err))
    ensures !(RequiredReported(e, err) && ParentReported(e, err))
  {
  }

  /** Count in a concatenation of three. */
  lemma CountConcat<T>(a: seq<T>, b: seq<T>, c: seq<T>, x: T)
    ensures Count(a + b + c, x) == Count(a, x) + Count(b, x) + Count(c, x)
  {
  }

  /** With an empty list, no error is reported. */
  lemma NothingReportedWhenEmpty(ck: Checkers, e: Endorsement, err: FieldError)
    requires Validate(ck, e) == []
    ensures !Reported(ck, e, err)
  {
    ValidateCount(ck, e, err);
  }

  /** When no error is reported, every check passed. */
  lemma ValidWhenNothingReported(ck: Checkers, e: Endorsement)
    requires forall err :: !Reported(ck, e, err)
    ensures IsValid(ck, e)
  {
    forall f, c | c in ConstraintsOn(f)
      ensures !Violates(ck, c, Value(e, f))
    {
      assert !Reported(ck, e, ViolationError(f, c));
    }
    forall f | f in RequiredFields
      ensures HasText(Value(e, f))
    {
      assert !Reported(ck, e, PresenceError(f, RequiredMessage(f)));
    }
    assert !Reported(ck, e, PresenceError(ParentMrn, ParentMessage));
    assert !Reported(ck, e, PresenceError(ParentVersion, ParentMessage));
  }

  /** An empty list means every check passed. */
  lemma ValidWhenEmpty(ck: Checkers, e: Endorsement)
    requires Validate(ck, e) == []
    ensures IsValid(ck, e)
  {
    forall err
      ensures !Reported(ck, e, err)
    {
      NothingReportedWhenEmpty(ck, e, err);
    }
    ValidWhenNothingReported(ck, e);
  }

  /** A valid endorsement has no error that could be reported. */
  lemma NothingReportedWhenValid(ck: Checkers, e: Endorsement, err: FieldError)
    requires IsValid(ck, e)
    ensures !Reported(ck, e, err)
  {
    var f := err.field;
    if err.message.ConstraintMessage? && err.message.constraint in ConstraintsOn(f) {
      assert !Violates(ck, err.message.constraint, Value(e, f));
    }
    if f in RequiredFields {
      assert HasText(Value(e, f));
    }
  }

  /** A valid endorsement has nothing reported against it. */
  lemma EmptyWhenValid(ck: Checkers, e: Endorsement)
    requires IsValid(ck, e)
    ensures Validate(ck, e) == []
  {
    var r := Validate(ck, e);
    if r != [] {
      assert r[0] in multiset(r);
      ValidateCount(ck, e, r[0]);
      NothingReportedWhenValid(ck, e, r[0]);
    }
  }

  /** No errors exactly when the endorsement is valid. */
  lemma ValidateEmptyIff(ck: Checkers, e: Endorsement)
    ensures Validate(ck, e) == [] <==> IsValid(ck, e)
  {
    if Validate(ck, e) == [] {
      ValidWhenEmpty(ck, e);
    }
    if IsValid(ck, e) {
      EmptyWhenValid(ck, e);
    }
  }

  // ---------------------------------------------------------------------------
  // Consequences
  // ---------------------------------------------------------------------------

  /** A reported error is in the list, and an error in the list is reported. */
  lemma InValidateIff(ck: Checkers, e: Endorsement, err: FieldError)
    ensures err in Validate(ck, e) <==> Reported(ck, e, err)
  {
    ValidateCount(ck, e, err);
    assert err in Validate(ck, e) <==> err in multiset(Validate(ck, e));
  }

  /** At the `specification` level no error concerns a parent field. */
  lemma SpecificationExemptsParents(ck: Checkers, e: Endorsement, err: FieldError)
    requires e.serviceLevel == Some("specification")
    requires err.field == ParentMrn || err.field == ParentVersion
    ensures err !in Validate(ck, e)
  {
    ParentsNotReportedAtSpecification(ck, e, err);
    NotReportedNotIn(ck, e, err);
  }

  /** At the `specification` level no error is reported against either parent field. */
  lemma ParentsNotReportedAtSpecification(ck: Checkers, e: Endorsement, err: FieldError)
    requires e.serviceLevel == Some("specification")
    requires err.field == ParentMrn || err.field == ParentVersion
    ensures !Reported(ck, e, err)
  {
  }

  /** What is not reported is not in the list. */
  lemma NotReportedNotIn(ck: Checkers, e: Endorsement, err: FieldError)
    requires !Reported(ck, e, err)
    ensures err !in Validate(ck, e)
  {
    InValidateIff(ck, e, err);
  }

  /** What is reported is in the list. */
  lemma ReportedIn(ck: Checkers, e: Endorsement, err: FieldError)
    requires Reported(ck, e, err)
    ensures err in Validate(ck, e)
  {
    InValidateIff(ck, e, err);
  }

  /** At any other level, null included, a parent field without text is reported with the shared message. */
  lemma OtherLevelsRequireParents(ck: Checkers, e: Endorsement, f: Field)
    requires e.serviceLevel != Some("specification")
    requires f == ParentMrn || f == ParentVersion
    ensures PresenceError(f, ParentMessage) in Validate(ck, e) <==> !HasText(Value(e, f))
  {
    InValidateIff(ck, e, PresenceError(f, ParentMessage));
  }

  /**
   * Nothing is deduplicated: a `null`, empty or all-space `serviceMrn` is
   * reported once by `@NotBlank` and once more by the presence check.
   */
  lemma BlankServiceMrnReportedTwice(ck: Checkers, e: Endorsement)
    requires e.serviceMrn.None? || forall i :: 0 <= i < |e.serviceMrn.value| ==> e.serviceMrn.value[i] == ' '
    ensures ViolationError(ServiceMrn, NotBlank) in Validate(ck, e)
    ensures PresenceError(ServiceMrn, RequiredMessage(ServiceMrn)) in Validate(ck, e)
    ensures ViolationError(ServiceMrn, NotBlank) != PresenceError(ServiceMrn, RequiredMessage(ServiceMrn))
  {
    AllSpacesIsBlank(e.serviceMrn);
    BlankServiceMrnReported(ck, e);
    ReportedIn(ck, e, ViolationError(ServiceMrn, NotBlank));
    ReportedIn(ck, e, PresenceError(ServiceMrn, RequiredMessage(ServiceMrn)));
  }

  /**
   * The two blankness tests disagree on a control character: a service MRN
   * of U+0001 is blank for `@NotBlank`, but has text for the required-field
   * check, so it is reported only once.
   */
  lemma ControlCharServiceMrnReportedOnce(ck: Checkers, e: Endorsement)
    requires e.serviceMrn == Some("\U{0001}")
    ensures ViolationError(ServiceMrn, NotBlank) in Validate(ck, e)
    ensures PresenceError(ServiceMrn, RequiredMessage(ServiceMrn)) !in Validate(ck, e)
  {
    BlankAndHasTextDiffer();
    BlankWithTextReportedOnce(ck, e);
  }

  /** A service MRN that is blank but has text fails `@NotBlank` only. */
  lemma BlankWithTextReportedOnce(ck: Checkers, e: Endorsement)
    requires e.serviceMrn.Some? && IsBlank(e.serviceMrn.value) && HasText(e.serviceMrn)
    ensures ViolationError(ServiceMrn, NotBlank) in Validate(ck, e)
    ensures PresenceError(ServiceMrn, RequiredMessage(ServiceMrn)) !in Validate(ck, e)
  {
    BlankWithTextReported(ck, e);
    ReportedIn(ck, e, ViolationError(ServiceMrn, NotBlank));
    NotReportedNotIn(ck, e, PresenceError(ServiceMrn, RequiredMessage(ServiceMrn)));
  }

  /** The declarative side: `@NotBlank` reports a blank service MRN, and the required-field check does not when it has text. */
  lemma BlankWithTextReported(ck: Checkers, e: Endorsement)
    requires e.serviceMrn.Some? && IsBlank(e.serviceMrn.value) && HasText(e.serviceMrn)
    ensures Reported(ck, e, ViolationError(ServiceMrn, NotBlank))
    ensures !Reported(ck, e, PresenceError(ServiceMrn, RequiredMessage(ServiceMrn)))
  {
  }

  /** A blank service MRN that also lacks text is reported by `@NotBlank` and by the required-field check. */
  lemma BlankServiceMrnReported(ck: Checkers, e: Endorsement)
    requires e.serviceMrn.None? || IsBlank(e.serviceMrn.value)
    requires !HasText(e.serviceMrn)
    ensures Reported(ck, e, ViolationError(ServiceMrn, NotBlank))
    ensures Reported(ck, e, PresenceError(ServiceMrn, RequiredMessage(ServiceMrn)))
  {
  }

  /** A `null` or all-space value fails both `@NotBlank` and `hasText`. */
  lemma AllSpacesIsBlank(v: JString)
    requires v.None? || forall i :: 0 <= i < |v.value| ==> v.value[i] == ' '
    ensures v.None? || IsBlank(v.value)
    ensures !HasText(v)
  {
  }

  /** When the reported errors are exactly a set, the list holds each of them once and nothing else. */
  lemma ValidateIsReportedSet(ck: Checkers, e: Endorsement, errs: set<FieldError>)
    requires forall err :: Reported(ck, e, err) <==> err in errs
    ensures multiset(Validate(ck, e)) == multiset(errs)
    ensures |Validate(ck, e)| == |errs|
  {
    forall err
      ensures multiset(Validate(ck, e))[err] == multiset(errs)[err]
    {
      ValidateCount(ck, e, err);
    }
    assert multiset(Validate(ck, e)) == multiset(errs);
    assert |multiset(Validate(ck, e))| == |multiset(errs)|;
  }
}
