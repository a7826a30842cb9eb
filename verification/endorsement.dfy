/**
 * The endorsement entity: eight business fields, the bean-validation
 * constraints declared on each, and the equality that ignores the database
 * id and the timestamps.
 */
module EndorsementEntity {
  import opened JavaText
  import opened Timestamps

  /** The business fields, in declaration order. */
  datatype Field = ServiceMrn | ServiceVersion | OrgMrn | OrgName | UserMrn | ParentMrn | ParentVersion | ServiceLevel

  /** Every field once, in declaration order. */
  const Fields: seq<Field> := [ServiceMrn, ServiceVersion, OrgMrn, OrgName, UserMrn, ParentMrn, ParentVersion, ServiceLevel]

  /** The bean property name, which is also the property path of a violation. */
  function FieldName(f: Field): string {
    match f
    case ServiceMrn => "serviceMrn"
    case ServiceVersion => "serviceVersion"
    case OrgMrn => "orgMrn"
    case OrgName => "orgName"
    case UserMrn => "userMrn"
    case ParentMrn => "parentMrn"
    case ParentVersion => "parentVersion"
    case ServiceLevel => "serviceLevel"
  }

  /** The business content of an endorsement; each field may be `null`. */
  datatype Endorsement = Endorsement(
    serviceMrn: JString,
    serviceVersion: JString,
    orgMrn: JString,
    orgName: JString,
    userMrn: JString,
    parentMrn: JString,
    parentVersion: JString,
    serviceLevel: JString)

  /** The getter of field `f`. */
  function Value(e: Endorsement, f: Field): JString {
    match f
    case ServiceMrn => e.serviceMrn
    case ServiceVersion => e.serviceVersion
    case OrgMrn => e.orgMrn
    case OrgName => e.orgName
    case UserMrn => e.userMrn
    case ParentMrn => e.parentMrn
    case ParentVersion => e.parentVersion
    case ServiceLevel => e.serviceLevel
  }

  /** The accepted values declared for `serviceLevel`. */
  const AcceptedLevels: seq<string> := ["specification", "design", "instance"]

  /** A field constraint: `@MRN`, `@NotBlank` or `@InPredefinedList(acceptedValues)`. */
  datatype Constraint = Mrn | NotBlank | InPredefinedList(acceptedValues: seq<string>)

  /** The constraints annotated on each field, in annotation order. */
  function ConstraintsOn(f: Field): (cs: seq<Constraint>)
    ensures Mrn in cs <==> f in {ServiceMrn, OrgMrn, UserMrn}
    ensures NotBlank in cs <==> f !in {ParentMrn, ParentVersion}
    ensures (exists vals :: InPredefinedList(vals) in cs) <==> f == ServiceLevel
    ensures f == ServiceLevel ==> InPredefinedList(AcceptedLevels) in cs
    ensures forall i, j :: 0 <= i < j < |cs| ==> cs[i] != cs[j]
  {
    match f
    case ServiceMrn => [Mrn, NotBlank]
    case ServiceVersion => [NotBlank]
    case OrgMrn => [Mrn, NotBlank]
    case OrgName => [NotBlank]
    case UserMrn => [Mrn, NotBlank]
    case ParentMrn => []
    case ParentVersion => []
    case ServiceLevel =>
      assert ([NotBlank, InPredefinedList(AcceptedLevels)])[1] == InPredefinedList(AcceptedLevels);
      [NotBlank, InPredefinedList(AcceptedLevels)]
  }

  /** Every annotation as a (field, constraint) pair, field by field in declaration order. */
  const Annotations: seq<(Field, Constraint)> := [
    (ServiceMrn, Mrn), (ServiceMrn, NotBlank),
    (ServiceVersion, NotBlank),
    (OrgMrn, Mrn), (OrgMrn, NotBlank),
    (OrgName, NotBlank),
    (UserMrn, Mrn), (UserMrn, NotBlank),
    (ServiceLevel, NotBlank), (ServiceLevel, InPredefinedList(AcceptedLevels))]

  /** The flat list of annotations and the per-field view agree. */
  lemma AnnotationsAgree(f: Field, c: Constraint)
    ensures (f, c) in Annotations <==> c in ConstraintsOn(f)
  {
  }

  /** No annotation is listed twice. */
  lemma AnnotationsDistinct()
    ensures forall i, j :: 0 <= i < j < |Annotations| ==> Annotations[i] != Annotations[j]
  {
  }

  /** Distinct fields have distinct property names. */
  lemma FieldNamesDistinct(f: Field, g: Field)
    ensures FieldName(f) == FieldName(g) <==> f == g
  {
    if f != g {
      assert FieldName(f)[..2] != FieldName(g)[..2] || FieldName(f)[|FieldName(f)| - 1] != FieldName(g)[|FieldName(g)| - 1]
          || |FieldName(f)| != |FieldName(g)|;
    }
  }

  /** A stored endorsement: database id, timestamps and business content. */
  datatype Record = Record(id: nat, stamps: Stamps, body: Endorsement)

  /** The entity's `equals`: the business fields only; id and timestamps are excluded. */
  predicate Equals(a: Record, b: Record) {
    a.body == b.body
  }

  /** Two records are equal exactly when every business field agrees, whatever their ids and stamps. */
  lemma EqualsIffFieldsAgree(a: Record, b: Record)
    ensures Equals(a, b) <==> forall f :: Value(a.body, f) == Value(b.body, f)
  {
    if forall f :: Value(a.body, f) == Value(b.body, f) {
      assert Value(a.body, ServiceMrn) == Value(b.body, ServiceMrn);
      assert Value(a.body, ServiceVersion) == Value(b.body, ServiceVersion);
      assert Value(a.body, OrgMrn) == Value(b.body, OrgMrn);
      assert Value(a.body, OrgName) == Value(b.body, OrgName);
      assert Value(a.body, UserMrn) == Value(b.body, UserMrn);
      assert Value(a.body, ParentMrn) == Value(b.body, ParentMrn);
      assert Value(a.body, ParentVersion) == Value(b.body, ParentVersion);
      assert Value(a.body, ServiceLevel) == Value(b.body, ServiceLevel);
    }
  }
}
