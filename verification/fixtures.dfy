/**
 * The validator's and the controller's documented cases. The older cases use
 * MRNs of a retired namespace, so the `@MRN` and `@InPredefinedList` answers
 * they depend on are stated as requirements on the checkers; the current
 * cases use MRNs of the `mcp` namespace, and there `@MRN` is the MRN grammar
 * and every answer is computed.
 */
module Fixtures {
  import opened Wrappers
  import opened JavaText
  import opened EndorsementEntity
  import opened EndorsementValidator
  import MrnUtil
  import AccessControl
  import EndorseController

  /** A value that starts with a printable, non-space character has text by both measures. */
  lemma Textual(s: string)
    requires |s| > 0 && ' ' < s[0] < '\U{1680}'
    ensures !IsBlank(s) && HasText(Some(s))
  {
    assert !IsTrimmed(s[0]) && !IsJavaWhitespace(s[0]);
  }

  /** The fully filled-in endorsement of the validator's first case. */
  const ValidFixture: Endorsement := Endorsement(
    serviceMrn := Some("urn:mrn:mcl:service-instance:dma:nw-nv"),
    serviceVersion := Some("0.1.2"),
    orgMrn := Some("urn:mrn:mcl:org:dma"),
    orgName := Some("DMA"),
    userMrn := Some("urn:mrn:mcl:user:dma:tgc"),
    parentMrn := Some("urn:mrn:mcl:service-design:dma:nw-nv"),
    parentVersion := Some("0.3.2"),
    serviceLevel := Some("instance"))

  /** Every field of the first fixture has text. */
  lemma ValidFixtureHasText(f: Field)
    ensures HasText(Value(ValidFixture, f)) && !IsBlank(Value(ValidFixture, f).value)
  {
    Textual(Value(ValidFixture, f).value);
  }

  /**
   * An endorsement whose every field has text, whose MRNs the `@MRN` check
   * accepts and whose level the list check accepts has no errors.
   */
  lemma FilledInPasses(ck: Checkers, e: Endorsement)
    requires forall f :: HasText(Value(e, f)) && !IsBlank(Value(e, f).value)
    requires ck.mrnValid(e.serviceMrn) && ck.mrnValid(e.orgMrn) && ck.mrnValid(e.userMrn)
    requires ck.inList(AcceptedLevels, e.serviceLevel)
    ensures Validate(ck, e) == []
  {
    assert HasText(e.parentMrn) && HasText(e.parentVersion) by {
      assert HasText(Value(e, ParentMrn)) && HasText(Value(e, ParentVersion));
    }
    forall f, c | c in ConstraintsOn(f)
      ensures !Violates(ck, c, Value(e, f))
    {
      FilledInFieldPasses(ck, e, f, c);
    }
    EmptyWhenValid(ck, e);
  }

  /** One constraint on a filled-in field whose MRN and level answers are accepted is not violated. */
  lemma FilledInFieldPasses(ck: Checkers, e: Endorsement, f: Field, c: Constraint)
    requires HasText(Value(e, f)) && !IsBlank(Value(e, f).value)
    requires ck.mrnValid(e.serviceMrn) && ck.mrnValid(e.orgMrn) && ck.mrnValid(e.userMrn)
    requires ck.inList(AcceptedLevels, e.serviceLevel)
    requires c in ConstraintsOn(f)
    ensures !Violates(ck, c, Value(e, f))
  {
  }

  /** With checkers that accept its MRNs and its level, the first fixture has no errors. */
  lemma ValidFixturePasses(ck: Checkers)
    requires ck.mrnValid(ValidFixture.serviceMrn) && ck.mrnValid(ValidFixture.orgMrn) && ck.mrnValid(ValidFixture.userMrn)
    requires ck.inList(AcceptedLevels, ValidFixture.serviceLevel)
    ensures Validate(ck, ValidFixture) == []
  {
    forall f
      ensures HasText(Value(ValidFixture, f)) && !IsBlank(Value(ValidFixture, f).value)
    {
      ValidFixtureHasText(f);
    }
    FilledInPasses(ck, ValidFixture);
  }

  /** The second case: a level outside the list, a malformed user MRN and no parent version. */
  const InvalidFixture: Endorsement := ValidFixture.(
    serviceLevel := Some("instances"),
    userMrn := Some("urn:xxmrn:mcl:user:dma:tgc"),
    parentVersion := None)

  /** The three errors the second case expects: the bad user MRN, the bad level, and the missing parent version. */
  const InvalidFixtureErrors: set<FieldError> := {
    ViolationError(UserMrn, Mrn),
    ViolationError(ServiceLevel, InPredefinedList(AcceptedLevels)),
    PresenceError(ParentVersion, ParentMessage)}

  /** Every field of the second fixture but the parent version has text. */
  lemma InvalidFixtureHasText(f: Field)
    requires f != ParentVersion
    ensures HasText(Value(InvalidFixture, f)) && !IsBlank(Value(InvalidFixture, f).value)
  {
    Textual(Value(InvalidFixture, f).value);
  }

  /** The second case's shape: everything filled in but the parent version, below the `specification` level. */
  predicate MissingParentVersion(e: Endorsement) {
    && (forall f :: f != ParentVersion ==> HasText(Value(e, f)) && !IsBlank(Value(e, f).value))
    && e.parentVersion.None? && e.serviceLevel != Some("specification")
  }

  /** The second case's checker answers: the service and organization MRNs pass, the user MRN and the level do not. */
  predicate RejectsUserAndLevel(ck: Checkers, e: Endorsement) {
    ck.mrnValid(e.serviceMrn) && ck.mrnValid(e.orgMrn) && !ck.mrnValid(e.userMrn) && !ck.inList(AcceptedLevels, e.serviceLevel)
  }

  /** Of the constraints, only the user MRN's `@MRN` and the level's list are violated. */
  lemma TwoViolations(ck: Checkers, e: Endorsement, err: FieldError)
    requires MissingParentVersion(e) && RejectsUserAndLevel(ck, e)
    ensures ViolationReported(ck, e, err) <==>
      err == ViolationError(UserMrn, Mrn) || err == ViolationError(ServiceLevel, InPredefinedList(AcceptedLevels))
  {
    if err.field != ParentVersion {
      assert HasText(Value(e, err.field)) && !IsBlank(Value(e, err.field).value);
    }
  }

  /** Of the presence checks, only the parent version's fails. */
  lemma OnePresenceError(e: Endorsement, err: FieldError)
    requires MissingParentVersion(e)
    ensures !RequiredReported(e, err)
    ensures ParentReported(e, err) <==> err == PresenceError(ParentVersion, ParentMessage)
  {
    if err.field != ParentVersion {
      assert HasText(Value(e, err.field));
    }
  }

  /** Exactly the three expected errors are in the list, once each. */
  lemma ThreeErrors(ck: Checkers, e: Endorsement)
    requires MissingParentVersion(e) && RejectsUserAndLevel(ck, e)
    ensures multiset(Validate(ck, e)) == multiset(InvalidFixtureErrors)
    ensures |Validate(ck, e)| == 3
  {
    forall err
      ensures Reported(ck, e, err) <==> err in InvalidFixtureErrors
    {
      ExpectedReported(ck, e, err);
    }
    ValidateIsReportedSet(ck, e, InvalidFixtureErrors);
    ExpectedErrorsDistinct();
  }

  /** An error is reported against the second case's shape exactly when it is one of the three expected. */
  lemma ExpectedReported(ck: Checkers, e: Endorsement, err: FieldError)
    requires MissingParentVersion(e) && RejectsUserAndLevel(ck, e)
    ensures Reported(ck, e, err) <==> err in InvalidFixtureErrors
  {
    TwoViolations(ck, e, err);
    OnePresenceError(e, err);
  }

  /** The three expected errors are different errors. */
  lemma ExpectedErrorsDistinct()
    ensures |InvalidFixtureErrors| == 3
  {
    var a, b, c := ViolationError(UserMrn, Mrn), ViolationError(ServiceLevel, InPredefinedList(AcceptedLevels)),
                   PresenceError(ParentVersion, ParentMessage);
    assert a != b && a != c && b != c;
    assert |{a, b} + {c}| == 3;
  }

  /** With checkers that reject the bad MRN and the bad level and accept the rest, the second fixture has exactly three errors. */
  lemma InvalidFixtureFails(ck: Checkers)
    requires ck.mrnValid(InvalidFixture.serviceMrn) && ck.mrnValid(InvalidFixture.orgMrn) && !ck.mrnValid(InvalidFixture.userMrn)
    requires !ck.inList(AcceptedLevels, InvalidFixture.serviceLevel)
    ensures multiset(Validate(ck, InvalidFixture)) == multiset(InvalidFixtureErrors)
    ensures |Validate(ck, InvalidFixture)| == 3
  {
    forall f | f != ParentVersion
      ensures HasText(Value(InvalidFixture, f)) && !IsBlank(Value(InvalidFixture, f).value)
    {
      InvalidFixtureHasText(f);
    }
    ThreeErrors(ck, InvalidFixture);
  }

  // ---------------------------------------------------------------------------
  // @MRN backed by the MRN grammar
  // ---------------------------------------------------------------------------

  /**
   * Checkers whose `@MRN` is the MRN grammar and whose `@InPredefinedList` is
   * exact membership; both let `null` through, which `@NotBlank` reports.
   */
  const GrammarCheckers: Checkers :=
    Checkers((v: JString) => v.None? || MrnUtil.ValidateMrn(v).Success?, (vals: seq<string>, v: JString) => v.None? || v.value in vals)

  /** With the grammar behind `@MRN`, a service MRN the grammar rejects is reported as an `@MRN` violation. */
  lemma MalformedServiceMrnReported(e: Endorsement)
    requires e.serviceMrn.Some? && MrnUtil.ValidateMrn(e.serviceMrn).Failure?
    ensures ViolationError(ServiceMrn, Mrn) in Validate(GrammarCheckers, e)
  {
    ReportedIn(GrammarCheckers, e, ViolationError(ServiceMrn, Mrn));
  }

  // ---------------------------------------------------------------------------
  // The cases again with MRNs of the current namespace, checked by the grammar
  // ---------------------------------------------------------------------------

  /** `urn:mrn:mcp:org:idp1:dma`, the organization MRN of the current cases. */
  const McpOrgMrn: string := MrnUtil.Compose("org", "idp1", "dma")

  /** `urn:mrn:mcp:user:idp1:dma:tgc`, the user MRN of the current cases. */
  const McpUserMrn: string := MrnUtil.Compose("user", "idp1", "dma:tgc")

  /** `urn:mrn:mcp:service:idp1:dma:instance:nw-nm`, the endorsed service instance. */
  const McpInstanceMrn: string := MrnUtil.Compose("service", "idp1", "dma:instance:nw-nm")

  /** `urn:mrn:mcp:service:idp1:dma:design:nw-nm`, its parent design. */
  const McpDesignMrn: string := MrnUtil.Compose("service", "idp1", "dma:design:nw-nm")

  /** The malformed user MRN of the second case: `xxmrn` where `mrn` belongs. */
  const BadUserMrn: string := "urn:xxmrn:mcl:user:dma:tgc"

  /** `idp1`, the organization segment of every current MRN, is well formed. */
  lemma Idp1Segment()
    ensures MrnUtil.IsOrgSegment("idp1")
  {
  }

  /** The organization MRN passes the grammar. */
  lemma McpOrgMrnAccepted()
    ensures MrnUtil.ValidateMrn(Some(McpOrgMrn)) == Success(true)
  {
    Idp1Segment();
    MrnUtil.PlainPath("dma");
    MrnUtil.OtherTypeAccepted("org", 1, "idp1", "dma");
  }

  /** The user MRN passes the grammar. */
  lemma McpUserMrnAccepted()
    ensures MrnUtil.ValidateMrn(Some(McpUserMrn)) == Success(true)
  {
    Idp1Segment();
    MrnUtil.PlainPath("dma:tgc");
    MrnUtil.OtherTypeAccepted("user", 2, "idp1", "dma:tgc");
  }

  /** The instance's name-specific string is well formed. */
  lemma InstanceNssWellFormed()
    ensures MrnUtil.IsNss("dma:instance:nw-nm")
  {
    MrnUtil.PlainPath("dma:instance:nw-nm");
  }

  /** The instance's name-specific string has `instance` as its level segment, with more than colons after it. */
  lemma InstanceNssLevel()
    ensures MrnUtil.LevelSplit("dma:instance:nw-nm", "dma", "instance", "nw-nm")
    ensures InIgnoringCase("instance", MrnUtil.ServiceLevels)
    ensures MrnUtil.HasNonColon("nw-nm")
  {
    assert EqualsIgnoreCase("instance", MrnUtil.ServiceLevels[2]);
    assert "nw-nm"[0] != ':';
  }

  /** The service-instance MRN passes the grammar and the service rule: `instance` is its level segment. */
  lemma McpInstanceMrnAccepted()
    ensures MrnUtil.ValidateMrn(Some(McpInstanceMrn)) == Success(true)
  {
    Idp1Segment();
    InstanceNssWellFormed();
    InstanceNssLevel();
    MrnUtil.ServiceWithLevelAccepted("idp1", "dma:instance:nw-nm", "dma", "instance", "nw-nm");
  }

  /** The malformed user MRN is not blank. */
  lemma BadUserMrnNotBlank()
    ensures !IsBlank(BadUserMrn)
  {
    Textual(BadUserMrn);
  }

  /** The malformed user MRN is rejected as not in a valid format. */
  lemma BadUserMrnRejected()
    ensures MrnUtil.ValidateMrn(Some(BadUserMrn)) == Failure(MrnUtil.InvalidFormat)
  {
    BadUserMrnNotBlank();
    MrnUtil.WrongPrefixRejected(BadUserMrn, 4);
  }

  /** The first case with current MRNs. */
  const McpValidFixture: Endorsement := Endorsement(
    serviceMrn := Some(McpInstanceMrn),
    serviceVersion := Some("0.1.2"),
    orgMrn := Some(McpOrgMrn),
    orgName := Some("DMA"),
    userMrn := Some(McpUserMrn),
    parentMrn := Some(McpDesignMrn),
    parentVersion := Some("0.3.2"),
    serviceLevel := Some("instance"))

  /** The second case with current MRNs: a level outside the list, the malformed user MRN and no parent version. */
  const McpInvalidFixture: Endorsement := McpValidFixture.(
    serviceLevel := Some("instances"),
    userMrn := Some(BadUserMrn),
    parentVersion := None)

  /** Every field of the first current case has text. */
  lemma McpValidFixtureHasText(f: Field)
    ensures HasText(Value(McpValidFixture, f)) && !IsBlank(Value(McpValidFixture, f).value)
  {
    Textual(Value(McpValidFixture, f).value);
  }

  /** With the grammar behind `@MRN` and exact membership behind the list, the first current case has no errors. */
  lemma McpValidFixturePasses()
    ensures Validate(GrammarCheckers, McpValidFixture) == []
  {
    McpValidFixtureAccepted();
    forall f
      ensures HasText(Value(McpValidFixture, f)) && !IsBlank(Value(McpValidFixture, f).value)
    {
      McpValidFixtureHasText(f);
    }
    FilledInPasses(GrammarCheckers, McpValidFixture);
  }

  /** The grammar accepts the first current case's three MRNs, and exact membership its level. */
  lemma McpValidFixtureAccepted()
    ensures && GrammarCheckers.mrnValid(McpValidFixture.serviceMrn) && GrammarCheckers.mrnValid(McpValidFixture.orgMrn)
            && GrammarCheckers.mrnValid(McpValidFixture.userMrn)
    ensures GrammarCheckers.inList(AcceptedLevels, McpValidFixture.serviceLevel)
  {
    McpOrgMrnAccepted();
    McpUserMrnAccepted();
    McpInstanceMrnAccepted();
    assert "instance" in AcceptedLevels;
  }

  /** Every field of the second current case but the parent version has text. */
  lemma McpInvalidFixtureHasText(f: Field)
    requires f != ParentVersion
    ensures HasText(Value(McpInvalidFixture, f)) && !IsBlank(Value(McpInvalidFixture, f).value)
  {
    Textual(Value(McpInvalidFixture, f).value);
  }

  /** With the same checkers, the second current case has exactly the three expected errors. */
  lemma McpInvalidFixtureFails()
    ensures multiset(Validate(GrammarCheckers, McpInvalidFixture)) == multiset(InvalidFixtureErrors)
    ensures |Validate(GrammarCheckers, McpInvalidFixture)| == 3
  {
    McpInvalidFixtureShape();
    McpInvalidFixtureAnswers();
    ThreeErrors(GrammarCheckers, McpInvalidFixture);
  }

  /** The second current case has the shape of the second case. */
  lemma McpInvalidFixtureShape()
    ensures MissingParentVersion(McpInvalidFixture)
  {
    forall f | f != ParentVersion
      ensures HasText(Value(McpInvalidFixture, f)) && !IsBlank(Value(McpInvalidFixture, f).value)
    {
      McpInvalidFixtureHasText(f);
    }
  }

  /** The grammar accepts the second current case's service and organization MRNs but not its user MRN; its level is not listed. */
  lemma McpInvalidFixtureAnswers()
    ensures RejectsUserAndLevel(GrammarCheckers, McpInvalidFixture)
  {
    McpInvalidFixtureAccepted();
    McpInvalidFixtureRejected();
  }

  /** The grammar accepts the second current case's service and organization MRNs. */
  lemma McpInvalidFixtureAccepted()
    ensures GrammarCheckers.mrnValid(McpInvalidFixture.serviceMrn) && GrammarCheckers.mrnValid(McpInvalidFixture.orgMrn)
  {
    McpInstanceMrnAccepted();
    McpOrgMrnAccepted();
  }

  /** The grammar rejects the second current case's user MRN, and exact membership its level. */
  lemma McpInvalidFixtureRejected()
    ensures !GrammarCheckers.mrnValid(McpInvalidFixture.userMrn)
    ensures !GrammarCheckers.inList(AcceptedLevels, McpInvalidFixture.serviceLevel)
  {
    BadUserMrnRejected();
    assert "instances" !in AcceptedLevels;
  }

  // ---------------------------------------------------------------------------
  // The controller's two refusals, on the current cases
  // ---------------------------------------------------------------------------

  /** `urn:mrn:mcp:org:idp1:sma`, the organization of the token the refused create is sent with. */
  const McpOtherOrgMrn: string := MrnUtil.Compose("org", "idp1", "sma")

  /** The two organizations differ in more than case. */
  lemma OtherOrgDiffers()
    ensures !EqualsIgnoreCase(McpOtherOrgMrn, McpOrgMrn)
  {
    assert !CharEqualsIgnoreCase(McpOtherOrgMrn[21], McpOrgMrn[21]);
  }

  /** The first current case, sent with a token of another organization, is refused with 403 and stores nothing. */
  lemma OtherOrgCreateForbidden(s: EndorseController.Store, now: nat)
    ensures EndorseController.Create(s, GrammarCheckers, AccessControl.TokenWithOrg(McpOtherOrgMrn), McpValidFixture, now)
            == EndorseController.Outcome(s, EndorseController.Forbidden)
  {
    McpValidFixturePasses();
    OtherOrgDiffers();
    EndorseController.OtherOrgTokenForbidden(s, GrammarCheckers, McpValidFixture, McpOtherOrgMrn, now);
  }

  /** The first current case without its parent version is refused with 400, even with a token of its own organization. */
  lemma NoParentVersionCreateBadRequest(s: EndorseController.Store, now: nat)
    ensures EndorseController.Create(s, GrammarCheckers, AccessControl.TokenWithOrg(McpOrgMrn),
                                     McpValidFixture.(parentVersion := None), now)
            == EndorseController.Outcome(s, EndorseController.BadRequest)
  {
    EndorseController.MissingParentBadRequest(s, GrammarCheckers, AccessControl.TokenWithOrg(McpOrgMrn),
                                              McpValidFixture.(parentVersion := None), now);
  }
}
