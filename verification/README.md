# Endorsement service: a Dafny model

The endorsement service lets an organization of the Maritime Connectivity
Platform endorse a service, that is, a specification, design or instance
identified by a Maritime Resource Name (MRN) and a version. An endorsement
carries eight business fields:
- the service MRN and version;
- the endorsing organization's MRN and name;
- the MRN of the user who endorsed;
- the parent service's MRN and version;
- the service level.

The service stores at most one endorsement per (organization, service,
version).

This project models the core of the service and proves properties about it:

- **MRN syntax** (`MrnUtil`):
  - the `validateMrn` check: blankness, then the general MRN pattern, then, for
    a type spelled `service`, the service rule on the colon-split segments;
  - a grammar that characterizes what it accepts.
- **Validation** (`EndorsementEntity`, `EndorsementValidator`):
  - the entity's constraint annotations (`@MRN`, `@NotBlank`,
    `@InPredefinedList`) and its `equals`;
  - the validator's three groups of errors: constraint violations, required
    fields, and parent fields below the `specification` level.
- **Access control** (`AccessControl`): `hasAccessToOrg` and `hasPermission`
  over an authentication value. The value is absent, of an unknown kind, or
  an OpenID Connect token with its extra claims.
- **Endpoints and timestamps** (`EndorseController`, `Timestamps`):
  - the create, delete and get endpoints as transitions on a store keyed by
    the natural key;
  - the creation and update timestamp callbacks, with the clock as a
    parameter.
- **The documented cases** (`Fixtures`): the validator's two cases and the
  controller's two refusals, stated over the model.

The shared pieces are `Wrappers` (`Option`, `Result`) and `JavaText`. The
latter holds the Java string operations the code relies on:
- `trim`, `isEmpty`, `StringUtils.hasText`;
- ASCII `equalsIgnoreCase`;
- `String.split` with a one-character separator, including the dropping of
  trailing empty strings.

A Java `null` is `None`, and a thrown exception is a `Failure`.

The `@MRN` and `@InPredefinedList` checks are parameters of the validator, a
`Checkers` value, because their implementations are not part of this model.
`Fixtures.GrammarCheckers` instantiates them with `validateMrn` and with exact
membership.

The validator modelled is the one in
`src/main/java/net/maritimecloud/endorsement/validators/EndorsementValidator.java`.
Its entity is `src/main/java/net/maritimecloud/endorsement/model/db/Endorsement.java`.
The controller in
`src/main/java/net/maritimeconnectivity/endorsement/controllers/EndorseController.java`
imports a validator and an entity of its own package. Those are not part of
this model. The maritimecloud validator and entity stand in for them. The
model assumes the two packages declare the same fields, annotations and
checks.

Some behaviours the contracts pin down:
- Validation runs before the organization check. An invalid body is
  answered 400 whatever authenticated token it comes with.
- A create on an existing key changes only `userMrn`. Its `updatedAt` moves
  only when that changes anything.
- `validateMrn` compares the type segment to `service` case-sensitively,
  although the pattern matched it ignoring case. So `SERVICE` skips the
  service rule.
- `@NotBlank` (trim, characters up to U+0020) and `rejectIfEmptyOrWhitespace`
  (`Character.isWhitespace`) disagree on some inputs. A null, empty or
  all-space service MRN is reported twice. A control character such as
  U+0001 is blank for `@NotBlank` but has text for the validator, so it is
  reported once.
- `hasPermission` does not trim list elements, drops trailing empty
  elements, and never grants a permission containing a comma.

## Model

| member | source | states |
|---|---|---|
| JavaText.Trim | src/main/java/net/maritimeconnectivity/endorsement/utils/MrnUtil.java:34 | trimming leaves no character at or below U+0020 at either end; the result is empty exactly when every character is at or below U+0020 |
| JavaText.TrimStart | src/main/java/net/maritimeconnectivity/endorsement/utils/MrnUtil.java:34 | the result is a suffix whose first character is kept and everything dropped is at or below U+0020 |
| JavaText.TrimEnd | src/main/java/net/maritimeconnectivity/endorsement/utils/MrnUtil.java:34 | the result is a prefix whose last character is kept and everything dropped is at or below U+0020 |
| JavaText.BlankAndHasTextDiffer | src/main/java/net/maritimecloud/endorsement/validators/EndorsementValidator.java:55 | the trim-based blank test and the whitespace-based text test disagree in both directions: U+2000 is neither blank nor text, U+0001 is both |
| JavaText.IndexOf | src/main/java/net/maritimeconnectivity/endorsement/utils/MrnUtil.java:41 | the first occurrence of the separator, or none exactly when it does not occur |
| JavaText.PiecesSeparatorFree | src/main/java/net/maritimeconnectivity/endorsement/utils/AccessControlUtil.java:72 | no piece of a split contains the separator |
| JavaText.JoinPieces | src/main/java/net/maritimeconnectivity/endorsement/utils/AccessControlUtil.java:72 | joining the pieces with the separator gives back the original string |
| JavaText.PiecesJoin | src/main/java/net/maritimeconnectivity/endorsement/utils/AccessControlUtil.java:72 | cutting a join of separator-free pieces gives back the pieces |
| JavaText.PiecesCons | src/main/java/net/maritimeconnectivity/endorsement/utils/MrnUtil.java:41 | a separator-free head followed by the separator is the first piece, the rest cuts on its own |
| JavaText.DropTrailingEmpty | src/main/java/net/maritimeconnectivity/endorsement/utils/AccessControlUtil.java:72 | the result is a prefix ending in a non-empty string and only empty strings are dropped |
| JavaText.DropTrailingEmptyAppend | src/main/java/net/maritimeconnectivity/endorsement/utils/MrnUtil.java:41 | dropping trailing empties after a list that ends non-empty only affects the appended part |
| JavaText.Split | src/main/java/net/maritimeconnectivity/endorsement/utils/MrnUtil.java:41 | split is the list of pieces with trailing empty strings removed, except that a string without the separator splits to itself |
| MrnUtil.PathCharsCharacterization | src/main/java/net/maritimeconnectivity/endorsement/utils/MrnUtil.java:30 | the token-by-token reading of the name-specific part holds exactly when every character is allowed and every percent sign opens two hexadecimal digits |
| MrnUtil.Decompose | src/main/java/net/maritimeconnectivity/endorsement/utils/MrnUtil.java:30 | a found decomposition puts the string back together from prefix, type, org segment and rest, with colon-free type and org |
| MrnUtil.DecomposeUnique | src/main/java/net/maritimeconnectivity/endorsement/utils/MrnUtil.java:30 | every colon-free split is the one the decomposition finds |
| MrnUtil.MatchesPatternIff | src/main/java/net/maritimeconnectivity/endorsement/utils/MrnUtil.java:30-31 | a string matches the pattern exactly when it splits into a listed type, a well-formed org segment and a well-formed rest |
| MrnUtil.GrammarSplitUnique | src/main/java/net/maritimeconnectivity/endorsement/utils/MrnUtil.java:30 | a grammatical split into known type and org segment is unique |
| MrnUtil.MatchedIsNotBlank | src/main/java/net/maritimeconnectivity/endorsement/utils/MrnUtil.java:34-39 | nothing that matches the pattern is blank, so the emptiness check rejects no string the pattern would accept |
| MrnUtil.MatchedSplit | src/main/java/net/maritimeconnectivity/endorsement/utils/MrnUtil.java:41 | the colon split of a matched MRN is the three prefix words, the type, the org segment and the split rest |
| MrnUtil.ValidateMrn | src/main/java/net/maritimeconnectivity/endorsement/utils/MrnUtil.java:33-49 | the empty error exactly for null or blank input, the format error exactly for non-blank input that misses the pattern, and success only for matching input |
| MrnUtil.ValidateOnSplit | src/main/java/net/maritimeconnectivity/endorsement/utils/MrnUtil.java:41-48 | on a matched MRN, success exactly when the type segment is not literally `service` or the split has eight parts and a service level at index six |
| MrnUtil.ServiceRuleOnNss | src/main/java/net/maritimeconnectivity/endorsement/utils/MrnUtil.java:42-46 | the service rule on split indices holds exactly when the rest reads `a:level:b` with a service level and more than colons after it |
| MrnUtil.ValidateMatched | src/main/java/net/maritimeconnectivity/endorsement/utils/MrnUtil.java:37-48 | a matched MRN succeeds exactly when its type is not literally `service` or its rest has a service level segment |
| MrnUtil.ValidateMrnAccepts | src/main/java/net/maritimeconnectivity/endorsement/utils/MrnUtil.java:30-49 | `validateMrn` succeeds exactly on the grammar: prefix, known type, org segment, name-specific rest, and the level segment when the type is `service` |
| MrnUtil.ServicePatternRedundant | src/main/java/net/maritimeconnectivity/endorsement/utils/MrnUtil.java:44 | once the general pattern matched with type `service`, the service pattern matches too |
| MrnUtil.ServiceRuleCaseSensitive | src/main/java/net/maritimeconnectivity/endorsement/utils/MrnUtil.java:42 | a matched MRN whose type is not spelled exactly `service` is accepted without the service rule |
| MrnUtil.BuiltMatches | src/main/java/net/maritimeconnectivity/endorsement/utils/MrnUtil.java:30 | an MRN built from a known type, org segment and rest decomposes back into them and matches |
| MrnUtil.UpperCaseServiceSkipsRule | src/main/java/net/maritimeconnectivity/endorsement/utils/MrnUtil.java:37-48 | with the type spelled `SERVICE` any well-formed rest is accepted |
| MrnUtil.LowerCaseServiceNeedsLevel | src/main/java/net/maritimeconnectivity/endorsement/utils/MrnUtil.java:42-46 | with the type spelled `service` a colon-free rest fails with the service error |
| MrnUtil.OtherTypeAccepted | src/main/java/net/maritimeconnectivity/endorsement/utils/MrnUtil.java:37-48 | a well-formed MRN of any type but `service` is accepted |
| MrnUtil.ServiceWithLevelAccepted | src/main/java/net/maritimeconnectivity/endorsement/utils/MrnUtil.java:42-48 | a well-formed `service` MRN with a level segment followed by more than colons is accepted |
| MrnUtil.WrongPrefixRejected | src/main/java/net/maritimeconnectivity/endorsement/utils/MrnUtil.java:37-39 | a non-blank string with a character among the first twelve that differs from the prefix's, ignoring case, fails with the format error |
| MrnUtil.PlainPath | src/main/java/net/maritimeconnectivity/endorsement/utils/MrnUtil.java:30 | a non-empty string of letters, digits, hyphens and colons is a well-formed name-specific rest |
| Timestamps.PrePersist | src/main/java/net/maritimecloud/endorsement/model/db/TimestampModel.java:51-54 | on creation both stamps are the current time |
| Timestamps.PreUpdate | src/main/java/net/maritimecloud/endorsement/model/db/TimestampModel.java:57-60 | an update moves `updatedAt` to the current time and leaves `createdAt` |
| Timestamps.WriteUpdate | src/main/java/net/maritimecloud/endorsement/model/db/TimestampModel.java:42 | writing an entity keeps the stored creation time, as the column is not updatable |
| Timestamps.UpdatesKeepCreatedAt | src/main/java/net/maritimecloud/endorsement/model/db/TimestampModel.java:42-60 | any run of updates keeps the creation time and leaves the last update's time |
| Timestamps.StampsOrdered | src/main/java/net/maritimecloud/endorsement/model/db/TimestampModel.java:51-60 | with a clock that does not go back, creation time never exceeds update time |
| EndorsementEntity.ConstraintsOn | src/main/java/net/maritimecloud/endorsement/model/db/Endorsement.java:41-90 | `@MRN` sits exactly on the service, org and user MRNs, `@NotBlank` on all but the parent fields, the list only on the level, and no constraint twice |
| EndorsementEntity.AnnotationsAgree | src/main/java/net/maritimecloud/endorsement/model/db/Endorsement.java:41-90 | the flat annotation list and the per-field view hold the same pairs |
| EndorsementEntity.AnnotationsDistinct | src/main/java/net/maritimecloud/endorsement/model/db/Endorsement.java:41-90 | no annotation is listed twice |
| EndorsementEntity.FieldNamesDistinct | src/main/java/net/maritimecloud/endorsement/model/db/Endorsement.java:41-90 | property names identify fields |
| EndorsementEntity.EqualsIffFieldsAgree | src/main/java/net/maritimecloud/endorsement/model/db/Endorsement.java:32 | two records are equal exactly when all eight business fields agree, whatever their ids and timestamps |
| EndorsementValidator.Keep | src/main/java/net/maritimecloud/endorsement/validators/EndorsementValidator.java:50-54 | the kept elements come from the input and satisfy the filter |
| EndorsementValidator.KeepCount | src/main/java/net/maritimecloud/endorsement/validators/EndorsementValidator.java:50-54 | filtering a duplicate-free list keeps each element once if selected and never otherwise |
| EndorsementValidator.ParentErrors | src/main/java/net/maritimecloud/endorsement/validators/EndorsementValidator.java:61-64 | at the `specification` level no parent error is reported |
| EndorsementValidator.DeclaredMembership | src/main/java/net/maritimecloud/endorsement/validators/EndorsementValidator.java:49-54 | the candidate violations are exactly the annotated (field, constraint) pairs |
| EndorsementValidator.DeclaredDistinct | src/main/java/net/maritimecloud/endorsement/validators/EndorsementValidator.java:49 | each candidate violation appears once, as in a set |
| EndorsementValidator.RequiredChecksMembership | src/main/java/net/maritimecloud/endorsement/validators/EndorsementValidator.java:55-60 | the required-field checks are exactly the six required fields with their messages |
| EndorsementValidator.RequiredChecksDistinct | src/main/java/net/maritimecloud/endorsement/validators/EndorsementValidator.java:55-60 | each required-field check appears once |
| EndorsementValidator.ConstraintViolationsCount | src/main/java/net/maritimecloud/endorsement/validators/EndorsementValidator.java:49-54 | a violation is listed once if its constraint is annotated and violated, else not at all |
| EndorsementValidator.PresenceErrorsCount | src/main/java/net/maritimecloud/endorsement/validators/EndorsementValidator.java:55-60 | a required-field error is listed once if the field has no text, else not at all |
| EndorsementValidator.ParentErrorsCount | src/main/java/net/maritimecloud/endorsement/validators/EndorsementValidator.java:61-64 | a parent error is listed once if the field has no text below the `specification` level, else not at all |
| EndorsementValidator.ValidateCountSplits | src/main/java/net/maritimecloud/endorsement/validators/EndorsementValidator.java:47-66 | the errors of `validate` are the three groups together |
| EndorsementValidator.ReportsExclusive | src/main/java/net/maritimecloud/endorsement/validators/EndorsementValidator.java:47-66 | no error can come from two groups |
| EndorsementValidator.ValidateCount | src/main/java/net/maritimecloud/endorsement/validators/EndorsementValidator.java:47-66 | every error appears at most once, and exactly once when it is reported |
| EndorsementValidator.InValidateIff | src/main/java/net/maritimecloud/endorsement/validators/EndorsementValidator.java:47-66 | an error is in the list exactly when one of the three rules reports it |
| EndorsementValidator.ValidWhenEmpty | src/main/java/net/maritimecloud/endorsement/validators/EndorsementValidator.java:47-66 | no errors means every constraint holds, every required field and, below `specification`, both parent fields have text |
| EndorsementValidator.EmptyWhenValid | src/main/java/net/maritimecloud/endorsement/validators/EndorsementValidator.java:47-66 | an endorsement meeting every rule gets no errors |
| EndorsementValidator.ValidateEmptyIff | src/main/java/net/maritimecloud/endorsement/validators/EndorsementValidator.java:47-66 | no errors exactly when the endorsement meets every rule |
| EndorsementValidator.SpecificationExemptsParents | src/main/java/net/maritimecloud/endorsement/validators/EndorsementValidator.java:61-64 | at the `specification` level no error names a parent field |
| EndorsementValidator.ReportedIn | src/main/java/net/maritimecloud/endorsement/validators/EndorsementValidator.java:47-66 | a reported error is in the list |
| EndorsementValidator.NotReportedNotIn | src/main/java/net/maritimecloud/endorsement/validators/EndorsementValidator.java:47-66 | an error no rule reports is not in the list |
| EndorsementValidator.OtherLevelsRequireParents | src/main/java/net/maritimecloud/endorsement/validators/EndorsementValidator.java:61-64 | below the `specification` level a parent field's error is listed exactly when it has no text |
| EndorsementValidator.BlankServiceMrnReportedTwice | src/main/java/net/maritimecloud/endorsement/validators/EndorsementValidator.java:49-55 | a null or all-space service MRN is reported both by `@NotBlank` and by the required-field check, as two different errors |
| EndorsementValidator.ControlCharServiceMrnReportedOnce | src/main/java/net/maritimecloud/endorsement/validators/EndorsementValidator.java:49-55 | a service MRN of U+0001 is reported by `@NotBlank` but not by the required-field check, since it is blank after trimming yet has text |
| EndorsementValidator.BlankWithTextReportedOnce | src/main/java/net/maritimecloud/endorsement/validators/EndorsementValidator.java:49-55 | any service MRN that is blank after trimming but has text is listed for `@NotBlank` and not for the required-field check |
| EndorsementValidator.ValidateIsReportedSet | src/main/java/net/maritimecloud/endorsement/validators/EndorsementValidator.java:47-66 | when the reported errors form a set, the list holds exactly that set, so its length is the set's size |
| AccessControl.ClaimText | src/main/java/net/maritimeconnectivity/endorsement/utils/AccessControlUtil.java:49 | a claim read as a string succeeds only for a string; null throws a null-pointer error, another class a cast error |
| AccessControl.HasAccessToOrg | src/main/java/net/maritimeconnectivity/endorsement/utils/AccessControlUtil.java:35-60 | true exactly for a non-blank organization and a token whose string `org` claim equals it ignoring case; false for null or blank, for no token or no claim; a throw exactly for a non-blank organization with an `org` claim that is null or not a string, carrying the cast's or the dereference's exception |
| AccessControl.OwnOrgGranted | src/main/java/net/maritimeconnectivity/endorsement/utils/AccessControlUtil.java:48-51 | a token is let into its own organization however either is capitalized |
| AccessControl.OtherOrgRefused | src/main/java/net/maritimeconnectivity/endorsement/utils/AccessControlUtil.java:48-59 | a token is refused an organization that differs in more than case |
| AccessControl.AnyMatches | src/main/java/net/maritimeconnectivity/endorsement/utils/AccessControlUtil.java:73-77 | the loop finds a match exactly when some element equals the permission ignoring case |
| AccessControl.HasPermission | src/main/java/net/maritimeconnectivity/endorsement/utils/AccessControlUtil.java:62-85 | false without a token or without the claim, never true for a null permission, a throw exactly when the claim is not a string, and otherwise granted exactly when some element of the claim's comma split equals the permission ignoring case |
| AccessControl.PermissionGrantedIff | src/main/java/net/maritimeconnectivity/endorsement/utils/AccessControlUtil.java:70-77 | for any token carrying the claim, a non-empty permission is granted exactly when some comma-separated piece equals it ignoring case |
| AccessControl.SplitListedLikePieces | src/main/java/net/maritimeconnectivity/endorsement/utils/AccessControlUtil.java:72 | the dropped trailing empties never decide a non-empty permission |
| AccessControl.CommaPermissionNeverGranted | src/main/java/net/maritimeconnectivity/endorsement/utils/AccessControlUtil.java:72-77 | for any token carrying the claim, a permission containing a comma is never granted |
| AccessControl.SpaceAfterCommaNotTrimmed | src/main/java/net/maritimeconnectivity/endorsement/utils/AccessControlUtil.java:72-77 | with the claim `a, b` the permission `b` is granted only if it equals `a`, since elements keep their spaces |
| AccessControl.EmptyPermissionEdges | src/main/java/net/maritimeconnectivity/endorsement/utils/AccessControlUtil.java:72-77 | the empty permission is granted by an empty claim but not by `a,`, whose trailing empty element is dropped |
| EndorseController.Upsert | src/main/java/net/maritimeconnectivity/endorsement/controllers/EndorseController.java:63-70 | the record under the input's key is the one answered; the keys grow by that key only and every other record is untouched |
| EndorseController.Create | src/main/java/net/maritimeconnectivity/endorsement/controllers/EndorseController.java:61-71 | 400 whenever validation fails; then 403 for a refused organization, 500 if the guard throws; 200 with the upsert exactly when valid and granted; the store changes only then |
| EndorseController.Delete | src/main/java/net/maritimeconnectivity/endorsement/controllers/EndorseController.java:95-103 | 403 for a refused organization and 500 if the guard throws, both before the key is looked up; 200 exactly when granted and the key is present, and then only that key is removed; 404 when granted and absent; otherwise the store is unchanged |
| EndorseController.Get | src/main/java/net/maritimeconnectivity/endorsement/controllers/EndorseController.java:110-116 | 404 exactly when the key is absent, otherwise the stored record |
| EndorseController.UpsertExisting | src/main/java/net/maritimeconnectivity/endorsement/controllers/EndorseController.java:63-66 | an existing record keeps its id, creation time and every field but `userMrn`, which becomes the input's |
| EndorseController.UpsertBumpsOnChange | src/main/java/net/maritimeconnectivity/endorsement/controllers/EndorseController.java:64-66 | an existing record's update time moves to now exactly when its `userMrn` changes |
| EndorseController.UpsertAbsent | src/main/java/net/maritimeconnectivity/endorsement/controllers/EndorseController.java:67-68 | an absent key gets the input with the next id and both stamps at now |
| EndorseController.UpsertPreservesValid | src/main/java/net/maritimeconnectivity/endorsement/controllers/EndorseController.java:63-69 | the upsert keeps one record per key, under its own key, with unique ids below the next id |
| EndorseController.CreatePreservesValid | src/main/java/net/maritimeconnectivity/endorsement/controllers/EndorseController.java:61-71 | create keeps the store well formed |
| EndorseController.DeletePreservesValid | src/main/java/net/maritimeconnectivity/endorsement/controllers/EndorseController.java:95-103 | delete keeps the store well formed |
| EndorseController.CreateTouchesOnlyItsKey | src/main/java/net/maritimeconnectivity/endorsement/controllers/EndorseController.java:61-71 | create leaves every other key's presence and record as they were |
| EndorseController.OnlyOwnOrgChanges | src/main/java/net/maritimeconnectivity/endorsement/controllers/EndorseController.java:61 | a create that changes the store was granted, and every changed key is of the input's organization |
| EndorseController.DeleteOnlyOwnOrg | src/main/java/net/maritimeconnectivity/endorsement/controllers/EndorseController.java:95 | a delete that changes the store was granted for the path's organization and removed only the path's key |
| EndorseController.CreateIdempotent | src/main/java/net/maritimeconnectivity/endorsement/controllers/EndorseController.java:63-69 | repeating a create at any later time leaves the store as the first one left it |
| EndorseController.CreateThenGet | src/main/java/net/maritimeconnectivity/endorsement/controllers/EndorseController.java:110-116 | after a successful create, get on the same key answers what the create answered |
| EndorseController.CreateThenDelete | src/main/java/net/maritimeconnectivity/endorsement/controllers/EndorseController.java:95-103 | deleting a freshly created record restores the rows |
| EndorseController.UpsertThenRemove | src/main/java/net/maritimeconnectivity/endorsement/controllers/EndorseController.java:67-68 | an insert adds only its key |
| EndorseController.DeleteTwiceNotFound | src/main/java/net/maritimeconnectivity/endorsement/controllers/EndorseController.java:97-100 | a granted delete repeated answers 404 and changes nothing |
| EndorseController.CreateKeepsStampsOrdered | src/main/java/net/maritimecloud/endorsement/model/db/TimestampModel.java:51-60 | with a clock that does not go back, create keeps every record's creation time at or before its update time and both at or before now |
| EndorseController.UpsertKeepsStampsOrdered | src/main/java/net/maritimecloud/endorsement/model/db/TimestampModel.java:51-60 | the upsert stamps only at now, so stamps stay ordered |
| EndorseController.OtherOrgTokenForbidden | src/test/java/net/maritimeconnectivity/endorsement/controllers/EndorsementControllerTests.java:152-178 | a valid body with a token of an organization differing in more than case gets 403 and stores nothing |
| EndorseController.MissingParentBadRequest | src/test/java/net/maritimeconnectivity/endorsement/controllers/EndorsementControllerTests.java:183-208 | below the `specification` level a body without parent version gets 400 whatever authenticated token it comes with |
| EndorseController.MissingParentReported | src/main/java/net/maritimecloud/endorsement/validators/EndorsementValidator.java:61-64 | below the `specification` level a body without parent version has the parent-version error in its list |
| EndorseController.InvalidBodyBadRequest | src/main/java/net/maritimeconnectivity/endorsement/controllers/EndorseController.java:61-71 | any body with a validation error gets 400 and leaves the store unchanged, whatever the token and the store |
| Fixtures.FilledInPasses | src/main/java/net/maritimecloud/endorsement/validators/EndorsementValidator.java:47-66 | a filled-in endorsement whose MRNs and level the checkers accept has no errors |
| Fixtures.ValidFixturePasses | src/test/java/net/maritimecloud/endorsement/validators/EndorsementValidatorTest.java:48-65 | the first case has no errors, given checkers that accept its MRNs and level |
| Fixtures.TwoViolations | src/main/java/net/maritimecloud/endorsement/validators/EndorsementValidator.java:49-54 | in the second case's shape, exactly the user MRN's `@MRN` and the level's list are violated |
| Fixtures.OnePresenceError | src/main/java/net/maritimecloud/endorsement/validators/EndorsementValidator.java:55-64 | in the second case's shape, no required field is missing and only the parent version is |
| Fixtures.ExpectedReported | src/main/java/net/maritimecloud/endorsement/validators/EndorsementValidator.java:47-66 | in the second case's shape, an error is reported exactly when it is one of the three expected |
| Fixtures.ThreeErrors | src/main/java/net/maritimecloud/endorsement/validators/EndorsementValidator.java:47-66 | in the second case's shape, the list holds exactly the three expected errors |
| Fixtures.ExpectedErrorsDistinct | src/test/java/net/maritimecloud/endorsement/validators/EndorsementValidatorTest.java:85 | the three expected errors are different errors |
| Fixtures.InvalidFixtureFails | src/test/java/net/maritimecloud/endorsement/validators/EndorsementValidatorTest.java:67-87 | the second case has exactly three errors, given checkers that reject its user MRN and level |
| Fixtures.MalformedServiceMrnReported | src/main/java/net/maritimecloud/endorsement/model/db/Endorsement.java:43-46 | with the grammar behind `@MRN`, a service MRN the grammar rejects is reported |
| Fixtures.McpOrgMrnAccepted | src/main/java/net/maritimeconnectivity/endorsement/utils/MrnUtil.java:33-49 | the current organization MRN passes `validateMrn` |
| Fixtures.McpUserMrnAccepted | src/main/java/net/maritimeconnectivity/endorsement/utils/MrnUtil.java:33-49 | the current user MRN passes `validateMrn` |
| Fixtures.McpInstanceMrnAccepted | src/main/java/net/maritimeconnectivity/endorsement/utils/MrnUtil.java:41-48 | the current service-instance MRN passes, including the service rule |
| Fixtures.BadUserMrnRejected | src/main/java/net/maritimeconnectivity/endorsement/utils/MrnUtil.java:37-39 | the `xxmrn` user MRN fails with the format error |
| Fixtures.McpValidFixturePasses | src/test/java/net/maritimeconnectivity/endorsement/validators/EndorsementValidatorTest.java:41-57 | with the grammar and exact membership as checkers, the current first case has no errors |
| Fixtures.McpInvalidFixtureFails | src/test/java/net/maritimeconnectivity/endorsement/validators/EndorsementValidatorTest.java:59-78 | with the same checkers, the current second case has exactly the three expected errors |
| Fixtures.OtherOrgCreateForbidden | src/test/java/net/maritimeconnectivity/endorsement/controllers/EndorsementControllerTests.java:152-178 | the current first case sent with a token of `idp1:sma` gets 403 and stores nothing |
| Fixtures.NoParentVersionCreateBadRequest | src/test/java/net/maritimeconnectivity/endorsement/controllers/EndorsementControllerTests.java:183-208 | the current first case without parent version gets 400 even with its own organization's token |

## Left out

- Authentication filter chain. Requests without a token and the resulting
  401 are outside the model. The authentication value is given to the guards
  as a parameter.
- Spring's method security. `@PreAuthorize` is modelled as the guard it
  evaluates.
- Paged list endpoints. The endpoints by service, by organization and level,
  and by parent only read from the repository.
- Reading and writing JSON.
- Transactions and concurrent requests. Every request is one atomic
  transition on the store.
- The older maritimecloud controller and the non-database model classes.
- Logging.
- `@MRN` and `@InPredefinedList` implementations. They are parameters of
  the validator. The older validator cases use MRNs of a retired namespace,
  so those cases take the checkers' answers as requirements.
- Non-ASCII case folding. Java's `equalsIgnoreCase` also folds non-ASCII
  letters. The model folds ASCII letters only. This is exact for the regular
  expressions, whose case-insensitivity is ASCII-only.
- Database collation and case-insensitive lookups. The store matches keys
  exactly.
- Real clocks. Time is a natural number passed to each call, and
  `java.util.Date` precision is not modelled.
- Contents of a 400 response. Only the status is modelled, not the error
  list in its body.
- Open session in view. The create of an existing key assumes it, so the
  record returned is the one that was updated.
- Order of constraint violations. Bean validation returns them as a set. The
  model lists them in declaration order, and every property about the list
  holds in any order.
- Org segment length. The org segment pattern `[a-z0-9]([a-z0-9]|-){0,20}[a-z0-9]`
  (MrnUtil.java:30) is 2 to 22 characters long, and the model follows it.
- The maritimeconnectivity validator and entity. The controller's own
  validator and entity are not part of this model. The model assumes they
  match the maritimecloud ones field for field, annotation for annotation,
  and check for check.
- Separator and limit of `split`. Only one-character separators with no
  limit are modelled, which is all the code uses. Regex separators and
  limits are not.
