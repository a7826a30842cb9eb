/**
 * The endorsement endpoints as transitions on a store of records keyed by
 * (organization, service, version): create (an upsert guarded by the
 * validator and the organization check), delete (guarded by the
 * organization check) and get (unguarded). The clock is a parameter.
 */
module EndorseController {
  import opened Wrappers
  import opened JavaText
  import opened Timestamps
  import opened EndorsementEntity
  import opened EndorsementValidator
  import opened AccessControl

  /** The natural key the repository looks an endorsement up by. */
  datatype NaturalKey = NaturalKey(orgMrn: JString, serviceMrn: JString, serviceVersion: JString)

  /** The natural key of an endorsement's business content. */
  function KeyOf(e: Endorsement): NaturalKey {
    NaturalKey(e.orgMrn, e.serviceMrn, e.serviceVersion)
  }

  /** The table: at most one record per natural key, and the next id to hand out. */
  datatype Store = Store(rows: map<NaturalKey, Record>, nextId: nat)

  /** Every record sits under its own key and has an id handed out before, unique to it. */
  predicate Valid(s: Store) {
    && (forall k :: k in s.rows ==> KeyOf(s.rows[k].body) == k)
    && (forall k :: k in s.rows ==> s.rows[k].id < s.nextId)
    && (forall k1, k2 :: k1 in s.rows && k2 in s.rows && s.rows[k1].id == s.rows[k2].id ==> k1 == k2)
  }

  /** What an endpoint answers: 200 with or without a record, 404, 403, 400, or 500 for a guard that threw. */
  datatype Response = Ok(record: Record) | OkNoBody | NotFound | Forbidden | BadRequest | InternalError(fault: Fault)

  /** The store after a call, and the answer. */
  datatype Outcome = Outcome(store: Store, response: Response)

  // ---------------------------------------------------------------------------
  // createEndorsement
  // ---------------------------------------------------------------------------

  /**
   * The upsert behind an authorized create: an existing record under the
   * input's key takes the input's `userMrn` and nothing else (its update
   * callback runs only when that changes something); otherwise the input is
   * persisted as a new record with the next id.
   */
  function Upsert(s: Store, input: Endorsement, now: nat): (o: Outcome)
    ensures o.response.Ok?
    ensures KeyOf(input) in o.store.rows && o.store.rows[KeyOf(input)] == o.response.record
    ensures o.store.rows.Keys == s.rows.Keys + {KeyOf(input)}
    ensures forall k :: k in s.rows && k != KeyOf(input) ==> o.store.rows[k] == s.rows[k]
  {
    var k := KeyOf(input);
    if k in s.rows then
      var stored := s.rows[k];
      if stored.body.userMrn == input.userMrn then Outcome(s, Ok(stored))
      else
        var updated := Record(stored.id, WriteUpdate(stored.stamps, PreUpdate(stored.stamps, now)),
                              stored.body.(userMrn := input.userMrn));
        Outcome(s.(rows := s.rows[k := updated]), Ok(updated))
    else
      var created := Record(s.nextId, PrePersist(now), input);
      Outcome(Store(s.rows[k := created], s.nextId + 1), Ok(created))
  }

  /**
   * `createEndorsement`: the body is validated first (a 400 whatever the
   * caller), then the caller must belong to the input's organization (403,
   * or 500 if the guard throws), and only then is the record upserted.
   */
  function Create(s: Store, ck: Checkers, auth: Authentication, input: Endorsement, now: nat): (o: Outcome)
    ensures Validate(ck, input) != [] ==> o == Outcome(s, BadRequest)
    ensures Validate(ck, input) == [] && HasAccessToOrg(auth, input.orgMrn) == Success(false) ==> o == Outcome(s, Forbidden)
    ensures Validate(ck, input) == [] && HasAccessToOrg(auth, input.orgMrn).Failure? ==>
      o == Outcome(s, InternalError(HasAccessToOrg(auth, input.orgMrn).error))
    ensures o.response.Ok? <==> Validate(ck, input) == [] && HasAccessToOrg(auth, input.orgMrn) == Success(true)
    ensures o.response.Ok? ==> o == Upsert(s, input, now)
    ensures !o.response.Ok? ==> o.store == s
  {
    if Validate(ck, input) != [] then Outcome(s, BadRequest)
    else
      match HasAccessToOrg(auth, input.orgMrn)
      case Failure(fault) => Outcome(s, InternalError(fault))
      case Success(granted) => if granted then Upsert(s, input, now) else Outcome(s, Forbidden)
  }

  // ---------------------------------------------------------------------------
  // deleteEndorsement and getEndorsement
  // ---------------------------------------------------------------------------

  /** The key a request path names. */
  function PathKey(serviceMrn: string, serviceVersion: string, orgMrn: string): NaturalKey {
    NaturalKey(Some(orgMrn), Some(serviceMrn), Some(serviceVersion))
  }

  /**
   * `deleteEndorsement`: the caller must belong to the organization in the
   * path; then the record under the key is removed, or 404 if there is none.
   */
  function Delete(s: Store, auth: Authentication, serviceMrn: string, serviceVersion: string, orgMrn: string): (o: Outcome)
    ensures o.response == OkNoBody <==>
      HasAccessToOrg(auth, Some(orgMrn)) == Success(true) && PathKey(serviceMrn, serviceVersion, orgMrn) in s.rows
    ensures o.response == OkNoBody ==>
      o.store == s.(rows := s.rows - {PathKey(serviceMrn, serviceVersion, orgMrn)})
    ensures o.response != OkNoBody ==> o.store == s
    ensures HasAccessToOrg(auth, Some(orgMrn)) == Success(true) && PathKey(serviceMrn, serviceVersion, orgMrn) !in s.rows ==>
      o.response == NotFound
    ensures HasAccessToOrg(auth, Some(orgMrn)) == Success(false) ==> o == Outcome(s, Forbidden)
    ensures HasAccessToOrg(auth, Some(orgMrn)).Failure? ==> o == Outcome(s, InternalError(HasAccessToOrg(auth, Some(orgMrn)).error))
  {
    match HasAccessToOrg(auth, Some(orgMrn))
    case Failure(fault) => Outcome(s, InternalError(fault))
    case Success(granted) =>
      if !granted then Outcome(s, Forbidden)
      else
        var k := PathKey(serviceMrn, serviceVersion, orgMrn);
        if k !in s.rows then Outcome(s, NotFound)
        else Outcome(s.(rows := s.rows - {k}), OkNoBody)
  }

  /** `getEndorsement`: anyone may read; the record under the key, or 404. It returns no store, so it changes none. */
  function Get(s: Store, serviceMrn: string, serviceVersion: string, orgMrn: string): (r: Response)
    ensures r.NotFound? <==> PathKey(serviceMrn, serviceVersion, orgMrn) !in s.rows
    ensures r.Ok? ==> s.rows[PathKey(serviceMrn, serviceVersion, orgMrn)] == r.record
    ensures r.Ok? || r.NotFound?
  {
    var k := PathKey(serviceMrn, serviceVersion, orgMrn);
    if k in s.rows then Ok(s.rows[k]) else NotFound
  }

  // ---------------------------------------------------------------------------
  // The upsert in detail
  // ---------------------------------------------------------------------------

  /** An existing record keeps its id, its creation time and every field but `userMrn`, which becomes the input's. */
  lemma UpsertExisting(s: Store, input: Endorsement, now: nat)
    requires KeyOf(input) in s.rows
    ensures var stored := s.rows[KeyOf(input)];
            var r := Upsert(s, input, now).response.record;
            && r.id == stored.id && r.stamps.createdAt == stored.stamps.createdAt
            && r.body == stored.body.(userMrn := input.userMrn)
            && Upsert(s, input, now).store.nextId == s.nextId
  {
  }

  /** The update time moves to `now` exactly when the endorsing user changes. */
  lemma UpsertBumpsOnChange(s: Store, input: Endorsement, now: nat)
    requires KeyOf(input) in s.rows
    ensures var stored := s.rows[KeyOf(input)];
            Upsert(s, input, now).response.record.stamps ==
              if stored.body.userMrn == input.userMrn then stored.stamps else Stamps(stored.stamps.createdAt, now)
  {
  }

  /** A new key is persisted as the input itself, with the next id and both stamps at `now`. */
  lemma UpsertAbsent(s: Store, input: Endorsement, now: nat)
    requires KeyOf(input) !in s.rows
    ensures Upsert(s, input, now).response.record == Record(s.nextId, Stamps(now, now), input)
    ensures Upsert(s, input, now).store.nextId == s.nextId + 1
  {
  }

  // ---------------------------------------------------------------------------
  // Invariants
  // ---------------------------------------------------------------------------

  /** The upsert keeps every record under its own key with a unique id. */
  lemma UpsertPreservesValid(s: Store, input: Endorsement, now: nat)
    requires Valid(s)
    ensures Valid(Upsert(s, input, now).store)
  {
    var t := Upsert(s, input, now).store;
    var k := KeyOf(input);
    if k in s.rows {
      assert t.nextId == s.nextId;
      assert t.rows[k].id == s.rows[k].id;
      assert KeyOf(t.rows[k].body) == k;
    } else {
      assert t.rows[k].id == s.nextId;
    }
  }

  /** Create keeps the store valid, whatever is sent and whoever sends it. */
  lemma CreatePreservesValid(s: Store, ck: Checkers, auth: Authentication, input: Endorsement, now: nat)
    requires Valid(s)
    ensures Valid(Create(s, ck, auth, input, now).store)
  {
    UpsertPreservesValid(s, input, now);
  }

  /** Delete keeps the store valid. */
  lemma DeletePreservesValid(s: Store, auth: Authentication, serviceMrn: string, serviceVersion: string, orgMrn: string)
    requires Valid(s)
    ensures Valid(Delete(s, auth, serviceMrn, serviceVersion, orgMrn).store)
  {
  }

  /** Records under any other key are untouched by a create. */
  lemma CreateTouchesOnlyItsKey(s: Store, ck: Checkers, auth: Authentication, input: Endorsement, now: nat, k: NaturalKey)
    requires k != KeyOf(input)
    ensures var t := Create(s, ck, auth, input, now).store;
            (k in t.rows <==> k in s.rows) && (k in s.rows ==> t.rows[k] == s.rows[k])
  {
  }

  /**
   * Only members of an organization change its records: a create or delete
   * that changes the store was let through by the organization check, and
   * every key it changed belongs to that organization.
   */
  lemma OnlyOwnOrgChanges(s: Store, ck: Checkers, auth: Authentication, input: Endorsement, now: nat)
    ensures var t := Create(s, ck, auth, input, now).store;
            t != s ==> (&& HasAccessToOrg(auth, input.orgMrn) == Success(true)
                        && forall k :: k in s.rows.Keys + t.rows.Keys && (k !in s.rows || k !in t.rows || s.rows[k] != t.rows[k])
                             ==> k.orgMrn == input.orgMrn)
  {
    var t := Create(s, ck, auth, input, now).store;
    if t != s {
      assert Create(s, ck, auth, input, now).response.Ok?;
      forall k | k in s.rows.Keys + t.rows.Keys && (k !in s.rows || k !in t.rows || s.rows[k] != t.rows[k])
        ensures k.orgMrn == input.orgMrn
      {
        if k != KeyOf(input) {
          CreateTouchesOnlyItsKey(s, ck, auth, input, now, k);
        }
      }
    }
  }

  /** A delete that changes the store was let through for the organization whose record it removed. */
  lemma DeleteOnlyOwnOrg(s: Store, auth: Authentication, serviceMrn: string, serviceVersion: string, orgMrn: string)
    ensures var t := Delete(s, auth, serviceMrn, serviceVersion, orgMrn).store;
            t != s ==> (&& HasAccessToOrg(auth, Some(orgMrn)) == Success(true)
                        && t.rows == s.rows - {PathKey(serviceMrn, serviceVersion, orgMrn)})
  {
  }

  // ---------------------------------------------------------------------------
  // Round trips
  // ---------------------------------------------------------------------------

  /** Sending the same create twice leaves the store as one create left it, at any later time. */
  lemma CreateIdempotent(s: Store, ck: Checkers, auth: Authentication, input: Endorsement, now: nat, later: nat)
    ensures var t := Create(s, ck, auth, input, now).store;
            Create(t, ck, auth, input, later).store == t
  {
    var o := Create(s, ck, auth, input, now);
    if o.response.Ok? {
      assert o.store.rows[KeyOf(input)].body.userMrn == input.userMrn;
    }
  }

  /** After an accepted create, reading the input's key gives back the record the create answered with. */
  lemma CreateThenGet(s: Store, ck: Checkers, auth: Authentication, input: Endorsement, now: nat,
                      serviceMrn: string, serviceVersion: string, orgMrn: string)
    requires KeyOf(input) == PathKey(serviceMrn, serviceVersion, orgMrn)
    requires Create(s, ck, auth, input, now).response.Ok?
    ensures Get(Create(s, ck, auth, input, now).store, serviceMrn, serviceVersion, orgMrn) ==
            Create(s, ck, auth, input, now).response
  {
  }

  /** Creating a new key and deleting it again, as the same caller, restores the records. */
  lemma CreateThenDelete(s: Store, ck: Checkers, auth: Authentication, input: Endorsement, now: nat,
                         serviceMrn: string, serviceVersion: string, orgMrn: string)
    requires KeyOf(input) == PathKey(serviceMrn, serviceVersion, orgMrn)
    requires KeyOf(input) !in s.rows
    requires Create(s, ck, auth, input, now).response.Ok?
    ensures Delete(Create(s, ck, auth, input, now).store, auth, serviceMrn, serviceVersion, orgMrn).store.rows == s.rows
  {
    UpsertThenRemove(s, input, now);
  }

  /** Upserting a new key and removing it again restores the records. */
  lemma UpsertThenRemove(s: Store, input: Endorsement, now: nat)
    requires KeyOf(input) !in s.rows
    ensures Upsert(s, input, now).store.rows - {KeyOf(input)} == s.rows
  {
  }

  /** A second delete of the same key finds nothing and changes nothing. */
  lemma DeleteTwiceNotFound(s: Store, auth: Authentication, serviceMrn: string, serviceVersion: string, orgMrn: string)
    requires HasAccessToOrg(auth, Some(orgMrn)) == Success(true)
    ensures var t := Delete(s, auth, serviceMrn, serviceVersion, orgMrn).store;
            Delete(t, auth, serviceMrn, serviceVersion, orgMrn) == Outcome(t, NotFound)
  {
  }

  // ---------------------------------------------------------------------------
  // Timestamps in the store
  // ---------------------------------------------------------------------------

  /** Every record was created no later than its last update, which is no later than `now`. */
  predicate StampsBefore(s: Store, now: nat) {
    forall k :: k in s.rows ==> s.rows[k].stamps.createdAt <= s.rows[k].stamps.updatedAt <= now
  }

  /** With a clock that never goes backwards, a create keeps every record's stamps in order. */
  lemma CreateKeepsStampsOrdered(s: Store, ck: Checkers, auth: Authentication, input: Endorsement, before: nat, now: nat)
    requires StampsBefore(s, before) && before <= now
    ensures StampsBefore(Create(s, ck, auth, input, now).store, now)
  {
    UpsertKeepsStampsOrdered(s, input, before, now);
  }

  /** The upsert stamps only at `now`, so a later clock keeps every record's stamps in order. */
  lemma UpsertKeepsStampsOrdered(s: Store, input: Endorsement, before: nat, now: nat)
    requires StampsBefore(s, before) && before <= now
    ensures StampsBefore(Upsert(s, input, now).store, now)
  {
  }

  // ---------------------------------------------------------------------------
  // The two refusals the controller's cases document
  // ---------------------------------------------------------------------------

  /** A valid body sent with a token of another organization is refused with 403 and stores nothing. */
  lemma OtherOrgTokenForbidden(s: Store, ck: Checkers, input: Endorsement, org: string, now: nat)
    requires Validate(ck, input) == []
    requires input.orgMrn.Some? && !EqualsIgnoreCase(org, input.orgMrn.value)
    ensures Create(s, ck, TokenWithOrg(org), input, now) == Outcome(s, Forbidden)
  {
    OtherOrgRefused(org, input.orgMrn.value);
  }

  /** Below the `specification` level a body without a parent version is refused with 400, whoever sends it. */
  lemma MissingParentBadRequest(s: Store, ck: Checkers, auth: Authentication, input: Endorsement, now: nat)
    requires input.serviceLevel != Some("specification") && input.parentVersion.None?
    ensures Create(s, ck, auth, input, now) == Outcome(s, BadRequest)
  {
    MissingParentReported(ck, input);
    InvalidBodyBadRequest(s, ck, auth, input, now);
  }

  /** The validator's side: the missing parent version is in the error list. */
  lemma MissingParentReported(ck: Checkers, input: Endorsement)
    requires input.serviceLevel != Some("specification") && input.parentVersion.None?
    ensures PresenceError(ParentVersion, ParentMessage) in Validate(ck, input)
  {
    assert !HasText(Value(input, ParentVersion));
    OtherLevelsRequireParents(ck, input, ParentVersion);
  }

  /** The controller's side: a body with any validation error is refused with 400 before the token is looked at. */
  lemma InvalidBodyBadRequest(s: Store, ck: Checkers, auth: Authentication, input: Endorsement, now: nat)
    requires Validate(ck, input) != []
    ensures Create(s, ck, auth, input, now) == Outcome(s, BadRequest)
  {
  }
}
