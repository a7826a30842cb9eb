/**
 * The access guard: whether the current authentication belongs to an
 * organization, and whether it carries a permission. The authentication is
 * a value: absent, of an unknown kind, or an OpenID Connect token with its
 * extra claims.
 */
module AccessControl {
  import opened Wrappers
  import opened JavaText

  /** The claim that names the user's organization. */
  const OrgClaim: string := "org"

  /** The claim that lists the user's permissions, comma-separated. */
  const PermissionsClaim: string := "permissions"

  /** A claim value: a string, `null`, or an object of another class. */
  datatype ClaimValue = StringClaim(text: string) | NullClaim | OtherClaim

  /** No authentication, an authentication of an unknown kind, or a token with its other claims. */
  datatype Authentication = Anonymous | OtherAuthentication | Token(claims: map<string, ClaimValue>)

  /** The exception a guard throws: a failed cast to `String`, or a call on `null`. */
  datatype Fault = ClassCast | NullPointer

  /** Reads a claim that is cast to `String` and then used: `null` and other classes throw. */
  function ClaimText(v: ClaimValue): (r: Result<string, Fault>)
    ensures r.Success? <==> v.StringClaim?
    ensures r.Success? ==> r.value == v.text
    ensures v.NullClaim? ==> r == Failure(NullPointer)
    ensures v.OtherClaim? ==> r == Failure(ClassCast)
  {
    match v
    case StringClaim(t) => Success(t)
    case NullClaim => Failure(NullPointer)
    case OtherClaim => Failure(ClassCast)
  }

  // ---------------------------------------------------------------------------
  // hasAccessToOrg
  // ---------------------------------------------------------------------------

  /**
   * `hasAccessToOrg`: a `null` or blank organization is refused before the
   * authentication is looked at; otherwise only a token whose `org` claim
   * equals the organization, ignoring case, is let through.
   */
  function HasAccessToOrg(auth: Authentication, orgMrn: JString): (r: Result<bool, Fault>)
    ensures orgMrn.None? || IsBlank(orgMrn.value) ==> r == Success(false)
    ensures !auth.Token? ==> r == Success(false)
    ensures auth.Token? && OrgClaim !in auth.claims ==> r == Success(false)
    ensures r.Failure? <==>
      orgMrn.Some? && !IsBlank(orgMrn.value) && auth.Token? && OrgClaim in auth.claims && !auth.claims[OrgClaim].StringClaim?
    ensures r.Failure? ==> r.error == ClaimText(auth.claims[OrgClaim]).error
    ensures r == Success(true) <==>
      && orgMrn.Some? && !IsBlank(orgMrn.value)
      && auth.Token? && OrgClaim in auth.claims && auth.claims[OrgClaim].StringClaim?
      && EqualsIgnoreCase(auth.claims[OrgClaim].text, orgMrn.value)
  {
    if orgMrn.None? || IsBlank(orgMrn.value) then Success(false)
    else
      match auth
      case Token(claims) =>
        if OrgClaim !in claims then Success(false)
        else
          (match ClaimText(claims[OrgClaim])
           case Success(org) => Success(EqualsIgnoreCase(org, orgMrn.value))
           case Failure(fault) => Failure(fault))
      case _ => Success(false)
  }

  /** A token's organization. */
  function TokenWithOrg(org: string): Authentication {
    Token(map[OrgClaim := StringClaim(org)])
  }

  /** A token is let into its own organization, however either is capitalized. */
  lemma OwnOrgGranted(org: string, orgMrn: string)
    requires !IsBlank(orgMrn) && EqualsIgnoreCase(org, orgMrn)
    ensures HasAccessToOrg(TokenWithOrg(org), Some(orgMrn)) == Success(true)
  {
  }

  /** A token of one organization is refused another that differs in more than case. */
  lemma OtherOrgRefused(org: string, orgMrn: string)
    requires !EqualsIgnoreCase(org, orgMrn)
    ensures HasAccessToOrg(TokenWithOrg(org), Some(orgMrn)) == Success(false)
  {
  }

  // ---------------------------------------------------------------------------
  // hasPermission
  // ---------------------------------------------------------------------------

  /** Some element of `list` equals `permission` ignoring case; `null` equals none. */
  predicate Listed(list: seq<string>, permission: JString) {
    exists i :: 0 <= i < |list| && EqualsIgnoreCaseNullable(list[i], permission)
  }

  /**
   * The loop over the split permission list: whether some element equals
   * `permission` ignoring case; a `null` permission equals none.
   */
  function AnyMatches(list: seq<string>, permission: JString): (found: bool)
    ensures found <==> Listed(list, permission)
  {
    if |list| == 0 then false
    else if EqualsIgnoreCaseNullable(list[0], permission) then true
    else
      var found := AnyMatches(list[1..], permission);
      assert forall i :: 1 <= i < |list| ==> list[i] == list[1..][i - 1];
      found
  }

  /**
   * `hasPermission`: only a token with a `permissions` claim can grant; the
   * claim is split at commas, elements are not trimmed, and one element must
   * equal the permission ignoring case.
   */
  function HasPermission(auth: Authentication, permission: JString): (r: Result<bool, Fault>)
    ensures !auth.Token? ==> r == Success(false)
    ensures auth.Token? && PermissionsClaim !in auth.claims ==> r == Success(false)
    ensures permission.None? ==> r != Success(true)
    ensures r.Failure? <==> auth.Token? && PermissionsClaim in auth.claims && !auth.claims[PermissionsClaim].StringClaim?
    ensures auth.Token? && PermissionsClaim in auth.claims && auth.claims[PermissionsClaim].StringClaim? ==>
      r == Success(Listed(Split(auth.claims[PermissionsClaim].text, ','), permission))
  {
    match auth
    case Token(claims) =>
      if PermissionsClaim !in claims then Success(false)
      else
        (match ClaimText(claims[PermissionsClaim])
         case Success(granted) => Success(AnyMatches(Split(granted, ','), permission))
         case Failure(fault) => Failure(fault))
    case _ => Success(false)
  }

  /** A token whose `permissions` claim is `granted`. */
  function TokenWithPermissions(granted: string): Authentication {
    Token(map[PermissionsClaim := StringClaim(granted)])
  }

  /** A token carrying `granted` as its `permissions` claim, whatever its other claims. */
  predicate GrantsText(auth: Authentication, granted: string) {
    auth.Token? && PermissionsClaim in auth.claims && auth.claims[PermissionsClaim] == StringClaim(granted)
  }

  /**
   * For a non-empty permission, the trailing empty elements that `split`
   * drops make no difference: it is granted exactly when some comma-separated
   * piece of the claim equals it ignoring case.
   */
  lemma PermissionGrantedIff(auth: Authentication, granted: string, p: string)
    requires GrantsText(auth, granted) && p != []
    ensures HasPermission(auth, Some(p)) == Success(true) <==> Listed(Pieces(granted, ','), Some(p))
  {
    SplitListedLikePieces(granted, p);
  }

  /** A non-empty string is listed in the split exactly when it is listed among the pieces. */
  lemma SplitListedLikePieces(granted: string, p: string)
    requires p != []
    ensures Listed(Split(granted, ','), Some(p)) <==> Listed(Pieces(granted, ','), Some(p))
  {
    var pieces := Pieces(granted, ',');
    var list := Split(granted, ',');
    if ',' !in granted {
      assert pieces == [granted];
    }
    assert list <= pieces;
    if Listed(pieces, Some(p)) {
      var i :| 0 <= i < |pieces| && EqualsIgnoreCaseNullable(pieces[i], Some(p));
      assert i < |list| && list[i] == pieces[i];
    }
    if Listed(list, Some(p)) {
      var i :| 0 <= i < |list| && EqualsIgnoreCaseNullable(list[i], Some(p));
      assert i < |pieces| && list[i] == pieces[i];
    }
  }

  /** A comma inside the asked permission can never be matched, since no element holds one. */
  lemma CommaPermissionNeverGranted(auth: Authentication, granted: string, p: string)
    requires GrantsText(auth, granted) && ',' in p
    ensures HasPermission(auth, Some(p)) == Success(false)
  {
    var list := Split(granted, ',');
    PiecesSeparatorFree(granted, ',');
    var k :| 0 <= k < |p| && p[k] == ',';
    forall i | 0 <= i < |list|
      ensures !EqualsIgnoreCase(list[i], p)
    {
      assert list[i] == Pieces(granted, ',')[i];
    }
  }

  /**
   * Elements are not trimmed: with the claim `a, b` (a space after the
   * comma), asking for `b` is granted only if `a` happens to equal it.
   */
  lemma SpaceAfterCommaNotTrimmed(a: string, b: string)
    requires ',' !in a && ',' !in b
    ensures HasPermission(TokenWithPermissions(a + ", " + b), Some(b)) == Success(true) <==> EqualsIgnoreCase(a, b)
  {
    var rest := " " + b;
    assert ',' !in rest;
    assert a + ", " + b == a + [','] + rest;
    PiecesCons(a, ',', rest);
    assert Pieces(a + [','] + rest, ',') == [a, rest];
  }

  /**
   * An empty permission is granted by an empty claim, whose split is one
   * empty element, but not by `a,`, whose trailing empty element is dropped.
   */
  lemma EmptyPermissionEdges(a: string)
    requires a != [] && ',' !in a
    ensures HasPermission(TokenWithPermissions(""), Some("")) == Success(true)
    ensures HasPermission(TokenWithPermissions(a + ","), Some("")) == Success(false)
  {
    assert a + "," == a + [','] + [];
    PiecesCons(a, ',', []);
    assert Pieces(a + ",", ',') == [a, []];
    assert DropTrailingEmpty([a, []]) == [a];
  }
}
