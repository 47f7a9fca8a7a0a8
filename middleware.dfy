/**
 * `CampusContextMiddleware`: on every request it records the effective
 * campus and the campuses the user may switch to; on every response it
 * echoes the effective campus back in two headers.
 */
module CampusMiddleware {
  import opened Wrappers
  import opened Seqs
  import opened PyInt
  import opened Campuses
  import opened Accounts

  const CampusIdHeader := "X-Campus-ID"
  const CampusCodeHeader := "X-Campus-Code"

  /** The parts of an HTTP request the middleware reads and writes. */
  class Request {
    /** The authenticated user; `None` for an anonymous request. */
    const user: Option<User>
    /** The raw `X-Campus-ID` header, if the client sent one. */
    const campusHeader: Option<string>
    var campus: Option<Campus>
    var accessibleCampuses: seq<Campus>

    constructor (user: Option<User>, campusHeader: Option<string>)
      ensures this.user == user && this.campusHeader == campusHeader
      ensures campus.None? && accessibleCampuses == []
    {
      this.user := user;
      this.campusHeader := campusHeader;
      campus := None;
      accessibleCampuses := [];
    }
  }

  /** An HTTP response, seen as its header map. */
  class Response {
    var headers: map<string, string>

    constructor (headers: map<string, string>)
      ensures this.headers == headers
    {
      this.headers := headers;
    }
  }

  /** Only these two roles may switch campus with the header. */
  predicate MayOverride(u: User) {
    u.role == CampusAdmin || u.role == SuperAdmin
  }

  /** `request.user.campus`; `None` when the row is missing. */
  function HomeCampus(u: User, cs: seq<Campus>): Option<Campus> {
    FindCampus(cs, u.campusId)
  }

  /** `Campus.objects.filter(id__in=get_accessible_campus_ids(), is_active=True)`. */
  function AccessibleCampuses(u: User, cs: seq<Campus>): (r: seq<Campus>)
    ensures IsSubsequence(r, cs)
    ensures forall i :: 0 <= i < |cs| ==>
      (cs[i] in r <==> cs[i].isActive && CanAccessCampus(u, cs, cs[i].id))
    ensures forall i :: 0 <= i < |r| ==> r[i] in cs && r[i].isActive && CanAccessCampus(u, cs, r[i].id)
  {
    var ids := AccessibleCampusIds(u, cs);
    Filter(cs, (c: Campus) => c.isActive && c.id in ids)
  }

  /**
   * The campus the header switches to: only for the two admin roles, only
   * for a non-empty header that `int()` accepts, and only when that id is
   * accessible and names a campus. `None` means the switch does not happen.
   */
  function Override(u: User, cs: seq<Campus>, header: Option<string>): Option<Campus> {
    if header.Some? && header.value != "" && MayOverride(u) then
      match ParseInt(header.value)
      case None => None
      case Some(n) => if n in AccessibleCampusIds(u, cs) then FindCampus(cs, n) else None
    else None
  }

  /**
   * The value `process_request` leaves in `request.campus`: nothing for an
   * anonymous request, else a campus of the table that is the home campus or
   * an accessible one; only admins can move it off the home campus.
   */
  function EffectiveCampus(user: Option<User>, header: Option<string>, cs: seq<Campus>): (r: Option<Campus>)
    ensures user.None? ==> r.None?
    ensures r.Some? ==> r.value in cs
    ensures r.Some? ==> r.value.id == user.value.campusId || CanAccessCampus(user.value, cs, r.value.id)
    ensures user.Some? && !MayOverride(user.value) ==> r == HomeCampus(user.value, cs)
  {
    match user
    case None => None
    case Some(u) =>
      var o := Override(u, cs, header);
      if o.Some? then o else HomeCampus(u, cs)
  }

  /** The value `process_request` leaves in `request.accessible_campuses`. */
  function AccessibleList(user: Option<User>, cs: seq<Campus>): seq<Campus> {
    match user
    case None => []
    case Some(u) => AccessibleCampuses(u, cs)
  }

  /** `process_request`: reset both fields, set the home campus, then try the header. */
  method ProcessRequest(request: Request, cs: seq<Campus>)
    modifies request
    ensures request.campus == EffectiveCampus(request.user, request.campusHeader, cs)
    ensures request.accessibleCampuses == AccessibleList(request.user, cs)
  {
    request.campus := None;
    request.accessibleCampuses := [];
    if request.user.None? {
      return;
    }
    var u := request.user.value;
    request.campus := FindCampus(cs, u.campusId);
    request.accessibleCampuses := AccessibleCampuses(u, cs);
    var header := request.campusHeader;
    if header.Some? && header.value != "" && MayOverride(u) {
      var n := ParseInt(header.value);
      if n.Some? && n.value in AccessibleCampusIds(u, cs) {
        var found := FindCampus(cs, n.value);
        if found.Some? {
          request.campus := found;
        }
      }
    }
  }

  /** `process_response`: add both campus headers exactly when a campus was resolved. */
  method ProcessResponse(request: Request, response: Response) returns (r: Response)
    modifies response
    ensures r == response
    ensures request.campus.Some? ==>
      response.headers == old(response.headers)[CampusIdHeader := IntToString(request.campus.value.id)]
                                               [CampusCodeHeader := request.campus.value.code]
    ensures request.campus.None? ==> response.headers == old(response.headers)
  {
    if request.campus.Some? {
      var c := request.campus.value;
      response.headers := response.headers[CampusIdHeader := IntToString(c.id)];
      response.headers := response.headers[CampusCodeHeader := c.code];
    }
    r := response;
  }

  // ---------------------------------------------------------------------------
  // Properties of the resolution

  /** An anonymous request has no campus and nothing to switch to, whatever it sends. */
  lemma AnonymousHasNoCampus(header: Option<string>, cs: seq<Campus>)
    ensures EffectiveCampus(None, header, cs) == None
    ensures AccessibleList(None, cs) == []
  {
  }

  /** Students and organizers always get their home campus: the header is ignored. */
  lemma HeaderIgnoredForOtherRoles(u: User, header: Option<string>, cs: seq<Campus>)
    requires u.role == Student || u.role == Organizer
    ensures EffectiveCampus(Some(u), header, cs) == HomeCampus(u, cs)
  {
  }

  /** Without a usable header the effective campus is the home campus. */
  lemma NoHeaderKeepsHome(u: User, cs: seq<Campus>)
    ensures EffectiveCampus(Some(u), None, cs) == HomeCampus(u, cs)
    ensures EffectiveCampus(Some(u), Some(""), cs) == HomeCampus(u, cs)
  {
  }

  /** A header that is not an integer, or names an inaccessible or unknown campus, keeps the home campus. */
  lemma FailedOverrideKeepsHome(u: User, h: string, cs: seq<Campus>)
    requires ParseInt(h).None?
          || !CanAccessCampus(u, cs, ParseInt(h).value)
          || FindCampus(cs, ParseInt(h).value).None?
    ensures EffectiveCampus(Some(u), Some(h), cs) == HomeCampus(u, cs)
  {
  }

  /** An admin's header naming an accessible, existing campus switches to that campus. */
  lemma OverrideHonoured(u: User, h: string, cs: seq<Campus>)
    requires MayOverride(u) && ParseInt(h).Some?
    requires CanAccessCampus(u, cs, ParseInt(h).value)
    requires FindCampus(cs, ParseInt(h).value).Some?
    ensures EffectiveCampus(Some(u), Some(h), cs) == FindCampus(cs, ParseInt(h).value)
  {
    ParseIntBlank("");
  }

  /**
   * The `X-Campus-ID` header of a response, sent back by an admin on the
   * next request, selects the same campus again when that campus is accessible.
   */
  lemma EchoedHeaderSelectsSameCampus(u: User, cs: seq<Campus>, k: nat)
    requires NoDuplicateKeys(cs, (c: Campus) => c.id)
    requires k < |cs| && MayOverride(u) && CanAccessCampus(u, cs, cs[k].id)
    ensures EffectiveCampus(Some(u), Some(IntToString(cs[k].id)), cs) == Some(cs[k])
  {
    ParseIntToString(cs[k].id);
    FindCampusUnique(cs, k);
    OverrideHonoured(u, IntToString(cs[k].id), cs);
  }

  /**
   * A campus admin may switch to an inactive campus on the explicit list,
   * though that campus is left out of `accessible_campuses`.
   */
  lemma InactiveOverrideNotListed(u: User, cs: seq<Campus>, k: nat)
    requires NoDuplicateKeys(cs, (c: Campus) => c.id)
    requires k < |cs| && !cs[k].isActive
    requires UsesExplicitList(u) && cs[k].id in u.accessibleCampusIds
    ensures EffectiveCampus(Some(u), Some(IntToString(cs[k].id)), cs) == Some(cs[k])
    ensures cs[k] !in AccessibleList(Some(u), cs)
  {
    EchoedHeaderSelectsSameCampus(u, cs, k);
  }

  /** A campus admin of campus 1 with access to 2 and 3 who asks for 4 stays on campus 1. */
  lemma InaccessibleRequestStaysHome(u: User, cs: seq<Campus>)
    requires u.role == CampusAdmin && u.campusId == 1 && u.accessibleCampusIds == [2, 3]
    ensures EffectiveCampus(Some(u), Some("4"), cs) == HomeCampus(u, cs)
  {
    ParseIntToString(4);
    assert IntToString(4) == "4";
  }
}
