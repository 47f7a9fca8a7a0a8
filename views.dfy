/**
 * `CampusViewSet`: which campuses a user may see, the per-campus
 * statistics, and the list of campuses the user may switch to.
 */
module CampusViews {
  import opened Wrappers
  import opened Seqs
  import opened Grouping
  import opened Campuses
  import opened Accounts
  import opened Attendances
  import opened Events
  import opened CampusCounts
  import opened CampusMiddleware

  /** `get_queryset`: all campuses for a super admin, else those whose id is accessible. */
  function VisibleCampuses(u: User, cs: seq<Campus>): (r: seq<Campus>)
    ensures IsSubsequence(r, cs)
    ensures u.role == SuperAdmin ==> r == cs
    ensures u.role != SuperAdmin ==>
      forall i :: 0 <= i < |cs| ==> (cs[i] in r <==> CanAccessCampus(u, cs, cs[i].id))
    ensures forall i :: 0 <= i < |r| ==> r[i] in cs
  {
    if u.role == SuperAdmin then SubsequenceRefl(cs); cs
    else
      var ids := AccessibleCampusIds(u, cs);
      Filter(cs, (c: Campus) => c.id in ids)
  }

  /**
   * A super admin sees inactive campuses too, although inactive campuses are
   * not in its accessible set.
   */
  lemma SuperAdminSeesInactive(u: User, cs: seq<Campus>, k: nat)
    requires u.role == SuperAdmin && k < |cs| && !cs[k].isActive
    requires NoDuplicateKeys(cs, (c: Campus) => c.id)
    ensures cs[k] in VisibleCampuses(u, cs)
    ensures !CanAccessCampus(u, cs, cs[k].id)
  {
    assert forall i :: 0 <= i < |cs| && i != k ==> cs[i].id != cs[k].id;
  }

  /** For everyone else, what is visible is exactly what is accessible. */
  lemma OthersSeeExactlyAccessible(u: User, cs: seq<Campus>, c: Campus)
    requires u.role != SuperAdmin && c in cs
    ensures c in VisibleCampuses(u, cs) <==> CanAccessCampus(u, cs, c.id)
  {
    var i :| 0 <= i < |cs| && cs[i] == c;
  }

  /**
   * `filter_queryset` with the `is_active` filter field: the visible campuses,
   * narrowed to those whose `is_active` equals the query parameter when one was given.
   */
  function FilteredCampuses(u: User, cs: seq<Campus>, isActive: Option<bool>): (r: seq<Campus>)
    ensures IsSubsequence(r, VisibleCampuses(u, cs))
    ensures isActive.None? ==> r == VisibleCampuses(u, cs)
    ensures forall c :: c in r <==> c in VisibleCampuses(u, cs) && (isActive.None? || c.isActive == isActive.value)
  {
    var visible := VisibleCampuses(u, cs);
    if isActive.None? then SubsequenceRefl(visible); visible
    else Filter(visible, (c: Campus) => c.isActive == isActive.value)
  }

  /**
   * `?is_active=false` on the detail route of an active campus is a 404, even
   * for a super admin who sees every campus.
   */
  lemma ActiveCampusFilteredOut(u: User, cs: seq<Campus>, k: nat)
    requires k < |cs| && cs[k].isActive
    requires NoDuplicateKeys(cs, (c: Campus) => c.id)
    ensures FindCampus(FilteredCampuses(u, cs, Some(false)), cs[k].id).None?
  {
    var r := FilteredCampuses(u, cs, Some(false));
    forall i | 0 <= i < |r|
      ensures r[i].id != cs[k].id
    {
      var c := r[i];
      assert c in VisibleCampuses(u, cs) && !c.isActive;
      if c.id == cs[k].id {
        var j :| 0 <= j < |cs| && cs[j] == c;
        SameKeySameIndex(cs, (c: Campus) => c.id, j, k);
        assert false;
      }
    }
  }

  // ---------------------------------------------------------------------------
  // statistics

  const AllRoles: seq<Role> := [Student, Organizer, CampusAdmin, SuperAdmin]
  const AllEventTypes: seq<EventType> :=
    [Academic, Seminar, Workshop, Conference, Social, Sports, Cultural, Other]

  lemma RolesListed(r: Role)
    ensures r in AllRoles
  {
  }

  lemma EventTypesListed(t: EventType)
    ensures t in AllEventTypes
  {
  }

  /** `User.objects.filter(campus=campus).values('role')`. */
  function RolesOf(campusId: int, users: seq<User>): (r: seq<Role>)
    ensures |r| == |CampusUsers(campusId, users)|
    ensures forall i :: 0 <= i < |r| ==> r[i] == CampusUsers(campusId, users)[i].role
  {
    var cu := CampusUsers(campusId, users);
    seq(|cu|, i requires 0 <= i < |cu| => cu[i].role)
  }

  /** `Event.objects.filter(campus=campus).values('event_type')`. */
  function EventTypesOf(campusId: int, events: seq<Event>): (r: seq<EventType>)
    reads events
    ensures |r| == CampusEventCount(campusId, events)
    ensures forall i :: 0 <= i < |events| && events[i].campusId == campusId ==> events[i].eventType in r
    ensures forall t :: t in r ==> exists i :: 0 <= i < |events| && events[i].campusId == campusId && events[i].eventType == t
    ensures forall t :: multiset(r)[t] == CampusEventsOfType(campusId, t, events)
  {
    if events == [] then []
    else
      var head := if events[0].campusId == campusId then [events[0].eventType] else [];
      var rest := EventTypesOf(campusId, events[1..]);
      assert multiset(head + rest) == multiset(head) + multiset(rest);
      CampusEventsOfTypePositive(campusId, events);
      head + rest
  }

  /** `Attendance.objects.filter(campus=campus).count()`. */
  function AttendanceTotal(campusId: int, records: seq<Attendance>): (n: nat)
    reads records
    ensures n <= |records|
  {
    if records == [] then 0
    else (if records[0].campusId == Some(campusId) then 1 else 0) + AttendanceTotal(campusId, records[1..])
  }

  /** `Attendance.objects.filter(campus=campus, is_verified=True).count()`. */
  function VerifiedTotal(campusId: int, records: seq<Attendance>): (n: nat)
    reads records
    ensures n <= AttendanceTotal(campusId, records)
  {
    if records == [] then 0
    else
      (if records[0].campusId == Some(campusId) && records[0].isVerified then 1 else 0)
        + VerifiedTotal(campusId, records[1..])
  }

  /** `m` holds one entry per value occurring in `s`, mapped to its number of occurrences. */
  ghost predicate CountsOf<K(!new)>(m: map<K, nat>, s: seq<K>) {
    (forall k :: k in m <==> k in s) && (forall k :: k in m ==> m[k] == multiset(s)[k])
  }

  /** The loop `for stat in ...: d[stat[key]] = stat['count']` over the groups of a query. */
  method StoreGroups<K>(groups: seq<Group<K>>) returns (m: map<K, nat>)
    ensures forall k :: k in m <==> exists j :: 0 <= j < |groups| && groups[j].key == k
    ensures forall k :: k in m ==> exists j :: 0 <= j < |groups| && groups[j].key == k && m[k] == groups[j].count
  {
    m := map[];
    for i := 0 to |groups|
      invariant forall k :: k in m <==> exists j :: 0 <= j < i && groups[j].key == k
      invariant forall k :: k in m ==> exists j :: 0 <= j < i && groups[j].key == k && m[k] == groups[j].count
    {
      m := m[groups[i].key := groups[i].count];
    }
  }

  /** Storing the groups of `s` gives exactly the counts of `s`, and their total is `|s|`. */
  method CountGroups<K(!new)>(keys: seq<K>, s: seq<K>) returns (m: map<K, nat>)
    requires Distinct(keys)
    requires forall i :: 0 <= i < |s| ==> s[i] in keys
    ensures CountsOf(m, s)
    ensures Total(keys, m) == |s|
  {
    m := StoreGroups(GroupBy(keys, s));
    assert forall k :: k in s ==> k in keys;
    GroupTotal(keys, s, m);
  }

  datatype UserStats = UserStats(total: nat, byRole: map<Role, nat>)
  datatype EventStats = EventStats(total: nat, byType: map<EventType, nat>)
  datatype AttendanceStats = AttendanceStats(total: nat, verified: nat)
  datatype Statistics = Statistics(campus: Campus, users: UserStats, events: EventStats, attendance: AttendanceStats)

  /** The `users` block: `total` counts active users, `by_role` counts all of them. */
  method UserStatistics(campusId: int, users: seq<User>) returns (st: UserStats)
    ensures st.total == TotalUsersCount(campusId, users)
    ensures CountsOf(st.byRole, RolesOf(campusId, users))
    ensures Total(AllRoles, st.byRole) == |CampusUsers(campusId, users)| >= st.total
  {
    var roles := RolesOf(campusId, users);
    forall i | 0 <= i < |roles| ensures roles[i] in AllRoles {
      RolesListed(roles[i]);
    }
    var byRole := CountGroups(AllRoles, roles);
    st := UserStats(TotalUsersCount(campusId, users), byRole);
  }

  /** The `events` block: `total` counts active published events, `by_type` counts all of them. */
  method EventStatistics(campusId: int, events: seq<Event>) returns (st: EventStats)
    ensures st.total == ActiveEventsCount(campusId, events)
    ensures CountsOf(st.byType, EventTypesOf(campusId, events))
    ensures forall t :: t in st.byType ==> st.byType[t] == CampusEventsOfType(campusId, t, events) > 0
    ensures Total(AllEventTypes, st.byType) == CampusEventCount(campusId, events) >= st.total
  {
    var types := EventTypesOf(campusId, events);
    forall i | 0 <= i < |types| ensures types[i] in AllEventTypes {
      EventTypesListed(types[i]);
    }
    var byType := CountGroups(AllEventTypes, types);
    st := EventStats(ActiveEventsCount(campusId, events), byType);
  }

  /**
   * `statistics`: `None` is the 404 `get_object` raises for a campus the user
   * cannot see, or that the `is_active` query parameter filters out;
   * otherwise the three blocks for the campus found.
   */
  method CampusStatistics(u: User, cs: seq<Campus>, isActive: Option<bool>, pk: int, users: seq<User>,
                          events: seq<Event>, records: seq<Attendance>) returns (r: Option<Statistics>)
    ensures r.None? <==> FindCampus(FilteredCampuses(u, cs, isActive), pk).None?
    ensures r.Some? ==> Some(r.value.campus) == FindCampus(FilteredCampuses(u, cs, isActive), pk)
    ensures r.Some? ==> r.value.users.total == TotalUsersCount(r.value.campus.id, users)
    ensures r.Some? ==> CountsOf(r.value.users.byRole, RolesOf(r.value.campus.id, users))
    ensures r.Some? ==> r.value.events.total == ActiveEventsCount(r.value.campus.id, events)
    ensures r.Some? ==> CountsOf(r.value.events.byType, EventTypesOf(r.value.campus.id, events))
    ensures r.Some? ==> r.value.attendance.total == AttendanceTotal(r.value.campus.id, records)
    ensures r.Some? ==> r.value.attendance.verified == VerifiedTotal(r.value.campus.id, records)
    ensures r.Some? ==> r.value.attendance.verified <= r.value.attendance.total
  {
    var found := FindCampus(FilteredCampuses(u, cs, isActive), pk);
    if found.None? {
      return None;
    }
    var campus := found.value;
    var userStats := UserStatistics(campus.id, users);
    var eventStats := EventStatistics(campus.id, events);
    var attendanceStats := AttendanceStats(AttendanceTotal(campus.id, records), VerifiedTotal(campus.id, records));
    return Some(Statistics(campus, userStats, eventStats, attendanceStats));
  }

  // ---------------------------------------------------------------------------
  // accessible

  datatype AccessibleCampusList = AccessibleCampusList(campuses: seq<Campus>, currentCampus: Option<Campus>)

  /** `accessible`: the visible campuses, and the campus the middleware resolved for this request. */
  method Accessible(request: Request, cs: seq<Campus>) returns (r: AccessibleCampusList)
    requires request.user.Some?
    ensures r.campuses == VisibleCampuses(request.user.value, cs)
    ensures r.currentCampus.None? <==> request.campus.None?
    ensures r.currentCampus == request.campus
  {
    var campuses := VisibleCampuses(request.user.value, cs);
    var current := if request.campus.Some? then request.campus else None;
    r := AccessibleCampusList(campuses, current);
  }

  /**
   * The current campus need not be among the listed ones: a campus admin
   * whose explicit list leaves out the home campus stays on the home campus
   * but does not see it listed.
   */
  lemma CurrentCampusMayBeUnlisted(u: User, cs: seq<Campus>, k: nat)
    requires NoDuplicateKeys(cs, (c: Campus) => c.id)
    requires k < |cs| && cs[k].id == u.campusId
    requires UsesExplicitList(u) && u.campusId !in u.accessibleCampusIds
    ensures EffectiveCampus(Some(u), None, cs) == Some(cs[k])
    ensures cs[k] !in VisibleCampuses(u, cs)
  {
    FindCampusUnique(cs, k);
  }
}
