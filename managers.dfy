/**
 * `CampusAwareQuerySet`: the three campus filters every campus-scoped
 * listing goes through. A queryset is modelled as the sequence of its rows
 * in query order, and `campusOf` gives a row's `campus_id`.
 */
module CampusManagers {
  import opened Wrappers
  import opened Seqs
  import opened Campuses
  import opened Accounts

  /** `for_campus(campus_id)`: exactly the rows of that campus, in their order. */
  function ForCampus<T(==)>(rows: seq<T>, campusOf: T -> int, campusId: int): (r: seq<T>)
    ensures IsSubsequence(r, rows)
    ensures forall i :: 0 <= i < |rows| ==> (rows[i] in r <==> campusOf(rows[i]) == campusId)
    ensures forall i :: 0 <= i < |r| ==> r[i] in rows && campusOf(r[i]) == campusId
  {
    Filter(rows, (x: T) => campusOf(x) == campusId)
  }

  /** `for_user_campus(user)`: everything for a super admin, the home campus's rows for anyone else. */
  function ForUserCampus<T(==)>(u: User, rows: seq<T>, campusOf: T -> int): (r: seq<T>)
    ensures u.role == SuperAdmin ==> r == rows
    ensures u.role != SuperAdmin ==> r == ForCampus(rows, campusOf, u.campusId)
  {
    if u.role == SuperAdmin then rows else ForCampus(rows, campusOf, u.campusId)
  }

  /**
   * The campus `accessible_to_user` filters on, `None` meaning no filter. A
   * requested campus counts only when truthy; for anyone but a super admin it
   * must also be accessible, else the home campus is used.
   */
  function ScopeCampus(u: User, cs: seq<Campus>, requested: Option<int>): Option<int> {
    if u.role == SuperAdmin then
      (if Truthy(requested) then requested else None)
    else if Truthy(requested) && requested.value in AccessibleCampusIds(u, cs) then requested
    else Some(u.campusId)
  }

  /** `accessible_to_user(user, campus_id)`. */
  function AccessibleToUser<T(==)>(u: User, cs: seq<Campus>, rows: seq<T>, campusOf: T -> int,
                                   requested: Option<int>): (r: seq<T>)
    ensures IsSubsequence(r, rows)
    ensures ScopeCampus(u, cs, requested).None? ==> r == rows
    ensures ScopeCampus(u, cs, requested).Some? ==> r == ForCampus(rows, campusOf, ScopeCampus(u, cs, requested).value)
  {
    if u.role == SuperAdmin then
      if Truthy(requested) then ForCampus(rows, campusOf, requested.value)
      else SubsequenceRefl(rows); rows
    else
      var accessible := AccessibleCampusIds(u, cs);
      if Truthy(requested) && requested.value in accessible then ForCampus(rows, campusOf, requested.value)
      else ForCampus(rows, campusOf, u.campusId)
  }

  /** Only a super admin without a request gets every row. */
  lemma UnfilteredOnlyForSuperAdmin(u: User, cs: seq<Campus>, requested: Option<int>)
    ensures ScopeCampus(u, cs, requested).None? <==> u.role == SuperAdmin && !Truthy(requested)
  {
  }

  /**
   * For anyone but a super admin, every returned row belongs to an accessible
   * campus or to the home campus; the home campus is the silent fallback.
   */
  lemma NonSuperAdminRowsInScope<T>(u: User, cs: seq<Campus>, rows: seq<T>, campusOf: T -> int,
                                        requested: Option<int>, k: nat)
    requires u.role != SuperAdmin
    requires k < |AccessibleToUser(u, cs, rows, campusOf, requested)|
    ensures var c := campusOf(AccessibleToUser(u, cs, rows, campusOf, requested)[k]);
      CanAccessCampus(u, cs, c) || c == u.campusId
  {
  }

  /** A requested campus outside the accessible set falls back to the home campus, without error. */
  lemma InaccessibleRequestFallsBack<T>(u: User, cs: seq<Campus>, rows: seq<T>, campusOf: T -> int, c: int)
    requires u.role != SuperAdmin && !CanAccessCampus(u, cs, c)
    ensures AccessibleToUser(u, cs, rows, campusOf, Some(c)) == ForCampus(rows, campusOf, u.campusId)
  {
  }

  /** A request for campus 0 is falsy and treated as no request. */
  lemma ZeroRequestIgnored<T>(u: User, cs: seq<Campus>, rows: seq<T>, campusOf: T -> int)
    ensures AccessibleToUser(u, cs, rows, campusOf, Some(0)) == AccessibleToUser(u, cs, rows, campusOf, None)
  {
  }

  /**
   * The fallback can return rows outside `get_accessible_campus_ids()`: a
   * campus admin of campus 1 with the list [2, 3] asking for campus 4 gets the
   * rows of campus 1, which the list does not contain.
   */
  lemma FallbackEscapesExplicitList(u: User, cs: seq<Campus>)
    requires u.role == CampusAdmin && u.campusId == 1 && u.accessibleCampusIds == [2, 3]
    ensures var r := AccessibleToUser(u, cs, [1, 2, 3, 4], (c: int) => c, Some(4));
      r == [1] && !CanAccessCampus(u, cs, r[0])
  {
    var id := (c: int) => c;
    var r := AccessibleToUser(u, cs, [1, 2, 3, 4], id, Some(4));
    assert r == ForCampus([1, 2, 3, 4], id, 1);
    assert r == Filter([1, 2, 3, 4], (x: int) => id(x) == 1);
    assert [1, 2, 3, 4][1..] == [2, 3, 4] && [2, 3, 4][1..] == [3, 4] && [3, 4][1..] == [4] && [4][1..] == [];
  }
}
