/**
 * Users with their campus context: the closed set of roles, the set of
 * campus ids a user may operate on, the display name, and the validators on
 * `student_id` and `phone`.
 */
module Accounts {
  import opened Wrappers
  import opened Regex
  import opened Seqs
  import opened Campuses

  /** `ROLE_CHOICES`; a new user is a `Student`. */
  datatype Role = Student | Organizer | CampusAdmin | SuperAdmin

  const DefaultRole: Role := Student

  /** The value stored in the `role` column. */
  function RoleName(r: Role): string {
    match r
    case Student => "student"
    case Organizer => "organizer"
    case CampusAdmin => "campus_admin"
    case SuperAdmin => "super_admin"
  }

  /** Reads a stored `role` value; `None` for a value outside the choices. */
  function RoleFromName(s: string): (r: Option<Role>)
    ensures r.Some? ==> RoleName(r.value) == s
  {
    if s == "student" then Some(Student)
    else if s == "organizer" then Some(Organizer)
    else if s == "campus_admin" then Some(CampusAdmin)
    else if s == "super_admin" then Some(SuperAdmin)
    else None
  }

  /** Every role is stored under a name that reads back as that role. */
  lemma RoleNameRoundTrip(r: Role)
    ensures RoleFromName(RoleName(r)) == Some(r)
  {
  }

  /** The fields of a user that the core reads. `accessibleCampusIds` is the JSON list, default `[]`. */
  datatype User = User(
    id: int,
    campusId: int,
    role: Role,
    accessibleCampusIds: seq<int>,
    firstName: string,
    middleName: string,
    lastName: string,
    studentId: string,
    phone: string,
    isActive: bool)

  // ---------------------------------------------------------------------------
  // Campus access

  /** `get_accessible_campus_ids`, with `cs` the campus table. */
  function AccessibleCampusIds(u: User, cs: seq<Campus>): (ids: seq<int>)
    ensures u.role == SuperAdmin ==>
      |ids| <= |cs| && forall x :: x in ids <==> exists i :: 0 <= i < |cs| && cs[i].isActive && cs[i].id == x
    ensures UsesExplicitList(u) ==> ids == u.accessibleCampusIds
    ensures u.role != SuperAdmin && !UsesExplicitList(u) ==> ids == [u.campusId]
    ensures u.role != SuperAdmin ==> |ids| > 0
  {
    if u.role == SuperAdmin then ActiveCampusIds(cs)
    else if u.role == CampusAdmin && |u.accessibleCampusIds| > 0 then u.accessibleCampusIds
    else [u.campusId]
  }

  /** True when the role and the explicit list make the explicit list the answer. */
  predicate UsesExplicitList(u: User) {
    u.role == CampusAdmin && |u.accessibleCampusIds| > 0
  }

  /**
   * `can_access_campus`: a super admin reaches exactly the active campuses, a
   * campus admin with a non-empty list exactly that list, everyone else
   * exactly the home campus.
   */
  function CanAccessCampus(u: User, cs: seq<Campus>, campusId: int): (ok: bool)
    ensures u.role == SuperAdmin ==>
      (ok <==> exists i :: 0 <= i < |cs| && cs[i].isActive && cs[i].id == campusId)
    ensures UsesExplicitList(u) ==> (ok <==> campusId in u.accessibleCampusIds)
    ensures u.role != SuperAdmin && !UsesExplicitList(u) ==> (ok <==> campusId == u.campusId)
  {
    campusId in AccessibleCampusIds(u, cs)
  }

  /** A super admin's set ignores the explicit list and loses the home campus when it is inactive. */
  lemma SuperAdminHomeInactive(u: User, cs: seq<Campus>, explicit: seq<int>)
    requires u.role == SuperAdmin
    requires NoDuplicateKeys(cs, CampusId)
    requires FindCampus(cs, u.campusId).Some? && !FindCampus(cs, u.campusId).value.isActive
    ensures AccessibleCampusIds(u, cs) == AccessibleCampusIds(u.(accessibleCampusIds := explicit), cs)
    ensures u.campusId !in AccessibleCampusIds(u, cs)
  {
    var home := FindCampus(cs, u.campusId).value;
    if u.campusId in AccessibleCampusIds(u, cs) {
      var i :| 0 <= i < |cs| && cs[i].isActive && cs[i].id == u.campusId;
      FindCampusUnique(cs, i);
    }
  }

  /** A campus admin's non-empty list is not widened by the home campus. */
  lemma CampusAdminListExcludesHome(u: User, cs: seq<Campus>)
    requires UsesExplicitList(u) && u.campusId !in u.accessibleCampusIds
    ensures !CanAccessCampus(u, cs, u.campusId)
  {
  }

  /** A user created without a role is a student, who reaches the home campus and nothing else. */
  lemma DefaultRoleReachesHomeOnly(u: User, cs: seq<Campus>)
    requires u.role == DefaultRole
    ensures RoleName(u.role) == "student"
    ensures AccessibleCampusIds(u, cs) == [u.campusId]
    ensures forall id :: CanAccessCampus(u, cs, id) <==> id == u.campusId
  {
  }

  // ---------------------------------------------------------------------------
  // Display name

  /** The names `get_full_name` joins: first, middle only when non-empty, last. */
  function NameParts(u: User): seq<string> {
    [u.firstName] + (if u.middleName != "" then [u.middleName] else []) + [u.lastName]
  }

  /** `get_full_name`: `' '.join(names)`. */
  function FullName(u: User): string {
    Join(NameParts(u), ' ')
  }

  /** The full name is first, middle (when non-empty) and last, separated by single spaces. */
  lemma FullNameShape(u: User)
    ensures u.middleName == "" ==> FullName(u) == u.firstName + " " + u.lastName
    ensures u.middleName != "" ==> FullName(u) == u.firstName + " " + u.middleName + " " + u.lastName
  {
    var parts := NameParts(u);
    if u.middleName == "" {
      assert parts[1..] == [u.lastName];
    } else {
      assert parts[1..] == [u.middleName, u.lastName];
      assert parts[1..][1..] == [u.lastName];
      assert Join(parts[1..], ' ') == u.middleName + [' '] + u.lastName;
      assert FullName(u) == u.firstName + [' '] + (u.middleName + [' '] + u.lastName);
    }
  }

  /** When no name contains a space, splitting the full name on spaces recovers the parts. */
  lemma FullNameSplits(u: User)
    requires ' ' !in u.firstName && ' ' !in u.middleName && ' ' !in u.lastName
    ensures Split(FullName(u), ' ') == NameParts(u)
  {
    SplitJoin(NameParts(u), ' ');
  }

  // ---------------------------------------------------------------------------
  // `student_id`: `max_length=20`, not blank, `RegexValidator(r'^\d{4}-\d{6}$')`

  const StudentIdPattern: seq<Piece> :=
    [Piece(Digit, 4, Some(4)), Piece(Literal('-'), 1, Some(1)), Piece(Digit, 6, Some(6))]
  const StudentIdMaxLength: nat := 20

  /** The validator as written, with `re.search` semantics for `$`. */
  predicate StudentIdAcceptedAsWritten(s: string) {
    s != "" && |s| <= StudentIdMaxLength && SearchAnchored(StudentIdPattern, s)
  }

  /** The validator as intended: the whole value has the `YYYY-XXXXXX` form. */
  predicate ValidStudentId(s: string) {
    s != "" && |s| <= StudentIdMaxLength && MatchesAll(StudentIdPattern, s)
  }

  /** Eleven characters: four digits, a hyphen, six digits. */
  predicate StudentIdShape(s: string) {
    |s| == 11 && s[4] == '-' && forall i :: 0 <= i < 11 && i != 4 ==> '0' <= s[i] <= '9'
  }

  /** `-\d{6}`: a hyphen and six digits. */
  lemma StudentIdTailShape(t: string)
    ensures MatchesAll(StudentIdPattern[1..], t) <==> |t| == 7 && t[0] == '-' && AllIn(Digit, t[1..])
  {
    var dash, d6 := StudentIdPattern[1], StudentIdPattern[2];
    assert StudentIdPattern[1..] == [dash] + [d6];
    MatchesFixedThen(dash, [d6], t);
    if |t| >= 1 {
      MatchesSingle(d6, t[1..]);
      assert t[..1][0] == t[0];
      if t[0] == '-' {
        assert AllIn(Literal('-'), t[..1]);
      }
    }
  }

  /** `\d{4}` then the tail. */
  lemma StudentIdSplitShape(s: string)
    ensures MatchesAll(StudentIdPattern, s) <==>
      |s| >= 4 && AllIn(Digit, s[..4]) && |s[4..]| == 7 && s[4..][0] == '-' && AllIn(Digit, s[4..][1..])
  {
    assert StudentIdPattern == [StudentIdPattern[0]] + StudentIdPattern[1..];
    MatchesFixedThen(StudentIdPattern[0], StudentIdPattern[1..], s);
    if |s| >= 4 {
      StudentIdTailShape(s[4..]);
    }
  }

  lemma StudentIdPatternShape(s: string)
    ensures MatchesAll(StudentIdPattern, s) <==> StudentIdShape(s)
  {
    StudentIdSplitShape(s);
    if |s| == 11 {
      var a, b := s[..4], s[4..][1..];
      assert forall i :: 0 <= i < 4 ==> a[i] == s[i];
      assert forall i :: 0 <= i < 6 ==> b[i] == s[i + 5];
      assert s[4..][0] == s[4];
      if StudentIdShape(s) {
        assert AllIn(Digit, a);
        assert AllIn(Digit, b) by {
          forall i | 0 <= i < 6 ensures InClass(Digit, b[i]) {
            assert b[i] == s[i + 5];
          }
        }
      }
      if MatchesAll(StudentIdPattern, s) {
        forall i | 0 <= i < 11 && i != 4 ensures '0' <= s[i] <= '9' {
          if i < 4 {
            assert InClass(Digit, a[i]);
          } else {
            assert InClass(Digit, b[i - 5]);
          }
        }
      }
    }
  }

  /** A valid student id is exactly an eleven-character `YYYY-XXXXXX`. */
  lemma ValidStudentIdShape(s: string)
    ensures ValidStudentId(s) <==> StudentIdShape(s)
  {
    StudentIdPatternShape(s);
  }

  /** As written, one final newline after an eleven-character id is accepted as well. */
  lemma StudentIdAsWrittenShape(s: string)
    ensures StudentIdAcceptedAsWritten(s) <==>
      StudentIdShape(s) || (|s| == 12 && s[11] == '\n' && StudentIdShape(s[..11]))
  {
    StudentIdPatternShape(s);
    if |s| > 0 {
      StudentIdPatternShape(s[..|s| - 1]);
    }
  }

  /** The counterexample: `"2024-000001\n"` passes as written and is not a valid id. */
  lemma StudentIdTrailingNewline()
    ensures StudentIdAcceptedAsWritten("2024-000001\n")
    ensures !ValidStudentId("2024-000001\n")
  {
    var s := "2024-000001\n";
    ValidStudentIdShape(s);
    assert s[..11] == "2024-000001";
    StudentIdAsWrittenShape(s);
  }

  /** The seeded accounts `ADMIN001` and `ORG001` bypass the validator; the student's id passes it. */
  lemma SeedStudentIds()
    ensures !ValidStudentId("ADMIN001") && !ValidStudentId("ORG001")
    ensures ValidStudentId("2024-000001")
  {
    ValidStudentIdShape("ADMIN001");
    ValidStudentIdShape("ORG001");
    ValidStudentIdShape("2024-000001");
  }

  // ---------------------------------------------------------------------------
  // `phone`: `max_length=15`, blank allowed, `RegexValidator(r'^\+?1?\d{9,15}$')`

  const PhonePattern: seq<Piece> :=
    [Piece(Literal('+'), 0, Some(1)), Piece(Literal('1'), 0, Some(1)), Piece(Digit, 9, Some(15))]
  const PhoneMaxLength: nat := 15

  /** The validators as written (a blank value skips them), with `re.search` semantics for `$`. */
  predicate PhoneAcceptedAsWritten(s: string) {
    s == "" || (|s| <= PhoneMaxLength && SearchAnchored(PhonePattern, s))
  }

  /** The validators as intended: blank, or the whole value matches the pattern. */
  predicate ValidPhone(s: string) {
    s == "" || (|s| <= PhoneMaxLength && MatchesAll(PhonePattern, s))
  }

  /** The number after an optional leading `+`. */
  function PhoneDigits(s: string): string {
    if |s| > 0 && s[0] == '+' then s[1..] else s
  }

  lemma AllDigitsCons(t: string)
    requires |t| > 0
    ensures AllIn(Digit, t) <==> InClass(Digit, t[0]) && AllIn(Digit, t[1..])
  {
    if InClass(Digit, t[0]) && AllIn(Digit, t[1..]) {
      forall i | 0 <= i < |t| ensures InClass(Digit, t[i]) {
        if i > 0 { assert t[i] == t[1..][i - 1]; }
      }
    }
  }

  /** `1?\d{9,15}`: digits only, 9 to 15 of them, or 16 starting with `1`. */
  lemma PhoneTailShape(t: string)
    ensures MatchesAll(PhonePattern[1..], t) <==>
      AllIn(Digit, t) && (9 <= |t| <= 15 || (|t| == 16 && t[0] == '1'))
  {
    var d := Piece(Digit, 9, Some(15));
    assert PhonePattern[1..] == [Piece(Literal('1'), 0, Some(1))] + [d];
    MatchesOptionalThen('1', [d], t);
    MatchesSingle(d, t);
    if |t| > 0 {
      MatchesSingle(d, t[1..]);
      AllDigitsCons(t);
    }
  }

  /** The whole pattern: an optional `+`, then the tail shape. */
  lemma PhonePatternShape(s: string)
    ensures MatchesAll(PhonePattern, s) <==>
      var t := PhoneDigits(s);
      AllIn(Digit, t) && (9 <= |t| <= 15 || (|t| == 16 && t[0] == '1'))
  {
    assert PhonePattern == [Piece(Literal('+'), 0, Some(1))] + PhonePattern[1..];
    MatchesOptionalThen('+', PhonePattern[1..], s);
    PhoneTailShape(s);
    if |s| > 0 {
      PhoneTailShape(s[1..]);
      if s[0] == '+' {
        assert !InClass(Digit, s[0]);
      }
    }
  }

  /**
   * A phone is blank, or at most 15 characters of which all but an optional
   * leading `+` are digits, at least nine of them; the `1?` adds nothing.
   */
  lemma ValidPhoneShape(s: string)
    ensures ValidPhone(s) <==>
      s == "" || (|s| <= 15 && 9 <= |PhoneDigits(s)| && AllIn(Digit, PhoneDigits(s)))
  {
    PhonePatternShape(s);
  }

  /** The counterexample: a seeded number with one final newline passes as written only. */
  lemma PhoneTrailingNewline()
    ensures PhoneAcceptedAsWritten("09171234567\n")
    ensures !ValidPhone("09171234567\n")
    ensures ValidPhone("09171234567")
  {
    var s := "09171234567\n";
    assert s[11] == '\n';
    assert s[..11] == "09171234567";
    ValidPhoneShape(s);
    PhonePatternShape(s[..11]);
  }
}
