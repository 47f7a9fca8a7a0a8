/**
 * Campuses, the tenant partitions of the system: the campus record, the
 * validator on its `code`, the unique columns of the campus table, the
 * one-to-one campus configuration and its defaults.
 */
module Campuses {
  import opened Wrappers
  import opened Regex
  import opened Seqs

  /** The fields of a campus row that the access rules read. `isActive` defaults to true. */
  datatype Campus = Campus(id: int, name: string, code: string, domain: string, isActive: bool)

  /** Per-campus settings, owned one-to-one by a campus. */
  datatype CampusConfiguration = CampusConfiguration(
    campusId: int,
    multiCampusEventsEnabled: bool,
    crossCampusAttendanceEnabled: bool,
    qrCodeExpiryHours: nat,
    attendanceWindowMinutes: nat,
    emailNotificationsEnabled: bool,
    smsNotificationsEnabled: bool,
    gpsValidationEnabled: bool,
    gpsRadiusMeters: nat)

  /** A configuration created with every field left at its declared default. */
  function DefaultConfiguration(campusId: int): CampusConfiguration {
    CampusConfiguration(
      campusId := campusId,
      multiCampusEventsEnabled := false,
      crossCampusAttendanceEnabled := false,
      qrCodeExpiryHours := 24,
      attendanceWindowMinutes := 30,
      emailNotificationsEnabled := true,
      smsNotificationsEnabled := false,
      gpsValidationEnabled := true,
      gpsRadiusMeters := 100)
  }

  /**
   * The configuration the initial-data command creates for the seed campus:
   * both cross-campus flags switched on, every other setting as by default.
   */
  function SeedConfiguration(campusId: int): (cfg: CampusConfiguration)
    ensures cfg.campusId == campusId
    ensures cfg.multiCampusEventsEnabled && cfg.crossCampusAttendanceEnabled
    ensures cfg != DefaultConfiguration(campusId)
    ensures cfg.(multiCampusEventsEnabled := false, crossCampusAttendanceEnabled := false) == DefaultConfiguration(campusId)
  {
    CampusConfiguration(
      campusId := campusId,
      multiCampusEventsEnabled := true,
      crossCampusAttendanceEnabled := true,
      qrCodeExpiryHours := 24,
      attendanceWindowMinutes := 30,
      emailNotificationsEnabled := true,
      smsNotificationsEnabled := false,
      gpsValidationEnabled := true,
      gpsRadiusMeters := 100)
  }

  // ---------------------------------------------------------------------------
  // Lookups on the campus table (a sequence in query order)

  /** `Campus.objects.get(id=id)`: `None` stands for `DoesNotExist`. */
  function FindCampus(cs: seq<Campus>, id: int): (r: Option<Campus>)
    ensures r.Some? ==> r.value in cs && r.value.id == id
    ensures r.None? <==> forall i :: 0 <= i < |cs| ==> cs[i].id != id
  {
    if cs == [] then None
    else if cs[0].id == id then Some(cs[0])
    else FindCampus(cs[1..], id)
  }

  /** With unique ids, the campus found for an id is the one in the table with that id. */
  lemma {:induction false} FindCampusUnique(cs: seq<Campus>, k: nat)
    requires NoDuplicateKeys(cs, (c: Campus) => c.id)
    requires k < |cs|
    ensures FindCampus(cs, cs[k].id) == Some(cs[k])
  {
    if k > 0 {
      assert cs[0].id != cs[k].id;
      assert NoDuplicateKeys(cs[1..], (c: Campus) => c.id) by {
        forall i, j | 0 <= i < j < |cs[1..]| ensures cs[1..][i].id != cs[1..][j].id {
          assert cs[1..][i] == cs[i + 1] && cs[1..][j] == cs[j + 1];
        }
      }
      FindCampusUnique(cs[1..], k - 1);
    }
  }

  /** `Campus.objects.filter(is_active=True).values_list('id', flat=True)`. */
  function ActiveCampusIds(cs: seq<Campus>): (ids: seq<int>)
    ensures forall x :: x in ids <==> exists i :: 0 <= i < |cs| && cs[i].isActive && cs[i].id == x
    ensures |ids| <= |cs|
  {
    if cs == [] then []
    else
      var rest := ActiveCampusIds(cs[1..]);
      assert forall i :: 1 <= i < |cs| ==> cs[i] == cs[1..][i - 1];
      if cs[0].isActive then [cs[0].id] + rest else rest
  }

  // ---------------------------------------------------------------------------
  // The `code` field: `max_length=10`, not blank, `RegexValidator(r'^[A-Z]+$')`

  const CodePattern: seq<Piece> := [Piece(Upper, 1, None)]
  const CodeMaxLength: nat := 10

  /** The validator as written: `re.search` lets `$` match before a final newline. */
  predicate CampusCodeAcceptedAsWritten(s: string) {
    s != "" && |s| <= CodeMaxLength && SearchAnchored(CodePattern, s)
  }

  /** The validator as intended: the whole code is upper-case letters. */
  predicate ValidCampusCode(s: string) {
    s != "" && |s| <= CodeMaxLength && MatchesAll(CodePattern, s)
  }

  predicate AllUpper(s: string) {
    forall i :: 0 <= i < |s| ==> 'A' <= s[i] <= 'Z'
  }

  /** A valid code is one to ten upper-case ASCII letters, and every such string is valid. */
  lemma ValidCampusCodeShape(s: string)
    ensures ValidCampusCode(s) <==> 1 <= |s| <= 10 && AllUpper(s)
  {
    MatchesSingle(Piece(Upper, 1, None), s);
  }

  /** As written, the validator also accepts a valid code followed by one newline (within 10 characters). */
  lemma CampusCodeAsWrittenShape(s: string)
    ensures CampusCodeAcceptedAsWritten(s) <==>
      ValidCampusCode(s) || (2 <= |s| <= 10 && s[|s| - 1] == '\n' && AllUpper(s[..|s| - 1]))
  {
    ValidCampusCodeShape(s);
    if |s| > 0 {
      MatchesSingle(Piece(Upper, 1, None), s[..|s| - 1]);
    }
  }

  /** The counterexample: `"SNSU\n"` passes the validator as written and not the intended one. */
  lemma CampusCodeTrailingNewline()
    ensures CampusCodeAcceptedAsWritten("SNSU\n")
    ensures !ValidCampusCode("SNSU\n")
  {
    var s := "SNSU\n";
    assert s[4] == '\n';
    ValidCampusCodeShape(s);
    assert s[..4] == "SNSU";
    CampusCodeAsWrittenShape(s);
  }

  /** The campus codes the initial data seeds. */
  const SeedCampusCodes: seq<string> := ["SNSU", "MALIMONO", "DELCARMEN", "MAINIT"]

  /** Every seeded campus code passes the validator. */
  lemma SeedCampusCodesValid(k: nat)
    requires k < |SeedCampusCodes|
    ensures ValidCampusCode(SeedCampusCodes[k])
  {
    var s := SeedCampusCodes[k];
    assert 1 <= |s| <= 10 && AllUpper(s);
    ValidCampusCodeShape(s);
  }

  /** A code with a lower-case letter, or longer than ten letters, is refused. */
  lemma InvalidCampusCodes()
    ensures !ValidCampusCode("Snsu") && !ValidCampusCode("DELCARMENXY")
  {
    ValidCampusCodeShape("Snsu");
    assert "Snsu"[1] == 'n';
    ValidCampusCodeShape("DELCARMENXY");
  }

  // ---------------------------------------------------------------------------
  // The campus and configuration tables with their unique constraints

  function CampusId(c: Campus): int { c.id }
  function CampusCode(c: Campus): string { c.code }
  function CampusDomain(c: Campus): string { c.domain }
  function ConfigCampus(c: CampusConfiguration): int { c.campusId }

  /**
   * The rows of `campus` and `campus_configuration`. The database rejects an
   * insert that repeats a primary key, a `code`, a `domain`, or a second
   * configuration for one campus (`OneToOneField`), and a configuration whose
   * campus does not exist (foreign key). Field validators are not run on insert.
   */
  class CampusTable {
    var campuses: seq<Campus>
    var configurations: seq<CampusConfiguration>

    ghost predicate Valid()
      reads this
    {
      && NoDuplicateKeys(campuses, CampusId)
      && NoDuplicateKeys(campuses, CampusCode)
      && NoDuplicateKeys(campuses, CampusDomain)
      && NoDuplicateKeys(configurations, ConfigCampus)
      && forall i :: 0 <= i < |configurations| ==> HasKey(campuses, CampusId, configurations[i].campusId)
    }

    constructor ()
      ensures Valid() && campuses == [] && configurations == []
    {
      campuses := [];
      configurations := [];
    }

    /** Insert a campus row; `false` is the `IntegrityError` of a repeated id, code or domain. */
    method AddCampus(c: Campus) returns (ok: bool)
      requires Valid()
      modifies this
      ensures Valid()
      ensures ok <==> !old(HasKey(campuses, CampusId, c.id) || HasKey(campuses, CampusCode, c.code)
                           || HasKey(campuses, CampusDomain, c.domain))
      ensures campuses == if ok then old(campuses) + [c] else old(campuses)
      ensures configurations == old(configurations)
    {
      ok := !(HasKey(campuses, CampusId, c.id) || HasKey(campuses, CampusCode, c.code)
              || HasKey(campuses, CampusDomain, c.domain));
      if ok {
        AppendFreshKey(campuses, c, CampusId);
        AppendFreshKey(campuses, c, CampusCode);
        AppendFreshKey(campuses, c, CampusDomain);
        ghost var before := campuses;
        campuses := campuses + [c];
        forall i | 0 <= i < |configurations|
          ensures HasKey(campuses, CampusId, configurations[i].campusId)
        {
          var j :| 0 <= j < |before| && CampusId(before[j]) == configurations[i].campusId;
          assert campuses[j] == before[j];
        }
      }
    }

    /** Insert a configuration; `false` is the `IntegrityError` of a missing campus or a second configuration. */
    method AddConfiguration(cfg: CampusConfiguration) returns (ok: bool)
      requires Valid()
      modifies this
      ensures Valid()
      ensures ok <==> old(HasKey(campuses, CampusId, cfg.campusId) && !HasKey(configurations, ConfigCampus, cfg.campusId))
      ensures configurations == if ok then old(configurations) + [cfg] else old(configurations)
      ensures campuses == old(campuses)
    {
      ok := HasKey(campuses, CampusId, cfg.campusId) && !HasKey(configurations, ConfigCampus, cfg.campusId);
      if ok {
        AppendFreshKey(configurations, cfg, ConfigCampus);
        configurations := configurations + [cfg];
      }
    }

    /**
     * `CampusConfiguration.objects.create(campus=...)` with no setting given:
     * it succeeds for a campus without a configuration, and the one stored
     * configuration of that campus then holds every declared default.
     */
    method CreateDefaultConfiguration(campusId: int) returns (ok: bool)
      requires Valid()
      modifies this
      ensures Valid()
      ensures ok <==> old(HasKey(campuses, CampusId, campusId) && !HasKey(configurations, ConfigCampus, campusId))
      ensures configurations == if ok then old(configurations) + [DefaultConfiguration(campusId)] else old(configurations)
      ensures campuses == old(campuses)
      ensures ok ==> forall i :: 0 <= i < |configurations| && configurations[i].campusId == campusId ==>
        && !configurations[i].multiCampusEventsEnabled && !configurations[i].crossCampusAttendanceEnabled
        && configurations[i].qrCodeExpiryHours == 24 && configurations[i].attendanceWindowMinutes == 30
        && configurations[i].emailNotificationsEnabled && !configurations[i].smsNotificationsEnabled
        && configurations[i].gpsValidationEnabled && configurations[i].gpsRadiusMeters == 100
    {
      ok := AddConfiguration(DefaultConfiguration(campusId));
      if ok {
        forall i | 0 <= i < |configurations| && configurations[i].campusId == campusId
          ensures configurations[i] == DefaultConfiguration(campusId)
        {
          var last := |configurations| - 1;
          assert ConfigCampus(configurations[last]) == campusId;
          assert i == last;
        }
      }
    }

    /** The configuration of a campus, if it has one; there is never more than one. */
    method ConfigurationOf(campusId: int) returns (r: Option<CampusConfiguration>)
      requires Valid()
      ensures r.Some? ==> r.value in configurations && r.value.campusId == campusId
      ensures r.None? <==> !HasKey(configurations, ConfigCampus, campusId)
      ensures forall i :: 0 <= i < |configurations| && configurations[i].campusId == campusId ==> r == Some(configurations[i])
    {
      var i := 0;
      while i < |configurations|
        invariant 0 <= i <= |configurations|
        invariant forall k :: 0 <= k < i ==> configurations[k].campusId != campusId
      {
        if configurations[i].campusId == campusId {
          return Some(configurations[i]);
        }
        i := i + 1;
      }
      return None;
    }
  }
}
