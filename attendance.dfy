/**
 * Attendance records: the fields derived when a record is saved, the
 * lateness test, the verification summary, and the table whose unique
 * constraints allow one record per (event, user) and one validation per
 * (record, validation type).
 *
 * Times are whole seconds: `markedAt` counts from the epoch, `arrivalTime`
 * and an event's start time count from midnight.
 */
module Attendances {
  import opened Wrappers
  import opened Seqs

  datatype AttendanceStatus = Present | Absent | Late | Excused

  datatype VerificationMethod = QrCode | Manual | FacialRecognition | AdminOverride

  const SecondsPerDay: nat := 86400

  /** `datetime.time()`: the time of day of an instant. */
  function TimeOfDay(instant: int): (t: int)
    ensures 0 <= t < SecondsPerDay
  {
    instant % SecondsPerDay
  }

  /** The GPS JSON object, key to number; `None` is SQL `NULL`. */
  type GpsJson = map<string, real>

  /** The dictionary `verification_details` returns; `gpsAccuracy == None` means the key is absent. */
  datatype VerificationDetails = VerificationDetails(
    verification: VerificationMethod,
    hasSelfie: bool,
    hasSignature: bool,
    hasGps: bool,
    verificationScore: Option<real>,
    gpsAccuracy: Option<Option<real>>)

  // ---------------------------------------------------------------------------
  // The derivations `save` performs, as functions of the values before it

  /** The campus after save: the event's campus when none (or id 0) was set. */
  function SavedCampus(campusId: Option<int>, eventCampusId: int): (r: Option<int>)
    ensures Truthy(campusId) ==> r == campusId
    ensures !Truthy(campusId) ==> r == Some(eventCampusId)
  {
    if Truthy(campusId) then campusId else Some(eventCampusId)
  }

  /** The arrival time after save: the time of day of `markedAt` when none was set. */
  function SavedArrival(arrivalTime: Option<int>, markedAt: Option<int>): (r: Option<int>)
    ensures arrivalTime.Some? ==> r == arrivalTime
    ensures arrivalTime.None? && markedAt.Some? ==> r == Some(TimeOfDay(markedAt.value))
    ensures arrivalTime.None? && markedAt.None? ==> r == None
  {
    if arrivalTime.None? && markedAt.Some? then Some(TimeOfDay(markedAt.value)) else arrivalTime
  }

  /** `is_late` on the arrival time and the event's start time. */
  function LateFor(arrivalTime: Option<int>, eventStart: Option<int>): (late: bool)
    ensures late ==> arrivalTime.Some? && eventStart.Some?
    ensures arrivalTime.Some? && eventStart.Some? ==> (late <==> eventStart.value < arrivalTime.value)
  {
    arrivalTime.Some? && eventStart.Some? && arrivalTime.value > eventStart.value
  }

  /** A record saved without an arrival time is late exactly when it was marked after the start, by the clock. */
  lemma LateAfterSave(markedAt: int, eventStart: int)
    ensures LateFor(SavedArrival(None, Some(markedAt)), Some(eventStart)) <==> TimeOfDay(markedAt) > eventStart
  {
  }

  /** Lateness compares times of day only: marking whole days later gives the same answer. */
  lemma {:induction false} LatenessIgnoresDate(markedAt: int, days: nat, eventStart: int)
    ensures LateFor(SavedArrival(None, Some(markedAt + days * SecondsPerDay)), Some(eventStart))
        == LateFor(SavedArrival(None, Some(markedAt)), Some(eventStart))
    decreases days
  {
    if days > 0 {
      LatenessIgnoresDate(markedAt, days - 1, eventStart);
      var prev := markedAt + (days - 1) * SecondsPerDay;
      assert markedAt + days * SecondsPerDay == prev + SecondsPerDay;
      assert (prev + SecondsPerDay) % SecondsPerDay == prev % SecondsPerDay;
    }
  }

  /** The summary of one record's evidence; the `gps_accuracy` key exists exactly when GPS data does. */
  function Details(
    verification: VerificationMethod, hasSelfie: bool, hasSignature: bool,
    gps: Option<GpsJson>, score: Option<real>): (d: VerificationDetails)
    ensures d.verification == verification && d.hasSelfie == hasSelfie && d.hasSignature == hasSignature
    ensures d.verificationScore == score
    ensures d.hasGps <==> gps.Some? && |gps.value| > 0
    ensures d.gpsAccuracy.Some? <==> d.hasGps
    ensures d.hasGps && "accuracy" in gps.value ==> d.gpsAccuracy == Some(Some(gps.value["accuracy"]))
    ensures d.hasGps && "accuracy" !in gps.value ==> d.gpsAccuracy == Some(None)
  {
    var hasGps := gps.Some? && |gps.value| > 0;
    VerificationDetails(
      verification, hasSelfie, hasSignature, hasGps, score,
      if hasGps then Some(if "accuracy" in gps.value then Some(gps.value["accuracy"]) else None) else None)
  }

  // ---------------------------------------------------------------------------
  // The record

  class Attendance {
    const eventId: string
    const userId: int
    var campusId: Option<int>
    var status: AttendanceStatus
    var verificationMethod: VerificationMethod
    var crossCampusAttendance: bool
    var hasSelfie: bool
    var hasSignature: bool
    var gpsCoordinates: Option<GpsJson>
    var markedAt: Option<int>
    var arrivalTime: Option<int>
    var isVerified: bool
    var verificationScore: Option<real>

    /** A new record with the declared defaults; `now` is the clock reading `marked_at` defaults to. */
    constructor (eventId: string, userId: int, now: int)
      ensures this.eventId == eventId && this.userId == userId
      ensures campusId == None && status == Present && verificationMethod == QrCode
      ensures !crossCampusAttendance && !hasSelfie && !hasSignature && gpsCoordinates == None
      ensures markedAt == Some(now) && arrivalTime == None
      ensures isVerified && verificationScore == None
    {
      this.eventId := eventId;
      this.userId := userId;
      campusId := None;
      status := Present;
      verificationMethod := QrCode;
      crossCampusAttendance := false;
      hasSelfie := false;
      hasSignature := false;
      gpsCoordinates := None;
      markedAt := Some(now);
      arrivalTime := None;
      isVerified := true;
      verificationScore := None;
    }

    /**
     * The field updates `save` makes before writing the row: default the
     * campus, recompute the cross-campus flag, default the arrival time.
     * `eventCampusId` and `userCampusId` are the foreign keys the ORM follows.
     */
    method Derive(eventCampusId: int, userCampusId: int)
      modifies this`campusId, this`crossCampusAttendance, this`arrivalTime
      ensures campusId == SavedCampus(old(campusId), eventCampusId)
      ensures crossCampusAttendance == (userCampusId != eventCampusId)
      ensures arrivalTime == SavedArrival(old(arrivalTime), old(markedAt))
    {
      if !Truthy(campusId) {
        campusId := Some(eventCampusId);
      }
      crossCampusAttendance := userCampusId != eventCampusId;
      if arrivalTime.None? && markedAt.Some? {
        arrivalTime := Some(TimeOfDay(markedAt.value));
      }
    }

    /** `is_late`, given the event's start time. */
    function IsLate(eventStart: Option<int>): (late: bool)
      reads this
      ensures late <==> LateFor(arrivalTime, eventStart)
      ensures arrivalTime.None? || eventStart.None? ==> !late
    {
      LateFor(arrivalTime, eventStart)
    }

    /** `verification_details`. */
    function VerificationDetailsOf(): (d: VerificationDetails)
      reads this
      ensures d.verification == verificationMethod && d.hasSelfie == hasSelfie && d.hasSignature == hasSignature
      ensures d.verificationScore == verificationScore
      ensures d.hasGps <==> gpsCoordinates.Some? && |gpsCoordinates.value| > 0
      ensures d.gpsAccuracy.Some? <==> d.hasGps
      ensures d.hasGps && "accuracy" in gpsCoordinates.value ==>
        d.gpsAccuracy == Some(Some(gpsCoordinates.value["accuracy"]))
    {
      Details(verificationMethod, hasSelfie, hasSignature, gpsCoordinates, verificationScore)
    }
  }

  // ---------------------------------------------------------------------------
  // Validation results

  datatype ValidationType = GpsDistance | TimeWindow | ImageVerification | DuplicateCheck

  datatype ValidationStatus = Passed | Failed | Warning

  datatype AttendanceValidation = AttendanceValidation(
    attendance: Attendance,
    validationType: ValidationType,
    status: ValidationStatus,
    confidenceScore: real)

  // ---------------------------------------------------------------------------
  // The tables and their unique constraints

  /** `unique_together = ['event', 'user']` on attendance. */
  function RecordKey(a: Attendance): (string, int) {
    (a.eventId, a.userId)
  }

  /** `unique_together = ['attendance', 'validation_type']` on validations. */
  function ValidationKey(v: AttendanceValidation): (Attendance, ValidationType) {
    (v.attendance, v.validationType)
  }

  /**
   * The `attendance` and `attendance_validations` tables. An insert that would
   * repeat a unique key fails with `IntegrityError` (returned as `false`), as
   * does a validation for a record that is not in the table (foreign key).
   */
  class AttendanceTable {
    var records: seq<Attendance>
    var validations: seq<AttendanceValidation>

    ghost predicate Valid()
      reads this
    {
      && NoDuplicateKeys(records, RecordKey)
      && NoDuplicateKeys(validations, ValidationKey)
      && forall i :: 0 <= i < |validations| ==> validations[i].attendance in records
    }

    constructor ()
      ensures Valid() && records == [] && validations == []
    {
      records := [];
      validations := [];
    }

    /** Is there a record for this (event, user) pair? */
    method HasRecord(eventId: string, userId: int) returns (found: bool)
      requires Valid()
      ensures found <==> HasKey(records, RecordKey, (eventId, userId))
    {
      found := false;
      var i := 0;
      while i < |records|
        invariant 0 <= i <= |records|
        invariant !found
        invariant forall k :: 0 <= k < i ==> RecordKey(records[k]) != (eventId, userId)
      {
        if records[i].eventId == eventId && records[i].userId == userId {
          found := true;
          return;
        }
        i := i + 1;
      }
    }

    /** `INSERT` of a record row. */
    method Insert(a: Attendance) returns (ok: bool)
      requires Valid()
      modifies this
      ensures Valid()
      ensures ok <==> !old(HasKey(records, RecordKey, RecordKey(a)))
      ensures records == if ok then old(records) + [a] else old(records)
      ensures validations == old(validations)
    {
      var dup := HasRecord(a.eventId, a.userId);
      ok := !dup;
      if ok {
        AppendFreshKey(records, a, RecordKey);
        records := records + [a];
      }
    }

    /** `INSERT` of a validation row. */
    method InsertValidation(v: AttendanceValidation) returns (ok: bool)
      requires Valid()
      modifies this
      ensures Valid()
      ensures ok <==> old(v.attendance in records && !HasKey(validations, ValidationKey, ValidationKey(v)))
      ensures validations == if ok then old(validations) + [v] else old(validations)
      ensures records == old(records)
    {
      ok := v.attendance in records && !HasKey(validations, ValidationKey, ValidationKey(v));
      if ok {
        AppendFreshKey(validations, v, ValidationKey);
        validations := validations + [v];
      }
    }

    /**
     * `Attendance.save`: derive the fields, then write the row -- an `UPDATE`
     * when the record is already stored, otherwise an `INSERT` that the
     * (event, user) constraint may reject.
     */
    method Save(a: Attendance, eventCampusId: int, userCampusId: int) returns (ok: bool)
      requires Valid()
      modifies this, a`campusId, a`crossCampusAttendance, a`arrivalTime
      ensures Valid()
      ensures a.campusId == SavedCampus(old(a.campusId), eventCampusId)
      ensures a.crossCampusAttendance == (userCampusId != eventCampusId)
      ensures a.arrivalTime == SavedArrival(old(a.arrivalTime), old(a.markedAt))
      ensures ok <==> old(a in records) || !old(HasKey(records, RecordKey, RecordKey(a)))
      ensures records == if old(a in records) || !ok then old(records) else old(records) + [a]
      ensures validations == old(validations)
    {
      a.Derive(eventCampusId, userCampusId);
      if a in records {
        ok := true;
      } else {
        ok := Insert(a);
      }
    }
  }

  /** Two saves for one (event, user) pair: the second record is refused and the table is unchanged. */
  method DoubleSubmit(table: AttendanceTable, first: Attendance, second: Attendance,
                      eventCampusId: int, userCampusId: int) returns (ok1: bool, ok2: bool)
    requires table.Valid() && first != second
    requires first !in table.records && second !in table.records
    requires !HasKey(table.records, RecordKey, RecordKey(first))
    requires RecordKey(first) == RecordKey(second)
    modifies table, first`campusId, first`crossCampusAttendance, first`arrivalTime
    modifies second`campusId, second`crossCampusAttendance, second`arrivalTime
    ensures table.Valid()
    ensures ok1 && !ok2
    ensures table.records == old(table.records) + [first]
  {
    ok1 := table.Save(first, eventCampusId, userCampusId);
    assert table.records[|table.records| - 1] == first;
    ok2 := table.Save(second, eventCampusId, userCampusId);
  }
}
