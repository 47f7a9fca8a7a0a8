/**
 * Events: the attendance window derived on save, the QR payload, the
 * ongoing and window tests, the present-count, and the ordered eligibility
 * gates of `can_user_attend`.
 *
 * An event's `date` is a day number and its times are seconds after
 * midnight, so the instant of `date` at `time` is `date * 86400 + time`.
 */
module Events {
  import opened Wrappers
  import opened Seqs
  import opened Accounts
  import opened Attendances

  datatype EventStatus = Draft | Published | Ongoing | Completed | Cancelled

  datatype EventType = Academic | Seminar | Workshop | Conference | Social | Sports | Cultural | Other

  /** The fixed 30 minutes either side of the start; the campus setting is not consulted. */
  const WindowMargin: nat := 30 * 60

  const QrPrefix: string := "https://easuniversity.site/attend/"

  /** `datetime.combine(date, time)`. */
  function Combine(date: int, time: int): int {
    date * SecondsPerDay + time
  }

  // ---------------------------------------------------------------------------
  // The attendance window

  /**
   * The window after `save`: when no start is set and both the date and the
   * start time are, [start - 30 min, start + 30 min]; otherwise unchanged.
   */
  function SavedWindow(windowStart: Option<int>, windowEnd: Option<int>,
                       date: Option<int>, startTime: Option<int>): (w: (Option<int>, Option<int>))
    ensures windowStart.Some? ==> w == (windowStart, windowEnd)
    ensures windowStart.None? && date.Some? && startTime.Some? ==>
      w == (Some(Combine(date.value, startTime.value) - WindowMargin),
            Some(Combine(date.value, startTime.value) + WindowMargin))
    ensures windowStart.None? && (date.None? || startTime.None?) ==> w == (windowStart, windowEnd)
  {
    if windowStart.None? && date.Some? && startTime.Some? then
      var start := Combine(date.value, startTime.value);
      (Some(start - WindowMargin), Some(start + WindowMargin))
    else (windowStart, windowEnd)
  }

  /** `can_mark_attendance`: both bounds set and `start <= now <= end`. */
  function InWindow(windowStart: Option<int>, windowEnd: Option<int>, now: int): (ok: bool)
    ensures ok ==> windowStart.Some? && windowEnd.Some? && windowStart.value <= windowEnd.value
    ensures windowStart.Some? && windowEnd.Some? ==>
      (ok <==> windowStart.value <= now && now <= windowEnd.value)
  {
    windowStart.Some? && windowEnd.Some? && windowStart.value <= now <= windowEnd.value
  }

  /** A derived window is open exactly within 30 minutes of the start, both ends included. */
  lemma DerivedWindowBounds(windowEnd: Option<int>, date: int, startTime: int, now: int)
    ensures var w := SavedWindow(None, windowEnd, Some(date), Some(startTime));
      InWindow(w.0, w.1, now) <==>
        Combine(date, startTime) - WindowMargin <= now <= Combine(date, startTime) + WindowMargin
  {
  }

  /** The boundary instants: open at both ends, closed one second outside either. */
  lemma DerivedWindowEdges(date: int, startTime: int)
    ensures var w := SavedWindow(None, None, Some(date), Some(startTime));
      var s := Combine(date, startTime);
      && InWindow(w.0, w.1, s - WindowMargin)
      && InWindow(w.0, w.1, s + WindowMargin)
      && !InWindow(w.0, w.1, s - WindowMargin - 1)
      && !InWindow(w.0, w.1, s + WindowMargin + 1)
  {
  }

  /** Without both bounds attendance can never be marked. */
  lemma NoWindowNoMarking(windowStart: Option<int>, windowEnd: Option<int>, now: int)
    requires windowStart.None? || windowEnd.None?
    ensures !InWindow(windowStart, windowEnd, now)
  {
  }

  /** `is_ongoing`: `start <= now <= end` on the event's own date. */
  function OngoingAt(date: int, startTime: int, endTime: int, now: int): bool {
    Combine(date, startTime) <= now <= Combine(date, endTime)
  }

  /** An event that runs longer than half an hour is still ongoing after its derived window closes. */
  lemma OngoingAfterWindowCloses(date: int, startTime: int, endTime: int)
    requires endTime > startTime + WindowMargin
    ensures var w := SavedWindow(None, None, Some(date), Some(startTime));
      var now := Combine(date, startTime) + WindowMargin + 1;
      OngoingAt(date, startTime, endTime, now) && !InWindow(w.0, w.1, now)
  {
  }

  // ---------------------------------------------------------------------------
  // The QR payload

  /** `qr_code_data` for an event id. */
  function QrPayload(id: string): string {
    QrPrefix + id
  }

  /** Reads the event id back out of a payload; the model's inverse of `QrPayload`. */
  function EventIdFromPayload(p: string): (r: Option<string>)
    ensures r.Some? ==> QrPayload(r.value) == p
  {
    if |p| >= |QrPrefix| && p[..|QrPrefix|] == QrPrefix then Some(p[|QrPrefix|..]) else None
  }

  /** The payload identifies its event: decoding gives the id back, and distinct ids give distinct payloads. */
  lemma QrPayloadRoundTrip(id: string, other: string)
    ensures EventIdFromPayload(QrPayload(id)) == Some(id)
    ensures QrPayload(id) == QrPayload(other) ==> id == other
  {
    var p := QrPayload(id);
    assert p[..|QrPrefix|] == QrPrefix;
    assert p[|QrPrefix|..] == id;
    if QrPayload(id) == QrPayload(other) {
      assert QrPayload(other)[|QrPrefix|..] == other;
    }
  }

  // ---------------------------------------------------------------------------
  // Counting an event's records

  /** `attendance_records.filter(status='present').count()` over the whole table `records`. */
  function PresentCount(records: seq<Attendance>, eventId: Option<string>): (n: nat)
    reads records
    ensures n <= |records|
  {
    if records == [] then 0
    else
      (if Some(records[0].eventId) == eventId && records[0].status == Present then 1 else 0)
      + PresentCount(records[1..], eventId)
  }

  /** `get_attendance_for_campus`: present records of the event whose campus is `campusId`. */
  function PresentCountAt(records: seq<Attendance>, eventId: Option<string>, campusId: int): (n: nat)
    reads records
    ensures n <= PresentCount(records, eventId)
  {
    if records == [] then 0
    else
      (if Some(records[0].eventId) == eventId && records[0].status == Present
          && records[0].campusId == Some(campusId) then 1 else 0)
      + PresentCountAt(records[1..], eventId, campusId)
  }

  /** Two campuses' present-counts together never exceed the event's present-count. */
  lemma {:induction false} PresentCountAtDisjoint(records: seq<Attendance>, eventId: Option<string>, c1: int, c2: int)
    requires c1 != c2
    ensures PresentCountAt(records, eventId, c1) + PresentCountAt(records, eventId, c2) <= PresentCount(records, eventId)
  {
    if records != [] {
      PresentCountAtDisjoint(records[1..], eventId, c1, c2);
    }
  }

  /** `attendance_records.filter(user=user).exists()`. */
  predicate HasRecordFor(records: seq<Attendance>, eventId: Option<string>, userId: int) {
    exists i :: 0 <= i < |records| && Some(records[i].eventId) == eventId && records[i].userId == userId
  }

  // ---------------------------------------------------------------------------
  // Eligibility

  /** The outcome of `can_user_attend`, one constructor per message. */
  datatype Verdict = CanAttend | NotForCampus | AtCapacity | AlreadyMarked | WindowClosed

  function Message(v: Verdict): string {
    match v
    case CanAttend => "Can attend"
    case NotForCampus => "Event not available for your campus"
    case AtCapacity => "Event is at capacity"
    case AlreadyMarked => "Already marked attendance for this event"
    case WindowClosed => "Attendance window is closed"
  }

  class Event {
    var id: Option<string>
    var campusId: int
    var organizerId: int
    var eventType: EventType
    var date: Option<int>
    var startTime: Option<int>
    var endTime: Option<int>
    var isMultiCampus: bool
    var allowedCampuses: seq<int>
    var maxParticipants: Option<nat>
    var hasQrImage: bool
    var qrCodeData: string
    var windowStart: Option<int>
    var windowEnd: Option<int>
    var status: EventStatus
    var isActive: bool
    var requiresSelfie: bool
    var requiresGps: bool
    var requiresSignature: bool

    /** A new, unsaved event with the declared defaults; `id` is the generated UUID, as a string. */
    constructor (id: string, campusId: int, organizerId: int, date: int, startTime: int, endTime: int)
      ensures this.id == Some(id) && this.campusId == campusId && this.organizerId == organizerId
      ensures this.date == Some(date) && this.startTime == Some(startTime) && this.endTime == Some(endTime)
      ensures eventType == Academic && status == Draft && isActive
      ensures !isMultiCampus && allowedCampuses == [] && maxParticipants == None
      ensures !hasQrImage && qrCodeData == "" && windowStart == None && windowEnd == None
      ensures requiresSelfie && requiresGps && requiresSignature
    {
      this.id := Some(id);
      this.campusId := campusId;
      this.organizerId := organizerId;
      this.date := Some(date);
      this.startTime := Some(startTime);
      this.endTime := Some(endTime);
      eventType := Academic;
      status := Draft;
      isActive := true;
      isMultiCampus := false;
      allowedCampuses := [];
      maxParticipants := None;
      hasQrImage := false;
      qrCodeData := "";
      windowStart := None;
      windowEnd := None;
      requiresSelfie := true;
      requiresGps := true;
      requiresSignature := true;
    }

    /** `generate_qr_code`: nothing without an id; otherwise the payload is set and the image attached. */
    method GenerateQrCode()
      modifies this`qrCodeData, this`hasQrImage
      ensures id.Some? ==> qrCodeData == QrPayload(id.value) && hasQrImage
      ensures id.None? ==> qrCodeData == old(qrCodeData) && hasQrImage == old(hasQrImage)
    {
      if id.None? {
        return;
      }
      qrCodeData := QrPayload(id.value);
      hasQrImage := true;
    }

    /** `save`: derive the window if none is set, then generate the QR code if there is none yet. */
    method Save()
      modifies this`windowStart, this`windowEnd, this`qrCodeData, this`hasQrImage
      ensures (windowStart, windowEnd) == SavedWindow(old(windowStart), old(windowEnd), old(date), old(startTime))
      ensures !old(hasQrImage) && id.Some? ==> qrCodeData == QrPayload(id.value) && hasQrImage
      ensures old(hasQrImage) || id.None? ==> qrCodeData == old(qrCodeData) && hasQrImage == old(hasQrImage)
    {
      if windowStart.None? && date.Some? && startTime.Some? {
        var start := Combine(date.value, startTime.value);
        windowStart := Some(start - WindowMargin);
        windowEnd := Some(start + WindowMargin);
      }
      if !hasQrImage {
        GenerateQrCode();
      }
    }

    /** `is_ongoing`; the date and both times are required fields. */
    function IsOngoing(now: int): (ongoing: bool)
      reads this
      requires date.Some? && startTime.Some? && endTime.Some?
      ensures ongoing <==> OngoingAt(date.value, startTime.value, endTime.value, now)
    {
      Combine(date.value, startTime.value) <= now && now <= Combine(date.value, endTime.value)
    }

    /** `can_mark_attendance`. */
    function CanMarkAttendance(now: int): (ok: bool)
      reads this
      ensures ok <==> InWindow(windowStart, windowEnd, now)
    {
      if windowStart.None? || windowEnd.None? then false
      else windowStart.value <= now && now <= windowEnd.value
    }

    /** `attendance_count`: the event's records whose status is `present`. */
    function AttendanceCount(records: seq<Attendance>): nat
      reads this, records
    {
      PresentCount(records, id)
    }

    /** `get_attendance_for_campus`. */
    function AttendanceForCampus(records: seq<Attendance>, campus: int): (n: nat)
      reads this, records
      ensures n <= AttendanceCount(records)
    {
      PresentCountAt(records, id, campus)
    }

    /** The campus gate: home campus equal to the event's, or on the allow-list of a multi-campus event. */
    predicate CampusEligible(user: User)
      reads this
    {
      if isMultiCampus then user.campusId in allowedCampuses else user.campusId == campusId
    }

    /** The capacity gate: a truthy `max_participants` (0 and `None` mean unlimited) already reached. */
    predicate AtCapacityFor(records: seq<Attendance>)
      reads this, records
    {
      maxParticipants.Some? && maxParticipants.value != 0 && AttendanceCount(records) >= maxParticipants.value
    }

    /** The gates that fail, listed in the order `can_user_attend` tries them. */
    function FailingGates(user: User, records: seq<Attendance>, now: int): seq<Verdict>
      reads this, records
    {
      (if !CampusEligible(user) then [NotForCampus] else [])
      + (if AtCapacityFor(records) then [AtCapacity] else [])
      + (if HasRecordFor(records, id, user.id) then [AlreadyMarked] else [])
      + (if !CanMarkAttendance(now) then [WindowClosed] else [])
    }

    /** `can_user_attend` as a verdict: the first failing gate, or `CanAttend` when none fails. */
    function Check(user: User, records: seq<Attendance>, now: int): (v: Verdict)
      reads this, records
      ensures v == (if FailingGates(user, records, now) == [] then CanAttend else FailingGates(user, records, now)[0])
    {
      if !isMultiCampus && user.campusId != campusId then NotForCampus
      else if isMultiCampus && user.campusId !in allowedCampuses then NotForCampus
      else if maxParticipants.Some? && maxParticipants.value != 0
              && AttendanceCount(records) >= maxParticipants.value then AtCapacity
      else if HasRecordFor(records, id, user.id) then AlreadyMarked
      else if !CanMarkAttendance(now) then WindowClosed
      else CanAttend
    }

    /** `can_user_attend`: `(True, "Can attend")` only when every gate passes, else `False` and the first failure's message. */
    function CanUserAttend(user: User, records: seq<Attendance>, now: int): (r: (bool, string))
      reads this, records
      ensures r.0 <==> CampusEligible(user) && !AtCapacityFor(records)
                       && !HasRecordFor(records, id, user.id) && InWindow(windowStart, windowEnd, now)
      ensures r.1 == Message(Check(user, records, now))
    {
      var v := Check(user, records, now);
      (v == CanAttend, Message(v))
    }
  }

  /** A foreign user of a single-campus event is always refused for the campus, whatever else holds. */
  lemma ForeignUserRejected(e: Event, user: User, records: seq<Attendance>, now: int)
    requires !e.isMultiCampus && user.campusId != e.campusId
    ensures e.CanUserAttend(user, records, now) == (false, "Event not available for your campus")
  {
  }

  /** On a multi-campus event the allow-list alone decides: even the event's own campus must be listed. */
  lemma MultiCampusNeedsListing(e: Event, user: User, records: seq<Attendance>, now: int)
    requires e.isMultiCampus && user.campusId == e.campusId && e.campusId !in e.allowedCampuses
    ensures e.CanUserAttend(user, records, now) == (false, "Event not available for your campus")
  {
  }

  /** A full event reports capacity even to a user who already has a record. */
  lemma CapacityBeforeDuplicate(e: Event, user: User, records: seq<Attendance>, now: int)
    requires e.CampusEligible(user) && e.AtCapacityFor(records) && HasRecordFor(records, e.id, user.id)
    ensures e.Check(user, records, now) == AtCapacity
  {
  }

  /** `max_participants` of 0 or none never rejects, whatever the present-count. */
  lemma ZeroCapacityUnlimited(e: Event, records: seq<Attendance>)
    requires e.maxParticipants == None || e.maxParticipants == Some(0)
    ensures !e.AtCapacityFor(records)
  {
  }

  /** Adding a record raises the event's present-count by one exactly when it is a present record of that event. */
  lemma {:induction false} PresentCountAppend(records: seq<Attendance>, a: Attendance, eventId: Option<string>)
    ensures PresentCount(records + [a], eventId)
      == PresentCount(records, eventId) + (if Some(a.eventId) == eventId && a.status == Present then 1 else 0)
  {
    if records == [] {
      assert [a][1..] == [];
    } else {
      assert (records + [a])[1..] == records[1..] + [a];
      PresentCountAppend(records[1..], a, eventId);
    }
  }

  /**
   * Capacity one, no records: the first eligible user may attend; once that
   * user's present record is stored, a second eligible user is refused for capacity.
   */
  lemma CapacityOneScenario(e: Event, a: User, b: User, first: Attendance, now: int)
    requires e.id.Some? && e.maxParticipants == Some(1)
    requires e.CampusEligible(a) && e.CampusEligible(b) && e.CanMarkAttendance(now)
    requires first.eventId == e.id.value && first.userId == a.id && first.status == Present
    ensures e.Check(a, [], now) == CanAttend
    ensures e.AttendanceCount([first]) == 1
    ensures e.Check(b, [first], now) == AtCapacity
  {
    PresentCountAppend([], first, e.id);
    assert [] + [first] == [first];
  }
}
