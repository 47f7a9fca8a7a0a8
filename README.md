# EAS campus core in Dafny

This project models the multi-campus core of the EAS (Event Attendance System)
backend. Every user, event and attendance record belongs to one campus. The model
covers:

- who may operate on which campus (`get_accessible_campus_ids`, `can_access_campus`);
- the campus-aware queryset filters that every listing goes through;
- the request middleware that resolves the effective campus, including the
  `X-Campus-ID` header override, and the response headers it writes back;
- the campus view set: visibility, per-campus statistics and the "accessible" listing;
- the entity rules: validators on campus codes, student ids and phone numbers,
  the attendance window and QR payload an event derives when it is saved, the
  fields an attendance record derives when it is saved, the ordered gates of
  `can_user_attend`, and the unique constraints of the tables.

Modules, one per part of the program:

| module | file | models |
|---|---|---|
| `Campuses` | campus.dfy | `Campus`, `CampusConfiguration`, the code validator, the campus tables |
| `Accounts` | accounts.dfy | `User`, roles, campus access, full name, the student-id and phone validators |
| `Attendances` | attendance.dfy | `Attendance`, what `save` derives, `is_late`, `verification_details`, the unique constraints |
| `Events` | events.dfy | `Event`: the window, the QR payload, the counts, `can_user_attend` |
| `CampusManagers` | managers.dfy | `CampusAwareQuerySet` |
| `CampusMiddleware` | middleware.dfy | `CampusContextMiddleware` |
| `CampusCounts` | campus_counts.dfy | `Campus.get_active_events_count`, `Campus.get_total_users_count` |
| `CampusViews` | views.dfy | `CampusViewSet.get_queryset`, `statistics`, `accessible` |
| `Grouping` | grouping.dfy | `values(field).annotate(count=Count('id'))` |
| `Regex`, `PyInt`, `Seqs`, `Wrappers` | regex.dfy, pyint.dfy, seqs.dfy, wrappers.dfy | Python's `re.search` for the validator patterns, `int()` and `str()` on integers, `' '.join`, filters, `Option` |

How things are represented:

- Database tables are sequences of rows in query order.
- A queryset is filtered with a sequence filter, so `for_campus` is "the rows of
  that campus, in their order".
- Entities whose fields `save` updates in place (`Attendance`, `Event`, the
  request and the response in the middleware) are classes.
- Read-only rows (`Campus`, `User`, configurations) are datatypes.
- Dates are day numbers and times of day are seconds after midnight.
  `datetime.combine(d, t)` is `d * 86400 + t`, and `instant.time()` is
  `instant % 86400`.
- The clock (`timezone.now()`) is a parameter `now`.
- Python truthiness is written out wherever the source relies on it. An id of
  `0` and `None` are both false, an empty GPS object is false, and time objects
  are always true.
- Foreign keys the ORM follows are passed in as values:
  - `Attendance.save` takes the event's campus and the user's campus;
  - `is_late` takes the event's start time;
  - access checks take the campus table.

## Model

| member | source | states |
|---|---|---|
| Campuses.FindCampusUnique | backend/apps/shared/middleware.py:39-42 | With unique campus ids, looking up a campus's id finds exactly that campus |
| Campuses.ValidCampusCodeShape | backend/apps/campus/models.py:21-26 | A campus code is valid iff it has 1 to 10 characters and all are upper-case ASCII letters |
| Campuses.CampusCodeAsWrittenShape | backend/apps/campus/models.py:24 | The validator as written also accepts a valid code followed by one final newline |
| Campuses.CampusCodeTrailingNewline | backend/apps/campus/models.py:24 | "SNSU\n" passes the validator as written but is not a valid code |
| Campuses.SeedCampusCodesValid | backend/apps/campus/management/commands/setup_initial_data.py:34-82 | The four seeded codes are valid |
| Campuses.InvalidCampusCodes | backend/apps/campus/models.py:21-26 | A code with a lower-case letter, or with eleven letters, is refused |
| Campuses.ActiveCampusIds | backend/apps/accounts/models.py:169-171 | An id is listed iff some active campus has that id; no more ids than campuses |
| Campuses.CampusTable.AddCampus | backend/apps/campus/models.py:21-31 | The insert succeeds iff its id, code and domain are all new; the unique constraints stay true |
| Campuses.CampusTable.AddConfiguration | backend/apps/campus/models.py:120-124 | The insert succeeds iff the campus exists and has no configuration yet (one-to-one) |
| Campuses.CampusTable.CreateDefaultConfiguration | backend/apps/campus/models.py:127-156 | Creating a configuration with no setting given succeeds iff the campus exists and has none; the campus's configuration then has both cross-campus flags off, 24 h QR expiry, a 30 min window, e-mail on, SMS off, GPS on and a 100 m radius |
| Campuses.SeedConfiguration | backend/apps/campus/management/commands/setup_initial_data.py:104-114 | The seeded configuration switches both cross-campus flags on and otherwise equals the default one |
| Campuses.CampusTable.ConfigurationOf | backend/apps/campus/models.py:120-124 | Returns the campus's configuration if it has one, `None` iff it has none |
| Accounts.RoleFromName | backend/apps/accounts/models.py:19-24 | A stored role name read back gives a role stored under that same name |
| Accounts.RoleNameRoundTrip | backend/apps/accounts/models.py:19-24 | Every role reads back from its stored name |
| Accounts.AccessibleCampusIds | backend/apps/accounts/models.py:167-176 | A super admin gets exactly the ids of the active campuses; a campus admin with a non-empty list gets that list; anyone else gets just the home campus id; only a super admin's list can be empty |
| Accounts.DefaultRoleReachesHomeOnly | backend/apps/accounts/models.py:106-111 | A user created without a role is a student, whose only accessible id is the home campus |
| Accounts.CanAccessCampus | backend/apps/accounts/models.py:167-180 | A super admin reaches exactly the active campuses; a campus admin with a non-empty list reaches exactly that list; anyone else reaches exactly the home campus |
| Accounts.SuperAdminHomeInactive | backend/apps/accounts/models.py:169-171 | A super admin's set ignores the explicit list and leaves out an inactive home campus |
| Accounts.CampusAdminListExcludesHome | backend/apps/accounts/models.py:173-174 | A campus admin's non-empty list is not widened by the home campus |
| Accounts.FullNameShape | backend/apps/accounts/models.py:159-165 | The full name is first, then middle when non-empty, then last, joined by single spaces |
| Accounts.FullNameSplits | backend/apps/accounts/models.py:159-165 | When no name contains a space, splitting the full name on spaces gives the parts back |
| Accounts.ValidStudentIdShape | backend/apps/accounts/models.py:51-56 | A valid student id is four digits, a hyphen and six digits |
| Accounts.StudentIdAsWrittenShape | backend/apps/accounts/models.py:54 | As written, the validator also accepts a valid id followed by one newline |
| Accounts.StudentIdTrailingNewline | backend/apps/accounts/models.py:54 | "2024-000001\n" passes the validator as written but is not a valid id |
| Accounts.SeedStudentIds | backend/apps/campus/management/commands/setup_initial_data.py:129-177 | The seeded ids ADMIN001 and ORG001 do not fit the format; 2024-000001 does |
| Accounts.ValidPhoneShape | backend/apps/accounts/models.py:85-90 | A phone is blank, or at most 15 characters: an optional `+`, then at least nine digits |
| Accounts.PhoneTrailingNewline | backend/apps/accounts/models.py:88 | A seeded number with one final newline passes the validator as written only |
| Attendances.LateFor | backend/apps/attendance/models.py:182-186 | A record is late only when both the arrival time and the event start are set, and then iff it arrived strictly after the start |
| Attendances.LateAfterSave | backend/apps/attendance/models.py:176-186 | A record saved with no arrival time is late iff the time of day it was marked is after the start |
| Attendances.LatenessIgnoresDate | backend/apps/attendance/models.py:176-186 | Lateness compares times of day only, so marking whole days later gives the same answer |
| Attendances.Details | backend/apps/attendance/models.py:189-202 | `has_gps` iff the GPS object is non-empty; the `gps_accuracy` key exists iff `has_gps`; it holds the `accuracy` value or null |
| Attendances.Attendance.constructor | backend/apps/attendance/models.py:52-120 | A new record has the declared defaults: present, by QR code, verified, marked now |
| Attendances.Attendance.Derive | backend/apps/attendance/models.py:168-180 | Save defaults a falsy campus to the event's campus, sets the cross-campus flag to "user campus differs", and defaults the arrival time to the time of day of `marked_at` |
| Attendances.Attendance.IsLate | backend/apps/attendance/models.py:182-186 | A record is never late without an arrival time or an event start time |
| Attendances.Attendance.VerificationDetailsOf | backend/apps/attendance/models.py:189-202 | The record's method, selfie, signature and score are reported as they are; `has_gps` iff the record's GPS object is non-empty; `gps_accuracy` exists iff `has_gps` and holds the object's `accuracy` |
| Attendances.AttendanceTable.HasRecord | backend/apps/attendance/models.py:156 | The search finds a record iff one exists for that (event, user) pair |
| Attendances.AttendanceTable.Insert | backend/apps/attendance/models.py:156 | The insert succeeds iff the (event, user) pair is new; the constraint stays true |
| Attendances.AttendanceTable.InsertValidation | backend/apps/attendance/models.py:311 | The insert succeeds iff the record exists and has no validation of that type yet |
| Attendances.AttendanceTable.Save | backend/apps/attendance/models.py:168-180 | Save derives the fields, then updates a stored record or inserts a new one; a duplicate (event, user) pair is rejected |
| Attendances.DoubleSubmit | backend/apps/attendance/models.py:156 | Of two records for the same (event, user) pair, the first save succeeds and the second fails with the table unchanged |
| Events.SavedWindow | backend/apps/events/models.py:203-209 | A window start already set is kept with its end; without one, a date and a start time give [start − 30 min, start + 30 min]; otherwise nothing changes |
| Events.InWindow | backend/apps/events/models.py:271-277 | Attendance is open only when both bounds are set (so start ≤ end), and then iff start ≤ now ≤ end |
| Events.DerivedWindowBounds | backend/apps/events/models.py:203-209 | A derived window is open exactly from 30 minutes before the start to 30 minutes after, both ends included |
| Events.DerivedWindowEdges | backend/apps/events/models.py:208-209 | Attendance is open at both boundary instants and closed one second outside either |
| Events.NoWindowNoMarking | backend/apps/events/models.py:271-274 | Without both window bounds attendance can never be marked |
| Events.OngoingAfterWindowCloses | backend/apps/events/models.py:257-277 | An event longer than 30 minutes is still ongoing after its window has closed |
| Events.EventIdFromPayload | backend/apps/events/models.py:223-224 | A decoded payload is the payload of the id it yields |
| Events.QrPayloadRoundTrip | backend/apps/events/models.py:223-224 | Decoding a payload gives its event id back, and distinct ids give distinct payloads |
| Events.PresentCount | backend/apps/events/models.py:280-282 | An event's present-count never exceeds the table size |
| Events.PresentCountAppend | backend/apps/events/models.py:280-282 | A new record raises the present-count by one iff it is a present record of that event |
| Events.PresentCountAt | backend/apps/events/models.py:291-296 | A campus's present-count never exceeds the event's present-count |
| Events.PresentCountAtDisjoint | backend/apps/events/models.py:291-296 | Two campuses' present-counts together never exceed the event's present-count |
| Events.Event.constructor | backend/apps/events/models.py:41-180 | A new event has the declared defaults: academic, draft, active, single-campus, no capacity, no window, all evidence required |
| Events.Event.GenerateQrCode | backend/apps/events/models.py:217-255 | Without an id nothing changes; otherwise the payload is the attend URL followed by the id, and the image is set |
| Events.Event.Save | backend/apps/events/models.py:203-215 | Save derives the window when none is set, then generates the QR code when there is no image |
| Events.Event.IsOngoing | backend/apps/events/models.py:257-268 | An event is ongoing iff `now` lies between its start and its end on its date |
| Events.Event.CanMarkAttendance | backend/apps/events/models.py:271-277 | Attendance can be marked iff both bounds are set and `now` lies between them |
| Events.Event.AttendanceForCampus | backend/apps/events/models.py:291-296 | A campus's present-count never exceeds the event's present-count |
| Events.Event.Check | backend/apps/events/models.py:298-319 | The verdict is the first failing gate (campus, capacity, duplicate, window), or "can attend" when none fails |
| Events.Event.CanUserAttend | backend/apps/events/models.py:298-319 | True iff all four gates pass; the message is the message of that verdict |
| Events.ForeignUserRejected | backend/apps/events/models.py:300-302 | On a single-campus event a user from another campus is refused for the campus, whatever else holds |
| Events.MultiCampusNeedsListing | backend/apps/events/models.py:304-305 | On a multi-campus event even the event's own campus must be on the allow-list |
| Events.CapacityBeforeDuplicate | backend/apps/events/models.py:307-313 | A full event reports capacity even to a user who already has a record |
| Events.ZeroCapacityUnlimited | backend/apps/events/models.py:308 | A capacity of 0 or none never refuses anyone |
| Events.CapacityOneScenario | backend/apps/events/models.py:307-309 | With capacity one, the first user may attend; once their present record exists, a second user is refused for capacity |
| CampusManagers.ForCampus | backend/apps/campus/managers.py:13-15 | Exactly the rows of that campus, kept in their order |
| CampusManagers.ForUserCampus | backend/apps/campus/managers.py:17-21 | A super admin gets every row; anyone else gets the home campus's rows |
| CampusManagers.AccessibleToUser | backend/apps/campus/managers.py:23-35 | The result is a subsequence of the input: all rows when unscoped, else the rows of the scope campus |
| CampusManagers.UnfilteredOnlyForSuperAdmin | backend/apps/campus/managers.py:25-28 | Rows stay unfiltered iff the user is a super admin and no campus (or campus 0) was requested |
| CampusManagers.NonSuperAdminRowsInScope | backend/apps/campus/managers.py:30-35 | For anyone but a super admin, every returned row is of an accessible campus or of the home campus |
| CampusManagers.InaccessibleRequestFallsBack | backend/apps/campus/managers.py:32-35 | An inaccessible request silently gives the home campus's rows |
| CampusManagers.ZeroRequestIgnored | backend/apps/campus/managers.py:23-35 | A request for campus 0 behaves like no request |
| CampusManagers.FallbackEscapesExplicitList | backend/apps/campus/managers.py:30-35 | A campus admin of campus 1 with list [2, 3] who asks for 4 gets campus 1's rows, and campus 1 is not accessible |
| CampusMiddleware.AccessibleCampuses | backend/apps/shared/middleware.py:28-33 | A campus is listed iff it is active and its id is accessible |
| CampusMiddleware.ProcessRequest | backend/apps/shared/middleware.py:14-45 | Leaves the effective campus and the accessible list in the request |
| CampusMiddleware.ProcessResponse | backend/apps/shared/middleware.py:47-53 | Adds `X-Campus-ID` and `X-Campus-Code` iff the request has a campus, else leaves the headers unchanged |
| CampusMiddleware.AnonymousHasNoCampus | backend/apps/shared/middleware.py:16-21 | An anonymous request has no campus and an empty list, whatever header it sends |
| CampusMiddleware.HeaderIgnoredForOtherRoles | backend/apps/shared/middleware.py:36-37 | Students and organizers always get their home campus |
| CampusMiddleware.NoHeaderKeepsHome | backend/apps/shared/middleware.py:24-37 | With no header or an empty one, the effective campus is the home campus |
| CampusMiddleware.FailedOverrideKeepsHome | backend/apps/shared/middleware.py:38-45 | A header that is not an integer, or names an inaccessible or unknown campus, keeps the home campus |
| CampusMiddleware.OverrideHonoured | backend/apps/shared/middleware.py:38-43 | An admin's header that parses to an accessible, existing campus switches to that campus |
| CampusMiddleware.EffectiveCampus | backend/apps/shared/middleware.py:14-45 | An anonymous request has no campus; otherwise the campus is one of the table and is the home campus or an accessible one; students and organizers always get the home campus |
| CampusMiddleware.EchoedHeaderSelectsSameCampus | backend/apps/shared/middleware.py:38-50 | An admin who sends back the `X-Campus-ID` value of an accessible campus gets the same campus again |
| CampusMiddleware.InactiveOverrideNotListed | backend/apps/shared/middleware.py:28-43 | A campus admin may switch to an inactive campus on the list that the accessible list leaves out |
| CampusMiddleware.InaccessibleRequestStaysHome | backend/apps/shared/middleware.py:36-45 | A campus admin with access to 2 and 3 who asks for 4 stays on the home campus |
| PyInt.ParseInt | backend/apps/shared/middleware.py:40 | `int()` succeeds only on a non-empty stripped text of digits and underscores after one optional sign that ends in a digit; a negative result needs a leading `-` |
| PyInt.ParseIntWellFormed | backend/apps/shared/middleware.py:40 | Conversely, well-formed stripped digits with an optional sign parse to their value, negated after `-` |
| PyInt.ParseIntLeadingSeparator | backend/apps/shared/middleware.py:40 | A leading information separator (0x1C to 0x1F) is stripped like whitespace, so `int()` of the text behind it is unchanged |
| PyInt.ParseIntToString | backend/apps/shared/middleware.py:40-50 | `int(str(n)) == n` for every integer |
| PyInt.ParseIntBlank | backend/apps/shared/middleware.py:38-44 | `int()` of an all-whitespace string fails |
| CampusCounts.TotalUsersCount | backend/apps/campus/models.py:109-111 | The count never exceeds the number of the campus's users, and equals it iff all of them are active |
| CampusCounts.ActiveEventsCount | backend/apps/campus/models.py:105-107 | The count never exceeds the campus's event count; it equals it iff every event of the campus is active and published, and is 0 when none of them is both |
| Grouping.GroupBy | backend/apps/campus/api/views.py:66-68 | One group per value that occurs, with its number of occurrences, which is positive |
| Grouping.GroupTotal | backend/apps/campus/api/views.py:69-70 | Storing the group counts under their keys gives entries that add up to the number of rows |
| CampusViews.VisibleCampuses | backend/apps/campus/api/views.py:25-32 | A super admin sees every campus; anyone else sees exactly the campuses whose id is accessible |
| CampusViews.FilteredCampuses | backend/apps/campus/api/views.py:22-32 | With no `is_active` parameter the visible campuses; with one, exactly the visible campuses whose `is_active` equals it |
| CampusViews.ActiveCampusFilteredOut | backend/apps/campus/api/views.py:22-45 | `?is_active=false` on an active campus's detail route finds nothing, even for a super admin |
| CampusViews.SuperAdminSeesInactive | backend/apps/campus/api/views.py:28-29 | A super admin sees an inactive campus that its accessible set leaves out |
| CampusViews.OthersSeeExactlyAccessible | backend/apps/campus/api/views.py:31-32 | For anyone else, a campus is visible iff it is accessible |
| CampusViews.RolesOf | backend/apps/campus/api/views.py:66-68 | One role per user of the campus, active or not: the i-th is the role of the campus's i-th user |
| CampusViews.EventTypesOf | backend/apps/campus/api/views.py:74-76 | One event type per event of the campus: each type occurs exactly as often as the campus has events of that type, so every campus event's type is listed and every listed type is that of some campus event |
| CampusViews.VerifiedTotal | backend/apps/campus/api/views.py:82-86 | There are never more verified attendances than attendances |
| CampusViews.StoreGroups | backend/apps/campus/api/views.py:69-70 | The map's keys are exactly the groups' keys, each holding a count of a group with that key |
| CampusViews.CountGroups | backend/apps/campus/api/views.py:66-78 | The map holds each occurring value's number of occurrences, and these add up to the number of rows |
| CampusViews.UserStatistics | backend/apps/campus/api/views.py:48-70 | `total` counts active users; `by_role` counts all users and adds up to their number, which is at least `total` |
| CampusViews.EventStatistics | backend/apps/campus/api/views.py:54-78 | `total` counts active published events; `by_type` holds, for each type that occurs, the number of the campus's events of that type, and adds up to their number, which is at least `total` |
| CampusViews.CampusStatistics | backend/apps/campus/api/views.py:22-91 | Not found iff the campus is not visible to the user or the `is_active` parameter filters it out; otherwise it holds the three blocks, with verified ≤ total |
| CampusViews.Accessible | backend/apps/campus/api/views.py:93-103 | Lists the visible campuses; the current campus is null iff the request's campus is null |
| CampusViews.CurrentCampusMayBeUnlisted | backend/apps/campus/api/views.py:98-103 | A campus admin whose list leaves out the home campus stays on that campus, but the listing does not show it |

## Left out

- QR image generation (the `qrcode` library and `BytesIO`) and all image uploads.
  The model keeps only whether an image is present.
- `capacity_percentage` is left out, because it is floating point. Verification
  scores and GPS values are `real` and are only passed through.
- Time zones are left out: `make_aware`, and the UTC versus local time of day
  that `is_late` compares. All instants are in one time scale. `is_ongoing` and
  the window use whole seconds.
- The ORM, SQL, transactions and concurrency are left out. Two concurrent saves
  are modelled as two saves in sequence.
- Row ordering is left out (`Campus` is ordered by name, `Attendance` by
  `-marked_at`). Sequences keep table order.
- `\d` is modelled as the ASCII digits. Python also matches other Unicode
  decimal digits there.
- `int()` is modelled on ASCII. Stripped whitespace is space, tab, line feed,
  carriage return, vertical tab, form feed and the separators 0x1C to 0x1F;
  then an optional sign, and digits with single underscores between them.
  Other Unicode whitespace (such as U+0085 and U+00A0) and the Unicode digits
  that `int()` also accepts are left out.
- A GPS JSON value that is not an object is left out.
- `AttendanceLog`, `EventRegistration`, `EventTag`, `UserProfile` and the
  serializers are not part of this model. Serialized campuses are the `Campus`
  values themselves.
- `get_attendance_count` and `get_organized_events_count` on `User` are not part
  of this model.
- The `unique=True` on `student_id` is not modelled. The user table is not
  modelled as a stateful table.
- Field validators only run on `full_clean`, so inserts in the model do not run them.
  The validators are modelled as predicates.
- The source has no distance (haversine) check, no QR expiry check and no
  scoring algorithm, so the model has none. The configuration fields for them
  are data only.
- `hasattr` failures on the request and on the user, other than an anonymous
  user, are left out. A missing home-campus row gives `None`, as `hasattr`
  does.
- The campus's `attendance_window_minutes` setting is not read when `save`
  derives the window (backend/apps/events/models.py:208-209 hard-codes 30
  minutes), so `SavedWindow` takes no configuration and the setting is data
  only.
- CampusViews.CampusStatistics: the `is_active` query parameter is taken as
  already decoded to a boolean. How the filter backend decodes its text,
  including the error for a value it cannot read, is not modelled.
- Response headers are a `map` with case-sensitive keys. Django looks its
  response headers up case-insensitively, so a header set under another
  spelling of the same name is not modelled as the same header.
- CampusManagers.AccessibleToUser: the "every row is accessible" property holds
  only with "or the home campus" added. `FallbackEscapesExplicitList` shows
  the case where the home campus is not accessible.

## Findings

| source | as written | input that shows it | evidently intended | confidence | as-written member | corrected member |
|---|---|---|---|---|---|---|
| backend/apps/campus/models.py:24 | `RegexValidator(r'^[A-Z]+$')` is searched with `re.search`, where `$` also matches before a final newline | the code "SNSU\n" | upper-case letters and nothing else | not executed; form and API fields strip whitespace first, so only direct model validation is affected | Campuses.CampusCodeTrailingNewline | Campuses.ValidCampusCodeShape |
| backend/apps/accounts/models.py:54 | `r'^\d{4}-\d{6}$'` accepts a final newline | the student id "2024-000001\n" | exactly `YYYY-XXXXXX` | not executed; same stripping caveat | Accounts.StudentIdTrailingNewline | Accounts.ValidStudentIdShape |
| backend/apps/accounts/models.py:88 | `r'^\+?1?\d{9,15}$'` accepts a final newline | the phone "09171234567\n" | an optional `+` and digits only | not executed; same stripping caveat | Accounts.PhoneTrailingNewline | Accounts.ValidPhoneShape |

Each finding is modelled twice. The predicates `CampusCodeAcceptedAsWritten`,
`StudentIdAcceptedAsWritten` and `PhoneAcceptedAsWritten` model the validators
as written. `ValidCampusCode`, `ValidStudentId` and `ValidPhone` are the
intended full-match versions, and the rest of the model uses those.
