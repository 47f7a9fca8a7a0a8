/**
 * The two counters of the `Campus` model, which look into the users and
 * events tables; they live apart from `Campuses` because those tables'
 * modules import it.
 */
module CampusCounts {
  import opened Seqs
  import opened Accounts
  import opened Events

  /** `campus.users`: every user whose home campus is `campusId`, active or not. */
  function CampusUsers(campusId: int, users: seq<User>): seq<User> {
    Filter(users, (u: User) => u.campusId == campusId)
  }

  /** `Campus.get_total_users_count`: only the campus's active users count. */
  function TotalUsersCount(campusId: int, users: seq<User>): (n: nat)
    ensures n <= |CampusUsers(campusId, users)|
    ensures n == |CampusUsers(campusId, users)| <==>
      forall i :: 0 <= i < |users| && users[i].campusId == campusId ==> users[i].isActive
  {
    var active := Filter(users, (u: User) => u.campusId == campusId && u.isActive);
    FilterMonotone(users, (u: User) => u.campusId == campusId && u.isActive, (u: User) => u.campusId == campusId);
    ActiveUsersShortfall(campusId, users);
    |active|
  }

  /** Leaving out the inactive users loses one count per inactive user of the campus. */
  lemma {:induction false} ActiveUsersShortfall(campusId: int, users: seq<User>)
    ensures var all := |CampusUsers(campusId, users)|;
      var active := |Filter(users, (u: User) => u.campusId == campusId && u.isActive)|;
      active == all <==> forall i :: 0 <= i < |users| && users[i].campusId == campusId ==> users[i].isActive
  {
    if users != [] {
      ActiveUsersShortfall(campusId, users[1..]);
      FilterMonotone(users[1..], (u: User) => u.campusId == campusId && u.isActive, (u: User) => u.campusId == campusId);
      assert forall i :: 1 <= i < |users| ==> users[i] == users[1..][i - 1];
    }
  }

  /** `campus.events.count()`: the campus's events, whatever their state. */
  function CampusEventCount(campusId: int, events: seq<Event>): (n: nat)
    reads events
    ensures n <= |events|
  {
    if events == [] then 0
    else (if events[0].campusId == campusId then 1 else 0) + CampusEventCount(campusId, events[1..])
  }

  /** `campus.events.filter(event_type=t).count()`: the campus's events of one type. */
  function CampusEventsOfType(campusId: int, t: EventType, events: seq<Event>): (n: nat)
    reads events
    ensures n <= CampusEventCount(campusId, events)
  {
    if events == [] then 0
    else
      (if events[0].campusId == campusId && events[0].eventType == t then 1 else 0)
        + CampusEventsOfType(campusId, t, events[1..])
  }

  /** A type has a positive count exactly when some event of the campus has that type. */
  lemma {:induction false} CampusEventsOfTypePositive(campusId: int, events: seq<Event>)
    ensures forall t :: CampusEventsOfType(campusId, t, events) > 0 <==>
      exists i :: 0 <= i < |events| && events[i].campusId == campusId && events[i].eventType == t
  {
    if events != [] {
      CampusEventsOfTypePositive(campusId, events[1..]);
      assert forall i :: 1 <= i < |events| ==> events[i] == events[1..][i - 1];
      forall t | CampusEventsOfType(campusId, t, events[1..]) > 0
        ensures exists i :: 1 <= i < |events| && events[i].campusId == campusId && events[i].eventType == t
      {
        var j :| 0 <= j < |events[1..]| && events[1..][j].campusId == campusId && events[1..][j].eventType == t;
        assert events[j + 1] == events[1..][j];
      }
    }
  }

  /** `Campus.get_active_events_count`: the campus's events that are active and published. */
  function ActiveEventsCount(campusId: int, events: seq<Event>): (n: nat)
    reads events
    ensures n <= CampusEventCount(campusId, events)
    ensures n == CampusEventCount(campusId, events) <==>
      forall i :: 0 <= i < |events| && events[i].campusId == campusId ==>
        events[i].isActive && events[i].status == Published
    ensures (forall i :: 0 <= i < |events| && events[i].campusId == campusId ==>
               !events[i].isActive || events[i].status != Published) ==> n == 0
  {
    if events == [] then 0
    else
      var e := events[0];
      assert forall i :: 1 <= i < |events| ==> events[i] == events[1..][i - 1];
      (if e.campusId == campusId && e.isActive && e.status == Published then 1 else 0)
        + ActiveEventsCount(campusId, events[1..])
  }
}
