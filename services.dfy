/**
 * The in-memory services (package pkcg.service): the user registry with its
 * login session, the station/train/route/schedule/reservation store, and the
 * ticket ledger.
 */
module Services {
  import opened Common
  import Text
  import opened Model

  // ---------------------------------------------------------------------------
  // UserService

  class UserService {
    var users: map<string, User>
    /** The logged-in user, null when nobody is. */
    var current: User?

    /** Every user is filed under its own username. */
    predicate Valid()
      reads this
    {
      forall name :: name in users ==> users[name].username == name
    }

    /** Nobody is registered and nobody is logged in. */
    constructor()
      ensures users == map[] && current == null && Valid()
    {
      users := map[];
      current := null;
    }

    /** registerAdmin: a new Admin replaces whatever was filed under that username;
        the password is not checked. */
    method RegisterAdmin(username: string, password: string)
      modifies this`users
      ensures username in users && fresh(users[username])
      ensures users[username].username == username && users[username].password == password
      ensures users[username].profile == AdminProfile
      ensures users == old(users)[username := users[username]]
      ensures old(Valid()) ==> Valid()
    {
      var admin := new User.Admin(username, password);
      users := users[username := admin];
    }

    /** registerCustomer: as registerAdmin, for a Customer; neither the password nor
        the e-mail is checked. */
    method RegisterCustomer(username: string, password: string, fullName: string, email: string)
      modifies this`users
      ensures username in users && fresh(users[username])
      ensures users[username].username == username && users[username].password == password
      ensures users[username].profile == CustomerProfile(fullName, email)
      ensures users[username].tickets == []
      ensures users == old(users)[username := users[username]]
      ensures old(Valid()) ==> Valid()
    {
      var customer := new User.Customer(username, password, fullName, email);
      users := users[username := customer];
    }

    /** login: succeeds iff a user is filed under the name and the password matches;
        that user becomes current. A failed login keeps the session as it was. */
    method Login(username: string, password: string) returns (ok: bool)
      modifies this`current
      ensures ok <==> username in users && users[username].Authenticate(password)
      ensures ok ==> current == users[username] && IsLoggedIn()
      ensures ok ==> (IsAdmin() <==> users[username].profile.AdminProfile?)
      ensures !ok ==> current == old(current)
    {
      if username in users && users[username].Authenticate(password) {
        current := users[username];
        return true;
      }
      return false;
    }

    /** logout: nobody is current, so nobody is logged in or an admin. */
    method Logout()
      modifies this`current
      ensures current == null && !IsLoggedIn() && !IsAdmin()
    {
      current := null;
    }

    /** isLoggedIn: some user is current. */
    function IsLoggedIn(): (r: bool)
      reads this
      ensures r <==> current != null
    {
      current != null
    }

    /** isAdmin: a user is current and that user is an Admin. */
    function IsAdmin(): (r: bool)
      reads this
      ensures r ==> IsLoggedIn()
      ensures r <==> current != null && current.profile.AdminProfile?
    {
      IsLoggedIn() && current.profile.AdminProfile?
    }
  }

  // ---------------------------------------------------------------------------
  // StationService: routes are kept in a set ordered by the key origin + "-" + destination

  function PairKey(origin: string, destination: string): string {
    origin + "-" + destination
  }

  /** The TreeSet's comparator key. */
  function RouteKey(r: Route): string {
    PairKey(r.origin.name, r.destination.name)
  }

  /** Two routes join the same pair of station names. */
  predicate SamePair(a: Route, b: Route) {
    a.origin.name == b.origin.name && a.destination.name == b.destination.name
  }

  /** Ascending by key with no key twice: the TreeSet's iteration order. */
  predicate StrictlySorted(rs: seq<Route>) {
    forall i, j :: 0 <= i < j < |rs| ==> Text.Less(RouteKey(rs[i]), RouteKey(rs[j]))
  }

  predicate HasKey(rs: seq<Route>, key: string) {
    exists i :: 0 <= i < |rs| && RouteKey(rs[i]) == key
  }

  /** A key below the smallest key of a sorted sequence is below every key in it. */
  lemma BelowAll(rs: seq<Route>, key: string)
    requires StrictlySorted(rs) && rs != [] && Text.Less(key, RouteKey(rs[0]))
    ensures forall i :: 0 <= i < |rs| ==> Text.Less(key, RouteKey(rs[i]))
    ensures !HasKey(rs, key)
  {
    forall i | 0 <= i < |rs|
      ensures Text.Less(key, RouteKey(rs[i]))
    {
      if i > 0 {
        Text.LessTransitive(key, RouteKey(rs[0]), RouteKey(rs[i]));
      }
    }
    if HasKey(rs, key) {
      var i :| 0 <= i < |rs| && RouteKey(rs[i]) == key;
      Text.LessIrreflexive(key);
    }
  }

  /** TreeSet.add: inserted at its place in key order, or ignored when a route with
      the same key is already present. */
  function InsertRoute(rs: seq<Route>, r: Route): seq<Route> {
    if rs == [] then [r]
    else if RouteKey(r) == RouteKey(rs[0]) then rs
    else if Text.Less(RouteKey(r), RouteKey(rs[0])) then [r] + rs
    else [rs[0]] + InsertRoute(rs[1..], r)
  }

  /** Insertion keeps every route already present and adds at most `r`. */
  lemma {:induction false} InsertRouteMembers(rs: seq<Route>, r: Route)
    ensures var out := InsertRoute(rs, r);
      && (forall i :: 0 <= i < |rs| ==> rs[i] in out)
      && (forall i :: 0 <= i < |out| ==> out[i] in rs || out[i] == r)
      && (out == rs || (|out| == |rs| + 1 && r in out))
  {
    if rs != [] && RouteKey(r) != RouteKey(rs[0]) && !Text.Less(RouteKey(r), RouteKey(rs[0])) {
      InsertRouteMembers(rs[1..], r);
      var tail := InsertRoute(rs[1..], r);
      var out := [rs[0]] + tail;
      assert forall i :: 0 < i < |rs| ==> rs[i] == rs[1..][i - 1];
      assert forall i :: 0 < i < |out| ==> out[i] == tail[i - 1];
      assert rs == [rs[0]] + rs[1..];
    }
  }

  lemma HasKeyTail(rs: seq<Route>, key: string)
    requires rs != [] && RouteKey(rs[0]) != key
    ensures HasKey(rs, key) <==> HasKey(rs[1..], key)
  {
    if HasKey(rs, key) {
      var i :| 0 <= i < |rs| && RouteKey(rs[i]) == key;
      assert rs[1..][i - 1] == rs[i];
    }
    if HasKey(rs[1..], key) {
      var i :| 0 <= i < |rs[1..]| && RouteKey(rs[1..][i]) == key;
      assert rs[i + 1] == rs[1..][i];
    }
  }

  /** On a sorted set, insertion keeps it sorted, adds `r` exactly when its key is new,
      and otherwise changes nothing. */
  lemma {:induction false} InsertRouteSorted(rs: seq<Route>, r: Route)
    requires StrictlySorted(rs)
    ensures StrictlySorted(InsertRoute(rs, r))
    ensures HasKey(rs, RouteKey(r)) ==> InsertRoute(rs, r) == rs
    ensures !HasKey(rs, RouteKey(r)) ==> |InsertRoute(rs, r)| == |rs| + 1 && r in InsertRoute(rs, r)
  {
    InsertRouteMembers(rs, r);
    if rs == [] {
    } else if RouteKey(r) == RouteKey(rs[0]) {
    } else if Text.Less(RouteKey(r), RouteKey(rs[0])) {
      BelowAll(rs, RouteKey(r));
    } else {
      InsertRouteSorted(rs[1..], r);
      InsertRouteMembers(rs[1..], r);
      HasKeyTail(rs, RouteKey(r));
      var tail := InsertRoute(rs[1..], r);
      Text.LessTotal(RouteKey(r), RouteKey(rs[0]));
      forall k | 0 <= k < |tail|
        ensures Text.Less(RouteKey(rs[0]), RouteKey(tail[k]))
      {
        if tail[k] != r {
          var i :| 0 <= i < |rs[1..]| && rs[1..][i] == tail[k];
          assert rs[i + 1] == tail[k];
        }
      }
      assert rs == [rs[0]] + rs[1..];
      SortedCons(rs[0], tail);
    }
  }

  lemma SortedCons(head: Route, tail: seq<Route>)
    requires StrictlySorted(tail)
    requires forall k :: 0 <= k < |tail| ==> Text.Less(RouteKey(head), RouteKey(tail[k]))
    ensures StrictlySorted([head] + tail)
  {
    var out := [head] + tail;
    assert forall i :: 0 < i < |out| ==> out[i] == tail[i - 1];
  }

  /** Distinct pairs can share a key: "a-b" to "c" and "a" to "b-c" both give "a-b-c",
      so the set keeps only the first of them. */
  lemma CollidingPairsShareAKey(rs: seq<Route>, first: Route, second: Route)
    requires StrictlySorted(rs) && first in rs
    requires first.origin.name == "a-b" && first.destination.name == "c"
    requires second.origin.name == "a" && second.destination.name == "b-c"
    ensures !SamePair(first, second) && RouteKey(first) == RouteKey(second)
    ensures InsertRoute(rs, second) == rs
  {
    assert RouteKey(first) == "a-b-c" == RouteKey(second);
    var i :| 0 <= i < |rs| && rs[i] == first;
    InsertRouteSorted(rs, second);
  }

  /** In a sorted route sequence a pair of station names occurs at most once, and the
      route holding it occurs at most once as well. */
  lemma PairIsUnique(rs: seq<Route>, i: nat, route: Route)
    requires StrictlySorted(rs) && i < |rs| && SamePair(rs[i], route)
    ensures forall j :: 0 <= j < |rs| && j != i ==> !SamePair(rs[j], route) && rs[j] != rs[i]
  {
    forall j | 0 <= j < |rs| && j != i
      ensures !SamePair(rs[j], route) && rs[j] != rs[i]
    {
      if j < i {
        assert Text.Less(RouteKey(rs[j]), RouteKey(rs[i]));
      } else {
        assert Text.Less(RouteKey(rs[i]), RouteKey(rs[j]));
      }
      Text.LessIrreflexive(RouteKey(rs[i]));
    }
  }

  /** The schedule arrives at a station with that name, ignoring case. */
  predicate GoesTo(s: Schedule, destination: string) {
    Text.EqualsIgnoreCase(s.route.destination.name, destination)
  }

  /** The schedules going to `destination`, in their original order. */
  function SchedulesTo(ss: seq<Schedule>, destination: string): (r: seq<Schedule>)
    ensures forall i :: 0 <= i < |r| ==> r[i] in ss && GoesTo(r[i], destination)
    ensures forall i :: 0 <= i < |ss| && GoesTo(ss[i], destination) ==> ss[i] in r
    ensures |r| <= |ss|
  {
    if ss == [] then []
    else
      var prefix := ss[..|ss| - 1];
      var last := ss[|ss| - 1];
      assert ss == prefix + [last];
      SchedulesTo(prefix, destination) + (if GoesTo(last, destination) then [last] else [])
  }

  /** The index of the first reservation with that id. */
  function IdIndex(rs: seq<Reservation>, id: string): (r: Option<nat>)
    ensures r.Some? ==> r.value < |rs| && rs[r.value].id == id && forall j :: 0 <= j < r.value ==> rs[j].id != id
    ensures r.None? ==> forall j :: 0 <= j < |rs| ==> rs[j].id != id
  {
    if rs == [] then None
    else if rs[0].id == id then Some(0)
    else match IdIndex(rs[1..], id)
      case None => None
      case Some(i) => Some(i + 1)
  }

  /** `removeIf(r -> r.getId().equals(id))`: every reservation with that id goes, the
      others keep their order. */
  function WithoutId(rs: seq<Reservation>, id: string): (out: seq<Reservation>)
    ensures forall i :: 0 <= i < |out| ==> out[i] in rs && out[i].id != id
    ensures forall i :: 0 <= i < |rs| && rs[i].id != id ==> rs[i] in out
    ensures |out| <= |rs|
    ensures |out| == |rs| <==> forall j :: 0 <= j < |rs| ==> rs[j].id != id
  {
    if rs == [] then []
    else
      var prefix := rs[..|rs| - 1];
      var last := rs[|rs| - 1];
      assert rs == prefix + [last];
      var kept := WithoutId(prefix, id);
      if last.id == id then kept else kept + [last]
  }

  /** Cancelling twice removes nothing more. */
  lemma {:induction false} WithoutIdIdempotent(rs: seq<Reservation>, id: string)
    ensures WithoutId(WithoutId(rs, id), id) == WithoutId(rs, id)
  {
    var out := WithoutId(rs, id);
    assert forall j :: 0 <= j < |out| ==> out[j].id != id by {
      forall j | 0 <= j < |out| ensures out[j].id != id {
        assert out[j] in out;
      }
    }
    WithoutIdNoop(out, id);
  }

  lemma {:induction false} WithoutIdNoop(rs: seq<Reservation>, id: string)
    requires forall j :: 0 <= j < |rs| ==> rs[j].id != id
    ensures WithoutId(rs, id) == rs
  {
    if rs != [] {
      WithoutIdNoop(rs[..|rs| - 1], id);
      assert rs == rs[..|rs| - 1] + [rs[|rs| - 1]];
    }
  }

  class StationService {
    var stations: seq<Station>
    var trains: seq<Train>
    /** The route set, listed in its iteration order. */
    var routes: seq<Route>
    var schedules: seq<Schedule>
    var reservations: seq<Reservation>

    predicate Valid()
      reads this
    {
      StrictlySorted(routes)
    }

    constructor()
      ensures stations == [] && trains == [] && routes == [] && schedules == [] && reservations == []
      ensures Valid()
    {
      stations, trains, routes, schedules, reservations := [], [], [], [], [];
    }

    method AddStation(station: Station)
      modifies this`stations
      ensures stations == old(stations) + [station]
    {
      stations := stations + [station];
    }

    method AddTrain(train: Train)
      modifies this`trains
      ensures trains == old(trains) + [train]
    {
      trains := trains + [train];
    }

    method AddSchedule(schedule: Schedule)
      modifies this`schedules
      ensures schedules == old(schedules) + [schedule]
    {
      schedules := schedules + [schedule];
    }

    /** addRoute: the set keeps its order; a route whose key is taken is not added. */
    method AddRoute(route: Route)
      requires Valid()
      modifies this`routes
      ensures routes == InsertRoute(old(routes), route)
      ensures Valid()
    {
      InsertRouteSorted(routes, route);
      routes := InsertRoute(routes, route);
    }

    /** updateRoutePrice: the stored route joining the same two station names gets the
        new price; every other route keeps its price. False iff there is none. */
    method UpdateRoutePrice(route: Route, newPrice: real) returns (updated: bool)
      requires Valid()
      modifies routes
      ensures updated <==> exists i :: 0 <= i < |routes| && SamePair(routes[i], route)
      ensures forall r :: r in routes ==> r.basePrice == if SamePair(r, route) then newPrice else old(r.basePrice)
    {
      for i := 0 to |routes|
        invariant forall j :: 0 <= j < i ==> !SamePair(routes[j], route)
        invariant forall r :: r in routes ==> r.basePrice == old(r.basePrice)
      {
        if SamePair(routes[i], route) {
          PairIsUnique(routes, i, route);
          routes[i].SetBasePrice(newPrice);
          return true;
        }
      }
      return false;
    }

    /** findSchedulesByDestination: the matching schedules, in order. */
    method FindSchedulesByDestination(destination: string) returns (result: seq<Schedule>)
      ensures result == SchedulesTo(schedules, destination)
    {
      result := [];
      for i := 0 to |schedules|
        invariant result == SchedulesTo(schedules[..i], destination)
      {
        assert schedules[..i + 1][..i] == schedules[..i];
        if GoesTo(schedules[i], destination) {
          result := result + [schedules[i]];
        }
      }
      assert schedules[..|schedules|] == schedules;
    }

    /** reserveSeat: one new unconfirmed reservation at the end; the seat is not checked
        against earlier reservations. */
    method ReserveSeat(customer: User, schedule: Schedule, seatNumber: int, id: ShortId)
      returns (reservation: Reservation)
      requires customer.profile.CustomerProfile?
      modifies this`reservations
      ensures fresh(reservation) && !reservation.confirmed
      ensures reservation.id == id && reservation.customer == customer
      ensures reservation.schedule == schedule && reservation.seatNumber == seatNumber
      ensures reservations == old(reservations) + [reservation]
    {
      reservation := new Reservation(id, customer, schedule, seatNumber);
      reservations := reservations + [reservation];
    }

    /** confirmReservation: the first reservation with that id is confirmed; no other
        reservation changes. False iff no reservation has that id. */
    method ConfirmReservation(id: string) returns (found: bool)
      modifies reservations
      ensures found <==> IdIndex(reservations, id).Some?
      ensures found ==> reservations[IdIndex(reservations, id).value].confirmed
      ensures forall x :: x in reservations && (!found || x != reservations[IdIndex(reservations, id).value])
                          ==> x.confirmed == old(x.confirmed)
    {
      for i := 0 to |reservations|
        invariant forall j :: 0 <= j < i ==> reservations[j].id != id
        invariant forall x :: x in reservations ==> x.confirmed == old(x.confirmed)
      {
        if reservations[i].id == id {
          assert IdIndex(reservations, id) == Some(i);
          reservations[i].Confirm();
          return true;
        }
      }
      return false;
    }

    /** cancelReservation: every reservation with that id is removed; true iff there was one. */
    method CancelReservation(id: string) returns (removed: bool)
      modifies this`reservations
      ensures reservations == WithoutId(old(reservations), id)
      ensures removed <==> exists j :: 0 <= j < |old(reservations)| && old(reservations)[j].id == id
    {
      var before := reservations;
      reservations := WithoutId(reservations, id);
      removed := |reservations| < |before|;
    }
  }

  // ---------------------------------------------------------------------------
  // TicketService

  /** The tickets bought by a user equal to `customer`, in purchase order. */
  function TicketsOf(ts: seq<Ticket>, customer: User?): (r: seq<Ticket>)
    ensures forall i :: 0 <= i < |r| ==> r[i] in ts && r[i].customer.Equals(customer)
    ensures forall i :: 0 <= i < |ts| && ts[i].customer.Equals(customer) ==> ts[i] in r
    ensures |r| <= |ts|
  {
    if ts == [] then []
    else
      var prefix := ts[..|ts| - 1];
      var last := ts[|ts| - 1];
      assert ts == prefix + [last];
      TicketsOf(prefix, customer) + (if last.customer.Equals(customer) then [last] else [])
  }

  /** The sum of the ticket prices. */
  function Revenue(ts: seq<Ticket>): (total: real)
    ensures (forall i :: 0 <= i < |ts| ==> ts[i].price >= 0.0) ==> total >= 0.0
  {
    if ts == [] then 0.0 else Revenue(ts[..|ts| - 1]) + ts[|ts| - 1].price
  }

  lemma {:induction false} RevenueAppend(a: seq<Ticket>, b: seq<Ticket>)
    ensures Revenue(a + b) == Revenue(a) + Revenue(b)
  {
    if b == [] {
      assert a + b == a;
    } else {
      assert (a + b)[..|a + b| - 1] == a + b[..|b| - 1];
      RevenueAppend(a, b[..|b| - 1]);
    }
  }

  class TicketService {
    var tickets: seq<Ticket>

    /** The station service handed in is not used. */
    constructor(stationService: StationService?)
      ensures tickets == []
    {
      tickets := [];
    }

    /** purchaseTicket: the new ticket, priced from the route now, goes at the end of the
        ledger and of the customer's own list. */
    method PurchaseTicket(customer: User, schedule: Schedule, firstClass: bool, id: ShortId)
      returns (ticket: Ticket)
      requires customer.profile.CustomerProfile?
      modifies this`tickets, customer`tickets
      ensures ticket.id == id && ticket.customer == customer && ticket.schedule == schedule
      ensures ticket.firstClass == firstClass
      ensures ticket.price == CalculatePrice(schedule.route.basePrice, firstClass)
      ensures tickets == old(tickets) + [ticket]
      ensures customer.tickets == old(customer.tickets) + [ticket]
      ensures TicketsOf(tickets, customer) == TicketsOf(old(tickets), customer) + [ticket]
      ensures Revenue(tickets) == Revenue(old(tickets)) + ticket.price
    {
      ticket := NewTicket(id, customer, schedule, firstClass);
      tickets := tickets + [ticket];
      customer.AddTicket(ticket);
      assert tickets[..|tickets| - 1] == old(tickets);
    }

    /** getTicketsByCustomer. */
    method GetTicketsByCustomer(customer: User?) returns (result: seq<Ticket>)
      ensures result == TicketsOf(tickets, customer)
    {
      result := [];
      for i := 0 to |tickets|
        invariant result == TicketsOf(tickets[..i], customer)
      {
        assert tickets[..i + 1][..i] == tickets[..i];
        if tickets[i].customer.Equals(customer) {
          result := result + [tickets[i]];
        }
      }
      assert tickets[..|tickets|] == tickets;
    }

    /** getTotalRevenue: the sum of the ledger's prices; 0 for an empty ledger. */
    function TotalRevenue(): (total: real)
      reads this
      ensures tickets == [] ==> total == 0.0
      ensures (forall i :: 0 <= i < |tickets| ==> tickets[i].price >= 0.0) ==> total >= 0.0
      ensures tickets != [] ==> total == Revenue(tickets[..|tickets| - 1]) + tickets[|tickets| - 1].price
    {
      Revenue(tickets)
    }

    /** getAllTickets: a read-only view of the live ledger, so it lists every purchase,
        in purchase order. */
    function AllTickets(): (all: seq<Ticket>)
      reads this
      ensures |all| == |tickets| && forall i :: 0 <= i < |all| ==> all[i] == tickets[i]
    {
      tickets
    }
  }
}
