/**
 * The entities of the railway system (package pkcg.model). Entities whose
 * fields never change after construction are datatypes (Platform, Station,
 * Train, Schedule, Ticket); the ones whose fields are updated in place are
 * classes (Route's base price, Reservation's confirmed flag, a user's
 * password and a customer's ticket list). Admin and Customer are one class
 * `User` whose `profile` tells the two kinds apart.
 */
module Model {
  import opened Common
  import Text

  /** Ticket and reservation ids: the first 8 characters of a random UUID. */
  type ShortId = s: string | |s| == 8 witness "00000000"

  // ---------------------------------------------------------------------------
  // Platforms and stations

  datatype Platform = Platform(number: int)

  datatype Station = Station(name: string, platformCount: int, platforms: seq<Platform>) {

    /** getPlatform: the first platform with that number, or null. */
    function GetPlatform(number: int): Option<Platform> {
      FindPlatform(platforms, number)
    }
  }

  /** The number of times a `for (i = 1; i <= n; i++)` loop runs. */
  function Max0(n: int): nat {
    if n > 0 then n else 0
  }

  /** The platform at index i carries number i + 1. */
  predicate NumberedFromOne(ps: seq<Platform>) {
    forall i :: 0 <= i < |ps| ==> ps[i].number == i + 1
  }

  /** What the Station constructor leaves behind: platforms 1..platformCount, none when it is not positive. */
  predicate IsBuilt(s: Station) {
    |s.platforms| == Max0(s.platformCount) && NumberedFromOne(s.platforms)
  }

  /** The Station constructor: name and count are kept as given, and the loop adds
      one platform for each number from 1 to platformCount. */
  method NewStation(name: string, platformCount: int) returns (s: Station)
    ensures s.name == name && s.platformCount == platformCount
    ensures |s.platforms| == Max0(platformCount)
    ensures forall i :: 0 <= i < |s.platforms| ==> s.platforms[i].number == i + 1
  {
    var platforms: seq<Platform> := [];
    var i := 1;
    while i <= platformCount
      invariant 1 <= i <= Max0(platformCount) + 1
      invariant |platforms| == i - 1
      invariant NumberedFromOne(platforms)
    {
      platforms := platforms + [Platform(i)];
      i := i + 1;
    }
    s := Station(name, platformCount, platforms);
  }

  /** `stream().filter(p -> p.getNumber() == number).findFirst()`. */
  function FindPlatform(ps: seq<Platform>, number: int): (r: Option<Platform>)
    ensures r.None? <==> forall i :: 0 <= i < |ps| ==> ps[i].number != number
    ensures r.Some? ==> exists i :: 0 <= i < |ps| && ps[i] == r.value && r.value.number == number
                                    && forall j :: 0 <= j < i ==> ps[j].number != number
  {
    if ps == [] then None
    else if ps[0].number == number then Some(ps[0])
    else
      var r := FindPlatform(ps[1..], number);
      if r.Some? then
        var i :| 0 <= i < |ps[1..]| && ps[1..][i] == r.value && r.value.number == number
                 && forall j :: 0 <= j < i ==> ps[1..][j].number != number;
        assert ps[i + 1] == r.value;
        r
      else r
  }

  /** On a constructed station, getPlatform(n) finds platform n exactly when 1 <= n <= platformCount. */
  lemma BuiltStationPlatform(s: Station, n: int)
    requires IsBuilt(s)
    ensures s.GetPlatform(n).Some? <==> 1 <= n <= s.platformCount
    ensures s.GetPlatform(n).Some? ==> s.GetPlatform(n).value == Platform(n)
  {
    if 1 <= n <= s.platformCount {
      assert s.platforms[n - 1].number == n;
    }
  }

  /** Two constructed stations with the same name and count are the same value. */
  lemma BuiltStationsEqual(a: Station, b: Station)
    requires IsBuilt(a) && IsBuilt(b)
    requires a.name == b.name && a.platformCount == b.platformCount
    ensures a == b
  {
    assert forall i :: 0 <= i < |a.platforms| ==> a.platforms[i] == Platform(i + 1) == b.platforms[i];
  }

  // ---------------------------------------------------------------------------
  // Trains, routes and schedules

  datatype Train = Train(number: string, kind: string, capacity: int)

  /** A route between two stations. Its base price is shared by every schedule and
      set that holds the same Route object. */
  class Route {
    const origin: Station
    const destination: Station
    var basePrice: real

    constructor(origin: Station, destination: Station, basePrice: real)
      ensures this.origin == origin && this.destination == destination && this.basePrice == basePrice
    {
      this.origin := origin;
      this.destination := destination;
      this.basePrice := basePrice;
    }

    /** setBasePrice: only the price changes; origin and destination are constants. */
    method SetBasePrice(basePrice: real)
      modifies this
      ensures this.basePrice == basePrice
    {
      this.basePrice := basePrice;
    }
  }

  datatype Schedule = Schedule(train: Train, route: Route, departureTime: string, arrivalTime: string,
                               platformNumber: int)

  // ---------------------------------------------------------------------------
  // Tickets

  /** A purchased ticket; its price is fixed when it is issued. */
  datatype Ticket = Ticket(id: ShortId, customer: User, schedule: Schedule, price: real, firstClass: bool)

  /** calculatePrice: first class costs the base price plus half of it, standard the
      base price, so first class is never cheaper when the base is not negative. */
  function CalculatePrice(basePrice: real, firstClass: bool): (price: real)
    ensures firstClass ==> price == basePrice + basePrice / 2.0
    ensures !firstClass ==> price == basePrice
    ensures basePrice >= 0.0 ==> basePrice <= price
  {
    if firstClass then basePrice * 1.5 else basePrice
  }

  /** The Ticket constructor: the price is read from the schedule's route once, now. */
  function NewTicket(id: ShortId, customer: User, schedule: Schedule, firstClass: bool): (t: Ticket)
    reads schedule.route
    ensures t.price == CalculatePrice(schedule.route.basePrice, firstClass)
    ensures t.id == id && t.customer == customer && t.schedule == schedule && t.firstClass == firstClass
  {
    Ticket(id, customer, schedule, CalculatePrice(schedule.route.basePrice, firstClass), firstClass)
  }

  /** Changing a route's price after a ticket was issued leaves that ticket's price alone. */
  method RepriceAfterIssue(id: ShortId, customer: User, schedule: Schedule, firstClass: bool, newPrice: real)
    returns (t: Ticket)
    modifies schedule.route
    ensures t.price == CalculatePrice(old(schedule.route.basePrice), firstClass)
    ensures schedule.route.basePrice == newPrice
    ensures t.id == id && t.customer == customer && t.schedule == schedule && t.firstClass == firstClass
  {
    t := NewTicket(id, customer, schedule, firstClass);
    schedule.route.SetBasePrice(newPrice);
  }

  // ---------------------------------------------------------------------------
  // Reservations

  class Reservation {
    const id: ShortId
    const customer: User
    const schedule: Schedule
    const seatNumber: int
    var confirmed: bool

    /** A new reservation is not confirmed. */
    constructor(id: ShortId, customer: User, schedule: Schedule, seatNumber: int)
      ensures this.id == id && this.customer == customer && this.schedule == schedule
      ensures this.seatNumber == seatNumber && !confirmed
    {
      this.id := id;
      this.customer := customer;
      this.schedule := schedule;
      this.seatNumber := seatNumber;
      this.confirmed := false;
    }

    /** confirm: sets the flag; on a confirmed reservation it changes nothing. */
    method Confirm()
      modifies this
      ensures confirmed
      ensures old(confirmed) ==> unchanged(this)
    {
      confirmed := true;
    }

    /** cancel: clears the flag; the reservation itself stays where it is. */
    method Cancel()
      modifies this
      ensures !confirmed
      ensures !old(confirmed) ==> unchanged(this)
    {
      confirmed := false;
    }
  }

  // ---------------------------------------------------------------------------
  // Users

  /** The two subclasses of User: an Admin carries nothing more, a Customer a name and an e-mail. */
  datatype Profile = AdminProfile | CustomerProfile(fullName: string, email: string)

  class User {
    const username: string
    var password: string
    const profile: Profile
    /** The customer's ticket list, handed out live by getTickets; it stays empty for an admin. */
    var tickets: seq<Ticket>

    constructor Admin(username: string, password: string)
      ensures this.username == username && this.password == password
      ensures profile == AdminProfile && tickets == []
    {
      this.username := username;
      this.password := password;
      this.profile := AdminProfile;
      this.tickets := [];
    }

    /** A new customer holds no tickets. */
    constructor Customer(username: string, password: string, fullName: string, email: string)
      ensures this.username == username && this.password == password
      ensures profile == CustomerProfile(fullName, email) && tickets == []
    {
      this.username := username;
      this.password := password;
      this.profile := CustomerProfile(fullName, email);
      this.tickets := [];
    }

    /** authenticate: the stored password equals the one given. */
    predicate Authenticate(password: string)
      reads this
    {
      this.password == password
    }

    /** setPassword: afterwards exactly the new password authenticates. */
    method SetPassword(password: string)
      modifies this`password
      ensures this.password == password
      ensures forall p :: Authenticate(p) <==> p == password
    {
      this.password := password;
    }

    /** equals: the same object, or any user (Admin or Customer alike) with the same username. */
    predicate Equals(other: User?) {
      this == other || (other != null && username == other.username)
    }

    /** hashCode: the username's String hash. */
    function HashCode(): int {
      Text.HashCode(username)
    }

    /** addTicket: the ticket goes at the end of the customer's list. */
    method AddTicket(ticket: Ticket)
      requires profile.CustomerProfile?
      modifies this`tickets
      ensures tickets == old(tickets) + [ticket]
    {
      tickets := tickets + [ticket];
    }
  }

  /** Users are equal exactly when they are both present and share a username. */
  lemma EqualsByUsername(a: User, b: User?)
    ensures a.Equals(b) <==> b != null && a.username == b.username
  {
  }

  /** equals is an equivalence relation on users. */
  lemma EqualsIsEquivalence(a: User, b: User, c: User)
    ensures a.Equals(a)
    ensures a.Equals(b) ==> b.Equals(a)
    ensures a.Equals(b) && b.Equals(c) ==> a.Equals(c)
  {
  }

  /** Equal users have equal hash codes. */
  lemma EqualUsersHashAlike(a: User, b: User)
    requires a.Equals(b)
    ensures a.HashCode() == b.HashCode()
  {
  }

  /** An Admin and a Customer with the same username are equal. */
  method AdminEqualsCustomer(username: string, adminPassword: string, customerPassword: string,
                             fullName: string, email: string) returns (admin: User, customer: User)
    ensures admin.profile.AdminProfile? && customer.profile.CustomerProfile?
    ensures admin != customer && admin.Equals(customer) && customer.Equals(admin)
  {
    admin := new User.Admin(username, adminPassword);
    customer := new User.Customer(username, customerPassword, fullName, email);
  }

}
