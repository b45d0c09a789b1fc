/**
 * The persistence layer (package pkcg.repository) over an abstract store.
 * Each table is a map from its primary key to the rest of the row; the
 * shared connection of DatabaseService is one `connected` flag. A statement
 * issued on a closed connection fails with an SQLException, which every
 * repository catches, so on a closed connection each operation changes
 * nothing and answers empty, false or nothing. The row order of an
 * unordered SELECT is unspecified: the `findAll` loops take the keys in an
 * arbitrary order.
 */
module Repositories {
  import opened Common
  import opened Model

  /** A row of `trains`, keyed by the train number. */
  datatype TrainRow = TrainRow(kind: string, capacity: int)

  /** A row of `users`, keyed by the username; the two nullable columns are options. */
  datatype UserRow = UserRow(password: string, userType: string, fullName: Option<string>, email: Option<string>)

  /** A row of `routes` is keyed by its unique (origin_station, destination_station) pair. */
  type RouteKey = (string, string)

  /** The connection and the four tables behind it. */
  class Database {
    var connected: bool
    /** name -> platform_count */
    var stations: map<string, int>
    var trains: map<string, TrainRow>
    /** (origin, destination) -> base_price */
    var routes: map<RouteKey, real>
    var users: map<string, UserRow>

    /** The foreign keys of `routes`: both ends of every stored route are stored stations. */
    predicate Valid()
      reads this
    {
      forall key :: key in routes ==> key.0 in stations && key.1 in stations
    }

    /** DatabaseService's constructor: `connected` says whether the connection was established. */
    constructor(connected: bool)
      ensures this.connected == connected && Valid()
      ensures stations == map[] && trains == map[] && routes == map[] && users == map[]
    {
      this.connected := connected;
      stations, trains, routes, users := map[], map[], map[], map[];
    }

    /** closeConnection: afterwards every statement fails; the stored rows stay. */
    method Close()
      modifies this`connected
      ensures !connected
    {
      connected := false;
    }
  }

  /** Some stored route has `name` at one of its ends. */
  predicate Referenced(routes: map<RouteKey, real>, name: string) {
    exists key :: key in routes && (key.0 == name || key.1 == name)
  }

  // ---------------------------------------------------------------------------
  // StationRepository: stations(name PRIMARY KEY, platform_count)

  class StationRepository {
    const db: Database

    constructor(db: Database)
      ensures this.db == db
    {
      this.db := db;
    }

    /** findByName: a station exactly when a row exists, rebuilt by the Station
        constructor, so its platforms are numbered 1..platform_count. */
    method FindByName(name: string) returns (r: Option<Station>)
      ensures r.Some? <==> db.connected && name in db.stations
      ensures r.Some? ==> r.value.name == name && r.value.platformCount == db.stations[name]
      ensures r.Some? ==> IsBuilt(r.value)
    {
      if db.connected && name in db.stations {
        var station := NewStation(name, db.stations[name]);
        return Some(station);
      }
      return None;
    }

    /** findAll: one rebuilt station per row, in no particular order. */
    method FindAll() returns (result: seq<Station>)
      ensures !db.connected ==> result == []
      ensures db.connected ==> |result| == |db.stations|
      ensures forall i :: 0 <= i < |result| ==>
                && result[i].name in db.stations
                && result[i].platformCount == db.stations[result[i].name]
                && IsBuilt(result[i])
      ensures forall i, j :: 0 <= i < j < |result| ==> result[i].name != result[j].name
      ensures db.connected ==> forall name :: name in db.stations ==>
                exists i :: 0 <= i < |result| && result[i].name == name
    {
      result := [];
      if !db.connected {
        return;
      }
      var remaining := db.stations.Keys;
      while remaining != {}
        invariant remaining <= db.stations.Keys
        invariant |result| + |remaining| == |db.stations|
        invariant forall i :: 0 <= i < |result| ==>
                    && result[i].name in db.stations && result[i].name !in remaining
                    && result[i].platformCount == db.stations[result[i].name]
                    && IsBuilt(result[i])
        invariant forall i, j :: 0 <= i < j < |result| ==> result[i].name != result[j].name
        invariant forall name :: name in db.stations && name !in remaining ==>
                    exists i :: 0 <= i < |result| && result[i].name == name
        decreases remaining
      {
        var name :| name in remaining;
        var station := NewStation(name, db.stations[name]);
        ghost var before := result;
        result := result + [station];
        assert forall i :: 0 <= i < |before| ==> result[i] == before[i];
        assert result[|before|].name == name;
        remaining := remaining - {name};
      }
    }

    /** update: platform_count becomes the station's number of platforms; true iff the row existed. */
    method Update(station: Station) returns (updated: bool)
      requires db.Valid()
      modifies db`stations
      ensures db.Valid()
      ensures updated <==> old(db.connected && station.name in db.stations)
      ensures db.stations == if updated then old(db.stations)[station.name := |station.platforms|]
                             else old(db.stations)
    {
      updated := db.connected && station.name in db.stations;
      if updated {
        db.stations := db.stations[station.name := |station.platforms|];
      }
    }

    /** save: an update when the name is stored, an insert otherwise; either way the
        row holds the station's number of platforms and the name is stored once. */
    method Save(station: Station)
      requires db.Valid()
      modifies db`stations
      ensures db.Valid()
      ensures db.stations == if db.connected then old(db.stations)[station.name := |station.platforms|]
                             else old(db.stations)
    {
      var existing := FindByName(station.name);
      if existing.Some? {
        var _ := Update(station);
        return;
      }
      if db.connected {
        db.stations := db.stations[station.name := |station.platforms|];
      }
    }

    /** delete: removes the named row and answers true; false when there is no such
        row, or when a route still refers to it (the foreign key rejects the delete). */
    method Delete(name: string) returns (deleted: bool)
      requires db.Valid()
      modifies db`stations
      ensures db.Valid()
      ensures deleted <==> old(db.connected && name in db.stations && !Referenced(db.routes, name))
      ensures db.stations == if deleted then old(db.stations) - {name} else old(db.stations)
    {
      deleted := db.connected && name in db.stations
                 && !(exists key | key in db.routes :: key.0 == name || key.1 == name);
      if deleted {
        db.stations := db.stations - {name};
      }
    }

    /** clearAll: empties the table when connected, unless some route still refers to
        a station, in which case the foreign key rejects the whole statement. */
    method ClearAll()
      requires db.Valid()
      modifies db`stations
      ensures db.Valid()
      ensures db.stations == if db.connected && db.routes == map[] then map[] else old(db.stations)
    {
      if db.connected && db.routes == map[] {
        db.stations := map[];
      }
    }
  }

  /** Saving a constructed station and reading it back gives a station with the same
      name whose count is the number of platforms, so the same station when the count
      it was built with is not negative. */
  method StationRoundTrip(repository: StationRepository, station: Station) returns (found: Option<Station>)
    requires repository.db.connected && repository.db.Valid() && IsBuilt(station)
    modifies repository.db`stations
    ensures found.Some? && found.value.name == station.name
    ensures found.value.platformCount == Max0(station.platformCount)
    ensures station.platformCount >= 0 ==> found.value == station
  {
    repository.Save(station);
    found := repository.FindByName(station.name);
    if station.platformCount >= 0 {
      BuiltStationsEqual(found.value, station);
    }
  }

  // ---------------------------------------------------------------------------
  // TrainRepository: trains(number PRIMARY KEY, type, capacity)

  class TrainRepository {
    const db: Database

    constructor(db: Database)
      ensures this.db == db
    {
      this.db := db;
    }

    /** save: a plain INSERT; a number already stored violates the primary key and
        the table stays as it was, so save never overwrites. */
    method Save(train: Train)
      modifies db`trains
      ensures db.trains == if old(db.connected) && train.number !in old(db.trains)
                           then old(db.trains)[train.number := TrainRow(train.kind, train.capacity)]
                           else old(db.trains)
    {
      if db.connected && train.number !in db.trains {
        db.trains := db.trains[train.number := TrainRow(train.kind, train.capacity)];
      }
    }

    /** findByNumber: the stored type and capacity, iff the row exists. */
    method FindByNumber(number: string) returns (r: Option<Train>)
      ensures r.Some? <==> db.connected && number in db.trains
      ensures r.Some? ==> r.value == Train(number, db.trains[number].kind, db.trains[number].capacity)
    {
      if db.connected && number in db.trains {
        var row := db.trains[number];
        return Some(Train(number, row.kind, row.capacity));
      }
      return None;
    }

    /** findAll: one train per row, in no particular order. */
    method FindAll() returns (result: seq<Train>)
      ensures !db.connected ==> result == []
      ensures db.connected ==> |result| == |db.trains|
      ensures forall i :: 0 <= i < |result| ==>
                result[i].number in db.trains
                && db.trains[result[i].number] == TrainRow(result[i].kind, result[i].capacity)
      ensures forall i, j :: 0 <= i < j < |result| ==> result[i].number != result[j].number
      ensures db.connected ==> forall number :: number in db.trains ==>
                exists i :: 0 <= i < |result| && result[i].number == number
    {
      result := [];
      if !db.connected {
        return;
      }
      var remaining := db.trains.Keys;
      while remaining != {}
        invariant remaining <= db.trains.Keys
        invariant |result| + |remaining| == |db.trains|
        invariant forall i :: 0 <= i < |result| ==>
                    && result[i].number in db.trains && result[i].number !in remaining
                    && db.trains[result[i].number] == TrainRow(result[i].kind, result[i].capacity)
        invariant forall i, j :: 0 <= i < j < |result| ==> result[i].number != result[j].number
        invariant forall number :: number in db.trains && number !in remaining ==>
                    exists i :: 0 <= i < |result| && result[i].number == number
        decreases remaining
      {
        var number :| number in remaining;
        var row := db.trains[number];
        ghost var before := result;
        result := result + [Train(number, row.kind, row.capacity)];
        assert forall i :: 0 <= i < |before| ==> result[i] == before[i];
        assert result[|before|].number == number;
        remaining := remaining - {number};
      }
    }

    /** update: overwrites type and capacity of the matching row only; true iff it existed. */
    method Update(train: Train) returns (updated: bool)
      modifies db`trains
      ensures updated <==> old(db.connected && train.number in db.trains)
      ensures db.trains == if updated then old(db.trains)[train.number := TrainRow(train.kind, train.capacity)]
                           else old(db.trains)
    {
      updated := db.connected && train.number in db.trains;
      if updated {
        db.trains := db.trains[train.number := TrainRow(train.kind, train.capacity)];
      }
    }

    /** delete: removes only the matching row; true iff it existed. */
    method Delete(number: string) returns (deleted: bool)
      modifies db`trains
      ensures deleted <==> old(db.connected && number in db.trains)
      ensures db.trains == if deleted then old(db.trains) - {number} else old(db.trains)
    {
      deleted := db.connected && number in db.trains;
      if deleted {
        db.trains := db.trains - {number};
      }
    }

    /** clearAll: empties the table when connected, and does nothing otherwise. */
    method ClearAll()
      modifies db`trains
      ensures db.trains == if db.connected then map[] else old(db.trains)
    {
      if db.connected {
        db.trains := map[];
      }
    }
  }

  /** Saving a new train and reading it back gives the same train. */
  method TrainRoundTrip(repository: TrainRepository, train: Train) returns (found: Option<Train>)
    requires repository.db.connected && train.number !in repository.db.trains
    modifies repository.db`trains
    ensures found == Some(train)
  {
    repository.Save(train);
    found := repository.FindByNumber(train.number);
  }

  // ---------------------------------------------------------------------------
  // RouteRepository: routes(id, origin_station FK, destination_station FK, base_price,
  // UNIQUE (origin_station, destination_station))

  /** The stations table after a route save has inserted whichever end was missing
      before the save began. Both lookups happen first, so when the two ends share a
      name the destination's save finds the origin's row and updates it. */
  function StationsAfterRouteSave(stations: map<string, int>, origin: Station, destination: Station)
    : (r: map<string, int>)
    ensures origin.name in r && destination.name in r
    ensures forall name :: name in stations && name != origin.name && name != destination.name ==>
              name in r && r[name] == stations[name]
    ensures forall name :: name in r ==> name in stations || name == origin.name || name == destination.name
  {
    var withOrigin := if origin.name in stations then stations
                      else stations[origin.name := |origin.platforms|];
    if destination.name in stations then withOrigin
    else withOrigin[destination.name := |destination.platforms|]
  }

  /** A stored station keeps its row when a route save inserts the missing ends. */
  lemma RouteSaveKeepsStoredStations(stations: map<string, int>, origin: Station, destination: Station)
    requires origin.name != destination.name
    ensures forall name :: name in stations ==>
              StationsAfterRouteSave(stations, origin, destination)[name] == stations[name]
    ensures origin.name !in stations ==>
              StationsAfterRouteSave(stations, origin, destination)[origin.name] == |origin.platforms|
    ensures destination.name !in stations ==>
              StationsAfterRouteSave(stations, origin, destination)[destination.name] == |destination.platforms|
  {
  }

  /** The routes table after an INSERT that the unique constraint rejects for a stored pair. */
  function RoutesAfterInsert(routes: map<RouteKey, real>, key: RouteKey, price: real): (r: map<RouteKey, real>)
    ensures key in r && r.Keys == routes.Keys + {key}
    ensures key in routes ==> r == routes
    ensures key !in routes ==> r[key] == price
  {
    if key in routes then routes else routes[key := price]
  }

  /** The same save as an upsert, which is what the javadoc of `save` describes. */
  function RoutesAfterUpsert(routes: map<RouteKey, real>, key: RouteKey, price: real): (r: map<RouteKey, real>)
    ensures key in r && r.Keys == routes.Keys + {key}
    ensures forall k :: k in routes && k != key ==> r[k] == routes[k]
    ensures r[key] == price
  {
    routes[key := price]
  }

  /** As written, saving a stored pair after its price was edited keeps the old price:
      the edit to 300.0 of a route stored at 250.0 is lost. */
  lemma SaveLosesPriceEdit()
    ensures RoutesAfterInsert(map[("Bucuresti", "Brasov") := 250.0], ("Bucuresti", "Brasov"), 300.0)
              [("Bucuresti", "Brasov")] == 250.0
  {
  }

  /** The corrected save stores the edited price, for every stored or new pair. */
  lemma SaveOrUpdateKeepsPriceEdit(routes: map<RouteKey, real>, key: RouteKey, price: real)
    ensures RoutesAfterUpsert(routes, key, price)[key] == price
    ensures RoutesAfterUpsert(routes, key, price) == RoutesAfterInsert(routes, key, price) <==>
              key !in routes || routes[key] == price
  {
  }

  class RouteRepository {
    const db: Database
    const stationRepository: StationRepository

    /** The station repository works on the same connection. */
    predicate Valid()
      reads this, stationRepository, db
    {
      stationRepository.db == db && db.Valid()
    }

    constructor(db: Database)
      requires db.Valid()
      ensures this.db == db && Valid()
    {
      this.db := db;
      this.stationRepository := new StationRepository(db);
    }

    /** save: first inserts whichever of the two stations is not stored yet, then
        INSERTs the route; a stored pair violates the unique constraint and keeps its
        price. */
    method Save(route: Route)
      requires Valid()
      modifies db`stations, db`routes
      ensures Valid()
      ensures db.stations == if old(db.connected)
                             then StationsAfterRouteSave(old(db.stations), route.origin, route.destination)
                             else old(db.stations)
      ensures db.routes == if old(db.connected)
                           then RoutesAfterInsert(old(db.routes), (route.origin.name, route.destination.name),
                                                  route.basePrice)
                           else old(db.routes)
    {
      var existingOrigin := stationRepository.FindByName(route.origin.name);
      var existingDestination := stationRepository.FindByName(route.destination.name);
      if existingOrigin.None? {
        stationRepository.Save(route.origin);
      }
      if existingDestination.None? {
        stationRepository.Save(route.destination);
      }
      var key := (route.origin.name, route.destination.name);
      if db.connected && key !in db.routes {
        db.routes := db.routes[key := route.basePrice];
      }
    }

    /** The corrected save: the stations as above, then the route's current price is
        stored whether or not the pair was stored before. */
    method SaveOrUpdate(route: Route)
      requires Valid()
      modifies db`stations, db`routes
      ensures Valid()
      ensures db.stations == if old(db.connected)
                             then StationsAfterRouteSave(old(db.stations), route.origin, route.destination)
                             else old(db.stations)
      ensures db.routes == if old(db.connected)
                           then RoutesAfterUpsert(old(db.routes), (route.origin.name, route.destination.name),
                                                  route.basePrice)
                           else old(db.routes)
    {
      var existingOrigin := stationRepository.FindByName(route.origin.name);
      var existingDestination := stationRepository.FindByName(route.destination.name);
      if existingOrigin.None? {
        stationRepository.Save(route.origin);
      }
      if existingDestination.None? {
        stationRepository.Save(route.destination);
      }
      var key := (route.origin.name, route.destination.name);
      if db.connected {
        db.routes := db.routes[key := route.basePrice];
      }
    }

    /** findAll: a route for every row whose two stations are found, in no particular
        order; a row with a missing station is dropped. */
    method FindAll() returns (result: seq<Route>)
      requires Valid()
      ensures !db.connected ==> result == []
      ensures forall i :: 0 <= i < |result| ==>
                var key := (result[i].origin.name, result[i].destination.name);
                && key in db.routes && key.0 in db.stations && key.1 in db.stations
                && result[i].basePrice == db.routes[key]
                && result[i].origin.platformCount == db.stations[key.0] && IsBuilt(result[i].origin)
                && result[i].destination.platformCount == db.stations[key.1] && IsBuilt(result[i].destination)
      ensures forall i, j :: 0 <= i < j < |result| ==>
                (result[i].origin.name, result[i].destination.name)
                != (result[j].origin.name, result[j].destination.name)
      ensures db.connected ==> forall key :: key in db.routes && key.0 in db.stations && key.1 in db.stations ==>
                exists i :: 0 <= i < |result| && (result[i].origin.name, result[i].destination.name) == key
    {
      result := [];
      if !db.connected {
        return;
      }
      var remaining := db.routes.Keys;
      while remaining != {}
        invariant remaining <= db.routes.Keys
        invariant forall i :: 0 <= i < |result| ==>
                    var key := (result[i].origin.name, result[i].destination.name);
                    && key in db.routes && key !in remaining && key.0 in db.stations && key.1 in db.stations
                    && result[i].basePrice == db.routes[key]
                    && result[i].origin.platformCount == db.stations[key.0] && IsBuilt(result[i].origin)
                    && result[i].destination.platformCount == db.stations[key.1] && IsBuilt(result[i].destination)
        invariant forall i, j :: 0 <= i < j < |result| ==>
                    (result[i].origin.name, result[i].destination.name)
                    != (result[j].origin.name, result[j].destination.name)
        invariant forall key :: key in db.routes && key !in remaining && key.0 in db.stations && key.1 in db.stations ==>
                    exists i :: 0 <= i < |result| && (result[i].origin.name, result[i].destination.name) == key
        decreases remaining
      {
        var key :| key in remaining;
        var origin := stationRepository.FindByName(key.0);
        var destination := stationRepository.FindByName(key.1);
        if origin.Some? && destination.Some? {
          var route := new Route(origin.value, destination.value, db.routes[key]);
          ghost var before := result;
          result := result + [route];
          assert forall i :: 0 <= i < |before| ==> result[i] == before[i];
          assert (result[|before|].origin.name, result[|before|].destination.name) == key;
        }
        remaining := remaining - {key};
      }
    }

    /** findByStations: the stored price, iff the pair's row and both stations exist. */
    method FindByStations(originName: string, destinationName: string) returns (r: Option<Route>)
      requires Valid()
      ensures r.Some? <==> && db.connected && (originName, destinationName) in db.routes
                           && originName in db.stations && destinationName in db.stations
      ensures r.Some? ==> && r.value.origin.name == originName && r.value.destination.name == destinationName
                          && r.value.basePrice == db.routes[(originName, destinationName)]
                          && r.value.origin.platformCount == db.stations[originName] && IsBuilt(r.value.origin)
                          && r.value.destination.platformCount == db.stations[destinationName]
                          && IsBuilt(r.value.destination)
    {
      if !db.connected {
        return None;
      }
      var key := (originName, destinationName);
      if key in db.routes {
        var origin := stationRepository.FindByName(originName);
        var destination := stationRepository.FindByName(destinationName);
        if origin.Some? && destination.Some? {
          var route := new Route(origin.value, destination.value, db.routes[key]);
          return Some(route);
        }
      }
      return None;
    }

    /** updatePrice: only the matching pair's price changes, to `newPrice`; true iff the
        row existed. The route object itself is not touched. */
    method UpdatePrice(route: Route, newPrice: real) returns (updated: bool)
      requires Valid()
      modifies db`routes
      ensures Valid()
      ensures updated <==> old(db.connected) && (route.origin.name, route.destination.name) in old(db.routes)
      ensures db.routes == if updated then old(db.routes)[(route.origin.name, route.destination.name) := newPrice]
                           else old(db.routes)
    {
      var key := (route.origin.name, route.destination.name);
      updated := db.connected && key in db.routes;
      if updated {
        db.routes := db.routes[key := newPrice];
      }
    }

    /** delete: removes only the matching pair; true iff it existed. */
    method Delete(route: Route) returns (deleted: bool)
      requires Valid()
      modifies db`routes
      ensures Valid()
      ensures deleted <==> old(db.connected) && (route.origin.name, route.destination.name) in old(db.routes)
      ensures db.routes == if deleted then old(db.routes) - {(route.origin.name, route.destination.name)}
                           else old(db.routes)
    {
      var key := (route.origin.name, route.destination.name);
      deleted := db.connected && key in db.routes;
      if deleted {
        db.routes := db.routes - {key};
      }
    }

    /** clearAll: empties the table when connected, and does nothing otherwise. */
    method ClearAll()
      requires Valid()
      modifies db`routes
      ensures Valid()
      ensures db.routes == if db.connected then map[] else old(db.routes)
    {
      if db.connected {
        db.routes := map[];
      }
    }
  }

  /** A route saved on a live connection is found again at its own price when its pair
      was new, and at the earlier stored price when it was not. */
  method RouteRoundTrip(repository: RouteRepository, route: Route) returns (found: Option<Route>)
    requires repository.Valid() && repository.db.connected
    modifies repository.db`stations, repository.db`routes
    ensures found.Some?
    ensures found.value.origin.name == route.origin.name && found.value.destination.name == route.destination.name
    ensures found.value.basePrice == if (route.origin.name, route.destination.name) in old(repository.db.routes)
                                     then old(repository.db.routes[(route.origin.name, route.destination.name)])
                                     else route.basePrice
  {
    repository.Save(route);
    found := repository.FindByStations(route.origin.name, route.destination.name);
  }

  // ---------------------------------------------------------------------------
  // UserRepository: users(username PRIMARY KEY, password, user_type, full_name, email)

  const AdminTag := "ADMIN"
  const CustomerTag := "CUSTOMER"

  /** The user_type written for each kind of user. */
  function TypeTag(profile: Profile): (tag: string)
    ensures tag == AdminTag <==> profile.AdminProfile?
    ensures tag == CustomerTag <==> profile.CustomerProfile?
  {
    match profile
    case AdminProfile => AdminTag
    case CustomerProfile(_, _) => CustomerTag
  }

  /** The row inserted for a new user: an Admin has no name or e-mail (NULL). */
  function NewUserRow(password: string, profile: Profile): UserRow {
    match profile
    case AdminProfile => UserRow(password, AdminTag, None, None)
    case CustomerProfile(fullName, email) => UserRow(password, CustomerTag, Some(fullName), Some(email))
  }

  /** The kind of user a row is read back as; a row of any other type is skipped. A
      NULL name or e-mail of a CUSTOMER row reads as the empty string. */
  function ProfileOf(row: UserRow): (r: Option<Profile>)
    ensures r.Some? <==> row.userType == AdminTag || row.userType == CustomerTag
    ensures r.Some? ==> TypeTag(r.value) == row.userType
  {
    if row.userType == AdminTag then Some(AdminProfile)
    else if row.userType == CustomerTag then Some(CustomerProfile(row.fullName.GetOr(""), row.email.GetOr("")))
    else None
  }

  /** The row after `update`: an Admin sets the password only, a Customer the password,
      name and e-mail; user_type is never written. */
  function UpdatedUserRow(row: UserRow, password: string, profile: Profile): UserRow {
    match profile
    case AdminProfile => row.(password := password)
    case CustomerProfile(fullName, email) => row.(password := password, fullName := Some(fullName), email := Some(email))
  }

  /** Encoding a user's kind and reading it back gives the same kind, name and e-mail. */
  lemma NewUserRowRoundTrip(password: string, profile: Profile)
    ensures NewUserRow(password, profile).password == password
    ensures ProfileOf(NewUserRow(password, profile)) == Some(profile)
  {
  }

  /** `update` keeps the user_type, so it never turns an Admin into a Customer or back. */
  lemma UpdateKeepsType(row: UserRow, password: string, profile: Profile)
    ensures UpdatedUserRow(row, password, profile).userType == row.userType
    ensures UpdatedUserRow(row, password, profile).password == password
    ensures ProfileOf(UpdatedUserRow(row, password, profile)).Some? <==> ProfileOf(row).Some?
  {
  }

  class UserRepository {
    const db: Database
    /** Whether the connection was up when the repository was made. */
    var isConnected: bool

    constructor(db: Database)
      ensures this.db == db && isConnected == db.connected
    {
      this.db := db;
      this.isConnected := db.connected;
    }

    /** Statements are issued (the guard passes) and succeed (the connection is open). */
    predicate Live()
      reads this, db
    {
      isConnected && db.connected
    }

    /** update: overwrites the row's password, and a Customer's name and e-mail; true iff a row matched. */
    method Update(user: User) returns (updated: bool)
      modifies db`users
      ensures updated <==> old(Live() && user.username in db.users)
      ensures db.users == if updated
                          then old(db.users)[user.username :=
                                 UpdatedUserRow(old(db.users[user.username]), user.password, user.profile)]
                          else old(db.users)
    {
      if !isConnected {
        return false;
      }
      updated := db.connected && user.username in db.users;
      if updated {
        db.users := db.users[user.username := UpdatedUserRow(db.users[user.username], user.password, user.profile)];
      }
    }

    /** save: delegates to update when the username is stored, otherwise inserts the
        user's row tagged with its kind. */
    method Save(user: User)
      modifies db`users
      ensures db.users == if !old(Live()) then old(db.users)
                          else if user.username in old(db.users)
                          then old(db.users)[user.username :=
                                 UpdatedUserRow(old(db.users[user.username]), user.password, user.profile)]
                          else old(db.users)[user.username := NewUserRow(user.password, user.profile)]
    {
      if !isConnected {
        return;
      }
      if db.connected && user.username in db.users {
        var _ := Update(user);
        return;
      }
      if db.connected {
        db.users := db.users[user.username := NewUserRow(user.password, user.profile)];
      }
    }

    /** findByUsername: a user of the stored kind with the stored password, name and
        e-mail; empty when there is no row or its type is neither ADMIN nor CUSTOMER. */
    method FindByUsername(username: string) returns (r: Option<User>)
      ensures r.Some? <==> Live() && username in db.users && ProfileOf(db.users[username]).Some?
      ensures r.Some? ==> && r.value.username == username && r.value.password == db.users[username].password
                          && r.value.profile == ProfileOf(db.users[username]).value && r.value.tickets == []
    {
      if !isConnected || !db.connected || username !in db.users {
        return None;
      }
      var row := db.users[username];
      if row.userType == AdminTag {
        var admin := new User.Admin(username, row.password);
        return Some(admin);
      } else if row.userType == CustomerTag {
        var customer := new User.Customer(username, row.password, row.fullName.GetOr(""), row.email.GetOr(""));
        return Some(customer);
      }
      return None;
    }

    /** findAll: one user per ADMIN or CUSTOMER row, in no particular order; rows of any
        other type are skipped. */
    method FindAll() returns (result: seq<User>)
      ensures !Live() ==> result == []
      ensures forall i :: 0 <= i < |result| ==>
                && result[i].username in db.users
                && result[i].password == db.users[result[i].username].password
                && ProfileOf(db.users[result[i].username]) == Some(result[i].profile)
      ensures forall i, j :: 0 <= i < j < |result| ==> result[i].username != result[j].username
      ensures Live() ==> forall name :: name in db.users && ProfileOf(db.users[name]).Some? ==>
                exists i :: 0 <= i < |result| && result[i].username == name
    {
      result := [];
      if !isConnected || !db.connected {
        return;
      }
      var remaining := db.users.Keys;
      while remaining != {}
        invariant remaining <= db.users.Keys
        invariant forall i :: 0 <= i < |result| ==>
                    && result[i].username in db.users && result[i].username !in remaining
                    && result[i].password == db.users[result[i].username].password
                    && ProfileOf(db.users[result[i].username]) == Some(result[i].profile)
        invariant forall i, j :: 0 <= i < j < |result| ==> result[i].username != result[j].username
        invariant forall name :: name in db.users && name !in remaining && ProfileOf(db.users[name]).Some? ==>
                    exists i :: 0 <= i < |result| && result[i].username == name
        decreases remaining
      {
        var name :| name in remaining;
        var row := db.users[name];
        if row.userType == AdminTag {
          var admin := new User.Admin(name, row.password);
          ghost var before := result;
          result := result + [admin];
          assert forall i :: 0 <= i < |before| ==> result[i] == before[i];
          assert result[|before|].username == name;
        } else if row.userType == CustomerTag {
          var customer := new User.Customer(name, row.password, row.fullName.GetOr(""), row.email.GetOr(""));
          ghost var before := result;
          result := result + [customer];
          assert forall i :: 0 <= i < |before| ==> result[i] == before[i];
          assert result[|before|].username == name;
        }
        remaining := remaining - {name};
      }
    }

    /** delete: removes the named row; true iff it existed. */
    method Delete(username: string) returns (deleted: bool)
      modifies db`users
      ensures deleted <==> old(Live() && username in db.users)
      ensures db.users == if deleted then old(db.users) - {username} else old(db.users)
    {
      if !isConnected {
        return false;
      }
      deleted := db.connected && username in db.users;
      if deleted {
        db.users := db.users - {username};
      }
    }

    /** clearAll: empties the table when live. */
    method ClearAll()
      modifies db`users
      ensures db.users == if old(Live()) then map[] else old(db.users)
    {
      if isConnected && db.connected {
        db.users := map[];
      }
    }

    /** clearAllExceptAdmin: deletes exactly the rows whose user_type is not ADMIN. */
    method ClearAllExceptAdmin()
      modifies db`users
      ensures db.users == if old(Live()) then map name | name in old(db.users) && old(db.users)[name].userType == AdminTag
                                                    :: old(db.users)[name]
                          else old(db.users)
    {
      if isConnected && db.connected {
        db.users := map name | name in db.users && db.users[name].userType == AdminTag :: db.users[name];
      }
    }
  }

  /** A new user saved on a live connection reads back as the same kind of user with
      the same username, password, name and e-mail. */
  method UserRoundTrip(repository: UserRepository, user: User) returns (found: Option<User>)
    requires repository.Live() && user.username !in repository.db.users
    modifies repository.db`users
    ensures found.Some?
    ensures found.value.username == user.username && found.value.password == user.password
    ensures found.value.profile == user.profile
  {
    repository.Save(user);
    NewUserRowRoundTrip(user.password, user.profile);
    found := repository.FindByUsername(user.username);
  }
}
