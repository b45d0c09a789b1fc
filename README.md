# Railway administration: a verified model

This project models the core of a console railway-administration tool (package
`pkcg`): the input validation rules, the entities (stations with their numbered
platforms, routes with a shared mutable base price, tickets priced once at
purchase, reservations with a confirmed flag, users with password
authentication and username equality), the three in-memory services (user
registry and login session, station/train/route/schedule/reservation store,
ticket ledger) and the four repositories over the relational store.

Modules, one per layer of the program:

- `Common` — `Option`, standing for Java's `null` and `Optional.empty()`.
- `Text` — the `java.lang.String` and `Integer` behaviour the code relies on:
  `trim`, ASCII `toUpperCase`/`equalsIgnoreCase`, the `compareTo` order,
  `Integer.parseInt`, `String.hashCode`.
- `Validation` — `ValidationUtil`: the password rule as the source's counting
  loop, the e-mail and `H:MM`/`HH:MM` recognisers as string predicates proved
  equal to a reading of their regular expressions, and the decision each
  `read*` prompt takes on one line of input.
- `Model` — the entities. Values that never change after construction are
  datatypes (`Platform`, `Station`, `Train`, `Schedule`, `Ticket`); objects the
  source updates in place are classes (`Route`, `Reservation`, `User`). Admin and
  Customer are one class `User` whose `profile` tells them apart.
- `Services` — `UserService`, `StationService`, `TicketService` as classes whose
  collections are `map`/`seq` fields. The route `TreeSet` is a sequence kept
  strictly ascending by the key `origin + "-" + destination`.
- `Repositories` — one `Database` object stands for the shared connection and
  its four tables. Each table is a map from primary key to row, and
  `connected` says whether the connection is open. Statements issued on a
  closed connection fail, and the repositories swallow the failure, so every
  operation then changes nothing. The `findAll` loops take the rows in an
  arbitrary order, because an unordered SELECT has none.

The schema's foreign keys from `routes` to `stations`
(src/pkcg/repository/RouteRepository.java:46-47) are part of the model as the
invariant `Database.Valid`. Because of them, deleting or clearing a station that a
stored route refers to is rejected. So `StationRepository.delete` answers true
iff the row existed and no route refers to it.

`UserService.registerCustomer` (src/pkcg/service/UserService.java:23-25)
checks neither the password nor the e-mail; the checks live in the menu.
`UserService` starts with no users and nobody logged in
(src/pkcg/service/UserService.java:14-17), and nothing fills it from the user
repository.

## Model

| member | source | states |
|---|---|---|
| `Validation.IsValidPassword` | src/pkcg/util/ValidationUtil.java:51-74 | the loop's counters equal the letter, digit and special counts; the result is true iff the password is non-null, at most 20 long, and has ≥4 letters, ≥3 digits and ≥1 special |
| `Validation.CountsPartition` | src/pkcg/util/ValidationUtil.java:58-70 | every character lands in exactly one class, so the three counts sum to the length |
| `Validation.ComplexPasswordLength` | src/pkcg/util/ValidationUtil.java:51-74 | an accepted password has between 8 and 20 characters |
| `Validation.BoundaryPasswordsAccepted` | src/pkcg/util/ValidationUtil.java:53-73 | both boundaries are accepted: 4 letters + 3 digits + 1 symbol, and a 20-character password |
| `Validation.EmailRecogniserMatchesPattern` | src/pkcg/util/ValidationUtil.java:18-19 | the recogniser accepts exactly the strings that split as local part, '@', dot-separated labels, '.', a 2–7 letter top-level label |
| `Validation.ValidEmailShape` | src/pkcg/util/ValidationUtil.java:18-19 | an accepted address has exactly one '@', a '.' after it, and ends in a dot and 2–7 ASCII letters |
| `Validation.TimePatternMeaning` | src/pkcg/util/ValidationUtil.java:25 | TIME_PATTERN accepts exactly `H:MM`/`HH:MM` whose hour is 0–23 and minute 00–59 |
| `Validation.ReadIntLine` | src/pkcg/util/ValidationUtil.java:92-105 | with allowBack, trimmed "0" answers -1 before any range check; otherwise a line is answered iff it parses as a 32-bit int within [min, max], and the answer is the parsed value |
| `Validation.ReadStringLine` | src/pkcg/util/ValidationUtil.java:170-180 | "back" in any case answers null iff allowBack; otherwise the trimmed line is answered iff (allowEmpty and empty) or its length ≥ minLength |
| `Validation.ReadTimeLine` | src/pkcg/util/ValidationUtil.java:199-211 | "back" answers null iff allowBack; otherwise the trimmed, unpadded line is answered iff it is a clock time |
| `Validation.ReadYesNoLine` | src/pkcg/util/ValidationUtil.java:228-241 | yes iff the trimmed line is "Y"/"y", no iff "N"/"n", and every other line re-prompts |
| `Validation.PromptsIgnorePadding` | src/pkcg/util/ValidationUtil.java:92-231 | every prompt decides a padded line as it decides the trimmed one |
| `Model.NewStation` | src/pkcg/model/Station.java:24-33 | name and count kept as given; exactly max(N, 0) platforms, the one at index i numbered i+1 |
| `Model.FindPlatform` | src/pkcg/model/Station.java:59-64 | the first platform with that number, none iff no platform has it |
| `Model.BuiltStationPlatform` | src/pkcg/model/Station.java:59-64 | on a constructed station getPlatform(n) is platform n iff 1 ≤ n ≤ platformCount, and null otherwise |
| `Model.BuiltStationsEqual` | src/pkcg/model/Station.java:24-32 | the constructor's result depends only on name and count |
| `Model.Route.constructor` | src/pkcg/model/Route.java:22-26 | origin, destination and base price stored as given; origin and destination are constants |
| `Model.Route.SetBasePrice` | src/pkcg/model/Route.java:61-63 | afterwards the base price is the new one; only the price field can change |
| `Model.CalculatePrice` | src/pkcg/model/Ticket.java:43-46 | first class is base + base/2, standard is base, and first class is never cheaper for a non-negative base |
| `Model.NewTicket` | src/pkcg/model/Ticket.java:27-35 | the price is the class price of the route's current base price; customer, schedule and class are the arguments, the id is the given 8-character id |
| `Model.RepriceAfterIssue` | src/pkcg/model/Ticket.java:27-35 | a ticket keeps the price computed at issue after its route's price changes; customer, schedule and class are the arguments |
| `Model.Reservation.constructor` | src/pkcg/model/Reservation.java:27-33 | a new reservation holds its arguments and is unconfirmed |
| `Model.Reservation.Confirm` | src/pkcg/model/Reservation.java:83-85 | confirmed afterwards; confirming again changes nothing; id, customer, schedule and seat are constants |
| `Model.Reservation.Cancel` | src/pkcg/model/Reservation.java:90-92 | unconfirmed afterwards, with the reservation kept |
| `Model.User.Admin` | src/pkcg/model/Admin.java:22-24 | an admin with the given username and password and no tickets |
| `Model.User.Customer` | src/pkcg/model/Customer.java:31-36 | a customer with the given fields and an empty ticket list |
| `Model.User.SetPassword` | src/pkcg/model/User.java:52-54 | afterwards authenticate(p) holds iff p is the new password; the username is a constant |
| `Model.User.AddTicket` | src/pkcg/model/Customer.java:70-72 | the ticket is appended at the end of the live list |
| `Model.EqualsByUsername` | src/pkcg/model/User.java:81-86 | two users are equal iff the other is present and has the same username |
| `Model.EqualsIsEquivalence` | src/pkcg/model/User.java:81-86 | equals is reflexive, symmetric and transitive |
| `Model.EqualUsersHashAlike` | src/pkcg/model/User.java:94-96 | equal users have equal hash codes |
| `Model.AdminEqualsCustomer` | src/pkcg/model/User.java:83 | an Admin and a Customer with the same username are distinct objects and are equal both ways |
| `Services.UserService.constructor` | src/pkcg/service/UserService.java:14-17 | nobody registered, nobody current |
| `Services.UserService.RegisterAdmin` | src/pkcg/service/UserService.java:19-21 | a new admin is filed under its username, replacing any earlier one; nothing else changes |
| `Services.UserService.RegisterCustomer` | src/pkcg/service/UserService.java:23-25 | as RegisterAdmin for a customer; password and e-mail are not checked |
| `Services.UserService.Login` | src/pkcg/service/UserService.java:27-34 | true iff a user is filed under the name and the password matches; that user then becomes current, and is admin iff an Admin; a failed login keeps the current user |
| `Services.UserService.IsLoggedIn` | src/pkcg/service/UserService.java:44-46 | true iff some user is current |
| `Services.UserService.IsAdmin` | src/pkcg/service/UserService.java:48-50 | true iff some user is current and that user is an admin; so an admin is always logged in |
| `Services.UserService.Logout` | src/pkcg/service/UserService.java:36-50 | nobody current, so isLoggedIn and isAdmin are false |
| `Services.InsertRouteSorted` | src/pkcg/service/StationService.java:27-28 | TreeSet.add keeps the set strictly ascending by key, adds the route iff its key is new, and otherwise changes nothing |
| `Services.InsertRouteMembers` | src/pkcg/service/StationService.java:74-76 | adding keeps every earlier route and adds nothing but the new one |
| `Services.CollidingPairsShareAKey` | src/pkcg/service/StationService.java:27-28 | distinct pairs ("a-b","c") and ("a","b-c") share a key, so the second is not added |
| `Services.PairIsUnique` | src/pkcg/service/StationService.java:94-103 | in the sorted set a pair of names occurs at most once, so updateRoutePrice's first match is the only one |
| `Services.SchedulesTo` | src/pkcg/service/StationService.java:129-137 | exactly the schedules whose destination name equals the argument ignoring case, in order |
| `Services.IdIndex` | src/pkcg/service/StationService.java:159-167 | the index of the first reservation with that id, none iff no reservation has it |
| `Services.WithoutId` | src/pkcg/service/StationService.java:175-177 | removes every reservation with that id and keeps the others; as long as before iff none had it |
| `Services.WithoutIdIdempotent` | src/pkcg/service/StationService.java:175-177 | cancelling the same id twice removes nothing more |
| `Services.StationService.constructor` | src/pkcg/service/StationService.java:23-31 | all five collections empty |
| `Services.StationService.AddStation` | src/pkcg/service/StationService.java:38-40 | appended at the end of the station list; nothing else changes |
| `Services.StationService.AddTrain` | src/pkcg/service/StationService.java:56-58 | appended at the end of the train list; nothing else changes |
| `Services.StationService.AddSchedule` | src/pkcg/service/StationService.java:110-112 | appended at the end of the schedule list; nothing else changes |
| `Services.StationService.AddRoute` | src/pkcg/service/StationService.java:74-76 | the route set after TreeSet.add, still strictly sorted |
| `Services.StationService.UpdateRoutePrice` | src/pkcg/service/StationService.java:94-103 | true iff a stored route has the same origin and destination names; that route alone gets the new price, and on false no price changes |
| `Services.StationService.FindSchedulesByDestination` | src/pkcg/service/StationService.java:129-137 | the loop builds exactly SchedulesTo(schedules, destination) |
| `Services.StationService.ReserveSeat` | src/pkcg/service/StationService.java:147-151 | one new unconfirmed reservation with the given seat is appended; the seat is not checked |
| `Services.StationService.ConfirmReservation` | src/pkcg/service/StationService.java:159-167 | true iff some reservation has the id; only the first match is confirmed |
| `Services.StationService.CancelReservation` | src/pkcg/service/StationService.java:175-177 | every reservation with the id is removed, the rest keep their order; true iff one was removed |
| `Services.TicketsOf` | src/pkcg/service/TicketService.java:52-60 | exactly the tickets whose customer equals the argument, in purchase order |
| `Services.Revenue` | src/pkcg/service/TicketService.java:67-69 | the sum of the prices, 0 for no tickets, never negative when no price is |
| `Services.RevenueAppend` | src/pkcg/service/TicketService.java:67-69 | the revenue of a concatenation is the sum of the revenues |
| `Services.TicketService.constructor` | src/pkcg/service/TicketService.java:26-28 | no tickets; the station service is ignored |
| `Services.TicketService.PurchaseTicket` | src/pkcg/service/TicketService.java:39-44 | the new ticket, priced base or base × 1.5, is appended to the ledger and to the customer's list, is in that customer's tickets, and adds its price to the revenue |
| `Services.TicketService.TotalRevenue` | src/pkcg/service/TicketService.java:67-69 | 0 for an empty ledger, never negative when no price is, and each purchase adds its price to the previous total |
| `Services.TicketService.AllTickets` | src/pkcg/service/TicketService.java:76-78 | the live ledger itself: every purchase, in purchase order |
| `Services.TicketService.GetTicketsByCustomer` | src/pkcg/service/TicketService.java:52-60 | the loop builds exactly TicketsOf(tickets, customer) |
| `Repositories.Database.constructor` | src/pkcg/service/DatabaseService.java:27-40 | a fresh, empty store (a modelling choice: `CREATE TABLE IF NOT EXISTS` keeps the rows of an existing database); connected iff the connection was made, and the empty tables satisfy the foreign keys |
| `Repositories.Database.Close` | src/pkcg/service/DatabaseService.java:80-90 | afterwards the connection is closed |
| `Repositories.StationRepository.FindByName` | src/pkcg/repository/StationRepository.java:73-89 | a station iff connected and the row exists, rebuilt with platforms 1..platform_count |
| `Repositories.StationRepository.FindAll` | src/pkcg/repository/StationRepository.java:53-71 | one rebuilt station per row, each name once; empty when disconnected |
| `Repositories.StationRepository.Update` | src/pkcg/repository/StationRepository.java:91-104 | platform_count becomes the number of platforms; true iff the row existed |
| `Repositories.StationRepository.Save` | src/pkcg/repository/StationRepository.java:31-51 | inserts or updates, so the name is stored once with the station's number of platforms |
| `Repositories.StationRepository.Delete` | src/pkcg/repository/StationRepository.java:106-116 | removes only that row; true iff it existed and no route refers to it |
| `Repositories.StationRepository.ClearAll` | src/pkcg/repository/StationRepository.java:118-128 | empties the table when connected and no route is stored; otherwise nothing changes |
| `Repositories.StationRoundTrip` | src/pkcg/repository/StationRepository.java:31-89 | after save, findByName gives the same name and the number of platforms, so the same station when the count is not negative |
| `Repositories.TrainRepository.Save` | src/pkcg/repository/TrainRepository.java:32-45 | inserts a new number; a stored number is rejected and the table is unchanged |
| `Repositories.TrainRepository.FindByNumber` | src/pkcg/repository/TrainRepository.java:68-85 | the stored type and capacity iff connected and the row exists |
| `Repositories.TrainRepository.FindAll` | src/pkcg/repository/TrainRepository.java:47-66 | one train per row, each number once; empty when disconnected |
| `Repositories.TrainRepository.Update` | src/pkcg/repository/TrainRepository.java:87-101 | overwrites type and capacity of that row only; true iff it existed |
| `Repositories.TrainRepository.Delete` | src/pkcg/repository/TrainRepository.java:103-113 | removes only that row; true iff it existed |
| `Repositories.TrainRepository.ClearAll` | src/pkcg/repository/TrainRepository.java:115-125 | empties the table when connected, otherwise nothing changes |
| `Repositories.TrainRoundTrip` | src/pkcg/repository/TrainRepository.java:32-85 | a new train saved and read back is the same train |
| `Repositories.StationsAfterRouteSave` | src/pkcg/repository/RouteRepository.java:64-82 | both ends are stored afterwards; other stored stations keep their rows; nothing else is added |
| `Repositories.RouteSaveKeepsStoredStations` | src/pkcg/repository/RouteRepository.java:64-82 | a station already stored keeps its count; a missing end is inserted with its number of platforms |
| `Repositories.RoutesAfterInsert` | src/pkcg/repository/RouteRepository.java:85-92 | a new pair is inserted with the price; a stored pair leaves the table unchanged |
| `Repositories.RoutesAfterUpsert` | src/pkcg/repository/RouteRepository.java:55-57 | the pair holds the new price and every other pair keeps its own |
| `Repositories.SaveLosesPriceEdit` | src/pkcg/repository/RouteRepository.java:85-92 | a stored route re-saved with an edited price keeps its old price |
| `Repositories.SaveOrUpdateKeepsPriceEdit` | src/pkcg/repository/RouteRepository.java:55-57 | the corrected save stores the edited price, and differs from the written one exactly when a stored pair's price changed |
| `Repositories.RouteRepository.constructor` | src/pkcg/repository/RouteRepository.java:28-32 | its station repository shares the connection |
| `Repositories.RouteRepository.Save` | src/pkcg/repository/RouteRepository.java:61-96 | the missing stations are inserted first, then a new pair is inserted with its price, and a stored pair keeps its price; foreign keys hold |
| `Repositories.RouteRepository.SaveOrUpdate` | src/pkcg/repository/RouteRepository.java:55-96 | as Save, but the route's current price is stored whether the pair is new or stored |
| `Repositories.RouteRepository.FindAll` | src/pkcg/repository/RouteRepository.java:104-129 | a route per row whose two stations are found, each pair once, at its stored price; other rows are dropped |
| `Repositories.RouteRepository.FindByStations` | src/pkcg/repository/RouteRepository.java:138-167 | a route at the stored price iff connected, the pair's row exists and both stations exist |
| `Repositories.RouteRepository.UpdatePrice` | src/pkcg/repository/RouteRepository.java:176-190 | only that pair's price changes; true iff its row existed |
| `Repositories.RouteRepository.Delete` | src/pkcg/repository/RouteRepository.java:198-211 | removes only that pair; true iff it existed |
| `Repositories.RouteRepository.ClearAll` | src/pkcg/repository/RouteRepository.java:217-228 | empties the table when connected, otherwise nothing changes |
| `Repositories.RouteRoundTrip` | src/pkcg/repository/RouteRepository.java:61-167 | after save, findByStations finds the pair at the saved price if it was new, and at the old price if it was stored |
| `Repositories.TypeTag` | src/pkcg/repository/UserRepository.java:72-81 | "ADMIN" exactly for admins and "CUSTOMER" exactly for customers |
| `Repositories.ProfileOf` | src/pkcg/repository/UserRepository.java:103-109 | a row is read back iff its type is ADMIN or CUSTOMER, as the kind that type names |
| `Repositories.NewUserRowRoundTrip` | src/pkcg/repository/UserRepository.java:65-81 | the inserted row reads back as the same kind, name and e-mail, with the same password |
| `Repositories.UpdateKeepsType` | src/pkcg/repository/UserRepository.java:146-170 | update never changes user_type, always sets the password |
| `Repositories.UserRepository.constructor` | src/pkcg/repository/UserRepository.java:17-25 | isConnected is the connection state at construction |
| `Repositories.UserRepository.Update` | src/pkcg/repository/UserRepository.java:146-175 | an admin sets the password only, a customer the password, name and e-mail; true iff live and a row matched |
| `Repositories.UserRepository.Save` | src/pkcg/repository/UserRepository.java:49-87 | a stored username goes through update; a new one is inserted tagged ADMIN (NULL name and e-mail) or CUSTOMER; nothing when disconnected |
| `Repositories.UserRepository.FindByUsername` | src/pkcg/repository/UserRepository.java:118-144 | a user iff live, the row exists and its type is ADMIN or CUSTOMER, with the stored password and kind |
| `Repositories.UserRepository.FindAll` | src/pkcg/repository/UserRepository.java:89-116 | one user per ADMIN or CUSTOMER row, each username once; other rows skipped; empty when disconnected |
| `Repositories.UserRepository.Delete` | src/pkcg/repository/UserRepository.java:177-189 | removes only that row; true iff live and it existed |
| `Repositories.UserRepository.ClearAll` | src/pkcg/repository/UserRepository.java:191-201 | empties the table when live, otherwise nothing changes |
| `Repositories.UserRepository.ClearAllExceptAdmin` | src/pkcg/repository/UserRepository.java:203-213 | keeps exactly the rows whose type is ADMIN |
| `Repositories.UserRoundTrip` | src/pkcg/repository/UserRepository.java:49-144 | a new user saved and read back has the same username, password and kind, name and e-mail included |

## Left out

- The console menu (src/pkcg/Menu.java) and its admission checks: origin ≠ destination, departure before arrival, the platform bound and seat ≤ capacity. These are presentation logic interleaved with prompting.
- src/pkcg/Main.java (a demo driver) and src/pkcg/service/AuditService.java (file appends with wall-clock timestamps).
- The Scanner loops of the `read*` prompts. Each `Read...Line` function gives the decision on one line, and re-prompting is the `Reprompt` answer. `readValidDouble` is left out with the rest of floating-point parsing.
- Validation.IsValidPassword: `Character.isLetter` and `Character.isDigit` are taken as ASCII letters and digits, not the Unicode classes. The length bound counts code points, where Java counts UTF-16 units: a 20-code-point password holding one character beyond the Basic Multilingual Plane is 21 units long, which Java rejects and the model accepts.
- Text.ParseInt: only the ASCII digits 0-9 are digits. `Integer.parseInt` also accepts other Unicode decimal digits (for example Arabic-Indic "١٢٣"), for which the model answers None.
- Text.HashCode: the hash runs over code points, where `String.hashCode` runs over UTF-16 units; the two differ for characters beyond the Basic Multilingual Plane.
- Validation.ReadTimeLine: the second check through `LocalTime.parse` is dropped. It accepts every line the pattern accepts.
- Text: `toUpperCase` and `equalsIgnoreCase` fold ASCII letters only. `compareTo` compares code points where Java compares UTF-16 code units, which differ only beyond the Basic Multilingual Plane.
- Floating point: prices are exact reals, so the rounding of `basePrice * 1.5` and the summation order of `getTotalRevenue` are not modelled. The `DECIMAL(10, 2)` rounding of stored route prices is not modelled either.
- Ticket and reservation ids are parameters of length 8. UUID generation is not modelled.
- DatabaseService is only the `connected` flag and `closeConnection`; JDBC driver loading is not modelled. `CREATE TABLE`, serial ids, result-set iteration and SQL failures other than constraint violations and a closed connection are not modelled. Nor is the NullPointerException a null connection raises in the station, train and route repositories, or the failure of `UserRepository.initTable` that clears `isConnected`.
- Repositories.UserRepository.FindByUsername: a NULL full_name or email in a CUSTOMER row reads as the empty string, because the model's strings are never null.
- Java `null` arguments (a null station, route, user or ticket) are not modelled, apart from the null password, e-mail and current user. `User.equals` is modelled for users and null only; for any other object it answers false.
- `toString` and the `println` calls inside `authenticate` (output only). Getters are the fields themselves, and `getTickets` is the live `tickets` field.
- Platform, Train, Schedule and Admin are data holders. They appear as datatypes or as the admin profile of `User`, not as separate models.
- Concurrency: none in the source.

## Findings

| source | as written | input that shows it | evidently intended | confidence | as-written member | corrected member |
|---|---|---|---|---|---|---|
| src/pkcg/repository/RouteRepository.java:85-92 | `save` only INSERTs. A stored (origin, destination) pair violates `unique_route`, and the error is swallowed, so the row keeps its old price. The price edit the menu saves through it (src/pkcg/Menu.java:688-689) is therefore never persisted. | Bucuresti→Brasov stored at 250.0; the route's price is set to 300.0 and the route is saved | `save` stores the new price of an existing route, as its documentation (line 56) says: "or updates it if it already exists" | not executed; high | `Repositories.SaveLosesPriceEdit` | `Repositories.RouteRepository.SaveOrUpdate` |
