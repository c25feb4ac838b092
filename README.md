# Hotel booking core in Dafny

A model of the in-memory hotel booking system hotel-management-tdd.

- **Rooms** keep a list of booked stays. Each stay is the half-open day interval [start, end).
  - A stay is available when no booked stay overlaps it. Stays that only touch do not overlap.
  - Bookings are appended after that check.
  - Cancelling removes the first booking that is exactly equal to the stay.
- **Hotels** own their rooms, keyed by room id in insertion order. They answer "which rooms are free for these dates and this many guests" and offer a soft-failure booking path.
- **The hotel database** is a keyed registry. Its search matches a location inside the address, ignoring case, with a minimum star rating.
- **Reservations** are a three-state lifecycle: confirmed, cancelled, completed.
  - Creating a reservation books the room and prices the stay at nights × nightly price.
  - Cancelling is one-shot and gives the stay back to the room.
  - The reservation manager registers reservations, lists them per user and per hotel, and cancels them after checking that the hotel and room match.
- **Users** are created through an ordered chain of validators:
  - presence of every field;
  - no digits in names, and a first name of at most 100 characters;
  - email shape and phone shape;
  - password strength.
  - Users are then updated in place, field by field. Their password is checked and changed through a hash.
  - The user manager indexes users by their stripped email.

Files, one Dafny module each:

- `common.dfy`:
  - `Option`, and `Result`/`Outcome` for operations that raise;
  - the error kinds;
  - the order-preserving `Filter` behind the hotel search and the per-user and per-hotel reservation lists, with `Subseq` to state order;
  - `ValuesAt`, the values of a map in key-insertion order.
- `text.dfy`: ASCII whitespace stripping, ASCII lower-casing, substring containment, character classes.
- `hotel.dfy`:
  - the `Room`, `Hotel` and `HotelDatabase` classes;
  - the interval predicates (`Overlaps`, `Free`, `Disjoint`);
  - the reference function `FreeRooms` that the available-rooms loop is proved against (the search loop is proved against `Filter` from `common.dfy`).
- `reservation.dfy`: the `Reservation` class, `Create`, and `ReservationManager`.
- `user.dfy`:
  - the validators and the creation check `CheckNewUser`;
  - the update steps and their composition `ApplyPatch`;
  - the `User` and `UserManager` classes.

Modelling choices:

- **Exceptions.** Every raised error becomes a `Failure`/`Fail` value carrying the kind of error. The state it leaves behind is stated in the contract.
- **Dicts.** An insertion-ordered dict is a `seq` of keys plus a `map`.
- **Dates and prices.** Dates are integer day numbers, so a stay lasts `end - start` nights. Prices are integers.
- **Ids.** A generated id (a random UUID in the system) is a parameter supplied by the caller. User ids are assumed non-empty and not in use. Reservation ids are unconstrained; a duplicate is refused when the reservation is added to the manager.
- **Password hash.** The hash is a function `hasher` handed to the user and to the user manager. Nothing is assumed about it; in particular it is not assumed to be injective.
- **Stored objects.** Rooms kept by a hotel and reservations kept by the reservation manager satisfy their class invariant (`Valid()`). Hotels kept by the database are only required to have a rating in 1..5. Users have no invariant of their own; the user manager requires that every stored user shares its hash function. The constructors establish these conditions and every operation preserves them.

## Model

| member | source | states |
|---|---|---|
| Hotels.Room.IsAvailable | src/hotel.py:43-49 | an empty or reversed stay is an invalid range; otherwise the answer is true exactly when no booked stay overlaps [s, e) |
| Hotels.TouchingStaysAreFree | src/hotel.py:46-49 | a booked stay that the requested stay only touches (ending at its start or starting at its end) never makes the requested stay unavailable |
| Hotels.BookedBlocks | src/hotel.py:46-48 | a booked stay blocks every requested stay that overlaps it, itself included |
| Hotels.Room.AddBooking | src/hotel.py:62-67 | an invalid range or an overlap is refused and leaves the bookings unchanged; otherwise the stay is appended, the room invariant (non-empty, pairwise non-overlapping stays) still holds, and the stay is no longer available |
| Hotels.AppendKeepsDisjoint | src/hotel.py:62-67 | appending a non-empty stay that overlaps no booking keeps the bookings non-empty and pairwise non-overlapping |
| Hotels.Room.RemoveBooking | src/hotel.py:80-84 | reports whether the exact stay was booked; the bookings become the old ones with the first exact match removed, overlapping stays are kept, and the room invariant is preserved |
| Hotels.RemoveFirst | src/hotel.py:81-82 | without a match the bookings are unchanged; with one the list is one shorter, entries before the first match keep their place and later ones move up by one |
| Hotels.RemoveFirstDropsOne | src/hotel.py:81-82 | removing takes exactly one copy of the stay out of the multiset of bookings |
| Hotels.RemoveKeepsDisjoint | src/hotel.py:80-84 | removing any stay keeps the bookings non-empty and pairwise non-overlapping |
| Hotels.Room.constructor | src/hotel.py:14-30 | a new room stores its fields and has no bookings |
| Hotels.NewHotel | src/hotel.py:103-110 | a hotel is refused exactly when its star rating lies outside 1..5; otherwise it stores its fields and has no rooms |
| Hotels.Hotel.constructor | src/hotel.py:103-110 | a hotel with a rating in 1..5 starts with no rooms and satisfies the hotel invariant |
| Hotels.Hotel.AddRoom | src/hotel.py:122-124 | a room id already present is refused with nothing changed; otherwise the id maps to the room and is appended to the insertion order |
| Hotels.Hotel.GetRoom | src/hotel.py:136 | finds a room exactly when its id is present, and that room carries the id |
| Hotels.Hotel.GetAvailableRooms | src/hotel.py:151-158 | an invalid range is refused; otherwise the result is the reference list FreeRooms over the rooms in insertion order |
| Hotels.CollectFree | src/hotel.py:154-158 | the scan over the rooms, querying each room's availability, computes exactly FreeRooms |
| Hotels.Hotel.AvailableRoomsExactly | src/hotel.py:151-158 | the available rooms keep insertion order, each is a room of the hotel that is free with enough capacity, and every such room is included |
| Hotels.FreeRoomsExactly | src/hotel.py:155-157 | a room is kept exactly when it is free for the stay and holds at least the requested number of guests |
| Hotels.FreeRoomsInOrder | src/hotel.py:155-157 | the kept rooms appear in the order of the input |
| Hotels.Hotel.BookRoom | src/hotel.py:172-179 | an invalid range is refused; the answer is true exactly when the room exists and is free; then the stay is appended to that room, otherwise no room changes; other rooms never change |
| Hotels.HotelDatabase.constructor | src/hotel.py:187 | a new database holds no hotels |
| Hotels.HotelDatabase.AddHotel | src/hotel.py:199-201 | a hotel id already present is refused with nothing changed; otherwise the id maps to the hotel and is appended to the insertion order |
| Hotels.HotelDatabase.GetHotel | src/hotel.py:213 | finds a hotel exactly when its id is registered, and that hotel carries the id |
| Hotels.HotelDatabase.SearchHotels | src/hotel.py:226-234 | a minimum rating outside 1..5 is refused; otherwise the loop computes the insertion-ordered filter of registered hotels by search hit |
| Hotels.HotelDatabase.SearchFindsExactlyHits | src/hotel.py:229-234 | the search result keeps insertion order, contains only registered hotels whose lower-cased address contains the lower-cased location with rating at least the minimum, and contains every such hotel |
| Hotels.HotelDatabase.EmptySearchFindsAll | src/hotel.py:215-234 | with an empty location and minimum rating 1 the search returns every registered hotel in insertion order |
| Reservations.Reservation.constructor | src/reservation.py:35-45 | a reservation over a non-empty stay stores its fields and starts confirmed |
| Reservations.NewReservation | src/reservation.py:35-45 | construction is refused exactly when start is not before end; otherwise the reservation holds the given fields and is confirmed |
| Reservations.Create | src/reservation.py:67-95 | an invalid range or an unavailable room is refused with the room unchanged; success happens exactly when the stay is valid and free, and gives a fresh confirmed reservation copying the hotel, room and user ids, priced at nights × nightly price, with the stay appended to the room's bookings |
| Reservations.Reservation.Cancel | src/reservation.py:107-111 | a confirmed reservation becomes cancelled and reports whether the room still held its exact stay, which is removed; any other status reports false and changes neither status nor room |
| Reservations.CancelTwice | src/reservation.py:107-111 | a second cancellation always reports false, and a reservation that was not confirmed reports false both times |
| Reservations.Reservation.Nights | src/reservation.py:120 | the nights of a reservation are at least one and reach from the start date to the end date |
| Reservations.ReservationManager.constructor | src/reservation.py:128 | a new manager holds no reservations |
| Reservations.ReservationManager.AddReservation | src/reservation.py:140-143 | an id already present is refused with nothing changed; otherwise the id maps to the reservation and is appended to the insertion order |
| Reservations.ReservationManager.GetReservation | src/reservation.py:155 | finds a reservation exactly when its id is registered, and that reservation carries the id |
| Reservations.ReservationManager.UserReservations | src/reservation.py:167-170 | the result keeps insertion order, holds only stored reservations of that user, and holds every one of them |
| Reservations.ReservationManager.HotelReservations | src/reservation.py:182-185 | the result keeps insertion order, holds only stored reservations at that hotel, and holds every one of them |
| Reservations.ReservationManager.CancelReservation | src/reservation.py:199-205 | an unknown id gives false with nothing changed; a hotel or room that does not match is refused with nothing changed; otherwise the reservation's own cancellation decides; other reservations keep their status |
| Users.ValidEmailIffSplit | src/user.py:74-76 | the email check accepts exactly the strings made of a non-empty local part over letters, digits and `._%+-`, then `@`, a non-empty domain over letters, digits, `.` and `-`, then `.` and two or more letters |
| Users.ValidPhoneIffSpelling | src/user.py:79-81 | the phone check accepts exactly an optional `+` followed by 9 to 15 digits |
| Users.ValidatePassword | src/user.py:112-117 | a password passes exactly when it has at least 8 characters, a letter and a digit; otherwise it is a weak password |
| Users.Stripped | src/user.py:56-59 | the stored names, email and phone are the stripped inputs and carry no surrounding whitespace |
| Users.CheckFieldsAccepts | src/user.py:62-84 | on stripped fields the checks accept exactly a valid profile with a strong password, and report a missing field exactly when a field or the password is empty |
| Users.CheckFieldsReportsFirstFailure | src/user.py:62-84 | the creation checks report the first failing one, in the order missing field, digit in a name, first-name length, email, phone, password rule |
| Users.CheckNewUser | src/user.py:56-84 | a successful creation check yields the stripped fields |
| Users.CheckNewUserAccepts | src/user.py:56-84 | creation accepts exactly the input whose stripped fields form a valid profile and whose unstripped password is strong, and keeps the stripped fields; a missing field is reported exactly when a stripped field or the password is empty |
| Users.CheckNewUserStripsEmail | src/user.py:58 | stripping the email before creation changes nothing, since creation strips it again |
| Users.NewUser | src/user.py:56-99 | creation fails exactly when the checks fail, with their error; otherwise the fresh user stores the stripped fields and the hash of the password, so that password verifies |
| Users.User.constructor | src/user.py:16-34 | a user stores the given id, fields and password hash without checking them |
| Users.User.VerifyPassword | src/user.py:132-142 | a password verifies exactly when its hash equals the stored hash, for any hash function |
| Users.EmailStep | src/user.py:163-169 | an email given in an update passes exactly when its stripped form passes the email check, and it is then stored stripped |
| Users.FirstNameStep | src/user.py:171-179 | a first name given in an update passes exactly when, stripped, it is non-empty, digit-free and at most 100 characters, and it is then stored stripped; a failure reports the first broken rule in that order (missing field, digit in the name, too long) |
| Users.LastNameStep | src/user.py:181-187 | a last name given in an update passes exactly when, stripped, it is non-empty and digit-free, and it is then stored stripped (no length limit applies); a failure reports a missing field before a digit in the name |
| Users.PhoneStep | src/user.py:189-195 | a phone given in an update passes exactly when its stripped form passes the phone check, and it is then stored stripped |
| Users.UpdateFieldByField | src/user.py:163-195 | an update succeeds exactly when every given field passes; each field takes its new value exactly when it and every earlier field passed, so a failure leaves the failing field and all later ones unchanged |
| Users.UpdateKeepsProfileValid | src/user.py:163-195 | an update, successful or not, keeps a valid profile valid |
| Users.User.UpdateData | src/user.py:163-195 | the user's data and the outcome are those of the field-by-field update, validity of the data is preserved, and the password hash is untouched |
| Users.User.UpdateEmail | src/user.py:163-169 | the email step applied in place: stored on success, nothing changed on failure |
| Users.User.UpdateFirstName | src/user.py:171-179 | the first-name step applied in place: stored on success, nothing changed on failure |
| Users.User.UpdateLastName | src/user.py:181-187 | the last-name step applied in place: stored on success, nothing changed on failure |
| Users.User.UpdatePhone | src/user.py:189-195 | the phone step applied in place: stored on success, nothing changed on failure |
| Users.User.ChangePassword | src/user.py:208-214 | a wrong old password or a weak new one is refused, in that order, with the hash kept; success happens exactly when both checks pass, and then the new password verifies; the profile never changes |
| Users.UserManager.constructor | src/user.py:245-246 | a new manager holds no users and no email index |
| Users.UserManager.RegisterUser | src/user.py:267-278 | a stripped email already registered is refused; otherwise a failed creation check is refused with its error, and passing checks always succeed; on any failure neither map changes; on success the fresh user carries the given id and the stripped names, email and phone, is stored under its id and indexed by the stripped email, and it keeps the manager's hash function and stores the hash of the password, so its password verifies |
| Users.UserManager.Enrol | src/user.py:273-276 | creates the user from an already-stripped email: it fails exactly when the creation checks fail, leaving both maps unchanged; otherwise the fresh user carries the given id and the checked fields, keeps the manager's hash function, stores the hash of the password, and both maps are updated |
| Users.UserManager.GetUser | src/user.py:290 | finds a user exactly when the id is registered, and that user carries the id |
| Users.UserManager.GetUserByEmail | src/user.py:303-308 | finds a user exactly when the stripped email is indexed, and it is the user registered under that email; the match is exact, so case matters |
| Users.UserManager.Authenticate | src/user.py:322-327 | returns the user registered under the stripped email exactly when the password verifies against that user's hash |
| Users.UserManager.AuthenticateAfterRegistration | src/user.py:322-327 | once the user registered under an email stores the hash of a password, as registration leaves it, logging in with another password succeeds exactly when it hashes to the same value, so a wrong password is refused |
| Users.UserManager.AuthenticateIgnoresPadding | src/user.py:322 | whitespace around the email given at login does not change the result |
| Text.Strip | src/user.py:56-59 | the stripped string has no whitespace at either end and is no longer than the input |
| Text.StripIdempotent | src/user.py:58 | stripping twice gives the same as stripping once |
| Text.StripPadding | src/user.py:303 | whitespace added around a string does not change what stripping gives |
| Text.StripUnique | src/user.py:56-59 | a string without whitespace at its ends comes back unchanged from any whitespace padding |
| Text.LowerChar | src/hotel.py:231 | a capital ASCII letter becomes its small letter (32 code points on); every other character stays as it is |
| Text.LowerIgnoresCase | src/hotel.py:231 | two strings lower-case to the same string exactly when they differ only in the case of their ASCII letters |
| Text.LowerSlice | src/hotel.py:231 | lower-casing a piece of a string gives the same piece of the lower-cased string |
| Hotels.AddressMatchIgnoresCase | src/hotel.py:231 | whether an address matches a location does not depend on the case of either |
| Hotels.ContainedLocationMatches | src/hotel.py:231 | a location that occurs inside the address matches it, in whatever case the location is given |
| Hotels.SearchIgnoresCase | src/hotel.py:231-232 | a hotel is a search hit for a location exactly when it is one for the same location in another case |
| Text.EmptyContained | src/hotel.py:231 | the empty location occurs in every address |
| Common.IndexOfIsFirst | src/user.py:74 | the position found for `@` is its first occurrence, which is where the email pattern must split |
| Common.LastIndexOfIsLast | src/user.py:74 | the position found for `.` is its last occurrence, which is where the email pattern must split |
| Common.Filter | src/reservation.py:167-170 | the filtered list holds only input elements that pass, and every input element that passes |
| Common.FilterInOrder | src/reservation.py:167-170 | a filter keeps the order of its input |
| Common.FilterAll | src/hotel.py:229-234 | a filter that every element passes returns its input unchanged |

## Left out

- Id generation (a random UUID for users and reservations) is not modelled. The id is a parameter. Registration asks only that a user id is non-empty and not in use; reservation ids are unconstrained, and the manager refuses a duplicate.
- The SHA-256 password hash is not modelled. It is the parameter `hasher`. Properties of password checks hold for any hash; none assumes that different passwords hash differently.
- Calendar dates are integer day numbers. Day arithmetic is integer subtraction.
- Floating-point prices are integers, so the price of a stay is exact.
- Text.Strip: removes ASCII whitespace only (space, tab, line feed, vertical tab, form feed, carriage return, 0x1C..0x1F). The system also strips non-ASCII Unicode whitespace.
- Text.LowerChar: folds ASCII capitals only, so lower-casing a string folds ASCII letters only. The system also folds non-ASCII letters, for example Polish ones.
- Text.LowerIgnoresCase: case means ASCII case only, for the same reason.
- Hotels.AddressMatchIgnoresCase: case means ASCII case only, for the same reason.
- Hotels.ContainedLocationMatches: case means ASCII case only, for the same reason.
- Hotels.SearchIgnoresCase: case means ASCII case only, for the same reason.
- Users.CheckFieldsAccepts: the digit test in names sees only ASCII digits. The system's pattern also treats non-ASCII decimal digits as digits.
- Users.CheckNewUserAccepts: the digit test in names sees only ASCII digits. The system's pattern also treats non-ASCII decimal digits as digits.
- Users.CheckFieldsReportsFirstFailure: the digit test in names sees only ASCII digits. The system's pattern also treats non-ASCII decimal digits as digits.
- Users.FirstNameStep: the digit test sees only ASCII digits. The system's pattern also treats non-ASCII decimal digits as digits.
- Users.LastNameStep: the digit test sees only ASCII digits. The system's pattern also treats non-ASCII decimal digits as digits.
- Users.ValidatePassword: the letter and digit tests see only ASCII characters. The letter class of the system is ASCII too, but its digit test also accepts non-ASCII decimal digits, so a password such as seven letters followed by an Arabic-Indic digit passes there and is refused here.
- Default arguments are not modelled: the minimum capacity of the available-rooms query (1) and the location ("") and minimum rating (1) of the hotel search are explicit parameters. No behaviour is lost; Hotels.HotelDatabase.EmptySearchFindsAll covers the default search.
- The human-readable error messages are left out. Only the kind of error and the condition that raises it are modelled.
- `full_name` and `to_dict` are left out. They are record projections into a display string and a dictionary, with nothing to prove about them.
- The `completed` status is never entered: no operation of the system sets it. It appears only as a status on which cancelling does nothing.
- Concurrency is not modelled. The check-then-book sequences in booking and in reservation creation are a race only under concurrent use, which the system does not have.
- Hotels.Room.AddBooking: requires the room invariant (non-empty, non-overlapping stays). The room constructor establishes it and every room operation preserves it; outside code writing into the booking list directly is not modelled.
- Hotels.Room.RemoveBooking: requires the room invariant (non-empty, non-overlapping stays). The room constructor establishes it and every room operation preserves it; outside code writing into the booking list directly is not modelled.
- Hotels.Hotel.AddRoom: requires the room invariant (non-empty, non-overlapping stays). The room constructor establishes it and every room operation preserves it; outside code writing into the booking list directly is not modelled.
- Reservations.Reservation.Cancel: requires the room invariant (non-empty, non-overlapping stays). The room constructor establishes it and every room operation preserves it; outside code writing into the booking list directly is not modelled.
- Reservations.Create: requires the room invariant (non-empty, non-overlapping stays). The room constructor establishes it and every room operation preserves it; outside code writing into the booking list directly is not modelled.
- Reservations.CancelTwice: requires the room invariant (non-empty, non-overlapping stays). The room constructor establishes it and every room operation preserves it; outside code writing into the booking list directly is not modelled.
- Reservations.ReservationManager.CancelReservation: requires the room invariant (non-empty, non-overlapping stays). The room constructor establishes it and every room operation preserves it; outside code writing into the booking list directly is not modelled.
- Hotels.HotelDatabase.AddHotel: requires the hotel's rating to be in 1..5. Every hotel the constructor builds satisfies this.
- Reservations.ReservationManager.AddReservation: requires a reservation with start before end. Every reservation the constructor or `Create` builds satisfies this.
