/** Reservations: one booked stay of a user in a room of a hotel, with its
    price and lifecycle status, and the registry that keeps them. A
    reservation refers to its hotel, room and user by id only; cancelling
    needs the live room handed in again. */
module Reservations {
  import opened Common
  import opened Hotels
  import Users

  /** Lifecycle: confirmed on creation, then cancelled or completed for good. */
  datatype Status = Confirmed | Cancelled | Completed

  class Reservation {
    const reservationId: string
    const hotelId: string
    const roomId: string
    const userId: string
    const startDate: int
    const endDate: int
    const totalPrice: int
    var status: Status

    /** A reservation always covers at least one night. */
    predicate Valid() {
      startDate < endDate
    }

    constructor (reservationId: string, hotelId: string, roomId: string, userId: string,
                 startDate: int, endDate: int, totalPrice: int)
      requires startDate < endDate
      ensures this.reservationId == reservationId && this.hotelId == hotelId
      ensures this.roomId == roomId && this.userId == userId
      ensures this.startDate == startDate && this.endDate == endDate
      ensures this.totalPrice == totalPrice && status == Confirmed && Valid()
    {
      this.reservationId := reservationId;
      this.hotelId := hotelId;
      this.roomId := roomId;
      this.userId := userId;
      this.startDate := startDate;
      this.endDate := endDate;
      this.totalPrice := totalPrice;
      status := Confirmed;
    }

    /** The number of nights booked: the days from start to end, at least one. */
    function Nights(): (n: int)
      requires Valid()
      ensures n >= 1
      ensures startDate + n == endDate
    {
      endDate - startDate
    }

    /** Cancels a confirmed reservation and gives its stay back to `room`,
        reporting whether the room still held that exact stay. Any other
        status is left as it is and reported as false. */
    method Cancel(room: Room) returns (ok: bool)
      requires room.Valid()
      modifies this, room
      ensures room.Valid()
      ensures old(status) == Confirmed ==>
        && status == Cancelled
        && ok == (Interval(startDate, endDate) in old(room.bookedDates))
        && room.bookedDates == RemoveFirst(old(room.bookedDates), Interval(startDate, endDate))
      ensures old(status) != Confirmed ==>
        !ok && status == old(status) && room.bookedDates == old(room.bookedDates)
    {
      if status == Confirmed {
        status := Cancelled;
        ok := room.RemoveBooking(startDate, endDate);
        return;
      }
      return false;
    }
  }

  /** Builds a reservation from its parts; a start date not before the end
      date is an invalid range. */
  method NewReservation(reservationId: string, hotelId: string, roomId: string, userId: string,
                        startDate: int, endDate: int, totalPrice: int)
    returns (r: Result<Reservation>)
    ensures r.Failure? <==> startDate >= endDate
    ensures r.Failure? ==> r.error == InvalidRange
    ensures r.Success? ==>
      && fresh(r.value)
      && r.value.reservationId == reservationId && r.value.hotelId == hotelId
      && r.value.roomId == roomId && r.value.userId == userId
      && r.value.startDate == startDate && r.value.endDate == endDate
      && r.value.totalPrice == totalPrice && r.value.status == Confirmed
  {
    if startDate >= endDate {
      return Failure(InvalidRange);
    }
    var reservation := new Reservation(reservationId, hotelId, roomId, userId, startDate, endDate, totalPrice);
    return Success(reservation);
  }

  /** Books `room` for [s, e) on behalf of `user` and returns the confirmed
      reservation under the fresh id `reservationId`. The price is the number
      of nights times the room's nightly price. An invalid range or a clash
      with an existing booking is refused and leaves the room untouched. */
  method Create(hotel: Hotel, room: Room, user: Users.User, s: int, e: int, reservationId: string)
    returns (r: Result<Reservation>)
    requires room.Valid()
    modifies room
    ensures room.Valid()
    ensures s >= e ==> r == Failure(InvalidRange)
    ensures s < e && !Free(old(room.bookedDates), s, e) ==> r == Failure(Unavailable)
    ensures r.Failure? ==> room.bookedDates == old(room.bookedDates)
    ensures r.Success? <==> s < e && Free(old(room.bookedDates), s, e)
    ensures r.Success? ==>
      && fresh(r.value)
      && r.value.reservationId == reservationId
      && r.value.hotelId == hotel.hotelId && r.value.roomId == room.roomId && r.value.userId == user.userId
      && r.value.startDate == s && r.value.endDate == e
      && r.value.status == Confirmed && r.value.Valid()
      && r.value.totalPrice == (e - s) * room.price
      && r.value.totalPrice == r.value.Nights() * room.price
      && room.bookedDates == old(room.bookedDates) + [Interval(s, e)]
  {
    if s >= e {
      return Failure(InvalidRange);
    }
    var available := room.IsAvailable(s, e);
    if available != Success(true) {
      return Failure(Unavailable);
    }
    var days := e - s;
    var totalPrice := days * room.price;
    var reservation := new Reservation(reservationId, hotel.hotelId, room.roomId, user.userId, s, e, totalPrice);
    var booked := room.AddBooking(s, e);
    return Success(reservation);
  }

  /** Cancelling twice: the second call always reports false, and the
      reservation ends cancelled if it was confirmed, unchanged otherwise. */
  method CancelTwice(reservation: Reservation, room: Room) returns (first: bool, second: bool)
    requires room.Valid()
    modifies reservation, room
    ensures room.Valid()
    ensures !second
    ensures old(reservation.status) != Confirmed ==> !first
    ensures reservation.status == if old(reservation.status) == Confirmed then Cancelled else old(reservation.status)
  {
    first := reservation.Cancel(room);
    second := reservation.Cancel(room);
  }

  class ReservationManager {
    /** Reservations by id; `order` lists the ids in the order they were added. */
    var reservations: map<string, Reservation>
    var order: seq<string>

    predicate Valid()
      reads this
    {
      && NoDups(order)
      && (forall k :: k in order ==> k in reservations)
      && (forall k :: k in reservations ==> k in order)
      && (forall k :: k in reservations ==> reservations[k].reservationId == k && reservations[k].Valid())
    }

    constructor ()
      ensures reservations == map[] && order == [] && Valid()
    {
      reservations := map[];
      order := [];
    }

    /** Stores `reservation` under its own id; an id already present is refused. */
    method AddReservation(reservation: Reservation) returns (o: Outcome)
      requires Valid() && reservation.Valid()
      modifies this
      ensures Valid()
      ensures o.Fail? <==> reservation.reservationId in old(reservations)
      ensures o.Fail? ==> o.error == DuplicateId && reservations == old(reservations) && order == old(order)
      ensures o.Pass? ==>
        && reservations == old(reservations)[reservation.reservationId := reservation]
        && order == old(order) + [reservation.reservationId]
    {
      if reservation.reservationId in reservations {
        return Fail(DuplicateId);
      }
      reservations := reservations[reservation.reservationId := reservation];
      order := order + [reservation.reservationId];
      return Pass;
    }

    /** The reservation with id `id`, if there is one. */
    function GetReservation(id: string): (r: Option<Reservation>)
      requires Valid()
      reads this
      ensures r.Some? <==> id in reservations
      ensures r.Some? ==> r.value == reservations[id] && r.value.reservationId == id
    {
      if id in reservations then Some(reservations[id]) else None
    }

    /** The stored reservations in insertion order. */
    function Listed(): (r: seq<Reservation>)
      requires Valid()
      reads this
      ensures |r| == |order|
      ensures forall i :: 0 <= i < |r| ==> r[i] == reservations[order[i]]
    {
      ValuesAt(order, reservations)
    }

    /** Every stored reservation is listed, and only those are. */
    lemma ListedCovers()
      requires Valid()
      ensures forall k :: k in reservations ==> reservations[k] in Listed()
      ensures forall i :: 0 <= i < |Listed()| ==> Listed()[i] in reservations.Values
    {
      var all := Listed();
      forall k | k in reservations
        ensures reservations[k] in all
      {
        var i :| 0 <= i < |order| && order[i] == k;
        assert all[i] == reservations[k];
      }
      forall i | 0 <= i < |all|
        ensures all[i] in reservations.Values
      {
        assert order[i] in reservations;
      }
    }

    /** The reservations of user `userId`, in insertion order: exactly the
        stored ones with that user id. */
    function UserReservations(userId: string): (r: seq<Reservation>)
      requires Valid()
      reads this
      ensures Subseq(r, Listed())
      ensures forall i :: 0 <= i < |r| ==> r[i].userId == userId && r[i] in reservations.Values
      ensures forall k :: k in reservations && reservations[k].userId == userId ==> reservations[k] in r
    {
      var all := Listed();
      ListedCovers();
      FilterInOrder(all, (x: Reservation) => x.userId == userId);
      Filter(all, (x: Reservation) => x.userId == userId)
    }

    /** The reservations at hotel `hotelId`, in insertion order: exactly the
        stored ones with that hotel id. */
    function HotelReservations(hotelId: string): (r: seq<Reservation>)
      requires Valid()
      reads this
      ensures Subseq(r, Listed())
      ensures forall i :: 0 <= i < |r| ==> r[i].hotelId == hotelId && r[i] in reservations.Values
      ensures forall k :: k in reservations && reservations[k].hotelId == hotelId ==> reservations[k] in r
    {
      var all := Listed();
      ListedCovers();
      FilterInOrder(all, (x: Reservation) => x.hotelId == hotelId);
      Filter(all, (x: Reservation) => x.hotelId == hotelId)
    }

    /** Cancels reservation `id` against the hotel and room the caller
        resolved. An unknown id is a soft failure (false); a hotel or room
        that is not the reservation's is a mismatch and changes nothing;
        otherwise the reservation's own cancellation decides. */
    method CancelReservation(id: string, hotel: Hotel, room: Room) returns (r: Result<bool>)
      requires Valid() && room.Valid()
      modifies room, reservations.Values
      ensures room.Valid()
      ensures forall k :: k in reservations && k != id ==> reservations[k].status == old(reservations[k].status)
      ensures id !in reservations ==> r == Success(false) && room.bookedDates == old(room.bookedDates)
      ensures id in reservations && (reservations[id].hotelId != hotel.hotelId || reservations[id].roomId != room.roomId) ==>
        && r == Failure(Mismatch)
        && room.bookedDates == old(room.bookedDates)
        && reservations[id].status == old(reservations[id].status)
      ensures id in reservations && reservations[id].hotelId == hotel.hotelId && reservations[id].roomId == room.roomId ==>
        var res := reservations[id];
        var stay := Interval(res.startDate, res.endDate);
        if old(res.status) == Confirmed then
          && res.status == Cancelled
          && r == Success(stay in old(room.bookedDates))
          && room.bookedDates == RemoveFirst(old(room.bookedDates), stay)
        else
          && r == Success(false)
          && res.status == old(res.status)
          && room.bookedDates == old(room.bookedDates)
    {
      var found := GetReservation(id);
      if found.Some? {
        var reservation := found.value;
        if reservation.hotelId != hotel.hotelId || reservation.roomId != room.roomId {
          return Failure(Mismatch);
        }
        var ok := reservation.Cancel(room);
        return Success(ok);
      }
      return Success(false);
    }
  }
}
