/** Rooms with their booked date intervals, hotels that own rooms, and the
    hotel registry with its search. Dates are whole day numbers; a booking is
    the half-open interval [start, end). */
module Hotels {
  import opened Common
  import opened Text

  /** A booked stay: the nights from `start` up to, not including, `end`. */
  datatype Interval = Interval(start: int, end: int)

  /** A stored booking `b` clashes with the requested stay [s, e): neither
      lies entirely before the other. Touching stays do not clash. */
  predicate Overlaps(b: Interval, s: int, e: int) {
    !(e <= b.start || s >= b.end)
  }

  /** No booking in `bs` clashes with [s, e). */
  predicate Free(bs: seq<Interval>, s: int, e: int) {
    forall i :: 0 <= i < |bs| ==> !Overlaps(bs[i], s, e)
  }

  /** The room invariant: every booking is a non-empty stay and no two
      bookings clash. */
  predicate Disjoint(bs: seq<Interval>) {
    && (forall i :: 0 <= i < |bs| ==> bs[i].start < bs[i].end)
    && (forall i, j :: 0 <= i < j < |bs| ==> !Overlaps(bs[i], bs[j].start, bs[j].end))
  }

  /** The bookings with the first exact occurrence of `x` taken out: the
      bookings before it stay where they are, the ones after it move up. */
  function RemoveFirst(bs: seq<Interval>, x: Interval): (r: seq<Interval>)
    ensures x !in bs ==> r == bs
    ensures x in bs ==> |r| == |bs| - 1
    ensures forall i :: 0 <= i < |r| ==> r[i] == bs[if i < IndexOf(bs, x) then i else i + 1]
  {
    var k := IndexOf(bs, x);
    IndexOfIsFirst(bs, x);
    if k == |bs| then bs else bs[..k] + bs[k + 1..]
  }

  /** Removing takes out exactly one copy of `x` when there is one. */
  lemma RemoveFirstDropsOne(bs: seq<Interval>, x: Interval)
    requires x in bs
    ensures multiset(RemoveFirst(bs, x)) == multiset(bs) - multiset{x}
  {
    var k := IndexOf(bs, x);
    IndexOfIsFirst(bs, x);
    var before, after := bs[..k], bs[k + 1..];
    assert bs == before + [x] + after;
    assert RemoveFirst(bs, x) == before + after;
    assert multiset(bs) == multiset(before) + multiset{x} + multiset(after);
  }

  /** Appending a stay that is non-empty and free keeps the room invariant. */
  lemma AppendKeepsDisjoint(bs: seq<Interval>, s: int, e: int)
    requires Disjoint(bs) && s < e && Free(bs, s, e)
    ensures Disjoint(bs + [Interval(s, e)])
  {
  }

  /** Removing a booking keeps the room invariant, whichever booking it is. */
  lemma RemoveKeepsDisjoint(bs: seq<Interval>, x: Interval)
    requires Disjoint(bs)
    ensures Disjoint(RemoveFirst(bs, x))
  {
    var r := RemoveFirst(bs, x);
    var k := IndexOf(bs, x);
    forall i, j | 0 <= i < j < |r|
      ensures !Overlaps(r[i], r[j].start, r[j].end)
    {
      assert r[i] == bs[if i < k then i else i + 1];
      assert r[j] == bs[if j < k then j else j + 1];
    }
  }

  /** A booked stay blocks itself and every stay that clashes with it. */
  lemma BookedBlocks(bs: seq<Interval>, b: Interval, s: int, e: int)
    requires b in bs && Overlaps(b, s, e)
    ensures !Free(bs, s, e)
  {
    var i :| 0 <= i < |bs| && bs[i] == b;
  }

  /** A stay that starts exactly when a booking ends, or ends exactly when
      it starts, is not blocked by that booking. */
  lemma TouchingStaysAreFree(bs: seq<Interval>, b: Interval, s: int, e: int)
    requires e == b.start || s == b.end
    requires b.start < b.end && s < e
    ensures Free(bs + [b], s, e) == Free(bs, s, e)
  {
    assert !Overlaps(b, s, e);
    assert forall i :: 0 <= i < |bs| ==> (bs + [b])[i] == bs[i];
    assert (bs + [b])[|bs|] == b;
  }

  class Room {
    const roomId: string
    const number: int
    const roomType: string
    const price: int
    const capacity: int
    var bookedDates: seq<Interval>

    predicate Valid()
      reads this
    {
      Disjoint(bookedDates)
    }

    constructor (roomId: string, number: int, roomType: string, price: int, capacity: int)
      ensures this.roomId == roomId && this.number == number && this.roomType == roomType
      ensures this.price == price && this.capacity == capacity
      ensures bookedDates == [] && Valid()
    {
      this.roomId := roomId;
      this.number := number;
      this.roomType := roomType;
      this.price := price;
      this.capacity := capacity;
      bookedDates := [];
    }

    /** Whether [s, e) clashes with no booking; an empty or reversed stay
        is an invalid range. */
    method IsAvailable(s: int, e: int) returns (r: Result<bool>)
      ensures s >= e ==> r == Failure(InvalidRange)
      ensures s < e ==> r == Success(Free(bookedDates, s, e))
    {
      if s >= e {
        return Failure(InvalidRange);
      }
      var i := 0;
      while i < |bookedDates|
        invariant 0 <= i <= |bookedDates|
        invariant Free(bookedDates[..i], s, e)
      {
        var b := bookedDates[i];
        if !(e <= b.start || s >= b.end) {
          assert !Free(bookedDates, s, e) by {
            assert Overlaps(bookedDates[i], s, e);
          }
          return Success(false);
        }
        i := i + 1;
      }
      assert bookedDates[..i] == bookedDates;
      return Success(true);
    }

    /** Records the stay [s, e) after checking the range and availability. */
    method AddBooking(s: int, e: int) returns (o: Outcome)
      requires Valid()
      modifies this
      ensures Valid()
      ensures s >= e ==> o == Fail(InvalidRange)
      ensures s < e && !Free(old(bookedDates), s, e) ==> o == Fail(Unavailable)
      ensures o.Fail? ==> bookedDates == old(bookedDates)
      ensures s < e && Free(old(bookedDates), s, e) ==>
        o == Pass && bookedDates == old(bookedDates) + [Interval(s, e)]
      ensures o == Pass ==> !Free(bookedDates, s, e)
    {
      if s >= e {
        return Fail(InvalidRange);
      }
      var available := IsAvailable(s, e);
      if available != Success(true) {
        return Fail(Unavailable);
      }
      AppendKeepsDisjoint(bookedDates, s, e);
      bookedDates := bookedDates + [Interval(s, e)];
      BookedBlocks(bookedDates, Interval(s, e), s, e);
      return Pass;
    }

    /** Takes out the first booking exactly equal to [s, e), reporting
        whether there was one; overlapping bookings are left alone. */
    method RemoveBooking(s: int, e: int) returns (found: bool)
      requires Valid()
      modifies this
      ensures Valid()
      ensures found == (Interval(s, e) in old(bookedDates))
      ensures bookedDates == RemoveFirst(old(bookedDates), Interval(s, e))
    {
      var booking := Interval(s, e);
      RemoveKeepsDisjoint(bookedDates, booking);
      if booking in bookedDates {
        bookedDates := RemoveFirst(bookedDates, booking);
        return true;
      }
      return false;
    }
  }

  class Hotel {
    const hotelId: string
    const name: string
    const address: string
    const starRating: int
    /** Rooms by id; `order` lists the ids in the order they were added. */
    var rooms: map<string, Room>
    var order: seq<string>

    predicate RatingInRange() {
      1 <= starRating <= 5
    }

    predicate Valid()
      reads this, rooms.Values
    {
      && RatingInRange()
      && NoDups(order)
      && (forall k :: k in order ==> k in rooms)
      && (forall k :: k in rooms ==> k in order)
      && (forall k :: k in rooms ==> rooms[k].roomId == k && rooms[k].Valid())
    }

    constructor (hotelId: string, name: string, address: string, starRating: int)
      requires 1 <= starRating <= 5
      ensures this.hotelId == hotelId && this.name == name
      ensures this.address == address && this.starRating == starRating
      ensures rooms == map[] && order == [] && Valid()
    {
      this.hotelId := hotelId;
      this.name := name;
      this.address := address;
      this.starRating := starRating;
      rooms := map[];
      order := [];
    }

    /** Adds `room` under its own id; an id already present is refused. */
    method AddRoom(room: Room) returns (o: Outcome)
      requires Valid() && room.Valid()
      modifies this
      ensures Valid()
      ensures o.Fail? <==> room.roomId in old(rooms)
      ensures o.Fail? ==> o.error == DuplicateId && rooms == old(rooms) && order == old(order)
      ensures o.Pass? ==> rooms == old(rooms)[room.roomId := room] && order == old(order) + [room.roomId]
    {
      if room.roomId in rooms {
        return Fail(DuplicateId);
      }
      rooms := rooms[room.roomId := room];
      order := order + [room.roomId];
      return Pass;
    }

    /** The room with id `id`, if there is one. */
    function GetRoom(id: string): (r: Option<Room>)
      requires Valid()
      reads this, rooms.Values
      ensures r.Some? <==> id in rooms
      ensures r.Some? ==> r.value == rooms[id] && r.value.roomId == id
    {
      if id in rooms then Some(rooms[id]) else None
    }

    /** The rooms of the hotel in the order they were added. */
    function Listed(): (r: seq<Room>)
      requires Valid()
      reads this, rooms.Values
      ensures |r| == |order|
      ensures forall i :: 0 <= i < |r| ==> r[i] == rooms[order[i]]
    {
      ValuesAt(order, rooms)
    }

    /** Every room of the hotel is listed. */
    lemma ListedCoversRooms()
      requires Valid()
      ensures forall k :: k in rooms ==> rooms[k] in Listed()
    {
      var all := Listed();
      forall k | k in rooms
        ensures rooms[k] in all
      {
        var i :| 0 <= i < |order| && order[i] == k;
        assert all[i] == rooms[k];
      }
    }

    /** Every room, in insertion order, that is free for [s, e) and holds at
        least `cap` guests; an empty or reversed stay is an invalid range. */
    method GetAvailableRooms(s: int, e: int, cap: int) returns (r: Result<seq<Room>>)
      requires Valid()
      ensures s >= e ==> r == Failure(InvalidRange)
      ensures s < e ==> r == Success(FreeRooms(Listed(), s, e, cap))
    {
      if s >= e {
        return Failure(InvalidRange);
      }
      var all := ValuesAt(order, rooms);
      var available := CollectFree(all, s, e, cap);
      return Success(available);
    }

    /** The rooms `GetAvailableRooms` returns are exactly the hotel's rooms
        that are free for [s, e) and hold at least `cap` guests, listed in
        the order the rooms were added. */
    lemma AvailableRoomsExactly(s: int, e: int, cap: int)
      requires Valid()
      ensures var r := FreeRooms(Listed(), s, e, cap);
        && Subseq(r, Listed())
        && (forall i :: 0 <= i < |r| ==>
              r[i] in rooms.Values && r[i].capacity >= cap && Free(r[i].bookedDates, s, e))
        && (forall k :: k in rooms && rooms[k].capacity >= cap && Free(rooms[k].bookedDates, s, e) ==>
              rooms[k] in r)
    {
      var all := Listed();
      FreeRoomsExactly(all, s, e, cap);
      FreeRoomsInOrder(all, s, e, cap);
      ListedCoversRooms();
      forall i | 0 <= i < |all|
        ensures all[i] in rooms.Values
      {
        assert order[i] in rooms;
      }
    }

    /** Books room `id` for [s, e). A missing room or a clash is a soft
        failure (false); an empty or reversed stay is an invalid range. */
    method BookRoom(id: string, s: int, e: int) returns (r: Result<bool>)
      requires Valid()
      modifies rooms.Values
      ensures Valid()
      ensures forall k :: k in rooms && k != id ==> rooms[k].bookedDates == old(rooms[k].bookedDates)
      ensures s >= e ==> r == Failure(InvalidRange)
      ensures s < e ==> r == Success(id in rooms && Free(old(rooms[id].bookedDates), s, e))
      ensures r == Success(true) ==> rooms[id].bookedDates == old(rooms[id].bookedDates) + [Interval(s, e)]
      ensures r != Success(true) ==> id in rooms ==> rooms[id].bookedDates == old(rooms[id].bookedDates)
    {
      if s >= e {
        return Failure(InvalidRange);
      }
      var room := GetRoom(id);
      if room.Some? {
        var free := room.value.IsAvailable(s, e);
        if free == Success(true) {
          var o := room.value.AddBooking(s, e);
          return Success(true);
        }
      }
      return Success(false);
    }
  }

  /** Builds a hotel without rooms; a star rating outside 1..5 is refused. */
  method NewHotel(hotelId: string, name: string, address: string, starRating: int)
    returns (r: Result<Hotel>)
    ensures r.Failure? <==> !(1 <= starRating <= 5)
    ensures r.Failure? ==> r.error == RatingOutOfRange
    ensures r.Success? ==>
      && fresh(r.value)
      && r.value.hotelId == hotelId && r.value.name == name
      && r.value.address == address && r.value.starRating == starRating
      && r.value.rooms == map[] && r.value.order == [] && r.value.Valid()
  {
    if !(1 <= starRating <= 5) {
      return Failure(RatingOutOfRange);
    }
    var hotel := new Hotel(hotelId, name, address, starRating);
    return Success(hotel);
  }

  /** The rooms of `rs`, in their order, that are free for [s, e) and hold
      at least `cap` guests. */
  function FreeRooms(rs: seq<Room>, s: int, e: int, cap: int): (r: seq<Room>)
    reads rs
    ensures |r| <= |rs|
    decreases |rs|
  {
    if rs == [] then []
    else
      var rest := FreeRooms(rs[..|rs| - 1], s, e, cap);
      var room := rs[|rs| - 1];
      if Free(room.bookedDates, s, e) && room.capacity >= cap then rest + [room] else rest
  }

  /** The scan behind the available-rooms query: walks `rs` in order and
      keeps each room that is free for [s, e) and holds at least `cap`. */
  method CollectFree(rs: seq<Room>, s: int, e: int, cap: int) returns (available: seq<Room>)
    requires s < e
    ensures available == FreeRooms(rs, s, e, cap)
  {
    available := [];
    var i := 0;
    while i < |rs|
      invariant 0 <= i <= |rs|
      invariant available == FreeRooms(rs[..i], s, e, cap)
    {
      var room := rs[i];
      var free := room.IsAvailable(s, e);
      FreeRoomsStep(rs, i, s, e, cap);
      if free == Success(true) && room.capacity >= cap {
        available := available + [room];
      }
      i := i + 1;
    }
    assert rs[..i] == rs;
  }

  lemma FreeRoomsStep(rs: seq<Room>, i: int, s: int, e: int, cap: int)
    requires 0 <= i < |rs|
    ensures FreeRooms(rs[..i + 1], s, e, cap) == FreeRooms(rs[..i], s, e, cap)
      + (if Free(rs[i].bookedDates, s, e) && rs[i].capacity >= cap then [rs[i]] else [])
  {
    assert rs[..i + 1][..i] == rs[..i];
  }

  /** Exactly the qualifying rooms of `rs` are kept. */
  lemma {:induction false} FreeRoomsExactly(rs: seq<Room>, s: int, e: int, cap: int)
    ensures var r := FreeRooms(rs, s, e, cap);
      && (forall i :: 0 <= i < |r| ==> r[i] in rs && r[i].capacity >= cap && Free(r[i].bookedDates, s, e))
      && (forall i :: 0 <= i < |rs| && rs[i].capacity >= cap && Free(rs[i].bookedDates, s, e) ==> rs[i] in r)
    decreases |rs|
  {
    if rs != [] {
      var init := rs[..|rs| - 1];
      FreeRoomsExactly(init, s, e, cap);
      assert rs == init + [rs[|rs| - 1]];
    }
  }

  /** The kept rooms stay in the order of `rs`. */
  lemma {:induction false} FreeRoomsInOrder(rs: seq<Room>, s: int, e: int, cap: int)
    ensures Subseq(FreeRooms(rs, s, e, cap), rs)
    decreases |rs|
  {
    if rs != [] {
      FreeRoomsInOrder(rs[..|rs| - 1], s, e, cap);
    }
  }

  /** The address test of a search: the lower-cased address contains the
      lower-cased location. */
  predicate AddressMatches(address: string, location: string) {
    Contains(Lower(address), Lower(location))
  }

  /** Whether hotel `h` is a hit for a search: its address matches the
      location and its rating is high enough. */
  predicate SearchHit(h: Hotel, location: string, minRating: int) {
    AddressMatches(h.address, location) && h.starRating >= minRating
  }

  /** The address test ignores the case of the address and of the location. */
  lemma AddressMatchIgnoresCase(address: string, address': string, location: string, location': string)
    requires EqualIgnoringCase(address, address') && EqualIgnoringCase(location, location')
    ensures AddressMatches(address, location) == AddressMatches(address', location')
  {
    LowerIgnoresCase(address, address');
    LowerIgnoresCase(location, location');
  }

  /** A location spelled inside the address, in any case, matches it. */
  lemma ContainedLocationMatches(address: string, location: string, location': string, i: int)
    requires OccursAt(address, location, i) && EqualIgnoringCase(location, location')
    ensures AddressMatches(address, location')
  {
    LowerSlice(address, i, i + |location|);
    LowerIgnoresCase(location, location');
    assert OccursAt(Lower(address), Lower(location'), i);
  }

  /** A search for a location ignores its case. */
  lemma SearchIgnoresCase(h: Hotel, location: string, location': string, minRating: int)
    requires EqualIgnoringCase(location, location')
    ensures SearchHit(h, location, minRating) == SearchHit(h, location', minRating)
  {
    AddressMatchIgnoresCase(h.address, h.address, location, location');
  }

  class HotelDatabase {
    /** Hotels by id; `order` lists the ids in the order they were added. */
    var hotels: map<string, Hotel>
    var order: seq<string>

    predicate Valid()
      reads this
    {
      && NoDups(order)
      && (forall k :: k in order ==> k in hotels)
      && (forall k :: k in hotels ==> k in order)
      && (forall k :: k in hotels ==> hotels[k].hotelId == k && hotels[k].RatingInRange())
    }

    constructor ()
      ensures hotels == map[] && order == [] && Valid()
    {
      hotels := map[];
      order := [];
    }

    /** The registered hotels in insertion order. */
    function Listed(): (r: seq<Hotel>)
      requires Valid()
      reads this
      ensures |r| == |order|
      ensures forall i :: 0 <= i < |r| ==> r[i] == hotels[order[i]] && r[i].hotelId == order[i]
    {
      ValuesAt(order, hotels)
    }

    /** Registers `hotel` under its own id; an id already present is refused. */
    method AddHotel(hotel: Hotel) returns (o: Outcome)
      requires Valid() && hotel.RatingInRange()
      modifies this
      ensures Valid()
      ensures o.Fail? <==> hotel.hotelId in old(hotels)
      ensures o.Fail? ==> o.error == DuplicateId && hotels == old(hotels) && order == old(order)
      ensures o.Pass? ==> hotels == old(hotels)[hotel.hotelId := hotel] && order == old(order) + [hotel.hotelId]
    {
      if hotel.hotelId in hotels {
        return Fail(DuplicateId);
      }
      hotels := hotels[hotel.hotelId := hotel];
      order := order + [hotel.hotelId];
      return Pass;
    }

    /** The hotel with id `id`, if there is one. */
    function GetHotel(id: string): (r: Option<Hotel>)
      requires Valid()
      reads this
      ensures r.Some? <==> id in hotels
      ensures r.Some? ==> r.value == hotels[id] && r.value.hotelId == id
    {
      if id in hotels then Some(hotels[id]) else None
    }

    /** The hotels, in insertion order, whose address contains `location`
        ignoring case and whose rating is at least `minRating`; a minimum
        rating outside 1..5 is refused. */
    method SearchHotels(location: string, minRating: int) returns (r: Result<seq<Hotel>>)
      requires Valid()
      ensures !(1 <= minRating <= 5) ==> r == Failure(RatingOutOfRange)
      ensures 1 <= minRating <= 5 ==>
        r == Success(Filter(Listed(), h => SearchHit(h, location, minRating)))
    {
      if !(1 <= minRating <= 5) {
        return Failure(RatingOutOfRange);
      }
      ghost var hit := h => SearchHit(h, location, minRating);
      var all := ValuesAt(order, hotels);
      var results: seq<Hotel> := [];
      var needle := Lower(location);
      var i := 0;
      while i < |all|
        invariant 0 <= i <= |all|
        invariant results == Filter(all[..i], hit)
      {
        var hotel := all[i];
        FilterStep(all, i, hit);
        if Contains(Lower(hotel.address), needle) && hotel.starRating >= minRating {
          results := results + [hotel];
        }
        i := i + 1;
      }
      assert all[..i] == all;
      return Success(results);
    }

    /** A search returns exactly the registered hits, in the order the
        hotels were added. */
    lemma SearchFindsExactlyHits(location: string, minRating: int)
      requires Valid()
      ensures var r := Filter(Listed(), h => SearchHit(h, location, minRating));
        && Subseq(r, Listed())
        && (forall i :: 0 <= i < |r| ==> r[i] in hotels.Values && SearchHit(r[i], location, minRating))
        && (forall k :: k in hotels && SearchHit(hotels[k], location, minRating) ==> hotels[k] in r)
    {
      FilterInOrder(Listed(), h => SearchHit(h, location, minRating));
      ListedCovers();
    }

    /** Every registered hotel is listed, and only those are. */
    lemma ListedCovers()
      requires Valid()
      ensures forall k :: k in hotels ==> hotels[k] in Listed()
      ensures forall i :: 0 <= i < |Listed()| ==> Listed()[i] in hotels.Values
    {
      var all := Listed();
      forall k | k in hotels
        ensures hotels[k] in all
      {
        var i :| 0 <= i < |order| && order[i] == k;
        assert all[i] == hotels[k];
      }
      forall i | 0 <= i < |all|
        ensures all[i] in hotels.Values
      {
        assert order[i] in hotels;
      }
    }

    /** An empty location with the lowest minimum rating finds every hotel. */
    lemma EmptySearchFindsAll()
      requires Valid()
      ensures Filter(Listed(), h => SearchHit(h, "", 1)) == Listed()
    {
      var hs := Listed();
      forall i | 0 <= i < |hs|
        ensures SearchHit(hs[i], "", 1)
      {
        EmptyContained(Lower(hs[i].address));
      }
      FilterAll(hs, h => SearchHit(h, "", 1));
    }
  }
}
