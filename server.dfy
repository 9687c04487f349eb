/** The database the route handlers of server.js read and write, held in memory,
    with one method per state-changing handler. Each method returns the HTTP
    status the handler answers with and changes only the table it writes, and
    only on success. Requests are handled one at a time. */
module Server {
  import opened Types
  import opened Text
  import opened Booking
  import opened Accounts
  import opened Rooms
  import opened Feedback

  class Database {
    var users: seq<User>
    var rooms: seq<Room>
    var reservations: seq<Reservation>
    var favorites: set<(nat, nat)>
    var reviews: seq<Review>
    /** The next AUTO_INCREMENT values of `users`, `reservations` and `reviews`. */
    var nextUserId: nat
    var nextReservationId: nat
    var nextReviewId: nat

    /** The invariant the handlers keep: unique positive ids below their
        counters, unique e-mails, no double booking, every reservation and
        favourite made by a present user id, and only validated reviews. */
    ghost predicate Valid()
      reads this
    {
      && 0 < nextUserId && 0 < nextReservationId && 0 < nextReviewId
      && UsersWellFormed(users, nextUserId)
      && UniqueRoomIds(rooms)
      && UniqueIds(reservations)
      && NoDoubleBooking(reservations)
      && (forall k :: 0 <= k < |reservations| ==> 0 < reservations[k].id < nextReservationId)
      && (forall k :: 0 <= k < |reservations| ==> reservations[k].userId != 0)
      && (forall pair :: pair in favorites ==> pair.0 != 0 && pair.1 != 0)
      && ReviewsWellFormed(reviews, nextReviewId)
    }

    /** A database seeded with existing users and rooms and no reservations,
        favourites or reviews yet. */
    constructor (seedUsers: seq<User>, seedRooms: seq<Room>)
      requires forall k :: 0 <= k < |seedUsers| ==> seedUsers[k].id > 0
      requires forall i, j :: 0 <= i < j < |seedUsers| ==> seedUsers[i].id != seedUsers[j].id
      requires forall i, j :: 0 <= i < j < |seedUsers| ==> seedUsers[i].email != seedUsers[j].email
      requires UniqueRoomIds(seedRooms)
      ensures Valid()
      ensures users == seedUsers && rooms == seedRooms
      ensures reservations == [] && favorites == {} && reviews == []
      ensures nextReservationId == 1 && nextReviewId == 1
    {
      users := seedUsers;
      rooms := seedRooms;
      reservations := [];
      favorites := {};
      reviews := [];
      nextUserId := MaxUserId(seedUsers) + 1;
      nextReservationId := 1;
      nextReviewId := 1;
    }

    /** `POST /api/register`: 400 when a field is missing, 409 when the e-mail
        is taken, otherwise 201 and a new non-admin user with the next id. */
    method Register(name: string, email: string, password: string) returns (status: Status, id: nat)
      requires Valid()
      modifies this`users, this`nextUserId
      ensures Valid()
      ensures status == BadRequest400 <==> name == "" || email == "" || password == ""
      ensures status == Conflict409 <==> name != "" && email != "" && password != "" && EmailTaken(old(users), email)
      ensures status == Created201 <==> name != "" && email != "" && password != "" && !EmailTaken(old(users), email)
      ensures status == Created201 ==>
        id == old(nextUserId) && nextUserId == old(nextUserId) + 1 &&
        users == old(users) + [User(id, name, email, password, false)] &&
        Login(users, email, password) == Success(User(id, name, email, password, false))
      ensures status != Created201 ==> users == old(users) && nextUserId == old(nextUserId)
    {
      if name == "" || email == "" || password == "" {
        return BadRequest400, 0;
      }
      if EmailTaken(users, email) {
        return Conflict409, 0;
      }
      id := nextUserId;
      var u := User(id, name, email, password, false);
      RegisterThenLogin(users, u);
      InsertUser(u);
      status := Created201;
    }

    /** `INSERT INTO users`: a user with the next id and a free e-mail is appended. */
    method InsertUser(u: User)
      requires Valid() && u.id == nextUserId && !EmailTaken(users, u.email)
      modifies this`users, this`nextUserId
      ensures Valid()
      ensures users == old(users) + [u] && nextUserId == old(nextUserId) + 1
    {
      AppendKeepsUsersWellFormed(users, nextUserId, u);
      users := users + [u];
      nextUserId := nextUserId + 1;
    }

    /** `POST /api/rooms/:id/reserve`: 400 without a user id or a date, 404 for
        an unknown room, 409 when the conflict query finds a row, otherwise one
        reservation is appended, with an empty time stored as NULL. */
    method Reserve(roomId: nat, userId: nat, date: string, time: string) returns (status: Status, made: Option<Reservation>)
      requires Valid()
      modifies this`reservations, this`nextReservationId
      ensures Valid()
      ensures status == BadRequest400 <==> userId == 0 || date == ""
      ensures status == NotFound404 <==> userId != 0 && date != "" && FindRoom(rooms, roomId).None?
      ensures status == Conflict409 <==>
        userId != 0 && date != "" && FindRoom(rooms, roomId).Some? &&
        ConflictExists(old(reservations), roomId, date, NullIfEmpty(time))
      ensures status == Ok200 <==>
        userId != 0 && date != "" && FindRoom(rooms, roomId).Some? &&
        !ConflictExists(old(reservations), roomId, date, NullIfEmpty(time))
      ensures status == Ok200 ==>
        made == Some(Reservation(old(nextReservationId), roomId, userId, date, NullIfEmpty(time))) &&
        reservations == old(reservations) + [made.value] && nextReservationId == old(nextReservationId) + 1
      ensures status != Ok200 ==>
        made == None && reservations == old(reservations) && nextReservationId == old(nextReservationId)
    {
      if userId == 0 || date == "" {
        return BadRequest400, None;
      }
      if FindRoom(rooms, roomId).None? {
        return NotFound404, None;
      }
      var t := NullIfEmpty(time);
      if ConflictExists(reservations, roomId, date, t) {
        return Conflict409, None;
      }
      var r := Reservation(nextReservationId, roomId, userId, date, t);
      BookingRuleIsExact(reservations, r);
      reservations := reservations + [r];
      nextReservationId := nextReservationId + 1;
      status, made := Ok200, Some(r);
    }

    /** `DELETE /api/reservations/:id`: 404 for an unknown id whoever asks,
        then 403 unless the caller is an administrator or the reservation's
        owner, otherwise exactly that reservation is deleted. */
    method CancelReservation(id: nat, userId: nat, adminId: nat) returns (status: Status)
      requires Valid()
      modifies this`reservations
      ensures Valid()
      ensures status == NotFound404 <==> IndexOf(old(reservations), id).None?
      ensures status == Forbidden403 <==>
        IndexOf(old(reservations), id).Some? && !IsAdmin(users, adminId) &&
        old(reservations)[IndexOf(old(reservations), id).value].userId != userId
      ensures status == Ok200 <==>
        IndexOf(old(reservations), id).Some? &&
        (IsAdmin(users, adminId) || old(reservations)[IndexOf(old(reservations), id).value].userId == userId)
      ensures status == Ok200 ==>
        var k := IndexOf(old(reservations), id).value;
        reservations == old(reservations)[..k] + old(reservations)[k + 1..]
      ensures status != Ok200 ==> reservations == old(reservations)
    {
      match IndexOf(reservations, id)
      case None =>
        return NotFound404;
      case Some(k) =>
        var rv := reservations[k];
        if !IsAdmin(users, adminId) && rv.userId != userId {
          return Forbidden403;
        }
        Delete(k);
        status := Ok200;
    }

    /** `DELETE /api/admin/reservations/:id`: 403 unless the caller is an
        administrator, then 404 for an unknown id, otherwise exactly that
        reservation is deleted. */
    method AdminCancelReservation(id: nat, adminId: nat) returns (status: Status)
      requires Valid()
      modifies this`reservations
      ensures Valid()
      ensures status == Forbidden403 <==> !IsAdmin(users, adminId)
      ensures status == NotFound404 <==> IsAdmin(users, adminId) && IndexOf(old(reservations), id).None?
      ensures status == Ok200 <==> IsAdmin(users, adminId) && IndexOf(old(reservations), id).Some?
      ensures status == Ok200 ==>
        var k := IndexOf(old(reservations), id).value;
        reservations == old(reservations)[..k] + old(reservations)[k + 1..]
      ensures status != Ok200 ==> reservations == old(reservations)
    {
      if !IsAdmin(users, adminId) {
        return Forbidden403;
      }
      match IndexOf(reservations, id)
      case None =>
        return NotFound404;
      case Some(k) =>
        Delete(k);
        status := Ok200;
    }

    /** `DELETE FROM reservations WHERE id = :id` for the row at position `k`. */
    method Delete(k: nat)
      requires Valid() && k < |reservations|
      modifies this`reservations
      ensures Valid()
      ensures reservations == old(reservations)[..k] + old(reservations)[k + 1..]
    {
      RemoveOnlyThatRow(reservations, k);
      DeleteKeepsInvariants(reservations, k);
      var after := RemoveReservation(reservations, reservations[k].id);
      reservations := after;
    }

    /** `POST /api/favorites`: 400 without a user id or a room id; otherwise the
        pair is removed when present (`added` false) and inserted when absent. */
    method ToggleFavorite(userId: nat, roomId: nat) returns (status: Status, added: bool)
      requires Valid()
      modifies this`favorites
      ensures Valid()
      ensures status == BadRequest400 <==> userId == 0 || roomId == 0
      ensures status == Ok200 <==> userId != 0 && roomId != 0
      ensures status == Ok200 ==>
        favorites == Toggle(old(favorites), (userId, roomId)) && added == ((userId, roomId) !in old(favorites))
      ensures status == BadRequest400 ==> favorites == old(favorites)
    {
      if userId == 0 || roomId == 0 {
        return BadRequest400, false;
      }
      added := (userId, roomId) !in favorites;
      favorites := Toggle(favorites, (userId, roomId));
      status := Ok200;
    }

    /** `POST /api/rooms/:id/reviews`: 400 without a user id, 404 for an unknown
        room or user, 400 for a rating outside 1..5 or a blank comment; otherwise
        201 and a review holding the trimmed comment. */
    method CreateReview(roomId: nat, userId: nat, rating: JsNumber, comment: string) returns (status: Status, made: Option<Review>)
      requires Valid()
      modifies this`reviews, this`nextReviewId
      ensures Valid()
      ensures status == NotFound404 <==>
        userId != 0 && (FindRoom(rooms, roomId).None? || FindUser(users, userId).None?)
      ensures status == BadRequest400 <==>
        userId == 0 ||
        (FindRoom(rooms, roomId).Some? && FindUser(users, userId).Some? && (!RatingAccepted(rating) || Trim(comment) == ""))
      ensures status == Created201 <==>
        userId != 0 && FindRoom(rooms, roomId).Some? && FindUser(users, userId).Some? &&
        RatingAccepted(rating) && Trim(comment) != ""
      ensures status == Created201 ==>
        made == Some(Review(old(nextReviewId), roomId, userId, rating.value, Trim(comment))) &&
        reviews == old(reviews) + [made.value] && nextReviewId == old(nextReviewId) + 1
      ensures status != Created201 ==>
        made == None && reviews == old(reviews) && nextReviewId == old(nextReviewId)
    {
      if userId == 0 {
        return BadRequest400, None;
      }
      if FindRoom(rooms, roomId).None? {
        return NotFound404, None;
      }
      if FindUser(users, userId).None? {
        return NotFound404, None;
      }
      if !RatingAccepted(rating) {
        return BadRequest400, None;
      }
      var text := Trim(comment);
      if text == "" {
        return BadRequest400, None;
      }
      var v := Review(nextReviewId, roomId, userId, rating.value, text);
      AcceptedReviewWellFormed(nextReviewId, roomId, userId, rating, comment);
      InsertReview(v);
      status, made := Created201, Some(v);
    }

    /** `INSERT INTO reviews`: a well-formed review with the next id is appended. */
    method InsertReview(v: Review)
      requires Valid() && ReviewWellFormed(v) && v.id == nextReviewId
      modifies this`reviews, this`nextReviewId
      ensures Valid()
      ensures reviews == old(reviews) + [v] && nextReviewId == old(nextReviewId) + 1
    {
      AppendKeepsReviewsWellFormed(reviews, nextReviewId, v);
      reviews := reviews + [v];
      nextReviewId := nextReviewId + 1;
    }

    /** `PUT /api/admin/rooms/:id`: 403 unless the caller is an administrator,
        404 for an unknown room, 400 when the body supplies no field; otherwise
        only that room changes, and only in the supplied fields. */
    method UpdateRoom(roomId: nat, adminId: nat, p: RoomPatch) returns (status: Status, room: Option<Room>)
      requires Valid()
      modifies this`rooms
      ensures Valid()
      ensures status == Forbidden403 <==> !IsAdmin(users, adminId)
      ensures status == NotFound404 <==> IsAdmin(users, adminId) && RoomIndex(old(rooms), roomId).None?
      ensures status == BadRequest400 <==> IsAdmin(users, adminId) && RoomIndex(old(rooms), roomId).Some? && NoFields(p)
      ensures status == Ok200 <==> IsAdmin(users, adminId) && RoomIndex(old(rooms), roomId).Some? && !NoFields(p)
      ensures status == Ok200 ==>
        var k := RoomIndex(old(rooms), roomId).value;
        rooms == old(rooms)[k := Patched(old(rooms)[k], p)] && room == Some(rooms[k]) &&
        (forall c :: c in SuppliedAmong(p, ColumnCount) ==> HoldsGiven(rooms[k], p, c)) &&
        (forall c :: c !in SuppliedAmong(p, ColumnCount) ==> SameIn(rooms[k], old(rooms)[k], c))
      ensures status != Ok200 ==> rooms == old(rooms) && room == None
    {
      if !IsAdmin(users, adminId) {
        return Forbidden403, None;
      }
      match RoomIndex(rooms, roomId)
      case None =>
        return NotFound404, None;
      case Some(k) =>
        var fields := BuildUpdate(p);
        EmptyListIffNoFields(p);
        if fields == [] {
          return BadRequest400, None;
        }
        var updated := Patched(rooms[k], p);
        UpdateSetsListedColumns(rooms[k], p);
        ReplaceRoom(k, updated);
        status, room := Ok200, Some(updated);
    }

    /** `UPDATE rooms ... WHERE id = :id` for the row at position `k`: the new
        row keeps the id, so room ids stay unique. */
    method ReplaceRoom(k: nat, updated: Room)
      requires Valid() && k < |rooms| && updated.id == rooms[k].id
      modifies this`rooms
      ensures Valid()
      ensures rooms == old(rooms)[k := updated]
    {
      rooms := rooms[k := updated];
    }
  }

  /** A whole-day booking blocks the room for every time of that date. */
  method WholeDayScenario() {
    var alice := User(1, "Alice", "alice@example.com", "a", false);
    var room := Room(7, "Sala 7", 10, 50.0, true, None, None, None);
    var db := new Database([alice], [room]);
    assert FindRoom(db.rooms, 7) == Some(room);
    var s1, r1 := db.Reserve(7, 1, "2024-05-01", "");
    assert s1 == Ok200;
    assert db.reservations == [Reservation(1, 7, 1, "2024-05-01", None)];
    var s2, r2 := db.Reserve(7, 1, "2024-05-01", "10:00");
    assert Clashes(db.reservations[0], 7, "2024-05-01", NullIfEmpty("10:00"));
    assert s2 == Conflict409;
  }

  /** Cancelling an id no reservation has answers 404, even without a caller. */
  method UnknownCancelScenario() {
    var alice := User(1, "Alice", "alice@example.com", "a", false);
    var room := Room(7, "Sala 7", 10, 50.0, true, None, None, None);
    var db := new Database([alice], [room]);
    var s1, r1 := db.Reserve(7, 1, "2024-05-01", "09:00");
    var s2 := db.CancelReservation(999999, 0, 0);
    assert s2 == NotFound404;
  }

  /** Login without credentials and registration with only a name answer 400,
      and an unknown room is not found. */
  method MissingInputScenario() {
    var alice := User(1, "Alice", "alice@example.com", "a", false);
    var room := Room(7, "Sala 7", 10, 50.0, true, None, None, None);
    var db := new Database([alice], [room]);
    assert Login(db.users, "", "") == Failure(BadRequest400);
    var s, id := db.Register("Teste", "", "");
    assert s == BadRequest400;
    assert RoomWithAvailability(db.rooms, db.reservations, 999999, "") == None;
  }
}
