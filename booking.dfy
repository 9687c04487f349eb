/** The reservation rules of server.js: the conflict query run before every
    insertion, the no-double-booking invariant it maintains, per-date
    availability and deletion of a reservation by id. */
module Booking {
  import opened Types

  /** A reservation row and a request for `(roomId, date, time)` collide: they are
      for the same room and date, and either one of them has no time or the two
      times are equal. This is the WHERE clause of the conflict query. */
  predicate Clashes(r: Reservation, roomId: nat, date: string, time: Option<string>) {
    r.roomId == roomId && r.date == date && (r.time.None? || time.None? || r.time == time)
  }

  /** The conflict query finds a row. */
  predicate ConflictExists(rs: seq<Reservation>, roomId: nat, date: string, time: Option<string>) {
    exists i :: 0 <= i < |rs| && Clashes(rs[i], roomId, date, time)
  }

  /** Two rows may coexist: different room or date, or two different non-null times. */
  predicate Compatible(a: Reservation, b: Reservation) {
    a.roomId != b.roomId || a.date != b.date || (a.time.Some? && b.time.Some? && a.time != b.time)
  }

  /** No room is booked twice for the same date and time slot. */
  predicate NoDoubleBooking(rs: seq<Reservation>) {
    forall i, j :: 0 <= i < j < |rs| ==> Compatible(rs[i], rs[j])
  }

  /** The booking rule is exact: from a state without double bookings, appending a
      row keeps the state free of double bookings if and only if the conflict
      query for that row's room, date and time finds nothing. So the handler
      refuses precisely the requests that would double-book. */
  lemma BookingRuleIsExact(rs: seq<Reservation>, r: Reservation)
    requires NoDoubleBooking(rs)
    ensures NoDoubleBooking(rs + [r]) <==> !ConflictExists(rs, r.roomId, r.date, r.time)
  {
    var t := rs + [r];
    if ConflictExists(rs, r.roomId, r.date, r.time) {
      var i :| 0 <= i < |rs| && Clashes(rs[i], r.roomId, r.date, r.time);
      assert t[i] == rs[i] && t[|rs|] == r;
      assert !Compatible(t[i], t[|rs|]);
    } else {
      forall i, j | 0 <= i < j < |t| ensures Compatible(t[i], t[j]) {
        if j == |rs| {
          assert !Clashes(rs[i], r.roomId, r.date, r.time);
        }
      }
    }
  }

  /** `r` belongs to the slot of `roomId` on `date`. */
  predicate InSlot(r: Reservation, roomId: nat, date: string) {
    r.roomId == roomId && r.date == date
  }

  /** The slot holds exactly one reservation, and it has no time. */
  predicate SoleUntimed(rs: seq<Reservation>, roomId: nat, date: string) {
    exists i :: 0 <= i < |rs| && InSlot(rs[i], roomId, date) && rs[i].time.None? &&
      forall j :: 0 <= j < |rs| && InSlot(rs[j], roomId, date) ==> j == i
  }

  /** Every reservation of the slot has a time, and no two share one. */
  predicate DistinctTimed(rs: seq<Reservation>, roomId: nat, date: string) {
    && (forall i :: 0 <= i < |rs| && InSlot(rs[i], roomId, date) ==> rs[i].time.Some?)
    && (forall i, j :: 0 <= i < j < |rs| && InSlot(rs[i], roomId, date) && InSlot(rs[j], roomId, date) ==>
          rs[i].time != rs[j].time)
  }

  /** The shape the booking rule gives every (room, date): a single untimed
      reservation, or reservations with pairwise distinct times. */
  predicate SlotShape(rs: seq<Reservation>, roomId: nat, date: string) {
    SoleUntimed(rs, roomId, date) || DistinctTimed(rs, roomId, date)
  }

  /** The pairwise invariant and the per-slot description say the same thing. */
  lemma NoDoubleBookingIffSlotShape(rs: seq<Reservation>)
    ensures NoDoubleBooking(rs) <==> forall roomId, date :: SlotShape(rs, roomId, date)
  {
    if NoDoubleBooking(rs) {
      forall roomId, date ensures SlotShape(rs, roomId, date) {
        if i :| 0 <= i < |rs| && InSlot(rs[i], roomId, date) && rs[i].time.None? {
          forall j | 0 <= j < |rs| && InSlot(rs[j], roomId, date) ensures j == i {
            assert !Compatible(rs[j], rs[i]) && !Compatible(rs[i], rs[j]);
          }
          assert SoleUntimed(rs, roomId, date);
        } else {
          forall i, j | 0 <= i < j < |rs| && InSlot(rs[i], roomId, date) && InSlot(rs[j], roomId, date)
            ensures rs[i].time != rs[j].time
          {
            assert Compatible(rs[i], rs[j]);
          }
          assert DistinctTimed(rs, roomId, date);
        }
      }
    }
    if forall roomId, date :: SlotShape(rs, roomId, date) {
      forall i, j | 0 <= i < j < |rs| ensures Compatible(rs[i], rs[j]) {
        if InSlot(rs[j], rs[i].roomId, rs[i].date) {
          assert SlotShape(rs, rs[i].roomId, rs[i].date);
          assert !SoleUntimed(rs, rs[i].roomId, rs[i].date);
        }
      }
    }
  }

  /** Per-date availability (`getRoomWithAvailability` and the room listing): no
      reservation exists for the room on that date, whatever its time. */
  predicate AvailableOn(rs: seq<Reservation>, roomId: nat, date: string) {
    forall i :: 0 <= i < |rs| ==> !InSlot(rs[i], roomId, date)
  }

  /** A room is reported available on a date exactly when a whole-day (untimed)
      request for it would pass the conflict query, and then every request does. */
  lemma AvailableIffUntimedRequestFits(rs: seq<Reservation>, roomId: nat, date: string)
    ensures AvailableOn(rs, roomId, date) <==> !ConflictExists(rs, roomId, date, None)
    ensures AvailableOn(rs, roomId, date) ==> forall time :: !ConflictExists(rs, roomId, date, time)
  {
    if !AvailableOn(rs, roomId, date) {
      var i :| 0 <= i < |rs| && InSlot(rs[i], roomId, date);
      assert Clashes(rs[i], roomId, date, None);
    }
  }

  /** Reservation ids are unique (they come from AUTO_INCREMENT). */
  predicate UniqueIds(rs: seq<Reservation>) {
    forall i, j :: 0 <= i < j < |rs| ==> rs[i].id != rs[j].id
  }

  /** `SELECT * FROM reservations WHERE id = :id`, first row: the position of the
      first reservation with that id, if any. */
  function IndexOf(rs: seq<Reservation>, id: nat): (k: Option<nat>)
    ensures k.Some? ==> k.value < |rs| && rs[k.value].id == id
    ensures k.Some? ==> forall j :: 0 <= j < k.value ==> rs[j].id != id
    ensures k.None? <==> forall j :: 0 <= j < |rs| ==> rs[j].id != id
  {
    if rs == [] then None
    else if rs[0].id == id then Some(0)
    else match IndexOf(rs[1..], id)
      case None => None
      case Some(k) => Some(k + 1)
  }

  /** `DELETE FROM reservations WHERE id = :id`: keeps, in order, every row with
      another id. */
  function RemoveReservation(rs: seq<Reservation>, id: nat): (r: seq<Reservation>)
    ensures |r| <= |rs|
  {
    if rs == [] then []
    else if rs[0].id == id then RemoveReservation(rs[1..], id)
    else [rs[0]] + RemoveReservation(rs[1..], id)
  }

  /** The rows left are exactly the rows with another id. */
  lemma {:induction false} RemoveKeepsOthers(rs: seq<Reservation>, id: nat)
    ensures forall x :: x in RemoveReservation(rs, id) <==> x in rs && x.id != id
  {
    if rs != [] {
      RemoveKeepsOthers(rs[1..], id);
      assert forall x :: x in rs <==> x == rs[0] || x in rs[1..];
    }
  }

  /** Deleting from a concatenation deletes from each part. */
  lemma {:induction false} RemoveAppend(a: seq<Reservation>, b: seq<Reservation>, id: nat)
    ensures RemoveReservation(a + b, id) == RemoveReservation(a, id) + RemoveReservation(b, id)
  {
    if a == [] {
      assert a + b == b;
    } else {
      assert (a + b)[0] == a[0] && (a + b)[1..] == a[1..] + b;
      RemoveAppend(a[1..], b, id);
    }
  }

  /** Deleting the id of the one row that has it, with no other row carrying
      it, leaves the rows before and after it. */
  lemma RemoveBetween(front: seq<Reservation>, x: Reservation, back: seq<Reservation>)
    requires forall j :: 0 <= j < |front| ==> front[j].id != x.id
    requires forall j :: 0 <= j < |back| ==> back[j].id != x.id
    ensures RemoveReservation(front + [x] + back, x.id) == front + back
  {
    var id := x.id;
    RemoveAppend(front + [x], back, id);
    RemoveAppend(front, [x], id);
    RemoveAbsentRow(front, id);
    RemoveAbsentRow(back, id);
    var single := RemoveReservation([x], id);
    assert single == [] by {
      assert [x][1..] == [];
    }
    assert RemoveReservation(front + [x], id) == front + single;
    assert front + single == front;
  }

  /** With unique ids, deleting the id of row `i` removes that row and nothing else. */
  lemma RemoveOnlyThatRow(rs: seq<Reservation>, i: nat)
    requires UniqueIds(rs) && i < |rs|
    ensures RemoveReservation(rs, rs[i].id) == rs[..i] + rs[i + 1..]
  {
    var front, back := rs[..i], rs[i + 1..];
    assert rs == front + [rs[i]] + back;
    forall j | 0 <= j < |front| ensures front[j].id != rs[i].id {
      assert front[j] == rs[j];
    }
    forall j | 0 <= j < |back| ensures back[j].id != rs[i].id {
      assert back[j] == rs[i + 1 + j];
    }
    RemoveBetween(front, rs[i], back);
  }

  /** Deleting an id no row has changes nothing. */
  lemma {:induction false} RemoveAbsentRow(rs: seq<Reservation>, id: nat)
    requires forall j :: 0 <= j < |rs| ==> rs[j].id != id
    ensures RemoveReservation(rs, id) == rs
  {
    if rs != [] {
      RemoveAbsentRow(rs[1..], id);
      assert rs == [rs[0]] + rs[1..];
    }
  }

  /** Deleting one row keeps both unique ids and the absence of double bookings. */
  lemma DeleteKeepsInvariants(rs: seq<Reservation>, i: nat)
    requires i < |rs|
    ensures UniqueIds(rs) ==> UniqueIds(rs[..i] + rs[i + 1..])
    ensures NoDoubleBooking(rs) ==> NoDoubleBooking(rs[..i] + rs[i + 1..])
  {
    var t := rs[..i] + rs[i + 1..];
    assert forall k :: 0 <= k < |t| ==> t[k] == rs[if k < i then k else k + 1];
  }
}
