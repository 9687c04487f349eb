/** Rooms: lookup by id, the per-date availability flag of the room endpoints,
    the filtered room listing and the administrator's partial update. */
module Rooms {
  import opened Types
  import opened Text
  import opened Booking

  /** The position of the first room with that id, if any. */
  function RoomIndex(rooms: seq<Room>, id: nat): (k: Option<nat>)
    ensures k.Some? ==> k.value < |rooms| && rooms[k.value].id == id
    ensures k.Some? ==> forall j :: 0 <= j < k.value ==> rooms[j].id != id
    ensures k.None? <==> forall j :: 0 <= j < |rooms| ==> rooms[j].id != id
  {
    if rooms == [] then None
    else if rooms[0].id == id then Some(0)
    else match RoomIndex(rooms[1..], id)
      case None => None
      case Some(k) => Some(k + 1)
  }

  /** `SELECT * FROM rooms WHERE id = :id`, first row: the row at `RoomIndex`. */
  function FindRoom(rooms: seq<Room>, id: nat): (r: Option<Room>)
    ensures r.Some? ==> r.value in rooms && r.value.id == id
    ensures r.None? <==> forall k :: 0 <= k < |rooms| ==> rooms[k].id != id
  {
    match RoomIndex(rooms, id)
    case None => None
    case Some(k) => Some(rooms[k])
  }

  predicate UniqueRoomIds(rooms: seq<Room>) {
    forall i, j :: 0 <= i < j < |rooms| ==> rooms[i].id != rooms[j].id
  }

  /** A room as the read endpoints show it: with a date, `available` is replaced
      by whether the room is free on that date; without one, the stored flag stays. */
  function Shown(rs: seq<Reservation>, room: Room, date: string): Room {
    if date == "" then room else room.(available := AvailableOn(rs, room.id, date))
  }

  /** `getRoomWithAvailability(roomId, date)`: nothing for an unknown room. */
  function RoomWithAvailability(rooms: seq<Room>, rs: seq<Reservation>, id: nat, date: string): (r: Option<Room>)
    ensures r.None? <==> FindRoom(rooms, id).None?
    ensures r.Some? ==> r.value.id == id
    ensures r.Some? && date != "" ==>
      r.value == FindRoom(rooms, id).value.(available := AvailableOn(rs, id, date))
    ensures r.Some? && date == "" ==> r.value == FindRoom(rooms, id).value
  {
    match FindRoom(rooms, id)
    case None => None
    case Some(room) => Some(Shown(rs, room, date))
  }

  /** The WHERE clause of the room listing: the lower-cased name contains the
      lower-cased search text (when one is given) and the capacity reaches the
      requested minimum (when one is given). */
  predicate Matches(room: Room, search: string, minCapacity: Option<int>) {
    && (search == "" || Contains(Lower(room.name), Lower(search)))
    && (minCapacity.None? || room.capacity >= minCapacity.value)
  }

  /** `GET /api/rooms`: the matching rooms, in table order, each shown with its
      availability on `date` when a date is given. */
  function ListRooms(rooms: seq<Room>, rs: seq<Reservation>, search: string, minCapacity: Option<int>, date: string): (r: seq<Room>)
    ensures |r| <= |rooms|
    ensures forall room :: room in rooms && Matches(room, search, minCapacity) ==> Shown(rs, room, date) in r
    ensures forall v :: v in r ==> exists room :: room in rooms && Matches(room, search, minCapacity) && v == Shown(rs, room, date)
  {
    if rooms == [] then []
    else
      var rest := ListRooms(rooms[1..], rs, search, minCapacity, date);
      if Matches(rooms[0], search, minCapacity) then [Shown(rs, rooms[0], date)] + rest else rest
  }

  /** The listing and the single-room endpoint report the same availability:
      every listed room is what `GET /api/rooms/:id` returns for its id. */
  lemma ListingAgreesWithLookup(rooms: seq<Room>, rs: seq<Reservation>, search: string, minCapacity: Option<int>, date: string)
    requires UniqueRoomIds(rooms)
    ensures forall v :: v in ListRooms(rooms, rs, search, minCapacity, date) ==>
      RoomWithAvailability(rooms, rs, v.id, date) == Some(v)
  {
    forall v | v in ListRooms(rooms, rs, search, minCapacity, date)
      ensures RoomWithAvailability(rooms, rs, v.id, date) == Some(v)
    {
      var room :| room in rooms && Matches(room, search, minCapacity) && v == Shown(rs, room, date);
      FindRoomOfMember(rooms, room);
    }
  }

  /** With unique ids, looking up the id of a row finds that row. */
  lemma FindRoomOfMember(rooms: seq<Room>, room: Room)
    requires UniqueRoomIds(rooms) && room in rooms
    ensures FindRoom(rooms, room.id) == Some(room)
  {
    var j :| 0 <= j < |rooms| && rooms[j] == room;
    var k := RoomIndex(rooms, room.id).value;
    assert j == k;
  }

  /** With unique room ids the listing shows every room at most once. */
  lemma {:induction false} ListedOnce(rooms: seq<Room>, rs: seq<Reservation>, search: string, minCapacity: Option<int>, date: string)
    requires UniqueRoomIds(rooms)
    ensures UniqueRoomIds(ListRooms(rooms, rs, search, minCapacity, date))
  {
    if rooms != [] {
      var tail := rooms[1..];
      assert UniqueRoomIds(tail);
      ListedOnce(tail, rs, search, minCapacity, date);
      var rest := ListRooms(tail, rs, search, minCapacity, date);
      ListedAreLaterRows(rooms, rs, search, minCapacity, date);
      if Matches(rooms[0], search, minCapacity) {
        var x := Shown(rs, rooms[0], date);
        assert x.id == rooms[0].id;
        ConsUniqueIds(x, rest);
      }
    }
  }

  /** No room listed from the rows after the first has the first row's id. */
  lemma ListedAreLaterRows(rooms: seq<Room>, rs: seq<Reservation>, search: string, minCapacity: Option<int>, date: string)
    requires UniqueRoomIds(rooms) && rooms != []
    ensures forall k :: 0 <= k < |ListRooms(rooms[1..], rs, search, minCapacity, date)| ==>
      ListRooms(rooms[1..], rs, search, minCapacity, date)[k].id != rooms[0].id
  {
    var tail := rooms[1..];
    var rest := ListRooms(tail, rs, search, minCapacity, date);
    forall k | 0 <= k < |rest| ensures rest[k].id != rooms[0].id {
      assert rest[k] in rest;
      var room :| room in tail && Matches(room, search, minCapacity) && rest[k] == Shown(rs, room, date);
      var j :| 0 <= j < |tail| && tail[j] == room;
      assert rooms[j + 1] == room;
    }
  }

  /** Putting a room in front of a list with distinct ids, none of them its
      own, keeps the ids distinct. */
  lemma ConsUniqueIds(x: Room, rest: seq<Room>)
    requires forall k :: 0 <= k < |rest| ==> rest[k].id != x.id
    requires UniqueRoomIds(rest)
    ensures UniqueRoomIds([x] + rest)
  {
    var r := [x] + rest;
    forall i, j | 0 <= i < j < |r| ensures r[i].id != r[j].id {
      assert r[j] == rest[j - 1];
      if i > 0 {
        assert r[i] == rest[i - 1];
      }
    }
  }

  /** The field is given in the request body (`!== undefined`). */
  predicate Supplied(p: RoomPatch, c: Column) {
    match c
    case NameColumn => p.name.Put?
    case CapacityColumn => p.capacity.Put?
    case PriceColumn => p.price.Put?
    case AvailableColumn => p.available.Put?
    case ImageColumn => p.image.Put?
    case AddressColumn => p.address.Put?
    case FeaturesColumn => p.features.Put?
  }

  /** The request body carries none of the updatable fields. */
  predicate NoFields(p: RoomPatch) {
    p == RoomPatch(Keep, Keep, Keep, Keep, Keep, Keep, Keep)
  }

  /** Rooms `a` and `b` hold the same value in column `c`. */
  predicate SameIn(a: Room, b: Room, c: Column) {
    match c
    case NameColumn => a.name == b.name
    case CapacityColumn => a.capacity == b.capacity
    case PriceColumn => a.price == b.price
    case AvailableColumn => a.available == b.available
    case ImageColumn => a.image == b.image
    case AddressColumn => a.address == b.address
    case FeaturesColumn => a.features == b.features
  }

  /** Room `r` holds in column `c` the value the request binds to it: the given
      value, with an empty image, address or features stored as NULL. */
  predicate HoldsGiven(r: Room, p: RoomPatch, c: Column) {
    match c
    case NameColumn => p.name.Put? && r.name == p.name.value
    case CapacityColumn => p.capacity.Put? && r.capacity == p.capacity.value
    case PriceColumn => p.price.Put? && r.price == p.price.value
    case AvailableColumn => p.available.Put? && r.available == p.available.value
    case ImageColumn => p.image.Put? && r.image == NullIfEmpty(p.image.value)
    case AddressColumn => p.address.Put? && r.address == NullIfEmpty(p.address.value)
    case FeaturesColumn => p.features.Put? && r.features == NullIfEmpty(p.features.value)
  }

  /** The room after `PUT /api/admin/rooms/:id`: each supplied column takes the
      value the request gives it, every other column and the id are kept. */
  function Patched(room: Room, p: RoomPatch): (r: Room)
    ensures r.id == room.id
    ensures forall c :: Supplied(p, c) ==> HoldsGiven(r, p, c)
    ensures forall c :: !Supplied(p, c) ==> SameIn(r, room, c)
    ensures NoFields(p) ==> r == room
  {
    Room(
      room.id,
      if p.name.Put? then p.name.value else room.name,
      if p.capacity.Put? then p.capacity.value else room.capacity,
      if p.price.Put? then p.price.value else room.price,
      if p.available.Put? then p.available.value else room.available,
      if p.image.Put? then NullIfEmpty(p.image.value) else room.image,
      if p.address.Put? then NullIfEmpty(p.address.value) else room.address,
      if p.features.Put? then NullIfEmpty(p.features.value) else room.features)
  }

  /** Applying the same update twice gives the room applying it once does. */
  lemma UpdateIsIdempotent(room: Room, p: RoomPatch)
    ensures Patched(Patched(room, p), p) == Patched(room, p)
  {
  }

  /** The position of a column in the order the handler checks them. */
  function Rank(c: Column): (r: nat)
    ensures r < ColumnCount
  {
    match c
    case NameColumn => 0
    case CapacityColumn => 1
    case PriceColumn => 2
    case AvailableColumn => 3
    case ImageColumn => 4
    case AddressColumn => 5
    case FeaturesColumn => 6
  }

  /** The number of columns the handler checks. */
  const ColumnCount: nat := 7

  /** The column the handler checks in position `j`. */
  function ColumnAt(j: nat): (c: Column)
    requires j < ColumnCount
    ensures Rank(c) == j
  {
    if j == 0 then NameColumn
    else if j == 1 then CapacityColumn
    else if j == 2 then PriceColumn
    else if j == 3 then AvailableColumn
    else if j == 4 then ImageColumn
    else if j == 5 then AddressColumn
    else FeaturesColumn
  }

  /** What check `j` pushes: its column when the request supplies it. */
  function Check(p: RoomPatch, j: nat): seq<Column>
    requires j < ColumnCount
  {
    if Supplied(p, ColumnAt(j)) then [ColumnAt(j)] else []
  }

  /** The supplied columns among the first `k` checks, in check order. */
  function SuppliedAmong(p: RoomPatch, k: nat): seq<Column>
    requires k <= ColumnCount
  {
    if k == 0 then [] else SuppliedAmong(p, k - 1) + Check(p, k - 1)
  }

  /** The columns of `cols` appear in strictly increasing check order, so
      none appears twice. */
  predicate InCheckOrder(cols: seq<Column>) {
    forall i, j :: 0 <= i < j < |cols| ==> Rank(cols[i]) < Rank(cols[j])
  }

  /** The first `k` checks push exactly the supplied columns of rank below `k`. */
  lemma {:induction false} SuppliedAmongMembers(p: RoomPatch, k: nat)
    requires k <= ColumnCount
    ensures forall c :: c in SuppliedAmong(p, k) <==> Supplied(p, c) && Rank(c) < k
  {
    if k > 0 {
      SuppliedAmongMembers(p, k - 1);
      forall c ensures c in SuppliedAmong(p, k - 1) + Check(p, k - 1) <==> Supplied(p, c) && Rank(c) < k {
        if Rank(c) == k - 1 {
          assert ColumnAt(Rank(c)) == c;
        }
      }
    }
  }

  /** The first `k` checks push their columns in check order. */
  lemma {:induction false} SuppliedAmongOrdered(p: RoomPatch, k: nat)
    requires k <= ColumnCount
    ensures InCheckOrder(SuppliedAmong(p, k))
  {
    if k > 0 {
      SuppliedAmongOrdered(p, k - 1);
      SuppliedAmongMembers(p, k - 1);
      var before := SuppliedAmong(p, k - 1);
      var s := before + Check(p, k - 1);
      forall i, j | 0 <= i < j < |s| ensures Rank(s[i]) < Rank(s[j]) {
        if j >= |before| {
          assert s[i] in before && s[j] == ColumnAt(k - 1);
        }
      }
    }
  }

  /** After all seven checks the list holds every supplied column and nothing
      else, each once and in check order. */
  lemma AllChecksListSupplied(p: RoomPatch)
    ensures forall c :: c in SuppliedAmong(p, ColumnCount) <==> Supplied(p, c)
    ensures InCheckOrder(SuppliedAmong(p, ColumnCount))
  {
    SuppliedAmongMembers(p, ColumnCount);
    SuppliedAmongOrdered(p, ColumnCount);
  }

  /** `UPDATE rooms SET <list>` changes exactly the listed columns: every listed
      column takes the request's value and every other column keeps the stored one. */
  lemma UpdateSetsListedColumns(room: Room, p: RoomPatch)
    ensures forall c :: c in SuppliedAmong(p, ColumnCount) ==> HoldsGiven(Patched(room, p), p, c)
    ensures forall c :: c !in SuppliedAmong(p, ColumnCount) ==> SameIn(Patched(room, p), room, c)
  {
    SuppliedAmongMembers(p, ColumnCount);
  }

  /** The list is empty exactly when the request supplies no field: the case
      the handler answers with 400. */
  lemma EmptyListIffNoFields(p: RoomPatch)
    ensures SuppliedAmong(p, ColumnCount) == [] <==> NoFields(p)
  {
    SuppliedAmongMembers(p, ColumnCount);
    var fields := SuppliedAmong(p, ColumnCount);
    if fields != [] {
      assert Supplied(p, fields[0]);
    }
    if fields == [] {
      assert !Supplied(p, NameColumn) && !Supplied(p, CapacityColumn) && !Supplied(p, PriceColumn);
      assert !Supplied(p, AvailableColumn) && !Supplied(p, ImageColumn);
      assert !Supplied(p, AddressColumn) && !Supplied(p, FeaturesColumn);
    }
  }

  /** Builds the SET clause of the update the way the handler does, one `push`
      per supplied field: the list is the supplied columns in check order, so
      (by `AllChecksListSupplied`) every supplied column once and nothing else,
      and (by `EmptyListIffNoFields`) empty exactly when nothing is supplied.
      The values bound to the clause are those of `Patched`. */
  method BuildUpdate(p: RoomPatch) returns (fields: seq<Column>)
    ensures fields == SuppliedAmong(p, ColumnCount)
  {
    fields := [];
    if p.name.Put? {
      fields := fields + [NameColumn];
    }
    assert fields == SuppliedAmong(p, 1);
    if p.capacity.Put? {
      fields := fields + [CapacityColumn];
    }
    assert fields == SuppliedAmong(p, 2);
    if p.price.Put? {
      fields := fields + [PriceColumn];
    }
    assert fields == SuppliedAmong(p, 3);
    if p.available.Put? {
      fields := fields + [AvailableColumn];
    }
    assert fields == SuppliedAmong(p, 4);
    if p.image.Put? {
      fields := fields + [ImageColumn];
    }
    assert fields == SuppliedAmong(p, 5);
    if p.address.Put? {
      fields := fields + [AddressColumn];
    }
    assert fields == SuppliedAmong(p, 6);
    if p.features.Put? {
      fields := fields + [FeaturesColumn];
    }
    assert fields == SuppliedAmong(p, 7);
  }
}
