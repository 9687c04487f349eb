/** The tables of the room-booking database and the values the route handlers
    exchange with their callers. */
module Types {

  datatype Option<T> = None | Some(value: T)

  /** A handler either produces a value or answers with an error status. */
  datatype Outcome<T> = Success(value: T) | Failure(status: Status)

  /** The HTTP status codes the modelled handlers answer with. */
  datatype Status = Ok200 | Created201 | BadRequest400 | Unauthorized401 | Forbidden403 | NotFound404 | Conflict409

  /** A row of `users`. Passwords are stored and compared as plain text. */
  datatype User = User(id: nat, name: string, email: string, password: string, isAdmin: bool)

  /** A row of `rooms`. `available` is the flag an administrator stores; listings
      with a date replace it by the computed per-date availability. */
  datatype Room = Room(
    id: nat,
    name: string,
    capacity: int,
    price: real,
    available: bool,
    image: Option<string>,
    address: Option<string>,
    features: Option<string>)

  /** A row of `reservations`: one room, one date and an optional time slot
      (`None` is SQL NULL, a booking that blocks the whole date). */
  datatype Reservation = Reservation(id: nat, roomId: nat, userId: nat, date: string, time: Option<string>)

  /** A row of `reviews` (its creation timestamp is not modelled). */
  datatype Review = Review(id: nat, roomId: nat, userId: nat, rating: real, comment: string)

  /** The value `Number(x)` produces in JavaScript: a finite number, an infinity or NaN. */
  datatype JsNumber = NaN | PosInfinity | NegInfinity | Finite(value: real)

  /** One field of a partial update: left out of the request body, or given. */
  datatype Patch<T> = Keep | Put(value: T)

  /** The fields a room update request may carry. An empty string for `image`,
      `address` or `features` stands for every falsy JavaScript value. */
  datatype RoomPatch = RoomPatch(
    name: Patch<string>,
    capacity: Patch<int>,
    price: Patch<real>,
    available: Patch<bool>,
    image: Patch<string>,
    address: Patch<string>,
    features: Patch<string>)

  /** The columns an `UPDATE rooms SET ...` statement can assign. */
  datatype Column = NameColumn | CapacityColumn | PriceColumn | AvailableColumn | ImageColumn | AddressColumn | FeaturesColumn

  /** `x || null` for a string: the empty string is stored as NULL. */
  function NullIfEmpty(s: string): Option<string> {
    if s == "" then None else Some(s)
  }
}
