/** What users attach to rooms: favourites (a set of (user, room) pairs that the
    handler toggles) and reviews (a rating from 1 to 5 and a non-blank comment). */
module Feedback {
  import opened Types
  import opened Text

  /** `!rate` for a JavaScript number: 0 and NaN are falsy. */
  predicate Falsy(n: JsNumber) {
    n.NaN? || n == Finite(0.0)
  }

  /** `n < x` in JavaScript: false whenever NaN is involved. */
  predicate LessThan(n: JsNumber, x: real) {
    match n
    case NaN => false
    case PosInfinity => false
    case NegInfinity => true
    case Finite(v) => v < x
  }

  /** `n > x` in JavaScript: false whenever NaN is involved. */
  predicate GreaterThan(n: JsNumber, x: real) {
    match n
    case NaN => false
    case PosInfinity => true
    case NegInfinity => false
    case Finite(v) => v > x
  }

  /** The rating passes `!(!rate || rate < 1 || rate > 5)` exactly when it is a
      finite number between 1 and 5 inclusive; NaN, 0 and the infinities fail. */
  predicate RatingAccepted(rate: JsNumber)
    ensures RatingAccepted(rate) <==> rate.Finite? && 1.0 <= rate.value <= 5.0
  {
    !(Falsy(rate) || LessThan(rate, 1.0) || GreaterThan(rate, 5.0))
  }

  /** A stored review keeps the invariant the creation handler checks: a rating
      from 1 to 5 and a comment that is non-empty and already trimmed. */
  predicate ReviewWellFormed(v: Review) {
    1.0 <= v.rating <= 5.0 && v.comment != [] && Trim(v.comment) == v.comment
  }

  /** The reviews table invariant: ids positive, unique and below the next
      AUTO_INCREMENT value, and every review well formed. */
  predicate ReviewsWellFormed(reviews: seq<Review>, nextId: nat) {
    && (forall k :: 0 <= k < |reviews| ==> 0 < reviews[k].id < nextId)
    && (forall k :: 0 <= k < |reviews| ==> ReviewWellFormed(reviews[k]))
  }

  /** Inserting a well-formed review with the next id keeps the invariant. */
  lemma AppendKeepsReviewsWellFormed(reviews: seq<Review>, nextId: nat, v: Review)
    requires ReviewsWellFormed(reviews, nextId) && ReviewWellFormed(v) && 0 < v.id == nextId
    ensures ReviewsWellFormed(reviews + [v], nextId + 1)
  {
    var t := reviews + [v];
    forall k | 0 <= k < |t| ensures 0 < t[k].id < nextId + 1 && ReviewWellFormed(t[k]) {
      if k < |reviews| {
        assert t[k] == reviews[k];
      }
    }
  }

  /** A review built from an accepted rating and the trimmed comment is well formed. */
  lemma AcceptedReviewWellFormed(id: nat, roomId: nat, userId: nat, rate: JsNumber, comment: string)
    requires RatingAccepted(rate) && Trim(comment) != []
    ensures ReviewWellFormed(Review(id, roomId, userId, rate.value, Trim(comment)))
  {
    TrimIdempotent(comment);
  }

  /** The favourites toggle: the pair is removed when present and added when
      absent; every other pair stays as it was. */
  function Toggle(favorites: set<(nat, nat)>, pair: (nat, nat)): (r: set<(nat, nat)>)
    ensures pair in r <==> pair !in favorites
    ensures r - {pair} == favorites - {pair}
  {
    if pair in favorites then favorites - {pair} else favorites + {pair}
  }

  /** Toggling the same pair twice restores the original favourites. */
  lemma ToggleTwice(favorites: set<(nat, nat)>, pair: (nat, nat))
    ensures Toggle(Toggle(favorites, pair), pair) == favorites
  {
    var once := Toggle(favorites, pair);
    var twice := Toggle(once, pair);
    assert forall q :: q in twice <==> q in favorites by {
      forall q ensures q in twice <==> q in favorites {
        if q != pair {
          assert q in twice <==> q in twice - {pair};
          assert q in favorites <==> q in favorites - {pair};
        }
      }
    }
  }
}
