/** Book reviews: creating, editing (owner only) and deleting them. */
module Reviews {

  import opened Common

  type ReviewId = nat

  /** A row of the reviews table. */
  datatype Review = Review(id: ReviewId, bookId: nat, userId: nat, comment: string, rating: int)

  /** The two request fields; None is a field the request does not carry (or carries
      with a value that is not an integer, for the rating). */
  datatype ReviewInput = ReviewInput(comment: Option<string>, rating: Option<int>)

  /** The validated fields. */
  datatype ReviewFields = ReviewFields(comment: string, rating: int)

  predicate RatingInRange(r: int)
  {
    1 <= r <= 5
  }

  /** The rules shared by store and update: a comment must be present and non-empty,
      a rating must be present and an integer from 1 to 5. */
  function Validate(input: ReviewInput): (r: Result<ReviewFields>)
    ensures r.Success? <==>
      input.comment.Some? && input.comment.value != "" &&
      input.rating.Some? && 1 <= input.rating.value <= 5
    ensures r.Failure? ==> r.error == Unprocessable
    ensures r.Success? ==>
      r.value.comment == input.comment.value && r.value.rating == input.rating.value &&
      RatingInRange(r.value.rating)
  {
    match (input.comment, input.rating)
    case (Some(c), Some(n)) =>
      if c != "" && RatingInRange(n) then Success(ReviewFields(c, n)) else Failure(Unprocessable)
    case _ => Failure(Unprocessable)
  }

  /** The reviews table: rows by id and the next id it hands out. */
  datatype Board = Board(reviews: map<ReviewId, Review>, nextId: ReviewId)

  datatype Step<+T> = Step(result: Result<T>, after: Board)

  /** Every stored rating is in range, every row knows its own id, and every id was
      handed out already. */
  predicate WellFormed(b: Board)
  {
    forall k | k in b.reviews ::
      k < b.nextId && b.reviews[k].id == k && RatingInRange(b.reviews[k].rating)
  }

  function StoreStep(b: Board, bookId: nat, user: nat, input: ReviewInput): (s: Step<Review>)
    ensures s.result.Success? <==> Validate(input).Success?
    ensures s.result.Failure? ==> s.after == b && HttpStatus(s.result.error) == 422
    ensures s.result.Success? ==>
      && s.result.value.bookId == bookId && s.result.value.userId == user
      && s.after.reviews == b.reviews[s.result.value.id := s.result.value]
  {
    match Validate(input)
    case Failure(e) => Step(Failure(e), b)
    case Success(f) =>
      var review := Review(b.nextId, bookId, user, f.comment, f.rating);
      Step(Success(review), Board(b.reviews[b.nextId := review], b.nextId + 1))
  }

  /** Ownership is checked before the input is validated. */
  function UpdateStep(b: Board, id: ReviewId, user: nat, input: ReviewInput): (s: Step<Review>)
    ensures s.result.Success? <==>
      id in b.reviews && user == b.reviews[id].userId && Validate(input).Success?
    ensures s.result.Failure? ==> s.after == b
    ensures s.result.Failure? && id !in b.reviews ==> s.result.error == NotFound
    ensures s.result.Success? ==> s.after.reviews == b.reviews[id := s.result.value]
  {
    if id !in b.reviews then Step(Failure(NotFound), b)
    else if user != b.reviews[id].userId then Step(Failure(Forbidden), b)
    else match Validate(input)
      case Failure(e) => Step(Failure(e), b)
      case Success(f) =>
        var review := b.reviews[id].(comment := f.comment, rating := f.rating);
        Step(Success(review), b.(reviews := b.reviews[id := review]))
  }

  /** Deleting checks no ownership. */
  function DestroyStep(b: Board, id: ReviewId): (s: Step<ReviewId>)
    ensures s.result.Success? <==> id in b.reviews
    ensures s.result.Failure? ==> s.after == b && s.result.error == NotFound
    ensures s.result.Success? ==> s.after.reviews == b.reviews - {id}
  {
    if id !in b.reviews then Step(Failure(NotFound), b)
    else Step(Success(id), b.(reviews := b.reviews - {id}))
  }

  // ---------------------------------------------------------------------------
  // Properties

  /** Storing creates a review only from valid input; it is the requester's, on the
      path's book, with a fresh id; nothing else changes. */
  lemma StoreOutcome(b: Board, bookId: nat, user: nat, input: ReviewInput)
    requires WellFormed(b)
    ensures var s := StoreStep(b, bookId, user, input);
      && (s.result.Success? <==> Validate(input).Success?)
      && (s.result.Failure? ==>
            s.result.error == Unprocessable && HttpStatus(s.result.error) == 422 && s.after == b)
      && (s.result.Success? ==>
            && s.result.value.userId == user
            && s.result.value.bookId == bookId
            && s.result.value.comment == input.comment.value
            && s.result.value.rating == input.rating.value
            && s.result.value.id !in b.reviews
            && s.after.reviews == b.reviews[s.result.value.id := s.result.value])
  {
  }

  /** Someone other than the owner is refused, whatever the input, and nothing changes. */
  lemma NonOwnerForbidden(b: Board, id: ReviewId, user: nat, input: ReviewInput)
    requires id in b.reviews && b.reviews[id].userId != user
    ensures UpdateStep(b, id, user, input) == Step(Failure(Forbidden), b)
    ensures HttpStatus(UpdateStep(b, id, user, input).result.error) == 403
  {
  }

  /** The owner's valid update replaces comment and rating and keeps id, owner and book. */
  lemma OwnerUpdateOutcome(b: Board, id: ReviewId, input: ReviewInput)
    requires id in b.reviews
    ensures var s := UpdateStep(b, id, b.reviews[id].userId, input);
      && (s.result.Success? <==> Validate(input).Success?)
      && (s.result.Failure? ==> s.result.error == Unprocessable && s.after == b)
      && (s.result.Success? ==>
            && s.result.value.comment == input.comment.value
            && s.result.value.rating == input.rating.value
            && s.result.value.id == b.reviews[id].id
            && s.result.value.userId == b.reviews[id].userId
            && s.result.value.bookId == b.reviews[id].bookId
            && s.after.reviews == b.reviews[id := s.result.value])
  {
  }

  /** Destroying removes exactly that review. */
  lemma DestroyOutcome(b: Board, id: ReviewId)
    ensures var s := DestroyStep(b, id);
      && (s.result.Failure? <==> id !in b.reviews)
      && (s.result.Failure? ==> s.after == b)
      && s.after.reviews.Keys == b.reviews.Keys - {id}
      && (forall k | k in s.after.reviews :: s.after.reviews[k] == b.reviews[k])
  {
  }

  /** Every stored rating stays in [1, 5] through store, update and destroy. */
  lemma StepsKeepRatingsInRange(b: Board, id: ReviewId, bookId: nat, user: nat, input: ReviewInput)
    requires WellFormed(b)
    ensures WellFormed(StoreStep(b, bookId, user, input).after)
    ensures WellFormed(UpdateStep(b, id, user, input).after)
    ensures WellFormed(DestroyStep(b, id).after)
  {
  }

  // ---------------------------------------------------------------------------
  // The reviews table, updated in place

  class ReviewTable {
    var reviews: map<ReviewId, Review>
    var nextId: ReviewId

    function Snapshot(): Board
      reads this
    {
      Board(reviews, nextId)
    }

    ghost predicate Valid()
      reads this
    {
      WellFormed(Snapshot())
    }

    constructor ()
      ensures Valid() && reviews == map[] && nextId == 1
    {
      reviews, nextId := map[], 1;
    }

    method Store(bookId: nat, user: nat, input: ReviewInput) returns (r: Result<Review>)
      requires Valid()
      modifies this
      ensures Valid()
      ensures Step(r, Snapshot()) == StoreStep(old(Snapshot()), bookId, user, input)
    {
      var v := Validate(input);
      if v.Failure? {
        return Failure(v.error);
      }
      var review := Review(nextId, bookId, user, v.value.comment, v.value.rating);
      reviews := reviews[nextId := review];
      nextId := nextId + 1;
      r := Success(review);
      StepsKeepRatingsInRange(old(Snapshot()), 0, bookId, user, input);
    }

    method Update(id: ReviewId, user: nat, input: ReviewInput) returns (r: Result<Review>)
      requires Valid()
      modifies this
      ensures Valid()
      ensures Step(r, Snapshot()) == UpdateStep(old(Snapshot()), id, user, input)
    {
      if id !in reviews {
        return Failure(NotFound);
      }
      if user != reviews[id].userId {
        return Failure(Forbidden);
      }
      var v := Validate(input);
      if v.Failure? {
        return Failure(v.error);
      }
      var review := reviews[id].(comment := v.value.comment, rating := v.value.rating);
      reviews := reviews[id := review];
      r := Success(review);
      StepsKeepRatingsInRange(old(Snapshot()), id, 0, user, input);
    }

    method Destroy(id: ReviewId) returns (r: Result<ReviewId>)
      requires Valid()
      modifies this
      ensures Valid()
      ensures Step(r, Snapshot()) == DestroyStep(old(Snapshot()), id)
    {
      if id !in reviews {
        return Failure(NotFound);
      }
      reviews := reviews - {id};
      r := Success(id);
    }
  }
}
