/** Late fines: computing a fine for a borrow record and paying it. */
module Fines {

  import opened Common
  import opened Books

  /** The fixed rate of one unit per whole day late. */
  const DAILY_RATE: int := 1

  /** A row of the fines table. Amounts are whole units. */
  datatype Fine = Fine(id: nat, userId: UserId, borrowRecordId: nat, amount: int, paid: bool)

  /** The instant the lateness is measured at: the return time once the book is back,
      the current time while it is still out. */
  function EffectiveReturn(rec: BorrowRecord, now: int): (t: int)
    ensures rec.returnedAt.Some? ==> t == rec.returnedAt.value
    ensures rec.returnedAt.None? ==> t == now
  {
    match rec.returnedAt
    case Some(t) => t
    case None => now
  }

  /** Whole days between `due` and `ret`, the remainder of a day dropped. */
  function DaysLate(ret: int, due: int): (d: nat)
    requires ret > due
    ensures d * DAY <= ret - due < (d + 1) * DAY
  {
    (ret - due) / DAY
  }

  /** The fine one calculation creates for `rec`, numbered `id`, or None when the
      effective return is not after the due time. */
  function FineFor(rec: BorrowRecord, now: int, id: nat): (r: Option<Fine>)
    ensures r.None? <==> EffectiveReturn(rec, now) <= rec.dueAt
    ensures r.Some? ==>
      && r.value.id == id
      && r.value.userId == rec.userId
      && r.value.borrowRecordId == rec.id
      && !r.value.paid
      && r.value.amount >= 0
      && r.value.amount * DAY <= EffectiveReturn(rec, now) - rec.dueAt < (r.value.amount + 1) * DAY
  {
    var ret := EffectiveReturn(rec, now);
    if ret > rec.dueAt then
      Some(Fine(id, rec.userId, rec.id, DaysLate(ret, rec.dueAt) * DAILY_RATE, false))
    else
      None
  }

  /** Fines are numbered 1, 2, ... in creation order; none is ever deleted. */
  predicate Numbered(fines: seq<Fine>)
  {
    forall i | 0 <= i < |fines| :: fines[i].id == i + 1
  }

  /** The fine ledger after one calculation for `rec`. */
  function AfterCalculate(fines: seq<Fine>, rec: BorrowRecord, now: int): (after: seq<Fine>)
    ensures |fines| <= |after| <= |fines| + 1 && after[..|fines|] == fines
    ensures |after| == |fines| + 1 <==> EffectiveReturn(rec, now) > rec.dueAt
    ensures |after| == |fines| + 1 ==> Some(after[|fines|]) == FineFor(rec, now, |fines| + 1)
  {
    match FineFor(rec, now, |fines| + 1)
    case Some(f) => fines + [f]
    case None => fines
  }

  /** Paying looks the fine up by id; an unknown id is answered NotFound. */
  function PayResult(fines: seq<Fine>, id: nat): (r: Result<Fine>)
    ensures r.Success? <==> 1 <= id <= |fines|
    ensures r.Failure? ==> r.error == NotFound && HttpStatus(r.error) == 404
    ensures r.Success? ==> r.value.paid && r.value == fines[id - 1].(paid := true)
  {
    if 1 <= id <= |fines| then Success(fines[id - 1].(paid := true)) else Failure(NotFound)
  }

  /** The ledger after paying fine `id`: only that entry changes, and it is now paid. */
  function AfterPay(fines: seq<Fine>, id: nat): (after: seq<Fine>)
    ensures |after| == |fines|
    ensures forall i | 0 <= i < |fines| && i != id - 1 :: after[i] == fines[i]
    ensures 1 <= id <= |fines| ==> after[id - 1] == fines[id - 1].(paid := true)
  {
    if 1 <= id <= |fines| then fines[id - 1 := fines[id - 1].(paid := true)] else fines
  }

  // ---------------------------------------------------------------------------
  // Properties of the calculation

  /** Once the book is back, the clock no longer matters. */
  lemma ReturnedRecordIgnoresClock(rec: BorrowRecord, now1: int, now2: int, id: nat)
    requires rec.returnedAt.Some?
    ensures FineFor(rec, now1, id) == FineFor(rec, now2, id)
  {
  }

  /** A return `k` whole days and `s` seconds after the due time is fined `k` units. */
  lemma FineCountsWholeDays(rec: BorrowRecord, now: int, id: nat, k: nat, s: int)
    requires 0 <= s < DAY && (k > 0 || s > 0)
    requires EffectiveReturn(rec, now) == rec.dueAt + k * DAY + s
    ensures FineFor(rec, now, id).Some?
    ensures FineFor(rec, now, id).value.amount == k
  {
    var a := FineFor(rec, now, id).value.amount;
    assert a * DAY <= k * DAY + s < (a + 1) * DAY;
  }

  /** A fine is still created, for zero units, when the book is less than a day late. */
  lemma LessThanADayLateFinesZero(rec: BorrowRecord, now: int, id: nat)
    requires rec.dueAt < EffectiveReturn(rec, now) < rec.dueAt + DAY
    ensures FineFor(rec, now, id).Some?
    ensures FineFor(rec, now, id).value.amount == 0
  {
    FineCountsWholeDays(rec, now, id, 0, EffectiveReturn(rec, now) - rec.dueAt);
  }

  /** While a book is out, the fine a calculation would create never shrinks as time passes. */
  lemma OpenLoanFineGrows(rec: BorrowRecord, now1: int, now2: int, id: nat)
    requires rec.returnedAt.None? && now1 <= now2
    ensures FineFor(rec, now1, id).Some? ==> FineFor(rec, now2, id).Some?
    ensures FineFor(rec, now1, id).Some? ==>
      FineFor(rec, now1, id).value.amount <= FineFor(rec, now2, id).value.amount
  {
  }

  /** On time: nothing is created and the ledger is unchanged. */
  lemma OnTimeLeavesLedger(fines: seq<Fine>, rec: BorrowRecord, now: int)
    requires EffectiveReturn(rec, now) <= rec.dueAt
    ensures AfterCalculate(fines, rec, now) == fines
  {
  }

  /** Late: exactly one new unpaid fine, for the record's borrower and that record, is
      appended, and the ledger stays well formed. */
  lemma LateAppendsOneFine(fines: seq<Fine>, rec: BorrowRecord, now: int)
    requires Numbered(fines)
    requires EffectiveReturn(rec, now) > rec.dueAt
    ensures var after := AfterCalculate(fines, rec, now);
      && |after| == |fines| + 1
      && after[..|fines|] == fines
      && after[|fines|].userId == rec.userId
      && after[|fines|].borrowRecordId == rec.id
      && after[|fines|].amount == DaysLate(EffectiveReturn(rec, now), rec.dueAt)
      && !after[|fines|].paid
      && Numbered(after)
  {
  }

  /** Calculating twice for the same late record creates two fines, not one. */
  lemma CalculationNotIdempotent(fines: seq<Fine>, rec: BorrowRecord, now: int)
    requires EffectiveReturn(rec, now) > rec.dueAt
    ensures var twice := AfterCalculate(AfterCalculate(fines, rec, now), rec, now);
      && |twice| == |fines| + 2
      && twice[|fines|].borrowRecordId == twice[|fines| + 1].borrowRecordId == rec.id
      && twice[|fines|].amount == twice[|fines| + 1].amount
      && twice[|fines|].id != twice[|fines| + 1].id
  {
  }

  // ---------------------------------------------------------------------------
  // Properties of payment

  /** Paying marks that fine paid and changes nothing else; an unknown id changes nothing. */
  lemma PayMarksPaid(fines: seq<Fine>, id: nat)
    requires Numbered(fines)
    ensures var after := AfterPay(fines, id);
      && |after| == |fines|
      && Numbered(after)
      && (PayResult(fines, id).Failure? <==> forall i | 0 <= i < |fines| :: fines[i].id != id)
      && (PayResult(fines, id).Failure? ==> after == fines)
      && (forall i | 0 <= i < |fines| && fines[i].id != id :: after[i] == fines[i])
      && (forall i | 0 <= i < |fines| && fines[i].id == id ::
            after[i].paid && after[i] == fines[i].(paid := true) &&
            PayResult(fines, id) == Success(after[i]))
  {
  }

  /** Paying again answers the same and leaves the same ledger. */
  lemma PayIdempotent(fines: seq<Fine>, id: nat)
    ensures AfterPay(AfterPay(fines, id), id) == AfterPay(fines, id)
    ensures PayResult(AfterPay(fines, id), id) == PayResult(fines, id)
  {
  }

  // ---------------------------------------------------------------------------
  // A loan from start to fine

  /** A book borrowed at `t` and returned two days and `s` seconds after it was due is
      fined two units, whenever the fine is calculated. */
  lemma TwoDaysLateScenario(c: Catalog, b: BookId, user: UserId, t: int, s: int, now: int, id: nat)
    requires b in c.books && c.books[b].status == AVAILABLE
    requires 0 <= s < DAY
    ensures var s1 := BorrowStep(c, b, user, t);
      CanReturn(s1.after, b) &&
      var s2 := ReturnStep(s1.after, b, t + LOAN_PERIOD + 2 * DAY + s);
      && s2.result.Success?
      && s2.after.books[b].status == AVAILABLE
      && FineFor(s2.result.value, now, id).Some?
      && FineFor(s2.result.value, now, id).value.amount == 2
      && FineFor(s2.result.value, now, id).value.userId == user
  {
    BorrowReturnRoundTrip(c, b, user, t, t + LOAN_PERIOD + 2 * DAY + s);
    var s1 := BorrowStep(c, b, user, t);
    var s2 := ReturnStep(s1.after, b, t + LOAN_PERIOD + 2 * DAY + s);
    FineCountsWholeDays(s2.result.value, now, id, 2, s);
  }

  // ---------------------------------------------------------------------------
  // The fines table, updated in place

  class FineLedger {
    var fines: seq<Fine>

    ghost predicate Valid()
      reads this
    {
      Numbered(fines)
    }

    constructor ()
      ensures Valid() && fines == []
    {
      fines := [];
    }

    /** None is the "no fine applicable" answer. */
    method CalculateFine(rec: BorrowRecord, now: int) returns (r: Option<Fine>)
      requires Valid()
      modifies this
      ensures Valid()
      ensures r == FineFor(rec, now, |old(fines)| + 1)
      ensures fines == AfterCalculate(old(fines), rec, now)
    {
      var ret := if rec.returnedAt.Some? then rec.returnedAt.value else now;
      if ret > rec.dueAt {
        var days := (ret - rec.dueAt) / DAY;
        var fine := Fine(|fines| + 1, rec.userId, rec.id, days * DAILY_RATE, false);
        fines := fines + [fine];
        return Some(fine);
      }
      r := None;
    }

    method PayFine(id: nat) returns (r: Result<Fine>)
      requires Valid()
      modifies this
      ensures Valid()
      ensures r == PayResult(old(fines), id)
      ensures fines == AfterPay(old(fines), id)
    {
      if !(1 <= id <= |fines|) {
        return Failure(NotFound);
      }
      var fine := fines[id - 1].(paid := true);
      fines := fines[id - 1 := fine];
      r := Success(fine);
    }
  }
}
