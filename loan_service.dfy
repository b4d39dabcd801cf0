/** The loan service: lends books for a period of 1 to 365 days, computes
    the fee owed after a 10-day grace period, and takes books back. A
    return that owes a positive fee is refused and leaves the book lent.
    Per book: available -> (borrow) -> lent -> (return, no fee) ->
    available, and lent -> (return, fee owed) -> lent. */
module LoanService {
  import opened Domain
  import opened Loans

  /** Days after the loan date during which no fee accrues. */
  const GraceDays := 10
  /** The longest loan period, in days. */
  const MaxPeriod := 365

  /** What the service relies on from the fee calculator: nothing is owed
      for zero overdue days, and a fee is never negative. */
  ghost predicate ValidCalculator(feeOf: nat -> real) {
    feeOf(0) == 0.0 && forall d: nat :: feeOf(d) >= 0.0
  }

  /** Accepts a loan period of 1 to 365 days; the error tells which bound failed. */
  function ValidatePeriod(period: int): (r: Outcome)
    ensures r == Done <==> 1 <= period <= MaxPeriod
    ensures r == Failed(PeriodNotPositive) <==> period <= 0
    ensures r == Failed(PeriodTooLong) <==> period > MaxPeriod
  {
    if period <= 0 then Failed(PeriodNotPositive)
    else if period > MaxPeriod then Failed(PeriodTooLong)
    else Done
  }

  /** Overdue days between the loan day and the return day: none within
      the grace period, and one per day beyond it. The elapsed time is the
      whole difference of the day numbers; the source takes only the days
      part of a years/months/days period, which differs from a month on. */
  function OverdueDays(loanDay: Day, returnDay: Day): (d: nat)
    ensures d == 0 <==> returnDay - loanDay <= GraceDays
    ensures d > 0 ==> loanDay + GraceDays + d == returnDay
  {
    var elapsed := returnDay - loanDay;
    if elapsed <= GraceDays then 0 else elapsed - GraceDays
  }

  /** Overdue days never decrease as the return day moves later. */
  lemma OverdueDaysMonotone(loanDay: Day, r1: Day, r2: Day)
    requires r1 <= r2
    ensures OverdueDays(loanDay, r1) <= OverdueDays(loanDay, r2)
    ensures OverdueDays(loanDay, r2) - OverdueDays(loanDay, r1) <= r2 - r1
  {
  }

  /** The fee a book owes: the calculator applied to its overdue days,
      counted up to its actual return date or, when none is recorded, up to
      today. A book without a loan date has no fee (the source dereferences
      the missing date). */
  function BookFee(feeOf: nat -> real, b: Book, today: Day): (r: Result<real>)
    ensures r.Err? <==> b.loanDate.None?
    ensures r.Err? ==> r.error == MissingLoanDate
    ensures r.Ok? ==> r.value == feeOf(OverdueDays(b.loanDate.value, b.returnDate.GetOr(today)))
    ensures ValidCalculator(feeOf) && r.Ok? ==> r.value >= 0.0
    ensures ValidCalculator(feeOf) && r.Ok? && b.returnDate.GetOr(today) - b.loanDate.value <= GraceDays
            ==> r.value == 0.0
  {
    match b.loanDate
    case None => Err(MissingLoanDate)
    case Some(loanDay) => Ok(feeOf(OverdueDays(loanDay, b.returnDate.GetOr(today))))
  }

  /** The book after a successful borrow. */
  function Lent(b: Book, today: Day, period: int): Book {
    b.(loanDate := Some(today), period := period, dueDate := Some(today + period), available := false)
  }

  /** The book after a successful return: available, no fine, no period and
      no dates, except that the loan date is kept. */
  function Returned(b: Book): Book {
    b.(returnDate := None, fine := 0.0, available := true, period := 0, dueDate := None)
  }

  /** A lent book records its loan date, a period of 1 to 365 days and the
      due date that period gives. */
  predicate OnLoanShape(b: Book) {
    !b.available ==>
      b.loanDate.Some? && 1 <= b.period <= MaxPeriod && b.dueDate == Some(b.loanDate.value + b.period)
  }

  /** Borrowing gives the book the shape of a lent book and changes
      nothing but its loan fields. */
  lemma LendingGivesLoanShape(b: Book, today: Day, period: int)
    requires 1 <= period <= MaxPeriod
    ensures var l := Lent(b, today, period);
      && OnLoanShape(l) && !l.available
      && l.loanDate == Some(today) && l.period == period && l.dueDate == Some(today + period)
      && l.(loanDate := b.loanDate, period := b.period, dueDate := b.dueDate, available := b.available) == b
  {
  }

  /** Borrowing an idle book and taking it back within the grace period
      costs nothing and leaves the book as it was, except for its loan date. */
  lemma ReturnWithinGraceRestores(feeOf: nat -> real, b: Book, today: Day, period: int, returnDay: Day)
    requires ValidCalculator(feeOf)
    requires Idle(b)
    requires today <= returnDay <= today + GraceDays
    ensures BookFee(feeOf, Lent(b, today, period), returnDay) == Ok(0.0)
    ensures Returned(Lent(b, today, period)) == b.(loanDate := Some(today))
  {
  }

  /** A book lent on `loanDay` and returned `elapsed` days later owes the
      calculator's fee for `elapsed - 10` days when that is positive, and
      nothing otherwise. */
  lemma FeeForElapsedDays(feeOf: nat -> real, b: Book, loanDay: Day, elapsed: int)
    requires ValidCalculator(feeOf)
    requires b.loanDate == Some(loanDay) && b.returnDate == Some(loanDay + elapsed)
    ensures elapsed <= GraceDays ==> BookFee(feeOf, b, loanDay) == Ok(0.0)
    ensures elapsed > GraceDays ==> BookFee(feeOf, b, loanDay) == Ok(feeOf(elapsed - GraceDays))
  {
  }

  class LoanService {
    /** Every loan ever made, keyed by its identity. */
    var loans: map<int, Loan>
    /** The books the service lends, keyed by identity. */
    var books: map<int, Book>
    /** The identity the next loan receives. */
    var nextId: int
    /** The fee calculator: overdue days to a fee. */
    const feeOf: nat -> real

    /** Every loan is stored under its own identity, and the identities in
        use lie between 1 and the counter. */
    ghost predicate Valid()
      reads this
    {
      1 <= nextId && forall k :: k in loans ==> loans[k].id == k && 1 <= k < nextId
    }

    /** Every lent book has the shape borrowing gives it. */
    ghost predicate BooksConsistent()
      reads this
    {
      forall k :: k in books ==> OnLoanShape(books[k])
    }

    constructor (books: map<int, Book>, feeOf: nat -> real)
      ensures Valid()
      ensures loans == map[] && this.books == books && nextId == 1 && this.feeOf == feeOf
    {
      this.loans := map[];
      this.books := books;
      this.nextId := 1;
      this.feeOf := feeOf;
    }

    /** The book with identity `id`, if the service has one. */
    function BookById(id: int): (r: Option<Book>)
      reads this
      ensures r.Some? <==> id in books
      ensures r.Some? ==> r.value == books[id]
    {
      if id in books then Some(books[id]) else None
    }

    /** The fee the book owes if returned today, or not-found. */
    function Fee(bookId: int, today: Day): (r: Result<real>)
      reads this
      ensures bookId !in books ==> r == Err(BookNotFound)
      ensures bookId in books ==> r == BookFee(feeOf, books[bookId], today)
      ensures ValidCalculator(feeOf) && r.Ok? ==> r.value >= 0.0
      ensures BooksConsistent() && bookId in books && !books[bookId].available ==> r.Ok?
    {
      match BookById(bookId)
      case None => Err(BookNotFound)
      case Some(b) => BookFee(feeOf, b, today)
    }

    /** Lends a book for `period` days from `today`. The period is checked
        first, then that the book exists, then that it is available; any
        refusal changes nothing. On success one new open loan is added under
        the old counter value, the counter advances, the other loans stay,
        and the book records the loan and becomes unavailable. */
    method Borrow(bookId: int, period: int, today: Day) returns (r: Outcome)
      requires Valid()
      modifies this
      ensures Valid()
      ensures period <= 0 ==> r == Failed(PeriodNotPositive)
      ensures period > MaxPeriod ==> r == Failed(PeriodTooLong)
      ensures 1 <= period <= MaxPeriod && bookId !in old(books) ==> r == Failed(BookNotFound)
      ensures 1 <= period <= MaxPeriod && bookId in old(books) && !old(books[bookId].available)
              ==> r == Failed(AlreadyOnLoan)
      ensures r == Done <==> 1 <= period <= MaxPeriod && bookId in old(books) && old(books[bookId].available)
      ensures r.Failed? ==> loans == old(loans) && books == old(books) && nextId == old(nextId)
      ensures r == Done ==>
        && old(nextId) !in old(loans)
        && loans.Keys == old(loans).Keys + {old(nextId)}
        && (forall k :: k in old(loans) ==> loans[k] == old(loans)[k])
        && fresh(loans[old(nextId)])
        && loans[old(nextId)].id == old(nextId)
        && loans[old(nextId)].bookId == bookId
        && loans[old(nextId)].loanDate == Some(today)
        && loans[old(nextId)].dueDate == Some(today + period)
        && loans[old(nextId)].period == period
        && loans[old(nextId)].fine == 0.0
        && loans[old(nextId)].returnDate == None
        && nextId == old(nextId) + 1
        && books == old(books)[bookId := Lent(old(books)[bookId], today, period)]
      ensures old(BooksConsistent()) ==> BooksConsistent()
    {
      r := ValidatePeriod(period);
      if r.Failed? {
        return;
      }
      var found := BookById(bookId);
      if found.None? {
        return Failed(BookNotFound);
      }
      var book := found.value;
      if !book.available {
        return Failed(AlreadyOnLoan);
      }
      var loan := new Loan(nextId, bookId, Some(today), Some(today + period), period, 0.0);
      loans := loans[loan.id := loan];
      nextId := nextId + 1;
      books := books[bookId := Lent(book, today, period)];
      r := Done;
    }

    /** Takes a book back on `today`. Refuses a missing book and an
        available one, changing nothing. If a positive fee is owed, records
        it on the book and refuses with the pending fine, the book staying
        lent with every other field as it was. Otherwise the book becomes
        available with no fine, period or dates (its loan date is kept).
        The loans are never touched: a returned loan stays open. */
    method Return(bookId: int, today: Day) returns (r: Outcome)
      requires Valid()
      modifies this
      ensures Valid()
      ensures loans == old(loans) && nextId == old(nextId)
      ensures bookId !in old(books) ==> r == Failed(BookNotFound) && books == old(books)
      ensures bookId in old(books) && old(books[bookId].available) ==> r == Failed(NotOnLoan) && books == old(books)
      ensures bookId in old(books) && !old(books[bookId].available) ==>
        var fee := old(Fee(bookId, today));
        && (fee.Err? ==> r == Failed(fee.error) && books == old(books))
        && (fee.Ok? && fee.value > 0.0 ==>
              && r == Failed(PendingFine(fee.value))
              && books == old(books)[bookId := old(books)[bookId].(fine := fee.value)])
        && (fee.Ok? && fee.value <= 0.0 ==>
              r == Done && books == old(books)[bookId := Returned(old(books)[bookId])])
      ensures old(BooksConsistent()) ==> BooksConsistent() && r != Failed(MissingLoanDate)
    {
      var found := BookById(bookId);
      if found.None? {
        return Failed(BookNotFound);
      }
      var book := found.value;
      if book.available {
        return Failed(NotOnLoan);
      }
      var fee := Fee(bookId, today);
      if fee.Err? {
        return Failed(fee.error);
      }
      if fee.value > 0.0 {
        books := books[bookId := book.(fine := fee.value)];
        return Failed(PendingFine(fee.value));
      }
      books := books[bookId := Returned(book)];
      r := Done;
    }

    /** The loans with no actual return date, each once, in increasing
        order of identity. */
    method ListActiveLoans() returns (active: seq<Loan>)
      requires Valid()
      ensures forall k :: k in loans ==> (loans[k] in active <==> loans[k].returnDate == None)
      ensures forall i :: 0 <= i < |active| ==> active[i].id in loans && loans[active[i].id] == active[i]
      ensures forall i, j :: 0 <= i < j < |active| ==> active[i].id < active[j].id
    {
      active := [];
      for id := 1 to nextId
        invariant forall i :: 0 <= i < |active| ==>
          1 <= active[i].id < id && active[i].id in loans && loans[active[i].id] == active[i]
          && active[i].returnDate == None
        invariant forall k :: 1 <= k < id && k in loans && loans[k].returnDate == None ==> loans[k] in active
        invariant forall i, j :: 0 <= i < j < |active| ==> active[i].id < active[j].id
      {
        if id in loans && loans[id].returnDate == None {
          active := active + [loans[id]];
        }
      }
    }
  }

  /** Borrowing an available book and returning it the same day succeeds
      and makes the book available again, but its loan is still listed as
      active afterwards: the service never closes loans. */
  method ReturnedLoanStaysListed(s: LoanService, bookId: int, period: int, today: Day)
      returns (borrowed: Outcome, returned: Outcome, active: seq<Loan>)
    requires s.Valid() && ValidCalculator(s.feeOf)
    requires bookId in s.books && s.books[bookId].available && s.books[bookId].returnDate == None
    requires 1 <= period <= MaxPeriod
    modifies s
    ensures borrowed == Done && returned == Done
    ensures bookId in s.books && s.books[bookId].available
    ensures old(s.nextId) in s.loans && s.loans[old(s.nextId)].bookId == bookId
    ensures s.loans[old(s.nextId)] in active
  {
    borrowed := s.Borrow(bookId, period, today);
    returned := s.Return(bookId, today);
    active := s.ListActiveLoans();
  }
}
