/** A loan record: a final identity, the book it lends, its dates, its
    period and its fine. The setters for the period and the fine refuse
    negative values and leave the field as it was. */
module Loans {
  import opened Domain

  class Loan {
    /** The loan's identity, fixed at construction. */
    const id: int
    /** The book the loan lends, fixed at construction. */
    const bookId: int
    var loanDate: Option<Day>
    var dueDate: Option<Day>
    /** The actual return date; `None` while the loan is open. */
    var returnDate: Option<Day>
    var period: int
    var fine: real

    /** A new loan is open (no actual return date) and stores the given
        dates, period and fine as they are. */
    constructor (id: int, bookId: int, loanDate: Option<Day>, dueDate: Option<Day>, period: int, fine: real)
      ensures this.id == id && this.bookId == bookId
      ensures this.loanDate == loanDate && this.dueDate == dueDate
      ensures this.period == period && this.fine == fine
      ensures returnDate == None
    {
      this.id := id;
      this.bookId := bookId;
      this.loanDate := loanDate;
      this.dueDate := dueDate;
      this.returnDate := None;
      this.period := period;
      this.fine := fine;
    }

    // Each date setter may change its own field and nothing else (the
    // field-level modifies clause), and stores exactly its argument.

    method SetLoanDate(d: Option<Day>)
      modifies this`loanDate
      ensures loanDate == d
    {
      loanDate := d;
    }

    method SetDueDate(d: Option<Day>)
      modifies this`dueDate
      ensures dueDate == d
    {
      dueDate := d;
    }

    method SetReturnDate(d: Option<Day>)
      modifies this`returnDate
      ensures returnDate == d
    {
      returnDate := d;
    }

    /** Stores a non-negative period; refuses a negative one and keeps the old value. */
    method SetPeriod(p: int) returns (r: Outcome)
      modifies this`period
      ensures p < 0 ==> r == Failed(NegativePeriod) && period == old(period)
      ensures p >= 0 ==> r == Done && period == p
    {
      if p < 0 {
        return Failed(NegativePeriod);
      }
      period := p;
      r := Done;
    }

    /** Stores a non-negative fine; refuses a negative one and keeps the old value. */
    method SetFine(f: real) returns (r: Outcome)
      modifies this`fine
      ensures f < 0.0 ==> r == Failed(NegativeFine) && fine == old(fine)
      ensures f >= 0.0 ==> r == Done && fine == f
    {
      if f < 0.0 {
        return Failed(NegativeFine);
      }
      fine := f;
      r := Done;
    }
  }
}
