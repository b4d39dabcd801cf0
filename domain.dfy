/** Values shared by the catalog and the loan service: optional values (Java's
    nullable references and nullable dates), the error kinds the services
    throw, and the book record. */
module Domain {

  /** A nullable Java reference or date. */
  datatype Option<+T> = None | Some(value: T) {
    function GetOr(default: T): T {
      match this
      case Some(v) => v
      case None => default
    }
  }

  /** The exceptions the services throw, one constructor per distinct message. */
  datatype Error =
    | PeriodNotPositive         // IllegalArgumentException: period must be positive
    | PeriodTooLong             // IllegalArgumentException: period may not exceed 365 days
    | BookNotFound              // NoSuchElementException
    | AlreadyOnLoan             // IllegalStateException: book is already lent
    | NotOnLoan                 // IllegalStateException: book is not lent
    | PendingFine(amount: real) // MultaPendenteException, carrying the fee
    | MissingLoanDate           // NullPointerException: fee asked of a book with no loan date
    | NullBook                  // IllegalArgumentException: book may not be null
    | InvalidInput              // IllegalArgumentException from the input validators
    | DuplicateIsbn             // IllegalArgumentException: ISBN already registered
    | InvalidSearchTerm(field: string) // IllegalArgumentException: blank search term
    | OnLoanCannotRemove        // IllegalStateException: lent book cannot be removed
    | NegativePeriod            // IllegalArgumentException from the loan's period setter
    | NegativeFine              // IllegalArgumentException from the loan's fine setter

  /** A value, or the exception that was thrown instead. */
  datatype Result<+T> = Ok(value: T) | Err(error: Error)

  /** The outcome of an operation that returns nothing (Java `void`). */
  datatype Outcome = Done | Failed(error: Error)

  /** A day number; dates are counted in whole days. */
  type Day = int

  /** A book with the fields the services read and write. The loan-shadow
      fields (loan date, period, estimated and actual return dates, fine)
      mirror the book's current loan. */
  datatype Book = Book(
    id: int,
    title: string,
    author: string,
    isbn: string,
    available: bool,
    loanDate: Option<Day>,
    period: int,
    dueDate: Option<Day>,
    returnDate: Option<Day>,
    fine: real)

  /** A freshly constructed book: available, no loan recorded. */
  function NewBook(id: int, title: string, author: string, isbn: string): Book {
    Book(id, title, author, isbn, true, None, 0, None, None, 0.0)
  }

  /** A book that is available and carries no loan information at all. */
  predicate Idle(b: Book) {
    b.available && b.loanDate == None && b.period == 0 && b.dueDate == None
    && b.returnDate == None && b.fine == 0.0
  }
}
