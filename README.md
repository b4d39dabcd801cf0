# Library catalog and loans, in Dafny

A model of the in-memory domain of a small library application: the book
catalog (`LivroRepositoryImpl`), the guards the catalog service puts in front
of it (`LivroService`), the loan record (`Emprestimo`) and the loan service
(`EmprestimoService`), which lends books, computes late fees and takes books
back.

Modules, one per source component:

- `Domain` (domain.dfy): nullable values (`Option`), the exceptions as an
  `Error` datatype, `Result`/`Outcome` in place of throwing, and the book record
  `Book` with exactly the fields the services touch: identity, title, author,
  ISBN, availability, loan date, period, estimated and actual return dates,
  and fine.
- `Text` (text.dfy): Java's `trim`, blank test, `toLowerCase` and `contains`.
- `Csv` (csv.dfy): the quote-toggling CSV field splitter, a loop proved against
  a scan function. Its lemmas say that no field holds a quote, that there is
  one field more than there are commas outside quotes, and that the fields
  concatenated are the line without its quotes and separator commas. Splitting
  a comma-join of plain fields gives them back.
- `Loans` (loan.dfy): the loan record class. Its identity is a `const`, and its
  period and fine setters refuse negative values.
- `Catalog` (catalog.dfy): the catalog class over `map<int, Book>` with its
  identity counter, and the case-insensitive substring search.
- `CatalogService` (catalog_service.dfy): registration, lookup, search, update
  and removal with their guards. Each method states that a refusal changes
  nothing and that ISBNs that were unique stay unique.
- `LoanService` (loan_service.dfy): borrow, return, the fee rule (10 grace
  days, then one overdue day per elapsed day) and the active-loan listing.

Behaviour kept as the code has it:

- A successful return never closes the loan record. The loan keeps no actual
  return date, so it is still listed as active after its book is available
  again (`LoanService.ReturnedLoanStaysListed`).
- A successful return clears the period, the dates and the fine, but keeps
  the loan date.
- Updating a book does not check whether it is lent. It refuses every ISBN
  already in the catalog, the book's own current ISBN included.
- The loan constructor in `Emprestimo.java` takes no book identity, yet the
  service passes one. The model's `Loan` has a `bookId` field.

## Model

| member | source | states |
|---|---|---|
| `Loans.Loan.constructor` | src/main/java/com/br/infnet/model/Emprestimo.java:13-20 | a new loan has no actual return date and stores the given identity, book, dates, period and fine |
| `Loans.Loan.SetLoanDate` | src/main/java/com/br/infnet/model/Emprestimo.java:26-28 | stores exactly its argument; the frame allows no other field to change |
| `Loans.Loan.SetDueDate` | src/main/java/com/br/infnet/model/Emprestimo.java:38-40 | stores exactly its argument; no other field changes |
| `Loans.Loan.SetReturnDate` | src/main/java/com/br/infnet/model/Emprestimo.java:46-48 | stores exactly its argument; no other field changes |
| `Loans.Loan.SetPeriod` | src/main/java/com/br/infnet/model/Emprestimo.java:54-59 | a negative period is refused and the old value kept; 0 and positive values are stored |
| `Loans.Loan.SetFine` | src/main/java/com/br/infnet/model/Emprestimo.java:65-70 | a negative fine is refused and the old value kept; non-negative values are stored |
| `Catalog.BookRepository.constructor` | src/main/java/com/br/infnet/repository/implementations/LivroRepositoryImpl.java:15-20 | an empty catalog whose counter starts at 1, satisfying the invariant (every book under its own identity, all identities below the counter) |
| `Catalog.BookRepository.NextId` | src/main/java/com/br/infnet/repository/implementations/LivroRepositoryImpl.java:23-25 | returns the counter, which no stored book uses, and advances it by exactly 1 |
| `Catalog.BookRepository.Save` | src/main/java/com/br/infnet/repository/implementations/LivroRepositoryImpl.java:28-32 | stores a new available book with the given title, author and ISBN under the fresh identity, ignoring the identity passed in; the map grows by one and existing entries are unchanged |
| `Catalog.BookRepository.FindById` | src/main/java/com/br/infnet/repository/implementations/LivroRepositoryImpl.java:35-37 | the stored book or none; under the invariant the book found carries the identity asked for |
| `Catalog.ExistsIsbnAmongStoredBooks` | src/main/java/com/br/infnet/repository/implementations/LivroRepositoryImpl.java:68-72 | the ISBN test (`Catalog.BookRepository.ExistsIsbn`, over the stored identities) holds exactly when some book among the stored values has the ISBN |
| `Catalog.BookRepository.FindByIsbn` | src/main/java/com/br/infnet/repository/implementations/LivroRepositoryImpl.java:40-45 | returns none exactly when no stored book has the ISBN (the ISBN existence test of lines 69-72); otherwise a stored book with that ISBN |
| `Catalog.BookRepository.ListAll` | src/main/java/com/br/infnet/repository/implementations/LivroRepositoryImpl.java:48-50 | every stored book is listed, and under the invariant each listed book is the one stored under its identity |
| `Catalog.BookRepository.ByTitle` | src/main/java/com/br/infnet/repository/implementations/LivroRepositoryImpl.java:53-58 | exactly the stored books whose lower-cased title contains the trimmed, lower-cased query; nothing outside the catalog |
| `Catalog.BookRepository.ByAuthor` | src/main/java/com/br/infnet/repository/implementations/LivroRepositoryImpl.java:61-66 | exactly the stored books whose lower-cased author contains the trimmed, lower-cased query; nothing outside the catalog |
| `Catalog.BookRepository.Update` | src/main/java/com/br/infnet/repository/implementations/LivroRepositoryImpl.java:75-77 | overwrites only the entry keyed by the book's identity; every other entry is unchanged; the invariant holds when that identity is below the counter |
| `Catalog.BookRepository.Remove` | src/main/java/com/br/infnet/repository/implementations/LivroRepositoryImpl.java:80-82 | afterwards lookup of that identity gives none and every other entry is still found unchanged; the invariant is kept |
| `Catalog.MatchesIgnoresQueryCase` | src/main/java/com/br/infnet/repository/implementations/LivroRepositoryImpl.java:54-56 | the text match is case-insensitive in the query |
| `Catalog.MatchesIgnoresSurroundingBlanks` | src/main/java/com/br/infnet/repository/implementations/LivroRepositoryImpl.java:54-56 | the text match ignores blanks around the query |
| `Catalog.BlankQueryMatches` | src/main/java/com/br/infnet/repository/implementations/LivroRepositoryImpl.java:54-56 | a query that is blank after trimming matches every text |
| `Catalog.BlankTitleQueryListsAll` | src/main/java/com/br/infnet/repository/implementations/LivroRepositoryImpl.java:53-58 | a blank title query returns the whole catalog |
| `Catalog.TitleSearchIgnoresCase` | src/main/java/com/br/infnet/repository/implementations/LivroRepositoryImpl.java:53-58 | title search with a lower-cased query gives the same books as with the original |
| `Catalog.AuthorSearchIgnoresCase` | src/main/java/com/br/infnet/repository/implementations/LivroRepositoryImpl.java:61-66 | author search with a lower-cased query gives the same books as with the original |
| `Csv.ParseCsvLine` | src/main/java/com/br/infnet/repository/implementations/LivroRepositoryImpl.java:122-140 | the character loop computes the scan's fields; there is one more field than there are separator commas, no field holds a quote, and the fields concatenated are the stripped line |
| `Csv.ScanInvariant` | src/main/java/com/br/infnet/repository/implementations/LivroRepositoryImpl.java:124-136 | after any prefix: inside quotes exactly when an odd number of quotes has been read; one finished field per separator; no quote kept; kept characters are the stripped prefix |
| `Csv.FieldsHaveNoQuotes` | src/main/java/com/br/infnet/repository/implementations/LivroRepositoryImpl.java:128-135 | no output field contains a double quote |
| `Csv.FieldCount` | src/main/java/com/br/infnet/repository/implementations/LivroRepositoryImpl.java:130-137 | the field count is the number of commas preceded by an even number of quotes, plus 1 |
| `Csv.FieldsConcat` | src/main/java/com/br/infnet/repository/implementations/LivroRepositoryImpl.java:127-137 | the fields concatenated equal the line with all quotes and all separator commas removed |
| `Csv.SplitJoin` | src/main/java/com/br/infnet/repository/implementations/LivroRepositoryImpl.java:122-140 | fields without quotes or commas, joined with commas, split back into the same fields |
| `Text.BlankIffAllTrimmed` | src/main/java/com/br/infnet/service/LivroService.java:100-104 | `trim().isEmpty()` holds exactly when every character is at most U+0020 |
| `CatalogService.ValidateTerm` | src/main/java/com/br/infnet/service/LivroService.java:100-104 | a term is accepted exactly when present and not blank; the refusal names the field |
| `CatalogService.BookService.constructor` | src/main/java/com/br/infnet/service/LivroService.java:11-13 | the service uses the given catalog (and the given sanitiser and validators) |
| `CatalogService.BookService.Register` | src/main/java/com/br/infnet/service/LivroService.java:15-23 | null book refused, invalid book refused, an existing ISBN refused without saving; otherwise saved exactly once under the old counter and the ISBN now exists; refusals change nothing; unique ISBNs stay unique |
| `CatalogService.BookService.FindById` | src/main/java/com/br/infnet/service/LivroService.java:25-31 | the stored book, or not-found exactly when the catalog has none under that identity |
| `CatalogService.BookService.SearchByTitle` | src/main/java/com/br/infnet/service/LivroService.java:33-36 | a missing or blank term is refused whatever the catalog holds; otherwise the catalog's title search, never a book outside the catalog |
| `CatalogService.BookService.FindByIsbn` | src/main/java/com/br/infnet/service/LivroService.java:38-44 | none for a missing or blank ISBN without consulting the catalog; otherwise none exactly when the sanitised ISBN is absent, else a stored book with it |
| `CatalogService.BookService.SearchByAuthor` | src/main/java/com/br/infnet/service/LivroService.java:46-50 | a missing or blank term is refused; otherwise the author search on the trimmed, lower-cased, sanitised term, never a book outside the catalog |
| `CatalogService.BookService.Update` | src/main/java/com/br/infnet/service/LivroService.java:52-71 | not-found for a missing identity; refuses any ISBN already present, the book's own included, changing nothing; otherwise replaces only title, author and ISBN of that book; unique ISBNs stay unique |
| `CatalogService.BookService.Remove` | src/main/java/com/br/infnet/service/LivroService.java:73-84 | not-found for a missing identity; a lent book is refused and kept; otherwise exactly that entry is removed |
| `CatalogService.BookService.ListAll` | src/main/java/com/br/infnet/service/LivroService.java:86-88 | every stored book is listed, each the one stored under its identity |
| `LoanService.LoanService.constructor` | src/main/java/com/br/infnet/service/EmprestimoService.java:17-21 | no loans, the given books, counter at 1 |
| `LoanService.LoanService.BookById` | src/main/java/com/br/infnet/service/EmprestimoService.java:23-25 | the book under that identity, or none exactly when absent |
| `LoanService.ValidatePeriod` | src/main/java/com/br/infnet/service/EmprestimoService.java:51-58 | accepts exactly periods 1 to 365; a period of at most 0 gets the not-positive error, one above 365 the too-long error |
| `LoanService.LoanService.Borrow` | src/main/java/com/br/infnet/service/EmprestimoService.java:28-49 | period checked first, then existence, then availability, each refusal changing nothing; on success exactly one fresh open loan under the old counter (due = today + period, fine 0), counter + 1, other loans untouched, book gets loan date today, the period, estimated date today + period, and becomes unavailable |
| `LoanService.LoanService.Return` | src/main/java/com/br/infnet/service/EmprestimoService.java:60-84 | not-found and not-lent refusals change nothing; a positive fee is recorded on the book, which stays lent with every other field unchanged, and the pending-fine error is raised; otherwise the book becomes available with fine 0, period 0, no estimated or actual date and its loan date kept; the loans never change; with consistent books the missing-date failure cannot occur |
| `LoanService.LoanService.Fee` | src/main/java/com/br/infnet/service/EmprestimoService.java:86-93 | not-found for a missing book; otherwise the book's fee, never negative with a valid calculator, and defined for every lent book of a consistent service |
| `LoanService.BookFee` | src/main/java/com/br/infnet/service/EmprestimoService.java:91-102 | the calculator applied to the overdue days up to the actual return date, or today when none is set; non-negative, and 0 within the grace period, for a valid calculator; fails exactly when no loan date is recorded |
| `LoanService.OverdueDays` | src/main/java/com/br/infnet/service/EmprestimoService.java:95-109 | 0 exactly when at most 10 days elapsed, otherwise elapsed minus 10; never negative |
| `LoanService.OverdueDaysMonotone` | src/main/java/com/br/infnet/service/EmprestimoService.java:102-108 | overdue days never decrease, and grow at most one per day, as the return day moves later |
| `LoanService.FeeForElapsedDays` | src/main/java/com/br/infnet/service/EmprestimoService.java:95-108 | a book returned `elapsed` days after its loan owes nothing up to 10 days and the calculator's fee for `elapsed - 10` days beyond |
| `LoanService.LendingGivesLoanShape` | src/main/java/com/br/infnet/service/EmprestimoService.java:45-48 | a borrowed book is unavailable, with loan date today, the given period (1 to 365 days) and due date today plus that period, so it has the shape of a lent book; its identity, title, author, ISBN, actual return date and fine are unchanged |
| `LoanService.ReturnWithinGraceRestores` | src/main/java/com/br/infnet/service/EmprestimoService.java:41-83 | lending an idle book and returning it within 10 days costs nothing and restores the book except for its loan date |
| `LoanService.LoanService.ListActiveLoans` | src/main/java/com/br/infnet/service/EmprestimoService.java:111-119 | exactly the stored loans with no actual return date, each once, each the one stored under its identity |
| `LoanService.ReturnedLoanStaysListed` | src/main/java/com/br/infnet/service/EmprestimoService.java:41-119 | borrow and same-day return both succeed and the book is available again, yet the loan that borrow just created (stored under the old counter, for this book) is still listed as active |

## Left out

- The HTTP controllers, the HTML views, application start-up and the loan repository are not modelled: they are routing, rendering and delegation. `EmprestimoRepositoryImpl.java` does not compile and is mostly empty stubs.
- The catalog's CSV bootstrap loading (`carregarLivrosDoCSV`) reads a class-path resource and prints. The catalog constructor therefore starts empty. Only the pure splitter `parseCsvLine` is modelled.
- The fee calculator `CalculadoraMulta` is not part of this model. It is the loan service's `feeOf` parameter. Fee properties that need it to give 0 for 0 days and never go negative assume `ValidCalculator`.
- The input sanitiser and validators (`SecurityConfig`) are not part of this model. They are parameters of the catalog service.
- The book class `Livro` is not part of this model. `Book` is a value with the fields the services touch. A new book is assumed to be available with no loan data. Its setters are assumed to store what they are given.
- Aliasing is not modelled. In the source, the catalog and the loan service can share the same mutable `Livro` objects. The model keeps books by value in each map, so an in-place change seen through another reference is not captured.
- `LoanService.OverdueDays` counts elapsed days as the whole difference of day numbers. The source uses `Period.getDays()`, which is only the days part of a years/months/days period. From a month on, the source counts fewer days: a loan returned 40 days later counts only the 9 to 12 days beyond its whole month. For 9 or 10 days that is within the grace period and owes nothing. For 11 or 12 it owes 1 or 2 overdue days where the model counts 30. For example, a loan of 2025-02-01 returned on 2025-03-13 gives `P1M12D`, 12 days and 2 overdue days. With `getDays()`, the source's own property test of the fee (`EmprestimoServiceTest.java` lines 148-171, spans of 1 to 365 days) fails for spans of a month or more. The model follows the rule that test states.
- `LoanService.OverdueDaysMonotone` holds of the model's whole-day count only. The source's `getDays()` count is not monotone: a loan of 2025-01-01 returned on 2025-01-31 gives `P30D`, 20 overdue days, but returned one day later, on 2025-02-01, it gives `P1M`, 0 overdue days.
- `LoanService.BookFee` inherits the elapsed-day counting of `LoanService.OverdueDays`, and so do `LoanService.LoanService.Fee`, `LoanService.LoanService.Return` and `LoanService.FeeForElapsedDays`.
- The clock is a `today` parameter. The three `LocalDate.now()` calls in a borrow are taken to return the same day.
- Floating point is not modelled. The fine (a `double`) is a `real`, and the formatted text of the pending-fine message is dropped; the error carries the amount.
- 32-bit wrap-around of the identity counters (`proximoId++` and the catalog's `AtomicInteger`) is not modelled. The `AtomicInteger` is a plain integer, since no concurrency is modelled.
- The range check of `LocalDate.plusDays` is not modelled. The source throws a `DateTimeException` when `today + period` leaves the supported date range; day numbers here are unbounded.
- `Catalog.BookRepository.ByTitle` lower-cases ASCII letters only. Java's `toLowerCase` covers all of Unicode.
- `Catalog.BookRepository.ByAuthor` lower-cases ASCII letters only, for the same reason.
- Searches return sets of books because the hash map's iteration order is unspecified. `Catalog.BookRepository.FindByIsbn` picks any matching book. `LoanService.LoanService.ListActiveLoans` fixes the order to increasing identity.
- Null strings are modelled only where the source tests for them (search terms, the ISBN lookup, the book to register). Title, author and ISBN given to an update are taken as non-null.
- The loan record's getters are not separate members: its fields are read directly.
- No way to settle a pending fine is modelled, because the source has none.
