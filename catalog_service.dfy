/** The catalog service: the guards the application puts in front of the
    book catalog. Duplicate ISBNs are refused, missing books are reported,
    blank search terms are refused before the catalog is consulted, and a
    lent book cannot be removed. */
module CatalogService {
  import opened Domain
  import opened Text
  import opened Catalog

  /** Accepts a search term only when it is present and not blank; the
      error names the field that was searched. */
  function ValidateTerm(term: Option<string>, field: string): (r: Outcome)
    ensures r == Done <==> term.Some? && !IsBlank(term.value)
    ensures r.Failed? ==> r.error == InvalidSearchTerm(field)
  {
    if term.None? || IsBlank(term.value) then Failed(InvalidSearchTerm(field)) else Done
  }

  class BookService {
    const repo: BookRepository
    /** The input sanitiser every stored or searched string passes through. */
    const sanitize: string -> string
    /** The input validators a new book must pass. */
    const validTitle: string -> bool
    const validAuthor: string -> bool
    const validIsbn: string -> bool

    constructor (repo: BookRepository, sanitize: string -> string,
                 validTitle: string -> bool, validAuthor: string -> bool, validIsbn: string -> bool)
      ensures this.repo == repo && this.sanitize == sanitize
      ensures this.validTitle == validTitle && this.validAuthor == validAuthor && this.validIsbn == validIsbn
    {
      this.repo := repo;
      this.sanitize := sanitize;
      this.validTitle := validTitle;
      this.validAuthor := validAuthor;
      this.validIsbn := validIsbn;
    }

    /** The book passes the three input validators. */
    predicate Acceptable(b: Book) {
      validTitle(b.title) && validAuthor(b.author) && validIsbn(b.isbn)
    }

    /** Registers a book: refuses a null or invalid book, refuses an ISBN
        already in the catalog without saving, and otherwise saves it once
        under a fresh identity. ISBNs that were unique stay unique. */
    method Register(b: Option<Book>) returns (r: Outcome)
      requires repo.Valid()
      modifies repo
      ensures repo.Valid()
      ensures b.None? ==> r == Failed(NullBook)
      ensures b.Some? && !Acceptable(b.value) ==> r == Failed(InvalidInput)
      ensures b.Some? && Acceptable(b.value) && old(repo.ExistsIsbn(b.value.isbn)) ==> r == Failed(DuplicateIsbn)
      ensures r == Done <==> b.Some? && Acceptable(b.value) && !old(repo.ExistsIsbn(b.value.isbn))
      ensures r.Failed? ==> repo.books == old(repo.books) && repo.nextId == old(repo.nextId)
      ensures r == Done ==>
        && repo.books == old(repo.books)[old(repo.nextId) := NewBook(old(repo.nextId), b.value.title, b.value.author, b.value.isbn)]
        && repo.nextId == old(repo.nextId) + 1
        && repo.ExistsIsbn(b.value.isbn)
      ensures old(UniqueIsbns(repo.books)) ==> UniqueIsbns(repo.books)
    {
      if b.None? {
        return Failed(NullBook);
      }
      if !Acceptable(b.value) {
        return Failed(InvalidInput);
      }
      if repo.ExistsIsbn(b.value.isbn) {
        return Failed(DuplicateIsbn);
      }
      repo.Save(b.value);
      assert repo.books[old(repo.nextId)].isbn == b.value.isbn;
      r := Done;
    }

    /** The book stored under `id`, or not-found. */
    function FindById(id: int): (r: Result<Book>)
      reads repo
      ensures r.Ok? <==> id in repo.books
      ensures r.Ok? ==> r.value == repo.books[id]
      ensures r.Err? ==> r.error == BookNotFound
    {
      match repo.FindById(id)
      case Some(b) => Ok(b)
      case None => Err(BookNotFound)
    }

    /** Title search: a missing or blank term is refused whatever the
        catalog holds; otherwise the catalog's title search on the raw term,
        which never returns a book outside the catalog. */
    function SearchByTitle(term: Option<string>): (r: Result<set<Book>>)
      reads repo
      ensures r.Err? <==> term.None? || IsBlank(term.value)
      ensures r.Err? ==> r.error == InvalidSearchTerm("Título")
      ensures r.Ok? ==> r.value == repo.ByTitle(term.value)
      ensures r.Ok? ==> forall b :: b in r.value ==> b in repo.books.Values
    {
      match ValidateTerm(term, "Título")
      case Failed(e) => Err(e)
      case Done => Ok(repo.ByTitle(term.value))
    }

    /** Author search: a missing or blank term is refused whatever the
        catalog holds; otherwise the term is trimmed, lower-cased and
        sanitised before the catalog's author search. */
    function SearchByAuthor(term: Option<string>): (r: Result<set<Book>>)
      reads repo
      ensures r.Err? <==> term.None? || IsBlank(term.value)
      ensures r.Err? ==> r.error == InvalidSearchTerm("Autor")
      ensures r.Ok? ==> r.value == repo.ByAuthor(sanitize(ToLower(Trim(term.value))))
      ensures r.Ok? ==> forall b :: b in r.value ==> b in repo.books.Values
    {
      match ValidateTerm(term, "Autor")
      case Failed(e) => Err(e)
      case Done => Ok(repo.ByAuthor(sanitize(ToLower(Trim(term.value)))))
    }

    /** ISBN lookup: `None` for a missing or blank ISBN without consulting
        the catalog; otherwise a stored book with the sanitised ISBN, or
        `None` exactly when there is none. */
    method FindByIsbn(isbn: Option<string>) returns (r: Option<Book>)
      ensures isbn.None? || IsBlank(isbn.value) ==> r == None
      ensures isbn.Some? && !IsBlank(isbn.value) ==> (r.None? <==> !repo.ExistsIsbn(sanitize(isbn.value)))
      ensures r.Some? ==> isbn.Some? && r.value.isbn == sanitize(isbn.value) && r.value in repo.books.Values
    {
      if isbn.None? || IsBlank(isbn.value) {
        return None;
      }
      r := repo.FindByIsbn(sanitize(isbn.value));
    }

    /** Replaces title, author and ISBN (all sanitised) of a stored book.
        Refuses a missing identity, and refuses any ISBN already in the
        catalog, the book's own current ISBN included; a refusal changes
        nothing. */
    method Update(id: int, title: string, author: string, isbn: string) returns (r: Outcome)
      requires repo.Valid()
      modifies repo
      ensures repo.Valid()
      ensures id !in old(repo.books) ==> r == Failed(BookNotFound)
      ensures id in old(repo.books) && old(repo.ExistsIsbn(sanitize(isbn))) ==> r == Failed(DuplicateIsbn)
      ensures id in old(repo.books) && old(repo.books[id].isbn) == sanitize(isbn) ==> r == Failed(DuplicateIsbn)
      ensures r == Done <==> id in old(repo.books) && !old(repo.ExistsIsbn(sanitize(isbn)))
      ensures r.Failed? ==> repo.books == old(repo.books) && repo.nextId == old(repo.nextId)
      ensures r == Done ==>
        && repo.books == old(repo.books)[id := old(repo.books[id]).(title := sanitize(title), author := sanitize(author), isbn := sanitize(isbn))]
        && repo.nextId == old(repo.nextId)
      ensures old(UniqueIsbns(repo.books)) ==> UniqueIsbns(repo.books)
    {
      var found := repo.FindById(id);
      if found.None? {
        return Failed(BookNotFound);
      }
      var newTitle, newAuthor, newIsbn := sanitize(title), sanitize(author), sanitize(isbn);
      var _ := FindByIsbn(Some(newIsbn));  // looked up and discarded, as the service does
      if repo.ExistsIsbn(newIsbn) {
        return Failed(DuplicateIsbn);
      }
      repo.Update(found.value.(title := newTitle, author := newAuthor, isbn := newIsbn));
      r := Done;
    }

    /** Removes a stored, available book. Refuses a missing identity and a
        lent book; a refusal changes nothing. */
    method Remove(id: int) returns (r: Outcome)
      requires repo.Valid()
      modifies repo
      ensures repo.Valid()
      ensures id !in old(repo.books) ==> r == Failed(BookNotFound)
      ensures id in old(repo.books) && !old(repo.books[id].available) ==> r == Failed(OnLoanCannotRemove)
      ensures r == Done <==> id in old(repo.books) && old(repo.books[id].available)
      ensures r.Failed? ==> repo.books == old(repo.books)
      ensures r == Done ==> repo.books == old(repo.books) - {id}
      ensures repo.nextId == old(repo.nextId)
      ensures old(UniqueIsbns(repo.books)) ==> UniqueIsbns(repo.books)
    {
      var found := repo.FindById(id);
      if found.None? {
        return Failed(BookNotFound);
      }
      if !found.value.available {
        return Failed(OnLoanCannotRemove);
      }
      repo.Remove(id);
      r := Done;
    }

    /** Every book of the catalog; each is stored under its own identity. */
    function ListAll(): (r: set<Book>)
      reads repo
      ensures forall k :: k in repo.books ==> repo.books[k] in r
      ensures repo.Valid() ==> forall b :: b in r ==> b.id in repo.books && repo.books[b.id] == b
    {
      repo.ListAll()
    }
  }
}
