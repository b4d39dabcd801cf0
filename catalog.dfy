/** The in-memory book catalog: books keyed by identity and a counter that
    hands out identities 1, 2, 3, ... */
module Catalog {
  import opened Domain
  import opened Text

  /** The catalog's text search: the field, lower-cased, contains the
      query, trimmed and lower-cased. */
  predicate Matches(text: string, query: string) {
    Contains(ToLower(text), ToLower(Trim(query)))
  }

  /** The search ignores the case of the query. */
  lemma MatchesIgnoresQueryCase(text: string, query: string)
    ensures Matches(text, ToLower(query)) <==> Matches(text, query)
  {
    TrimToLowerCommute(query);
    ToLowerIdempotent(Trim(query));
  }

  /** The search ignores blanks around the query. */
  lemma MatchesIgnoresSurroundingBlanks(text: string, query: string)
    ensures Matches(text, Trim(query)) <==> Matches(text, query)
  {
    TrimIdempotent(query);
  }

  /** A blank query matches every text. */
  lemma BlankQueryMatches(text: string, query: string)
    requires IsBlank(query)
    ensures Matches(text, query)
  {
    ContainsEmpty(ToLower(text));
  }

  /** No two stored books share an ISBN. */
  ghost predicate UniqueIsbns(books: map<int, Book>) {
    forall j, k :: j in books && k in books && j != k ==> books[j].isbn != books[k].isbn
  }

  class BookRepository {
    var books: map<int, Book>
    /** The identity the next saved book receives. */
    var nextId: int

    /** Every book is stored under its own identity, and every identity
        in use is below the counter, so the counter's value is unused. */
    ghost predicate Valid()
      reads this
    {
      1 <= nextId && forall k :: k in books ==> books[k].id == k && k < nextId
    }

    /** An empty catalog whose first identity is 1. */
    constructor ()
      ensures Valid() && books == map[] && nextId == 1
    {
      books := map[];
      nextId := 1;
    }

    /** Returns the counter and advances it: consecutive calls return
        consecutive identities. */
    method NextId() returns (id: int)
      requires Valid()
      modifies this`nextId
      ensures Valid()
      ensures id == old(nextId) && nextId == id + 1
      ensures id !in books
    {
      id := nextId;
      nextId := nextId + 1;
    }

    /** Stores a copy of the book's title, author and ISBN under a fresh
        identity; the identity and loan fields of `b` are ignored. */
    method Save(b: Book)
      requires Valid()
      modifies this
      ensures Valid()
      ensures old(nextId) !in old(books)
      ensures books == old(books)[old(nextId) := NewBook(old(nextId), b.title, b.author, b.isbn)]
      ensures |books| == |old(books)| + 1
      ensures nextId == old(nextId) + 1
    {
      var id := NextId();
      books := books[id := NewBook(id, b.title, b.author, b.isbn)];
    }

    /** The book stored under `id`, if any; it carries that identity. */
    function FindById(id: int): (r: Option<Book>)
      reads this
      ensures r.Some? <==> id in books
      ensures r.Some? ==> r.value == books[id]
      ensures Valid() && r.Some? ==> r.value.id == id
    {
      if id in books then Some(books[id]) else None
    }

    /** Some stored book has ISBN `isbn`. */
    predicate ExistsIsbn(isbn: string)
      reads this
    {
      exists k | k in books :: books[k].isbn == isbn
    }

    /** Some stored book with ISBN `isbn` (which one, when several share
        it, is left open, as the hash map's iteration order is), or `None`
        exactly when no stored book has it. */
    method FindByIsbn(isbn: string) returns (r: Option<Book>)
      ensures r.None? <==> !ExistsIsbn(isbn)
      ensures r.Some? ==> r.value.isbn == isbn && r.value in books.Values
    {
      if k :| k in books && books[k].isbn == isbn {
        r := Some(books[k]);
      } else {
        r := None;
      }
    }

    /** All stored books; each is the one stored under its identity. */
    function ListAll(): (r: set<Book>)
      reads this
      ensures forall k :: k in books ==> books[k] in r
      ensures Valid() ==> forall b :: b in r ==> b.id in books && books[b.id] == b
    {
      set k | k in books :: books[k]
    }

    /** The stored books whose title matches the query. */
    function ByTitle(query: string): (r: set<Book>)
      reads this
      ensures forall b :: b in r <==> b in books.Values && Matches(b.title, query)
    {
      set b | b in books.Values && Matches(b.title, query)
    }

    /** The stored books whose author matches the query. */
    function ByAuthor(query: string): (r: set<Book>)
      reads this
      ensures forall b :: b in r <==> b in books.Values && Matches(b.author, query)
    {
      set b | b in books.Values && Matches(b.author, query)
    }

    /** Stores `b` under its own identity, replacing what was there. */
    method Update(b: Book)
      modifies this`books
      ensures books == old(books)[b.id := b]
      ensures forall k :: k in old(books) && k != b.id ==> k in books && books[k] == old(books)[k]
      ensures old(Valid()) && b.id < nextId ==> Valid()
    {
      books := books[b.id := b];
    }

    /** Removes the book stored under `id`, if any; the others stay. */
    method Remove(id: int)
      modifies this`books
      ensures books == old(books) - {id}
      ensures FindById(id) == None
      ensures forall k :: k in old(books) && k != id ==> FindById(k) == Some(old(books)[k])
      ensures old(Valid()) ==> Valid()
    {
      books := books - {id};
    }
  }

  /** The ISBN test asks exactly whether some book of the catalog's
      listing has that ISBN. */
  lemma ExistsIsbnAmongStoredBooks(repo: BookRepository, isbn: string)
    ensures repo.ExistsIsbn(isbn) <==> exists b :: b in repo.ListAll() && b.isbn == isbn
  {
    var m := repo.books;
    if repo.ExistsIsbn(isbn) {
      var k :| k in m && m[k].isbn == isbn;
      assert m[k] in repo.ListAll();
    } else {
      forall b | b in repo.ListAll() ensures b.isbn != isbn {
        var k :| k in m && m[k] == b;
      }
    }
  }

  /** A query that is blank after trimming lists every stored book. */
  lemma BlankTitleQueryListsAll(repo: BookRepository, query: string)
    requires IsBlank(query)
    ensures repo.ByTitle(query) == repo.books.Values
  {
    forall b | b in repo.books.Values ensures b in repo.ByTitle(query) {
      BlankQueryMatches(b.title, query);
    }
  }

  /** Searching by title ignores the case of the query. */
  lemma TitleSearchIgnoresCase(repo: BookRepository, query: string)
    ensures repo.ByTitle(ToLower(query)) == repo.ByTitle(query)
  {
    forall b | b in repo.books.Values ensures Matches(b.title, ToLower(query)) <==> Matches(b.title, query) {
      MatchesIgnoresQueryCase(b.title, query);
    }
  }

  /** Searching by author ignores the case of the query. */
  lemma AuthorSearchIgnoresCase(repo: BookRepository, query: string)
    ensures repo.ByAuthor(ToLower(query)) == repo.ByAuthor(query)
  {
    forall b | b in repo.books.Values ensures Matches(b.author, ToLower(query)) <==> Matches(b.author, query) {
      MatchesIgnoresQueryCase(b.author, query);
    }
  }
}
