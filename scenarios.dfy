/**
 * Statements about BookRepo that relate several calls: save against update
 * and create, the pair uniqueness that update does not keep, and a
 * create / get / delete walkthrough. Each is proved from the contracts of
 * the repository's methods alone.
 */
module Scenarios {
  import opened Wrappers
  import opened Models
  import opened Service
  import opened Repository

  /** The two repositories' accessors hold the same table. */
  ghost predicate SameTable(a: BookRepo, c: BookRepo)
    reads a, c, a.service, c.service
  {
    a.service.rows == c.service.rows && a.service.order == c.service.order
  }

  /** Save of a valid book whose Id is stored has the same result and effect as update. */
  method SaveOnStoredIdIsUpdate(a: BookRepo, c: BookRepo, book: Option<Book>, env: Env)
    returns (saved: ApiResponse<string>, updated: ApiResponse<string>)
    requires a.service != c.service
    requires a.service.Valid() && c.service.Valid() && SameTable(a, c)
    requires env.newKey !in a.service.rows
    requires IsComplete(book) && env.read.Served? && book.value.id in a.service.rows
    modifies a.service, c.service
    ensures saved == updated
    ensures SameTable(a, c)
  {
    saved := a.SaveBook(book, env);
    updated := c.UpdateBook(book, env);
  }

  /**
   * Save of a valid book whose Id is not stored has the same result and effect
   * as create, provided no stored book has its pair (create would refuse it;
   * save does not check).
   */
  method SaveOnNewIdIsCreate(a: BookRepo, c: BookRepo, book: Option<Book>, env: Env)
    returns (saved: ApiResponse<string>, created: ApiResponse<string>)
    requires a.service != c.service
    requires a.service.Valid() && c.service.Valid() && SameTable(a, c)
    requires env.newKey !in a.service.rows
    requires IsComplete(book) && env.read.Served? && book.value.id !in a.service.rows
    requires !HasPair(a.service.rows, book.value.name, book.value.authorName)
    modifies a.service, c.service
    ensures saved == created
    ensures SameTable(a, c)
  {
    saved := a.SaveBook(book, env);
    created := c.CreateBook(book, env);
  }

  /**
   * Update does not keep (Name, AuthorName) pairs unique: giving the second of
   * two stored books the first one's pair succeeds.
   */
  method UpdateCanDuplicatePair(k1: Id, k2: Id) returns (r: ApiResponse<string>, rows: map<Id, Book>)
    requires k1 != k2
    ensures r.ok
    ensures !NoDuplicatePair(rows)
  {
    var service := new BookService();
    var repo := new BookRepo(service);
    var first := repo.CreateBook(Some(Book(k1, Some("Book1"), Some("Author1"))), Env(Served, Committed, k1));
    var second := repo.CreateBook(Some(Book(k2, Some("Book2"), Some("Author2"))), Env(Served, Committed, k2));
    r := repo.UpdateBook(Some(Book(k2, Some("Book1"), Some("Author1"))), Env(Served, Committed, k1));
    rows := service.rows;
    assert SamePair(rows[k1], rows[k2].name, rows[k2].authorName);
  }

  /**
   * Create a book, create it again, fetch it, delete it, fetch it again, with
   * a database that answers every call.
   */
  method Walkthrough(k: Id, k': Id)
    returns (created: ApiResponse<string>, again: ApiResponse<string>, fetched: ApiResponse<Book>,
             deleted: ApiResponse<string>, refetched: ApiResponse<Book>)
    requires k != k'
    ensures created.ok
    ensures !again.ok && again.msg == ExistsMsg
    ensures fetched.ok && fetched.payload == Some(Book(k, Some("Book1"), Some("Author1")))
    ensures deleted.ok
    ensures !refetched.ok && refetched.msg == NotFoundMsg && refetched.payload == None
  {
    var service := new BookService();
    var repo := new BookRepo(service);
    var book := Some(Book(k', Some("Book1"), Some("Author1")));
    created := repo.CreateBook(book, Env(Served, Committed, k));
    assert service.rows == map[k := Book(k, Some("Book1"), Some("Author1"))];
    assert HasPair(service.rows, Some("Book1"), Some("Author1")) by {
      assert SamePair(service.rows[k], Some("Book1"), Some("Author1"));
    }
    again := repo.CreateBook(book, Env(Served, Committed, k'));
    fetched := repo.GetBookById(k, Env(Served, Committed, k'));
    deleted := repo.DeleteBook(k, Env(Served, Committed, k'));
    refetched := repo.GetBookById(k, Env(Served, Committed, k'));
  }
}
