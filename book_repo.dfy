/**
 * The repository layer (BookRepo): validation, the duplicate check on create,
 * the existence checks on delete and update, and the save upsert, each wrapped
 * in an ApiResponse envelope.
 *
 * Every public operation runs its body inside a try block. An exception that
 * escapes the accessor (`Threw`) abandons the rest of the body, and the catch
 * block then overwrites only the message and the fault of the envelope built
 * so far; it never touches the success flag.
 */
module Repository {
  import opened Wrappers
  import opened Models
  import opened Service

  /**
   * The validation rules, checked in order, first failure wins: the book is
   * present, its name is non-empty, its author name is non-empty.
   */
  function ValidateBook(book: Option<Book>): (r: ApiResponse<string>)
    ensures r.ok <==> IsComplete(book)
    ensures r.ok ==> r.msg == SuccessMsg
    ensures r.msg == NullBookMsg <==> book.None?
    ensures r.msg == NullNameMsg <==> book.Some? && IsNullOrEmpty(book.value.name)
    ensures r.msg == NullAuthorMsg <==>
              book.Some? && !IsNullOrEmpty(book.value.name) && IsNullOrEmpty(book.value.authorName)
    ensures r.payload == None && r.fault == None
  {
    var r := ApiResponse(true, SuccessMsg, None, None);
    if book.None? then r.(ok := false, msg := NullBookMsg)
    else if IsNullOrEmpty(book.value.name) then r.(ok := false, msg := NullNameMsg)
    else if IsNullOrEmpty(book.value.authorName) then r.(ok := false, msg := NullAuthorMsg)
    else r
  }

  /** Inserting a row whose pair no stored row carries keeps the pairs unique. */
  lemma InsertKeepsPairsUnique(rows: map<Id, Book>, key: Id, b: Book)
    requires NoDuplicatePair(rows)
    requires key !in rows
    requires !HasPair(rows, b.name, b.authorName)
    ensures NoDuplicatePair(rows[key := b])
  {
  }

  class BookRepo {
    const service: BookService

    constructor (service: BookService)
      ensures this.service == service
    {
      this.service := service;
    }

    /** All books; fails with "Book data not found" and an empty list when there are none. */
    method GetBooks(env: Env) returns (r: ApiResponse<seq<Book>>)
      requires service.Valid()
      modifies service`log
      ensures service.log == old(service.log) + [ListAll]
      ensures env.read.Served? ==> (r.ok <==> service.rows != map[])
      ensures r.ok ==> r == ApiResponse(true, SuccessMsg, Some(Listing(service.rows, service.order)), None)
      ensures env.read.Served? && service.rows == map[] ==> r == ApiResponse(false, NotFoundMsg, Some([]), None)
      ensures env.read.ReadFailed? ==> r == ApiResponse(false, NotFoundMsg, Some([]), None)
      ensures env.read.ReadThrows? ==>
                r == ApiResponse(false, env.read.reason, Some([]), Some(env.read.reason))
    {
      r := ApiResponse(false, NotFoundMsg, Some([]), None);
      var bookList := service.GetBooks(env.read);
      match bookList
      case Threw(m) =>
        r := r.(msg := m, fault := Some(m));
      case Returned(list) =>
        if |list| > 0 {
          assert r.payload.value + list == list;
          r := r.(ok := true, msg := SuccessMsg, payload := Some(r.payload.value + list));
        }
    }

    /** The book with Id `id`; fails with "Book data not found" and no payload otherwise. */
    method GetBookById(id: Id, env: Env) returns (r: ApiResponse<Book>)
      requires service.Valid()
      modifies service`log
      ensures service.log == old(service.log) + [FindById(id)]
      ensures r.ok ==> r.payload.Some? && r.payload.value.id == id
      ensures env.read.Served? && id in service.rows ==>
                r == ApiResponse(true, SuccessMsg, Some(service.rows[id]), None)
      ensures !env.read.ReadThrows? && !(env.read.Served? && id in service.rows) ==>
                r == ApiResponse(false, NotFoundMsg, None, None)
      ensures env.read.ReadThrows? ==>
                r == ApiResponse(false, env.read.reason, None, Some(env.read.reason))
    {
      r := ApiResponse(false, NotFoundMsg, None, None);
      var bookData := service.GetBookById(id, env.read);
      match bookData
      case Threw(m) =>
        r := r.(msg := m, fault := Some(m));
      case Returned(found) =>
        if found.Some? && found.value.id == id {
          r := r.(ok := true, msg := SuccessMsg, payload := found);
        }
    }

    /**
     * Validates `book`, refuses a (Name, AuthorName) pair already stored, and
     * otherwise hands `book` to the accessor's create and returns its envelope.
     */
    method CreateBook(book: Option<Book>, env: Env) returns (r: ApiResponse<string>)
      requires service.Valid()
      requires env.newKey !in service.rows
      modifies service
      ensures service.Valid()
      // invalid input: the validation envelope; the accessor is not called
      ensures !IsComplete(book) ==>
                r == ValidateBook(book) && service.log == old(service.log) && service.TableUnchanged()
      // the duplicate lookup throws: the catch keeps the success flag of the validation
      ensures IsComplete(book) && env.read.ReadThrows? ==>
                && r == ApiResponse(true, env.read.reason, None, Some(env.read.reason))
                && service.log == old(service.log) + [FindByName(book.value.name, book.value.authorName)]
                && service.TableUnchanged()
      // the pair is already stored
      ensures IsComplete(book) && env.read.Served? && HasPair(old(service.rows), book.value.name, book.value.authorName) ==>
                && r == ApiResponse(false, ExistsMsg, None, None)
                && service.log == old(service.log) + [FindByName(book.value.name, book.value.authorName)]
                && service.TableUnchanged()
      // the lookup found nothing: the accessor's create decides
      ensures IsComplete(book) &&
              (env.read.ReadFailed? || (env.read.Served? && !HasPair(old(service.rows), book.value.name, book.value.authorName))) ==>
                && service.log == old(service.log) + [FindByName(book.value.name, book.value.authorName), Create(book.value)]
                && (Written(env.write, AddedMsg).Returned? ==> r == Written(env.write, AddedMsg).value)
                && (env.write.WriteThrows? ==> r == ApiResponse(true, env.write.reason, None, Some(env.write.reason)))
                && (env.write.Committed? ==>
                      && service.rows == old(service.rows)[env.newKey := book.value.(id := env.newKey)]
                      && service.order == old(service.order) + [env.newKey])
                && (!env.write.Committed? ==> service.TableUnchanged())
      // with a database that answers, create succeeds exactly for a valid input whose pair is new
      ensures env.read.Served? && env.write.Committed? ==>
                (r.ok <==> IsComplete(book) && !HasPair(old(service.rows), book.value.name, book.value.authorName))
      ensures old(AllComplete(service.rows)) ==> AllComplete(service.rows)
      ensures env.read.Served? && old(NoDuplicatePair(service.rows)) ==> NoDuplicatePair(service.rows)
    {
      r := ValidateBook(book);
      if r.ok {
        var b := book.value;
        var checkBookExist := service.GetBookByName(b.name, b.authorName, env.read);
        match checkBookExist
        case Threw(m) =>
          r := r.(msg := m, fault := Some(m));
        case Returned(existing) =>
          if existing.Some? {
            r := r.(ok := false, msg := ExistsMsg);
          } else {
            ghost var before := service.rows;
            var created := service.CreateBook(b, env.write, env.newKey);
            match created {
              case Threw(m) =>
                r := r.(msg := m, fault := Some(m));
              case Returned(response) =>
                r := response;
            }
            if env.read.Served? && env.write.Committed? && NoDuplicatePair(before) {
              InsertKeepsPairsUnique(before, env.newKey, b.(id := env.newKey));
            }
          }
      }
    }

    /** Deletes the stored book with Id `id`; fails with "Book not exist" when it is not found. */
    method DeleteBook(id: Id, env: Env) returns (r: ApiResponse<string>)
      requires service.Valid()
      modifies service
      ensures service.Valid()
      ensures env.read.ReadThrows? ==>
                && r == ApiResponse(false, env.read.reason, None, Some(env.read.reason))
                && service.log == old(service.log) + [FindById(id)]
                && service.TableUnchanged()
      // not found (or the lookup fault was swallowed): no delete is issued
      ensures !env.read.ReadThrows? && !(env.read.Served? && id in old(service.rows)) ==>
                && r == ApiResponse(false, NotExistMsg, None, None)
                && service.log == old(service.log) + [FindById(id)]
                && service.TableUnchanged()
      // found: the fetched record is handed to the accessor's delete
      ensures env.read.Served? && id in old(service.rows) ==>
                && service.log == old(service.log) + [FindById(id), Delete(old(service.rows)[id])]
                && (Written(env.write, DeletedMsg).Returned? ==> r == Written(env.write, DeletedMsg).value)
                && (env.write.WriteThrows? ==> r == ApiResponse(false, env.write.reason, None, Some(env.write.reason)))
                && (env.write.Committed? ==>
                      service.rows == old(service.rows) - {id} && service.order == Without(old(service.order), id))
                && (!env.write.Committed? ==> service.TableUnchanged())
      ensures old(AllComplete(service.rows)) ==> AllComplete(service.rows)
      ensures old(NoDuplicatePair(service.rows)) ==> NoDuplicatePair(service.rows)
    {
      r := ApiResponse(false, NotExistMsg, None, None);
      var bookExist := service.GetBookById(id, env.read);
      match bookExist
      case Threw(m) =>
        r := r.(msg := m, fault := Some(m));
      case Returned(found) =>
        if found.Some? {
          var deleted := service.DeleteBook(found.value, env.write);
          match deleted
          case Threw(m) =>
            r := r.(msg := m, fault := Some(m));
          case Returned(response) =>
            r := response;
        }
    }

    /**
     * Looks up the stored book with `book`'s Id (failing with "Book not exist"
     * when there is none), then validates `book`, then copies its name and
     * author name onto the stored record and hands that record to the
     * accessor's update. The pair is not checked for uniqueness.
     */
    method UpdateBook(book: Option<Book>, env: Env) returns (r: ApiResponse<string>)
      requires service.Valid()
      modifies service
      ensures service.Valid()
      ensures service.order == old(service.order)
      // a null input: reading its Id throws NullReferenceException before any call
      ensures book.None? ==>
                && r == ApiResponse(false, NullReferenceMsg, None, Some(NullReferenceMsg))
                && service.log == old(service.log)
                && service.TableUnchanged()
      ensures book.Some? && env.read.ReadThrows? ==>
                && r == ApiResponse(false, env.read.reason, None, Some(env.read.reason))
                && service.log == old(service.log) + [FindById(book.value.id)]
                && service.TableUnchanged()
      // not found wins over invalid input
      ensures book.Some? && !env.read.ReadThrows? && !(env.read.Served? && book.value.id in old(service.rows)) ==>
                && r == ApiResponse(false, NotExistMsg, None, None)
                && service.log == old(service.log) + [FindById(book.value.id)]
                && service.TableUnchanged()
      ensures book.Some? && env.read.Served? && book.value.id in old(service.rows) && !IsComplete(book) ==>
                && r == ValidateBook(book)
                && service.log == old(service.log) + [FindById(book.value.id)]
                && service.TableUnchanged()
      // found and valid: the stored record, with only its name and author name replaced, goes to update
      ensures IsComplete(book) && env.read.Served? && book.value.id in old(service.rows) ==>
                && service.log == old(service.log) + [FindById(book.value.id),
                     Update(old(service.rows)[book.value.id].(name := book.value.name, authorName := book.value.authorName))]
                && (Written(env.write, UpdatedMsg).Returned? ==> r == Written(env.write, UpdatedMsg).value)
                && (env.write.WriteThrows? ==> r == ApiResponse(true, env.write.reason, None, Some(env.write.reason)))
                && (env.write.Committed? ==> service.rows == old(service.rows)[book.value.id := book.value])
                && (!env.write.Committed? ==> service.TableUnchanged())
      ensures old(AllComplete(service.rows)) ==> AllComplete(service.rows)
    {
      r := ApiResponse(false, NotExistMsg, None, None);
      if book.None? {
        r := r.(msg := NullReferenceMsg, fault := Some(NullReferenceMsg));
        return;
      }
      var b := book.value;
      var bookExist := service.GetBookById(b.id, env.read);
      match bookExist
      case Threw(m) =>
        r := r.(msg := m, fault := Some(m));
      case Returned(found) =>
        if found.Some? {
          r := ValidateBook(book);
          if r.ok {
            var merged := found.value.(name := b.name, authorName := b.authorName);
            var updated := service.UpdateBook(merged, env.write);
            match updated
            case Threw(m) =>
              r := r.(msg := m, fault := Some(m));
            case Returned(response) =>
              r := response;
          }
        }
    }

    /**
     * Upsert: validates `book`; if a stored book has its Id, updates that record
     * as UpdateBook does, and otherwise hands `book` as given to the accessor's
     * create. The pair is not checked for uniqueness.
     */
    method SaveBook(book: Option<Book>, env: Env) returns (r: ApiResponse<string>)
      requires service.Valid()
      requires env.newKey !in service.rows
      modifies service
      ensures service.Valid()
      ensures !IsComplete(book) ==>
                r == ValidateBook(book) && service.log == old(service.log) && service.TableUnchanged()
      ensures IsComplete(book) && env.read.ReadThrows? ==>
                && r == ApiResponse(true, env.read.reason, None, Some(env.read.reason))
                && service.log == old(service.log) + [FindById(book.value.id)]
                && service.TableUnchanged()
      // found: update of the stored record with the input's name and author name
      ensures IsComplete(book) && env.read.Served? && book.value.id in old(service.rows) ==>
                && service.log == old(service.log) + [FindById(book.value.id),
                     Update(old(service.rows)[book.value.id].(name := book.value.name, authorName := book.value.authorName))]
                && (Written(env.write, UpdatedMsg).Returned? ==> r == Written(env.write, UpdatedMsg).value)
                && (env.write.WriteThrows? ==> r == ApiResponse(true, env.write.reason, None, Some(env.write.reason)))
                && (env.write.Committed? ==> service.rows == old(service.rows)[book.value.id := book.value])
                && (!env.write.Committed? ==> service.TableUnchanged())
                && service.order == old(service.order)
      // not found (or the lookup fault was swallowed): create of the input as given
      ensures IsComplete(book) && (env.read.ReadFailed? || (env.read.Served? && book.value.id !in old(service.rows))) ==>
                && service.log == old(service.log) + [FindById(book.value.id), Create(book.value)]
                && (Written(env.write, AddedMsg).Returned? ==> r == Written(env.write, AddedMsg).value)
                && (env.write.WriteThrows? ==> r == ApiResponse(true, env.write.reason, None, Some(env.write.reason)))
                && (env.write.Committed? ==>
                      && service.rows == old(service.rows)[env.newKey := book.value.(id := env.newKey)]
                      && service.order == old(service.order) + [env.newKey])
                && (!env.write.Committed? ==> service.TableUnchanged())
      ensures old(AllComplete(service.rows)) ==> AllComplete(service.rows)
    {
      r := ValidateBook(book);
      if r.ok {
        var b := book.value;
        var checkBookExist := service.GetBookById(b.id, env.read);
        match checkBookExist
        case Threw(m) =>
          r := r.(msg := m, fault := Some(m));
        case Returned(found) =>
          if found.Some? {
            var merged := found.value.(name := b.name, authorName := b.authorName);
            var updated := service.UpdateBook(merged, env.write);
            match updated
            case Threw(m) =>
              r := r.(msg := m, fault := Some(m));
            case Returned(response) =>
              r := response;
          } else {
            var created := service.CreateBook(b, env.write, env.newKey);
            match created
            case Threw(m) =>
              r := r.(msg := m, fault := Some(m));
            case Returned(response) =>
              r := response;
          }
      }
    }
  }
}
