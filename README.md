# BookManagement repository layer, modelled in Dafny

This project models `BookRepo`, the orchestration layer of the BookManagement
web API. It sits between the HTTP controller and the storage accessor
(`IBookService`). It validates a Book, refuses a duplicate (Name, AuthorName)
pair on create, checks that a record exists before delete and update, and
implements save as an upsert. Every operation returns an `ApiResponse`
envelope: success flag, message, optional payload, and the exception raised.

Files and modules:

- `wrappers.dfy` (`Wrappers`): `Option`, which stands for a C# reference that may be null.
- `models.dfy` (`Models`): the opaque `Id` (a GUID), the `Book` datatype with nullable
  `name` and `authorName`, the `ApiResponse<T>` envelope, `string.IsNullOrEmpty`, and the
  fixed messages the layer writes.
- `book_service.dfy` (`Service`): the storage accessor as a class `BookService`.
  - It holds a map from key to row plus the order in which the database enumerates the rows.
  - It keeps a ghost log of every call made to it. Contracts use the log to say which
    store calls an operation makes and which it does not.
  - Pure functions give the semantics of its queries (`Listing`, `FirstByName`) and of
    removal from the enumeration order (`Without`).
- `book_repo.dfy` (`Repository`): `ValidateBook` as a function, and the class `BookRepo`
  with the six public operations as methods over a `BookService`.
- `scenarios.dfy` (`Scenarios`): properties that relate several calls. They cover save
  against update and create, update breaking pair uniqueness, and a
  create/get/delete walkthrough.

How the environment enters: each request gets an `Env` that says what the database does.

- Its read answer is `Served`, `ReadFailed` or `ReadThrows(reason)`.
  - `ReadFailed` is a fault that the accessor swallows, so it returns an empty list or null.
  - `ReadThrows` is an exception that escapes the accessor and reaches `BookRepo`'s catch block.
- Its write answer is `Committed`, `WriteFailed(reason)` or `WriteThrows(reason)`.
  - `WriteFailed` is a `SaveChanges` fault that the accessor turns into a failure envelope.
- Its `newKey` is the key the database assigns when it inserts a row.

The concrete `BookService` never lets an exception escape. The `*Throws` answers are kept
because `BookRepo` is written against the `IBookService` interface and its catch blocks
are part of the behaviour.

Behaviour of the code that the contracts make explicit:

- **Catch blocks keep the success flag.** They overwrite only the message and the fault.
  An exception after successful validation therefore returns `ok == true` with the
  exception's message. This happens in `CreateBook`, in `SaveBook`, and in `UpdateBook`
  after validation.
- **`UpdateBook(null)`** reads `book.Id` and throws a NullReferenceException. The call fails
  with .NET's message for that exception, not with "Book data is null", and makes no store call.
- **The `GetBookById` Id check never fails here.** Its defensive check compares the returned
  Id with the queried one. Against the map-backed store this is always true, because rows
  are stored under their own Id.
- **A swallowed read fault looks like "nothing found".**
  - In `CreateBook` it skips the duplicate check. Uniqueness is therefore proved only when
    the lookup was served.
  - In `SaveBook` it turns an update into a create.
- **Only `CreateBook` checks pair uniqueness.** `UpdateBook` and `SaveBook` do not, and
  `Scenarios.UpdateCanDuplicatePair` shows an update that creates a duplicate pair.

Three facts about the code that a reader might not expect:

- `CreateBook`'s envelope carries only a message, never the new Id
  (BookService.cs:81-82, BookRepo.cs:118-121).
- A success flag of `true` can come with an exception's message, as described above
  (BookRepo.cs:124-128).
- No two rows sharing a (Name, AuthorName) pair is enforced on create only
  (BookRepo.cs:112-117); update and save write the pair unchecked (BookRepo.cs:183-188, 216-228).

## Model

| member | source | states |
|---|---|---|
| Repository.ValidateBook | BookManagement/Repository/Implementation/BookRepo.cs:250-282 | succeeds iff the book is present with non-empty name and author name; each failure message identifies exactly the first failing rule (null book, then empty name, then empty author name); success carries "Success"; no payload and no fault |
| Repository.BookRepo.GetBooks | BookManagement/Repository/Implementation/BookRepo.cs:34-59 | with a served read, succeeds iff the store is non-empty, and then the payload is the store's full listing in order; otherwise "Book data not found" with an empty list; an escaped exception gives failure with its message; the store is not changed |
| Repository.BookRepo.GetBookById | BookManagement/Repository/Implementation/BookRepo.cs:68-92 | succeeds only with a payload whose Id is the queried id, exactly when the read is served and the id is stored; otherwise "Book data not found" with no payload, or the escaped exception's message |
| Repository.BookRepo.CreateBook | BookManagement/Repository/Implementation/BookRepo.cs:101-131 | invalid input returns the validation envelope without any store call; a stored pair gives "Book already exist" with the store unchanged; otherwise the store's create envelope is returned exactly and the row is inserted; an escaped exception keeps ok true; with a healthy database, ok iff valid and the pair is new; keeps every row complete, and keeps pairs unique when the lookup was served |
| Repository.BookRepo.DeleteBook | BookManagement/Repository/Implementation/BookRepo.cs:140-162 | an absent id gives "Book not exist" with no delete call and no change; a stored id hands the fetched record to the store's delete and returns its envelope; an escaped exception gives failure; keeps rows complete and pairs unique |
| Repository.BookRepo.UpdateBook | BookManagement/Repository/Implementation/BookRepo.cs:171-199 | a null input fails with the NullReferenceException message and no store call; the existence check comes before validation, so a missing id wins with "Book not exist"; invalid input returns the validation envelope with no update; otherwise the fetched record with only name and author name replaced goes to the store's update, whose envelope is returned; an escaped exception after validation keeps ok true; enumeration order unchanged; keeps rows complete |
| Repository.BookRepo.SaveBook | BookManagement/Repository/Implementation/BookRepo.cs:208-239 | validates before any store call; a stored id updates the fetched record with the input's name and author name; a missing id creates the input as given; returns the store's envelope; an escaped exception after validation keeps ok true; keeps rows complete |
| Repository.BookRepo.constructor | BookManagement/Repository/Implementation/BookRepo.cs:23-26 | the repository uses the given storage accessor |
| Repository.InsertKeepsPairsUnique | BookManagement/Repository/Implementation/BookRepo.cs:112-121 | inserting a row whose pair no stored row carries keeps all pairs unique |
| Service.BookService.constructor | BookManagement/Service/Implementation/BookService.cs:22-25 | a new accessor starts over an empty, well-formed table with an empty call log |
| Service.BookService.GetBooks | BookManagement/Service/Implementation/BookService.cs:33-43 | returns the table's listing, or an empty list when the query fault is swallowed; rows unchanged |
| Service.BookService.GetBookById | BookManagement/Service/Implementation/BookService.cs:52-62 | returns the row stored under the id, or null when there is none or the fault is swallowed; a returned row has the queried Id |
| Service.BookService.GetBookByName | BookManagement/Service/Implementation/BookService.cs:126-136 | returns the first row carrying the pair; with a served read, returns a row iff some stored row carries the pair |
| Service.BookService.CreateBook | BookManagement/Service/Implementation/BookService.cs:71-91 | on commit, inserts the book under the assigned key and appends that key to the enumeration order, returning "Successfully added Book"; on a save fault, returns failure with the fault's message and changes nothing; keeps the table well-formed |
| Service.BookService.UpdateBook | BookManagement/Service/Implementation/BookService.cs:141-161 | on commit, replaces the row with the given record's Id, returning "Successfully updated Book"; on a save fault, changes nothing; enumeration order unchanged |
| Service.BookService.DeleteBook | BookManagement/Service/Implementation/BookService.cs:100-120 | on commit, removes the row and its key from the enumeration order, returning "Successfully deleted Book"; on a save fault, changes nothing |
| Service.Answer | BookManagement/Service/Implementation/BookService.cs:33-62 | what a read hands back: the value found when served, the empty list or null when the accessor swallows the fault (also BookService.cs:128-135), or the escaping exception with its message |
| Service.Written | BookManagement/Service/Implementation/BookService.cs:71-91 | what a write hands back: ok exactly when SaveChanges commits, then the operation's success message and no fault; on a caught fault, failure with the fault's message as both message and fault (same pattern at BookService.cs:100-120 and 141-161); an escaping exception otherwise; never a payload |
| Service.Listing | BookManagement/Service/Implementation/BookService.cs:37 | the listing has one entry per stored row and holds exactly the stored rows |
| Service.FirstByName | BookManagement/Service/Implementation/BookService.cs:130 | a found row is a stored row carrying the pair; nothing is found only if no enumerated row carries the pair |
| Service.FirstByNameFinds | BookManagement/Service/Implementation/BookService.cs:130 | on a well-formed table, the lookup by pair finds a row iff a stored row carries the pair |
| Service.Without | BookManagement/Service/Implementation/BookService.cs:108-109 | removing a key from the enumeration order keeps exactly the other keys and keeps them free of duplicates |
| Service.OrderLength | BookManagement/Service/Implementation/BookService.cs:37 | a well-formed table enumerates as many keys as it stores rows |
| Scenarios.SaveOnStoredIdIsUpdate | BookManagement/Repository/Implementation/BookRepo.cs:216-225 | for a valid book whose Id is stored, save and update return the same envelope and leave the same table |
| Scenarios.SaveOnNewIdIsCreate | BookManagement/Repository/Implementation/BookRepo.cs:216-229 | for a valid book whose Id is not stored and whose pair is new, save and create return the same envelope and leave the same table |
| Scenarios.UpdateCanDuplicatePair | BookManagement/Repository/Implementation/BookRepo.cs:183-188 | update succeeds in giving one stored book another's (Name, AuthorName) pair, so pair uniqueness is not kept by update |
| Scenarios.Walkthrough | BookManagement/Repository/Implementation/BookRepo.cs:68-162 | create succeeds; creating the same book again fails with "Book already exist"; get by id returns the created fields; delete succeeds; a second get fails with "Book data not found" and no payload |

## Left out

- The HTTP controller (status-code mapping), dependency-injection wiring, Swagger, routing and
  database creation are not part of this model.
- Entity Framework itself is not modelled. The table is a map plus an enumeration order.
  - The database's enumeration order is unspecified. The model uses insertion order.
  - Entity identity is not modelled. The fetched record that the code mutates in place before
    update is a value copy here, and change tracking is absent.
- The `[StringLength(200)]` limit is a database schema constraint, not a validation rule. A save
  it rejects is covered only as an arbitrary `WriteFailed` answer.
- Exceptions are reduced to their message, so the exception type and stack are not kept.
- Key generation is a parameter (`Env.newKey`). Whether a client-supplied Id is honoured on
  insert is the database's choice, and the environment makes it.
- Concurrency is not modelled. Each request runs alone, so the check-then-act race on duplicate
  create is not represented.
- The `null` list case of `bookList?.Any()` is not modelled, because the accessor returns an
  empty list and never null.
- The catch block of `ValidateBook` is not modelled, because nothing in its try block can throw.
- The initial `IsSuccess = false` envelopes of `CreateBook` and `SaveBook` are not modelled.
  `ValidateBook`'s result replaces them before anything can throw.
- Service.BookService.GetBookByName: matches the (Name, AuthorName) pair by exact string
  equality, while the database compares under its collation (on a default SQL Server install,
  case- and trailing-space-insensitive). `HasPair`, `NoDuplicatePair`, and "the pair is new" in
  `Repository.BookRepo.CreateBook` therefore mean exact equality: the model lets ("book1",
  "author1") in beside ("Book1", "Author1") where such a database reports "Book already exist".
- Service.BookService.CreateBook: requires the assigned key to be unused. A primary-key
  collision on insert is not modelled, and the database would refuse it.
- Service.BookService.UpdateBook: requires the record's Id to be stored, as every caller in
  `BookRepo` guarantees. Its behaviour on a missing key is not modelled.
- Service.BookService.DeleteBook: requires the record's Id to be stored, as every caller in
  `BookRepo` guarantees. Its behaviour on a missing key is not modelled.
