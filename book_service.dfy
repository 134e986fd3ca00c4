/**
 * The storage accessor (BookService) as a map-backed table of Book rows.
 *
 * The table is a map from key to row plus the order in which the database
 * enumerates its rows. What the database does on a given call (answer,
 * fail inside the accessor, or let an exception escape) is not decided by
 * the code and is passed in as an `Env`.
 */
module Service {
  import opened Wrappers
  import opened Models

  /** What the database does when the accessor reads. */
  datatype ReadAnswer =
    | Served                      // the query runs
    | ReadFailed                  // the query faults; the accessor swallows it and returns empty or null
    | ReadThrows(reason: string)  // an exception escapes the accessor

  /** What the database does when the accessor saves a change. */
  datatype WriteAnswer =
    | Committed                    // SaveChanges succeeds
    | WriteFailed(reason: string)  // SaveChanges faults; the accessor returns a failure envelope
    | WriteThrows(reason: string)  // an exception escapes the accessor

  /**
   * The database's behaviour during one request: its answer to the read, its
   * answer to the write, and the key it assigns if the request inserts a row.
   */
  datatype Env = Env(read: ReadAnswer, write: WriteAnswer, newKey: Id)

  /** The result of an accessor call as seen by its caller: a value, or an exception. */
  datatype Outcome<T> = Returned(value: T) | Threw(message: string)

  /** One call made to the accessor, recorded in its log. */
  datatype Call =
    | ListAll
    | FindById(id: Id)
    | FindByName(name: Option<string>, authorName: Option<string>)
    | Create(book: Book)
    | Update(book: Book)
    | Delete(book: Book)

  ghost predicate Distinct(s: seq<Id>)
  {
    forall i, j :: 0 <= i < j < |s| ==> s[i] != s[j]
  }

  /**
   * The table's invariant: `order` lists every key exactly once, and each row
   * is stored under its own Id (Id is the primary key).
   */
  ghost predicate WellFormed(rows: map<Id, Book>, order: seq<Id>)
  {
    && Distinct(order)
    && (forall k :: k in rows <==> k in order)
    && (forall k :: k in rows ==> rows[k].id == k)
  }

  /** Every stored row has a non-empty name and author name. */
  ghost predicate AllComplete(rows: map<Id, Book>)
  {
    forall k :: k in rows ==> HasRequiredFields(rows[k])
  }

  /** No two stored rows share a (Name, AuthorName) pair. */
  ghost predicate NoDuplicatePair(rows: map<Id, Book>)
  {
    forall j, k :: j in rows && k in rows && j != k ==> !SamePair(rows[j], rows[k].name, rows[k].authorName)
  }

  /** Some stored row carries the pair (name, authorName). */
  ghost predicate HasPair(rows: map<Id, Book>, name: Option<string>, authorName: Option<string>)
  {
    exists k :: k in rows && SamePair(rows[k], name, authorName)
  }

  /** A sequence without duplicates has as many elements as its set of elements. */
  lemma {:induction false} DistinctCardinality(s: seq<Id>)
    requires Distinct(s)
    ensures |set k | k in s| == |s|
  {
    if s != [] {
      var tail := s[1..];
      assert Distinct(tail) by {
        forall i, j | 0 <= i < j < |tail| ensures tail[i] != tail[j] {
          assert tail[i] == s[i + 1] && tail[j] == s[j + 1];
        }
      }
      DistinctCardinality(tail);
      assert s[0] !in tail by {
        forall i | 0 <= i < |tail| ensures tail[i] != s[0] {
          assert tail[i] == s[i + 1];
        }
      }
      assert (set k | k in s) == {s[0]} + (set k | k in tail) by {
        assert s == [s[0]] + tail;
      }
    }
  }

  /** A well-formed table lists as many keys as it stores rows. */
  lemma OrderLength(rows: map<Id, Book>, order: seq<Id>)
    requires WellFormed(rows, order)
    ensures |order| == |rows|
  {
    DistinctCardinality(order);
    assert rows.Keys == set k | k in order;
  }

  /**
   * The rows in the order the database enumerates them (`ToList()` over the
   * table): every stored row, once.
   */
  function Listing(rows: map<Id, Book>, order: seq<Id>): (r: seq<Book>)
    requires WellFormed(rows, order)
    ensures |r| == |rows|
    ensures forall b :: b in r <==> b in rows.Values
  {
    OrderLength(rows, order);
    var r := seq(|order|, i requires 0 <= i < |order| => rows[order[i]]);
    assert forall b :: b in rows.Values ==> b in r by {
      forall b | b in rows.Values ensures b in r {
        var k :| k in rows && rows[k] == b;
        var i :| 0 <= i < |order| && order[i] == k;
        assert r[i] == b;
      }
    }
    r
  }

  /**
   * The first row, in enumeration order, carrying the pair (name, authorName),
   * if any (`FirstOrDefault` with that filter).
   */
  function FirstByName(rows: map<Id, Book>, order: seq<Id>, name: Option<string>, authorName: Option<string>): (r: Option<Book>)
    requires forall k :: k in order ==> k in rows
    ensures r.Some? ==> exists k :: k in order && rows[k] == r.value && SamePair(r.value, name, authorName)
    ensures r.None? ==> forall k :: k in order ==> !SamePair(rows[k], name, authorName)
    decreases |order|
  {
    if order == [] then None
    else if SamePair(rows[order[0]], name, authorName) then Some(rows[order[0]])
    else FirstByName(rows, order[1..], name, authorName)
  }

  /** On a well-formed table the lookup by pair finds a row exactly when one carries the pair. */
  lemma FirstByNameFinds(rows: map<Id, Book>, order: seq<Id>, name: Option<string>, authorName: Option<string>)
    requires WellFormed(rows, order)
    ensures FirstByName(rows, order, name, authorName).Some? <==> HasPair(rows, name, authorName)
  {
  }

  /** `order` with the key `id` taken out, the other keys kept in order. */
  function Without(order: seq<Id>, id: Id): (r: seq<Id>)
    ensures forall k :: k in r <==> k in order && k != id
    ensures Distinct(order) ==> Distinct(r)
  {
    if order == [] then []
    else
      DistinctTail(order);
      if order[0] == id then Without(order[1..], id)
      else [order[0]] + Without(order[1..], id)
  }

  /** Dropping the first key keeps a sequence free of duplicates, and the first key is not in the rest. */
  lemma DistinctTail(s: seq<Id>)
    requires s != []
    ensures Distinct(s) ==> Distinct(s[1..]) && s[0] !in s[1..]
  {
  }

  /** What a read returns: `found` when served, `absent` when the accessor swallows a fault. */
  function Answer<T>(read: ReadAnswer, found: T, absent: T): (r: Outcome<T>)
    ensures r.Threw? <==> read.ReadThrows?
    ensures r.Threw? ==> r.message == read.reason
    ensures r.Returned? ==> r.value == (if read.Served? then found else absent)
  {
    match read
    case Served => Returned(found)
    case ReadFailed => Returned(absent)
    case ReadThrows(m) => Threw(m)
  }

  /** What a write returns: the accessor's envelope, or the exception that escaped it. */
  function Written(write: WriteAnswer, done: string): (r: Outcome<ApiResponse<string>>)
    ensures r.Threw? <==> write.WriteThrows?
    ensures r.Threw? ==> r.message == write.reason
    ensures r.Returned? ==> (r.value.ok <==> write.Committed?) && r.value.payload == None
    ensures r.Returned? && r.value.ok ==> r.value.msg == done && r.value.fault == None
    ensures r.Returned? && !r.value.ok ==> r.value.msg == write.reason && r.value.fault == Some(write.reason)
  {
    match write
    case Committed => Returned(ApiResponse(true, done, None, None))
    case WriteFailed(m) => Returned(ApiResponse(false, m, None, Some(m)))
    case WriteThrows(m) => Threw(m)
  }

  /** The storage accessor over one table of Book rows. */
  class BookService {
    var rows: map<Id, Book>
    var order: seq<Id>
    /** Every call made to the accessor, oldest first. */
    ghost var log: seq<Call>

    ghost predicate Valid()
      reads this
    {
      WellFormed(rows, order)
    }

    /** Neither the rows nor their order changed since the start of the call. */
    twostate predicate TableUnchanged()
      reads this
    {
      rows == old(rows) && order == old(order)
    }

    constructor ()
      ensures Valid()
      ensures rows == map[] && order == [] && log == []
    {
      rows, order := map[], [];
      log := [];
    }

    /** All rows; an empty list when the query faults. */
    method GetBooks(read: ReadAnswer) returns (out: Outcome<seq<Book>>)
      requires Valid()
      modifies this`log
      ensures log == old(log) + [ListAll]
      ensures out == Answer(read, Listing(rows, order), [])
    {
      log := log + [ListAll];
      match read
      case Served => out := Returned(Listing(rows, order));
      case ReadFailed => out := Returned([]);
      case ReadThrows(m) => out := Threw(m);
    }

    /** The row with Id `id`; null when there is none or the query faults. */
    method GetBookById(id: Id, read: ReadAnswer) returns (out: Outcome<Option<Book>>)
      requires Valid()
      modifies this`log
      ensures log == old(log) + [FindById(id)]
      ensures out == Answer(read, if id in rows then Some(rows[id]) else None, None)
      ensures out.Returned? && out.value.Some? ==> id in rows && out.value.value == rows[id] && out.value.value.id == id
    {
      log := log + [FindById(id)];
      match read
      case Served => out := Returned(if id in rows then Some(rows[id]) else None);
      case ReadFailed => out := Returned(None);
      case ReadThrows(m) => out := Threw(m);
    }

    /** The first row with this (Name, AuthorName) pair; null when there is none or the query faults. */
    method GetBookByName(name: Option<string>, authorName: Option<string>, read: ReadAnswer) returns (out: Outcome<Option<Book>>)
      requires Valid()
      modifies this`log
      ensures log == old(log) + [FindByName(name, authorName)]
      ensures out == Answer(read, FirstByName(rows, order, name, authorName), None)
      ensures read.Served? ==> (out.value.Some? <==> HasPair(rows, name, authorName))
    {
      log := log + [FindByName(name, authorName)];
      FirstByNameFinds(rows, order, name, authorName);
      match read
      case Served => out := Returned(FirstByName(rows, order, name, authorName));
      case ReadFailed => out := Returned(None);
      case ReadThrows(m) => out := Threw(m);
    }

    /** Inserts `book`; the database stores it under the key `key` it assigns. */
    method CreateBook(book: Book, write: WriteAnswer, key: Id) returns (out: Outcome<ApiResponse<string>>)
      requires Valid()
      requires key !in rows
      modifies this
      ensures Valid()
      ensures log == old(log) + [Create(book)]
      ensures out == Written(write, AddedMsg)
      ensures write.Committed? ==> rows == old(rows)[key := book.(id := key)] && order == old(order) + [key]
      ensures !write.Committed? ==> rows == old(rows) && order == old(order)
    {
      log := log + [Create(book)];
      match write
      case Committed =>
        rows, order := rows[key := book.(id := key)], order + [key];
        out := Returned(ApiResponse(true, AddedMsg, None, None));
      case WriteFailed(m) =>
        out := Returned(ApiResponse(false, m, None, Some(m)));
      case WriteThrows(m) =>
        out := Threw(m);
    }

    /** Replaces the stored row that has `book`'s Id by `book`. */
    method UpdateBook(book: Book, write: WriteAnswer) returns (out: Outcome<ApiResponse<string>>)
      requires Valid()
      requires book.id in rows
      modifies this
      ensures Valid()
      ensures log == old(log) + [Update(book)]
      ensures out == Written(write, UpdatedMsg)
      ensures write.Committed? ==> rows == old(rows)[book.id := book]
      ensures !write.Committed? ==> rows == old(rows)
      ensures order == old(order)
    {
      log := log + [Update(book)];
      match write
      case Committed =>
        rows := rows[book.id := book];
        out := Returned(ApiResponse(true, UpdatedMsg, None, None));
      case WriteFailed(m) =>
        out := Returned(ApiResponse(false, m, None, Some(m)));
      case WriteThrows(m) =>
        out := Threw(m);
    }

    /** Removes the stored row that has `book`'s Id. */
    method DeleteBook(book: Book, write: WriteAnswer) returns (out: Outcome<ApiResponse<string>>)
      requires Valid()
      requires book.id in rows
      modifies this
      ensures Valid()
      ensures log == old(log) + [Delete(book)]
      ensures out == Written(write, DeletedMsg)
      ensures write.Committed? ==> rows == old(rows) - {book.id} && order == Without(old(order), book.id)
      ensures !write.Committed? ==> rows == old(rows) && order == old(order)
    {
      log := log + [Delete(book)];
      match write
      case Committed =>
        rows, order := rows - {book.id}, Without(order, book.id);
        out := Returned(ApiResponse(true, DeletedMsg, None, None));
      case WriteFailed(m) =>
        out := Returned(ApiResponse(false, m, None, Some(m)));
      case WriteThrows(m) =>
        out := Threw(m);
    }
  }
}
