/**
 * The entities the repository layer works on: a Book record and the
 * ApiResponse envelope every operation returns, with the fixed messages
 * the layer writes into it.
 */
module Models {
  import opened Wrappers

  /** A book's identifier (a GUID in the database); only equality is used. */
  type Id(==, !new)

  /** A Book row; Name and AuthorName may be null. */
  datatype Book = Book(id: Id, name: Option<string>, authorName: Option<string>)

  /**
   * The response envelope: success flag, message, optional payload and the
   * exception raised, reduced to its message.
   */
  datatype ApiResponse<T> = ApiResponse(ok: bool, msg: string, payload: Option<T>, fault: Option<string>)

  /** `string.IsNullOrEmpty`. */
  predicate IsNullOrEmpty(s: Option<string>)
  {
    s.None? || s.value == ""
  }

  /** Both required fields of a book are present and non-empty. */
  predicate HasRequiredFields(b: Book)
  {
    !IsNullOrEmpty(b.name) && !IsNullOrEmpty(b.authorName)
  }

  /** An input that passes every validation rule: present, with a name and an author name. */
  predicate IsComplete(book: Option<Book>)
  {
    book.Some? && HasRequiredFields(book.value)
  }

  /** `b` carries exactly this (Name, AuthorName) pair. */
  predicate SamePair(b: Book, name: Option<string>, authorName: Option<string>)
  {
    b.name == name && b.authorName == authorName
  }

  const SuccessMsg := "Success"
  const NotFoundMsg := "Book data not found"
  const NullBookMsg := "Book data is null"
  const NullNameMsg := "Book name is null"
  const NullAuthorMsg := "Author name is null"
  const ExistsMsg := "Book already exist"
  const NotExistMsg := "Book not exist"
  const AddedMsg := "Successfully added Book"
  const UpdatedMsg := "Successfully updated Book"
  const DeletedMsg := "Successfully deleted Book"
  /** The message of .NET's NullReferenceException. */
  const NullReferenceMsg := "Object reference not set to an instance of an object."
}
