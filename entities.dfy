/**
 * The persisted documents of the library: users, books and loan (borrow)
 * records. Ids are the document store's object ids, modelled as naturals.
 */
module Entities {
  import opened Outcomes
  import opened Time

  type ObjectId = nat

  /** The three states of a loan record (stored as a string in the database). */
  datatype Status = Borrowed | Returned | Overdue

  /** Loan period, in days, for a new loan and for each renewal. */
  const LOAN_DAYS: int := 30

  /** A borrower. `role` stays a free string: the code compares it with "READER" and "ADMIN". */
  datatype User = User(
    id: ObjectId,
    username: string,
    password: string,
    name: string,
    email: string,
    role: string,
    maxBorrow: int)

  /** A catalogue entry with its copy counts. */
  datatype Book = Book(
    id: ObjectId,
    title: string,
    author: string,
    isbn: string,
    totalCopies: int,
    availableCopies: int)

  /** A loan record as stored: every field that `borrowBook` sets is present. */
  datatype Loan = Loan(
    id: ObjectId,
    userId: ObjectId,
    username: string,
    bookId: ObjectId,
    bookTitle: string,
    borrowDate: Instant,
    dueDate: Instant,
    returnDate: Option<Instant>,
    status: Status,
    createTime: Instant)
}
