/**
 * The borrow-record entity as the service manipulates it before saving: a
 * mutable object whose fields start out null (here `None`) and are filled in
 * by setters. Reading a field is the getter.
 */
module BorrowRecordEntity {
  import opened Outcomes
  import opened Time
  import opened Entities

  /** The values of all fields of a `BorrowRecord` object at one moment. */
  datatype RecordFields = RecordFields(
    id: Option<ObjectId>,
    userId: Option<ObjectId>,
    username: Option<string>,
    bookId: Option<ObjectId>,
    bookTitle: Option<string>,
    borrowDate: Option<Instant>,
    returnDate: Option<Instant>,
    dueDate: Option<Instant>,
    status: Option<Status>,
    createTime: Option<Instant>)

  class BorrowRecord {
    var id: Option<ObjectId>
    var userId: Option<ObjectId>
    var username: Option<string>
    var bookId: Option<ObjectId>
    var bookTitle: Option<string>
    var borrowDate: Option<Instant>
    var returnDate: Option<Instant>
    var dueDate: Option<Instant>
    var status: Option<Status>
    var createTime: Option<Instant>

    function Fields(): RecordFields
      reads this
    {
      RecordFields(id, userId, username, bookId, bookTitle, borrowDate, returnDate, dueDate, status, createTime)
    }

    /** A new record carries its creation time and nothing else. */
    constructor (now: Instant)
      ensures Fields() == RecordFields(None, None, None, None, None, None, None, None, None, Some(now))
    {
      id, userId, username, bookId, bookTitle := None, None, None, None, None;
      borrowDate, returnDate, dueDate, status := None, None, None, None;
      createTime := Some(now);
    }

    method SetId(v: Option<ObjectId>)
      modifies this
      ensures Fields() == old(Fields()).(id := v)
    {
      id := v;
    }

    method SetUserId(v: Option<ObjectId>)
      modifies this
      ensures Fields() == old(Fields()).(userId := v)
    {
      userId := v;
    }

    method SetUsername(v: Option<string>)
      modifies this
      ensures Fields() == old(Fields()).(username := v)
    {
      username := v;
    }

    method SetBookId(v: Option<ObjectId>)
      modifies this
      ensures Fields() == old(Fields()).(bookId := v)
    {
      bookId := v;
    }

    method SetBookTitle(v: Option<string>)
      modifies this
      ensures Fields() == old(Fields()).(bookTitle := v)
    {
      bookTitle := v;
    }

    method SetBorrowDate(v: Option<Instant>)
      modifies this
      ensures Fields() == old(Fields()).(borrowDate := v)
    {
      borrowDate := v;
    }

    method SetReturnDate(v: Option<Instant>)
      modifies this
      ensures Fields() == old(Fields()).(returnDate := v)
    {
      returnDate := v;
    }

    method SetDueDate(v: Option<Instant>)
      modifies this
      ensures Fields() == old(Fields()).(dueDate := v)
    {
      dueDate := v;
    }

    method SetStatus(v: Option<Status>)
      modifies this
      ensures Fields() == old(Fields()).(status := v)
    {
      status := v;
    }

    method SetCreateTime(v: Option<Instant>)
      modifies this
      ensures Fields() == old(Fields()).(createTime := v)
    {
      createTime := v;
    }

    /** Every field that a stored loan needs has been set. */
    predicate Complete()
      reads this
    {
      userId.Some? && username.Some? && bookId.Some? && bookTitle.Some? &&
      borrowDate.Some? && dueDate.Some? && status.Some? && createTime.Some?
    }

    /** The document that saving this object stores, under the id the store assigns. */
    function Saved(storeId: ObjectId): Loan
      reads this
      requires Complete()
    {
      Loan(storeId, userId.value, username.value, bookId.value, bookTitle.value,
           borrowDate.value, dueDate.value, returnDate, status.value, createTime.value)
    }
  }

  /**
   * Setting one field never disturbs what a getter returns for another: after
   * a sequence of setters each getter yields the value last set for it.
   */
  method SettersAreIndependent(now: Instant, u: ObjectId, b: ObjectId)
  {
    var r := new BorrowRecord(now);
    r.SetUserId(Some(u));
    r.SetBookId(Some(b));
    r.SetStatus(Some(Borrowed));
    r.SetUserId(Some(u + 1));
    assert r.userId == Some(u + 1) && r.bookId == Some(b) && r.status == Some(Borrowed);
    assert r.createTime == Some(now) && r.returnDate == None;
  }
}
