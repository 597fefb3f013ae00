# Library system: loan workflow, stock, users and access, in Dafny

This project models the core of a small library-management web application
(Spring Boot over MongoDB) and proves properties of the model.

- **Loan workflow** (`BorrowService`). This is a state machine over three tables: users, books and loan records.
  - A borrow runs five guards in order. It then lowers the book's shelf count and appends a `BORROWED` record due thirty days later.
  - A return or a renewal is accepted only from `BORROWED`.
  - The overdue scan flips every past-due `BORROWED` record to `OVERDUE`.
  - Global and per-user statistics count records by status. The per-user statistics also average the borrow days with truncating integer division.
  - `LoanWorkflow` states each operation as a pure transition over `Db(users, books, records)`. `LoanProperties` proves the guard order, the effects, the table invariants each transition keeps and conservation of copies. The `BorrowService` class holds the three tables as fields, and each of its methods is proved to perform exactly the matching transition and keep the invariants. The overdue scan is an index loop over the record table.
- **Loan record entity** (`BorrowRecord`). A mutable object whose fields start absent. The constructor stamps the creation time, and each setter changes only its own field.
- **Book service**. It has two stock adjusters: a decrease that is refused when the shelf is short, and an increase capped at the total. It also has a paged search: a blank keyword pages over the catalogue, and any other keyword pages over the store's keyword search. The slicing is `getPageFromList`, modelled with `PageRequest.of` in `Paging`.
- **User service**. Registration checks the username first, then the e-mail, and on success adds a reader with the hashed password and a limit of 5. Login distinguishes an unknown user, a wrong password and success. There is also deletion, lookup by id, and the clamped paged listing.
- **Access interceptor**. The allow/redirect decision of `preHandle`, as a function of the path, whether the session holds a user, and the session role.
- **Administration pages**. The role-counting loops on the user-management and user-search pages, and the overdue-day bucketing loop on the overdue page. That page first runs the borrow service's overdue scan.

The model uses these conventions:
- Time is whole seconds (`Time.Instant`).
- `Duration.toDays` is truncating division by 86400 (`Time.DaysBetween`).
- Store ids are natural numbers.
- A loan record's id is its position in the record table. Records are never deleted.
- A repository's derived query is a filter over its table in store order (`LoanQueries.Find`).
- Null values are `Option`.
- An operation that throws becomes a `Failure` with one error kind per thrown message.
- The wall clock, password hashing and the store's pattern match are parameters.

## Model

| member | source | states |
|---|---|---|
| LoanProperties.BorrowGuardOrder | src/main/java/com/library/librarysystem/service/BorrowService.java:36-60 | user missing, book missing, no copy on the shelf, `BORROWED` count at the limit, same book already `BORROWED`: the first that holds decides the error; when none holds the borrow succeeds; a refused borrow changes no table |
| LoanProperties.BorrowEffects | src/main/java/com/library/librarysystem/service/BorrowService.java:62-76 | a successful borrow lowers that book's shelf count by exactly one, appends one `BORROWED` record with the user/book ids, username and title snapshots, `dueDate = borrowDate + 30 days`, no return date, and leaves users and other books unchanged |
| LoanProperties.InactiveRecordsDoNotBlock | src/main/java/com/library/librarysystem/service/BorrowService.java:48-60 | records that are `RETURNED` or `OVERDUE` neither count toward the limit nor block a borrow of the same book |
| LoanProperties.NoStockNoBorrow | src/main/java/com/library/librarysystem/service/BorrowService.java:43-46 | a book with no copy on the shelf is never lent |
| LoanProperties.BorrowKeepsLimit | src/main/java/com/library/librarysystem/service/BorrowService.java:48-53 | after any borrow the user's `BORROWED` count is within the user's limit if it was before |
| LoanProperties.SecondBorrowOfSameBookFails | src/main/java/com/library/librarysystem/service/BorrowService.java:55-60 | borrowing the same book again right after a successful borrow is refused (out of stock, at the limit, or already borrowed) |
| LoanProperties.ReturnRefusals | src/main/java/com/library/librarysystem/service/BorrowService.java:83-89 | a missing record, or one whose status is not `BORROWED` (including `OVERDUE`), is refused and nothing changes |
| LoanProperties.ReturnEffects | src/main/java/com/library/librarysystem/service/BorrowService.java:91-102 | a return sets `RETURNED` and the return date, raises the book's shelf count by exactly one when the book exists, skips a missing book, and changes no other record |
| LoanProperties.ReturnIsNotCapped | src/main/java/com/library/librarysystem/service/BorrowService.java:95-100 | a return can raise the shelf count above the total number of copies |
| LoanProperties.ReturnTwiceFails | src/main/java/com/library/librarysystem/service/BorrowService.java:84-89 | a second return of the same record is refused |
| LoanProperties.OverdueIsStuck | src/main/java/com/library/librarysystem/service/BorrowService.java:83-121 | an `OVERDUE` record can be neither returned nor renewed |
| LoanProperties.BorrowThenReturnRestoresStock | src/main/java/com/library/librarysystem/service/BorrowService.java:34-103 | returning the record a borrow just created restores the book's shelf count |
| LoanProperties.RenewEffects | src/main/java/com/library/librarysystem/service/BorrowService.java:109-121 | renewal is accepted only from `BORROWED`, moves the due date exactly 30 days later, and changes nothing else |
| LoanProperties.RenewTwice | src/main/java/com/library/librarysystem/service/BorrowService.java:117-120 | two renewals move the due date 60 days |
| LoanProperties.OverdueScanExact | src/main/java/com/library/librarysystem/service/BorrowService.java:183-202 | the scan returns exactly the `BORROWED` records due before now, each set to `OVERDUE`, and flips those records in the table and no others |
| LoanProperties.OverdueScanTwice | src/main/java/com/library/librarysystem/service/BorrowService.java:186-197 | after a scan no `BORROWED` record is past due, so an immediate second scan returns nothing and changes nothing |
| LoanProperties.ScanStep | src/main/java/com/library/librarysystem/service/BorrowService.java:188-196 | scanning one more record appends it, flipped, to the result exactly when it is `BORROWED` and past due |
| LoanProperties.BorrowPreservesValid | src/main/java/com/library/librarysystem/service/BorrowService.java:34-77 | a borrow keeps the table invariants: ids are positions, return date iff `RETURNED`, due dates a whole number of loan periods after the borrow date, shelf counts non-negative, every user within the limit, no user holding two `BORROWED` records of one book |
| LoanProperties.ReturnPreservesValid | src/main/java/com/library/librarysystem/service/BorrowService.java:83-103 | a return keeps the table invariants |
| LoanProperties.RenewPreservesValid | src/main/java/com/library/librarysystem/service/BorrowService.java:109-121 | a renewal keeps the table invariants |
| LoanProperties.OverdueScanPreservesValid | src/main/java/com/library/librarysystem/service/BorrowService.java:183-202 | the overdue scan keeps the table invariants |
| LoanProperties.BorrowConservesCopies | src/main/java/com/library/librarysystem/service/BorrowService.java:62-76 | shelf copies plus copies out on unreturned loans, per book, is unchanged by a borrow |
| LoanProperties.ReturnConservesCopies | src/main/java/com/library/librarysystem/service/BorrowService.java:91-102 | the same holding count is unchanged by a return of a book that still exists |
| LoanProperties.RenewConservesCopies | src/main/java/com/library/librarysystem/service/BorrowService.java:109-121 | the holding count is unchanged by a renewal |
| LoanProperties.OverdueScanConservesCopies | src/main/java/com/library/librarysystem/service/BorrowService.java:183-202 | the holding count is unchanged by the overdue scan |
| LoanProperties.StatisticsCounts | src/main/java/com/library/librarysystem/service/BorrowService.java:147-168 | total, `BORROWED` count taken before the scan, number of records the scan flips, `RETURNED` count; overdue at most current, current plus returned at most total |
| LoanProperties.UserStatisticsPartition | src/main/java/com/library/librarysystem/service/BorrowService.java:219-237 | the user's current, overdue and returned counts add up to the user's total |
| LoanProperties.UserCurrentIsLimitCount | src/main/java/com/library/librarysystem/service/BorrowService.java:219-224 | the user's current count is the count the borrow limit is checked against; the total is the number of the user's records |
| LoanProperties.FirstNotAfterLast | src/main/java/com/library/librarysystem/service/BorrowService.java:275-300 | first and last borrow dates are the sentinel exactly when there are no records, and otherwise first is not after last |
| LoanProperties.TotalBorrowDaysBounds | src/main/java/com/library/librarysystem/service/BorrowService.java:240-243 | when each returned loan lasted 0 to m days, the summed days lie between 0 and m times the returned count |
| LoanProperties.AvgBorrowDaysBounds | src/main/java/com/library/librarysystem/service/BorrowService.java:245 | the average is 30 when nothing was returned, and otherwise lies between 0 and the longest loan's days |
| LoanWorkflow.BorrowCheck | src/main/java/com/library/librarysystem/service/BorrowService.java:36-60 | the first failing guard of a borrow, or none; its order and effects are stated by `LoanProperties.BorrowGuardOrder` |
| LoanWorkflow.Borrow | src/main/java/com/library/librarysystem/service/BorrowService.java:34-77 | the borrow transition; stated by `LoanProperties.BorrowEffects`, `BorrowPreservesValid` and `BorrowConservesCopies` |
| LoanWorkflow.Return | src/main/java/com/library/librarysystem/service/BorrowService.java:83-103 | the return transition; stated by `LoanProperties.ReturnRefusals`, `ReturnEffects` and `ReturnPreservesValid` |
| LoanWorkflow.Renew | src/main/java/com/library/librarysystem/service/BorrowService.java:109-121 | the renewal transition; stated by `LoanProperties.RenewEffects`, `RenewTwice` and `RenewPreservesValid` |
| LoanWorkflow.OverdueScan | src/main/java/com/library/librarysystem/service/BorrowService.java:183-202 | the overdue scan; stated by `LoanProperties.OverdueScanExact`, `OverdueScanTwice` and `OverdueScanPreservesValid` |
| LoanWorkflow.Statistics | src/main/java/com/library/librarysystem/service/BorrowService.java:147-168 | the global statistics; stated by `LoanProperties.StatisticsCounts` |
| LoanWorkflow.UserStatistics | src/main/java/com/library/librarysystem/service/BorrowService.java:214-258 | the per-user statistics; stated by `LoanProperties.UserStatisticsPartition`, `UserCurrentIsLimitCount`, `FirstNotAfterLast` and the two day bounds |
| LoanWorkflow.LastBorrowDate | src/main/java/com/library/librarysystem/service/BorrowService.java:275-285 | the latest borrow date of the records, the sentinel exactly for no records |
| LoanWorkflow.FirstBorrowDate | src/main/java/com/library/librarysystem/service/BorrowService.java:290-300 | the earliest borrow date of the records, the sentinel exactly for no records |
| LoanWorkflow.MarkOverdue | src/main/java/com/library/librarysystem/service/BorrowService.java:188-196 | every record that is `BORROWED` and due before now becomes `OVERDUE` in its place, every other record is kept as it was, and afterwards no record is past due |
| LoanQueries.Find | src/main/java/com/library/librarysystem/repository/BorrowRecordRepository.java:10-19 | a derived query returns exactly the records that match it, no more than the table holds |
| LoanQueries.FindFind | src/main/java/com/library/librarysystem/service/BorrowService.java:186-189 | filtering the result of one query by another is the query for both |
| LoanQueries.StatusCountsPartition | src/main/java/com/library/librarysystem/service/BorrowService.java:222-237 | the three status counts of a record list add up to its length |
| Time.DaysBetween | src/main/java/com/library/librarysystem/service/BorrowService.java:242 | whole days between two instants, truncated toward zero in both directions |
| BorrowService.BorrowService.BorrowBook | src/main/java/com/library/librarysystem/service/BorrowService.java:34-77 | the new tables and the result are exactly the borrow transition's, and the invariants hold |
| BorrowService.BorrowService.ReturnBook | src/main/java/com/library/librarysystem/service/BorrowService.java:83-103 | the new tables and the result are exactly the return transition's, and the invariants hold |
| BorrowService.BorrowService.RenewBook | src/main/java/com/library/librarysystem/service/BorrowService.java:109-121 | the new tables and the result are exactly the renewal transition's, and the invariants hold |
| BorrowService.BorrowService.GetOverdueRecords | src/main/java/com/library/librarysystem/service/BorrowService.java:183-202 | the loop leaves the tables and the returned list exactly as the overdue scan does, and the invariants hold |
| BorrowService.ScanForOverdue | src/main/java/com/library/librarysystem/service/BorrowService.java:185-197 | the walk sets each `BORROWED` record due before now to `OVERDUE` in place and leaves the rest, and collects exactly those records, in store order, already `OVERDUE` |
| BorrowService.BorrowService.GetBorrowStatistics | src/main/java/com/library/librarysystem/service/BorrowService.java:147-168 | the tables and figures are those of the statistics transition, which runs the overdue scan between the counts |
| BorrowService.BorrowService.GetUserBorrowStatistics | src/main/java/com/library/librarysystem/service/BorrowService.java:214-258 | the user's three status counts add up to the total, the current count is the limit count, the total is the user's records, and first/last dates are ordered and absent only for no records |
| BorrowService.NewBorrowRecord | src/main/java/com/library/librarysystem/service/BorrowService.java:62-70 | a fresh record with no id yet, the user and book ids, the username and title snapshots, borrowed at now, due 30 days later, `BORROWED`, with no return date and its creation time set |
| BorrowRecordEntity.BorrowRecord.constructor | src/main/java/com/library/librarysystem/entity/BorrowRecord.java:24-26 | a new record has its creation time and every other field absent |
| BorrowRecordEntity.BorrowRecord.SetId | src/main/java/com/library/librarysystem/entity/BorrowRecord.java:33-35 | sets the id and no other field |
| BorrowRecordEntity.BorrowRecord.SetUserId | src/main/java/com/library/librarysystem/entity/BorrowRecord.java:41-43 | sets the user id and no other field |
| BorrowRecordEntity.BorrowRecord.SetUsername | src/main/java/com/library/librarysystem/entity/BorrowRecord.java:49-51 | sets the username and no other field |
| BorrowRecordEntity.BorrowRecord.SetBookId | src/main/java/com/library/librarysystem/entity/BorrowRecord.java:57-59 | sets the book id and no other field |
| BorrowRecordEntity.BorrowRecord.SetBookTitle | src/main/java/com/library/librarysystem/entity/BorrowRecord.java:65-67 | sets the book title and no other field |
| BorrowRecordEntity.BorrowRecord.SetBorrowDate | src/main/java/com/library/librarysystem/entity/BorrowRecord.java:73-75 | sets the borrow date and no other field |
| BorrowRecordEntity.BorrowRecord.SetReturnDate | src/main/java/com/library/librarysystem/entity/BorrowRecord.java:81-83 | sets the return date and no other field |
| BorrowRecordEntity.BorrowRecord.SetDueDate | src/main/java/com/library/librarysystem/entity/BorrowRecord.java:89-91 | sets the due date and no other field |
| BorrowRecordEntity.BorrowRecord.SetStatus | src/main/java/com/library/librarysystem/entity/BorrowRecord.java:97-99 | sets the status and no other field |
| BorrowRecordEntity.BorrowRecord.SetCreateTime | src/main/java/com/library/librarysystem/entity/BorrowRecord.java:105-107 | sets the creation time and no other field |
| BookService.DecreaseStockOutcome | src/main/java/com/library/librarysystem/service/BookService.java:102-110 | succeeds iff the book exists with at least `quantity` on the shelf, then subtracts exactly `quantity` from that book's shelf count only; otherwise nothing changes |
| BookService.DecreaseNeverNegative | src/main/java/com/library/librarysystem/service/BookService.java:104-105 | a decrease by a non-negative quantity keeps every shelf count non-negative |
| BookService.IncreaseStockOutcome | src/main/java/com/library/librarysystem/service/BookService.java:115-127 | succeeds iff the book exists, then sets its shelf count to the smaller of old plus `quantity` and the total, touching nothing else; otherwise nothing changes |
| BookService.IncreaseRespectsTotal | src/main/java/com/library/librarysystem/service/BookService.java:119-122 | after a successful increase the shelf count is at most the total |
| BookService.DecreaseThenIncrease | src/main/java/com/library/librarysystem/service/BookService.java:102-127 | a successful decrease followed by an increase of the same quantity restores the table when the shelf was within the total |
| BookService.BookService.GetBookById | src/main/java/com/library/librarysystem/service/BookService.java:36-38 | the stored book for a known id, absent for an unknown one |
| BookService.BookService.DecreaseStockOf | src/main/java/com/library/librarysystem/service/BookService.java:102-110 | the new table and result are exactly those of the decrease transition |
| BookService.BookService.IncreaseStockOf | src/main/java/com/library/librarysystem/service/BookService.java:115-127 | the new table and result are exactly those of the capped increase transition |
| BookService.DecreaseStock | src/main/java/com/library/librarysystem/service/BookService.java:102-110 | the decrease over the book table; stated by `BookService.DecreaseStockOutcome` and `DecreaseNeverNegative` |
| BookService.IncreaseStock | src/main/java/com/library/librarysystem/service/BookService.java:115-127 | the capped increase over the book table; stated by `BookService.IncreaseStockOutcome` and `IncreaseRespectsTotal` |
| BookService.IsBlank | src/main/java/com/library/librarysystem/service/BookService.java:66 | a keyword is blank when it is null or holds only characters up to the space, as `trim().isEmpty()` tests |
| BookService.SearchBooks | src/main/java/com/library/librarysystem/service/BookService.java:63-75 | the paged search; stated by `BookService.SearchBooksShape`, `BlankSearchIsCatalogue` and `KeywordSearchMatches` |
| BookService.SearchByKeyword | src/main/java/com/library/librarysystem/repository/BookRepository.java:24-25 | the keyword search returns exactly the catalogue books the pattern matches |
| BookService.SearchBooksShape | src/main/java/com/library/librarysystem/service/BookService.java:64-76 | the search is refused exactly for a negative page or a size below one, and a result page holds at most `size` books |
| BookService.BlankSearchIsCatalogue | src/main/java/com/library/librarysystem/service/BookService.java:67-70 | a null or blank keyword gives the page of the whole catalogue |
| BookService.KeywordSearchMatches | src/main/java/com/library/librarysystem/service/BookService.java:71-75 | any other keyword with a valid request gives exactly the requested page of the keyword search results, so only catalogue books that match it |
| BookService.PageContentFromList | src/main/java/com/library/librarysystem/service/BookService.java:140 | every element of a page comes from the paged list |
| Paging.PageRequestOf | src/main/java/com/library/librarysystem/service/BookService.java:65 | a page request exists exactly for a non-negative page and a size of at least one |
| Paging.GetPageFromList | src/main/java/com/library/librarysystem/service/BookService.java:132-141 | the page cut from a list; stated by `Paging.PageShape`, `PageAtEnd`, `ItemOnItsPage` and `PagesBeforeIsPrefix` |
| Paging.RepositoryPage | src/main/java/com/library/librarysystem/service/UserService.java:54-55 | the page a repository returns; stated by `Paging.RepositoryPageShape` |
| Paging.PageShape | src/main/java/com/library/librarysystem/service/BookService.java:132-141 | a page holds at most `size` items; from an offset within the list it is the slice from the offset, with the list's length as total; past the end it is empty with total 0 |
| Paging.PageAtEnd | src/main/java/com/library/librarysystem/service/BookService.java:134-140 | the page starting exactly at the end is empty but reports the list's length |
| Paging.ItemOnItsPage | src/main/java/com/library/librarysystem/service/BookService.java:132-141 | item `k` is on page `k / size` at position `k % size` |
| Paging.PagesBeforeIsPrefix | src/main/java/com/library/librarysystem/service/BookService.java:132-141 | pages `0 .. m-1` read in order are the list's first `m * size` items |
| Paging.AllPagesCoverList | src/main/java/com/library/librarysystem/service/BookService.java:132-141 | reading enough pages in order yields the whole list |
| Paging.RepositoryPageShape | src/main/java/com/library/librarysystem/service/UserService.java:54-55 | a repository page holds at most `size` items and reports the table size |
| UserService.FindByUsername | src/main/java/com/library/librarysystem/service/UserService.java:179 | absent exactly when no user has the name; otherwise a stored user with that name |
| UserService.FindById | src/main/java/com/library/librarysystem/service/UserService.java:102 | absent exactly when no user has the id; otherwise a stored user with that id |
| UserService.WithoutMembers | src/main/java/com/library/librarysystem/service/UserService.java:229 | the table keeps exactly the users without that id |
| UserService.Register | src/main/java/com/library/librarysystem/service/UserService.java:124-168 | registration over the user table; stated by `UserService.RegisterOutcome` and `RegisterPreservesValid` |
| UserService.Login | src/main/java/com/library/librarysystem/service/UserService.java:173-209 | the login decision; stated by `UserService.LoginOutcome` and `RegisterThenLogin` |
| UserService.DeleteUser | src/main/java/com/library/librarysystem/service/UserService.java:226-238 | deletion by id; stated by `UserService.DeleteUserOutcome` and `DeleteUserPreservesValid` |
| UserService.GetAllUsersPage | src/main/java/com/library/librarysystem/service/UserService.java:51-67 | the clamped listing; stated by `UserService.GetAllUsersPageClamps` |
| UserService.RegisterOutcome | src/main/java/com/library/librarysystem/service/UserService.java:124-168 | a taken username fails first, then a taken e-mail; a failure adds nobody; a success appends exactly one `READER` with the hashed password and a limit of 5 |
| UserService.RegisterPreservesValid | src/main/java/com/library/librarysystem/service/UserService.java:130-153 | registration keeps ids below the counter and ids, usernames and e-mails distinct |
| UserService.RegisterThenLogin | src/main/java/com/library/librarysystem/service/UserService.java:124-209 | logging in with the password just registered returns the registered user, given that a password verifies against its own hash |
| UserService.LoginOutcome | src/main/java/com/library/librarysystem/service/UserService.java:173-209 | unknown exactly when no user has the name, wrong password exactly when that user's hash does not verify, and otherwise that user |
| UserService.DeleteUserOutcome | src/main/java/com/library/librarysystem/service/UserService.java:226-238 | true exactly when the id existed, and then the user is gone, one user fewer; false leaves the table unchanged; every other user stays |
| UserService.DeleteUserPreservesValid | src/main/java/com/library/librarysystem/service/UserService.java:226-238 | deletion keeps the table invariants |
| UserService.WithoutOne | src/main/java/com/library/librarysystem/service/UserService.java:228-229 | deleting an id that one user carries removes exactly that user and keeps the order of the rest |
| UserService.GetAllUsersPageClamps | src/main/java/com/library/librarysystem/service/UserService.java:51-67 | page and size are clamped so the request never fails; a page holds at most the clamped size and reports the table size |
| UserService.UserService.RegisterUser | src/main/java/com/library/librarysystem/service/UserService.java:124-168 | the new table and result are exactly the registration transition with `encrypt` applied to the password, and the invariants hold |
| UserService.UserService.LoginUser | src/main/java/com/library/librarysystem/service/UserService.java:173-209 | the result is the login decision with the service's `verify` |
| UserService.UserService.DeleteUserById | src/main/java/com/library/librarysystem/service/UserService.java:226-238 | the new table and result are exactly the deletion transition's, and the invariants hold |
| UserService.UserService.GetUserById | src/main/java/com/library/librarysystem/service/UserService.java:100-107 | absent for an unknown id; otherwise a stored user with that id |
| AuthInterceptor.DecisionKinds | src/main/java/com/library/librarysystem/interceptor/AuthInterceptor.java:20-53 | the decision is allow, redirect to `/login` exactly for a non-public path without a session user, or redirect to `/` exactly for a logged-in non-`ADMIN` on an administration path |
| AuthInterceptor.PublicPrefixesNeedNoSession | src/main/java/com/library/librarysystem/interceptor/AuthInterceptor.java:23-32 | every path under the seven public prefixes, and `/` itself, is allowed without a session |
| AuthInterceptor.ApiBorrowIsPublic | src/main/java/com/library/librarysystem/interceptor/AuthInterceptor.java:23-31 | `/api/borrow` is allowed without a login, because the public check comes first |
| AuthInterceptor.NoSessionGoesToLogin | src/main/java/com/library/librarysystem/interceptor/AuthInterceptor.java:34-41 | a non-public path without a session user redirects to `/login` |
| AuthInterceptor.ReaderKeptOutOfAdmin | src/main/java/com/library/librarysystem/interceptor/AuthInterceptor.java:44-50 | a logged-in reader is redirected to `/` from every path under `/admin` |
| AuthInterceptor.ReaderKeptOutOfBookAdd | src/main/java/com/library/librarysystem/interceptor/AuthInterceptor.java:44-50 | a logged-in reader is redirected to `/` from every path under `/books/add` |
| AuthInterceptor.NoRoleKeptOutOfBookEdit | src/main/java/com/library/librarysystem/interceptor/AuthInterceptor.java:44-50 | a logged-in session with no role attribute is redirected to `/` from every path under `/books/edit` |
| AuthInterceptor.EditByIdIsNotGuarded | src/main/java/com/library/librarysystem/interceptor/AuthInterceptor.java:44-52 | `/books/1/edit` is allowed for a logged-in reader, since it does not start with `/books/edit` |
| AuthInterceptor.LoginNeverRestricts | src/main/java/com/library/librarysystem/interceptor/AuthInterceptor.java:23-52 | whatever is allowed without a session is allowed with one |
| AuthInterceptor.AdminAllowedEverywhere | src/main/java/com/library/librarysystem/interceptor/AuthInterceptor.java:43-52 | a logged-in administrator is allowed on every path, so wherever anyone else is |
| AuthInterceptor.PreHandle | src/main/java/com/library/librarysystem/interceptor/AuthInterceptor.java:20-53 | the access decision; stated by `AuthInterceptor.DecisionKinds` and the path lemmas above |
| AdminController.CountRoles | src/main/java/com/library/librarysystem/controller/AdminController.java:89-106 | the loop counts the users whose role is `READER` and those whose role is `ADMIN`, and the active count stays 0 |
| AdminController.RolesPartitionUsers | src/main/java/com/library/librarysystem/controller/AdminController.java:94-100 | readers, administrators and users with any other role add up to all users, so readers plus administrators never exceed them |
| AdminController.OtherRolesWitness | src/main/java/com/library/librarysystem/controller/AdminController.java:94-100 | some user is in neither count exactly when some user has a role other than `READER` and `ADMIN` |
| AdminController.CountRole | src/main/java/com/library/librarysystem/controller/AdminController.java:94-100 | users with exactly one role; the loop `CountRoles` is proved to compute it, and `RolesPartitionUsers` bounds it |
| AdminController.UserManagement | src/main/java/com/library/librarysystem/controller/AdminController.java:74-132 | a non-`ADMIN` session is sent home; an `ADMIN` session gets the users page with every user, the total, the `READER` and `ADMIN` counts of the user table, and an active count of 0 |
| AdminController.SearchUsers | src/main/java/com/library/librarysystem/controller/AdminController.java:385-440 | a non-`ADMIN` session is sent home; a blank keyword and blank role filter give all users with their counts; any filter gives the error page with an empty list |
| AdminController.OverdueBuckets | src/main/java/com/library/librarysystem/controller/AdminController.java:308-318 | the loop builds the id-to-days map and counts records more than 7 and more than 30 days overdue |
| AdminController.CountOverAntitone | src/main/java/com/library/librarysystem/controller/AdminController.java:316-317 | a higher threshold counts no more records, so the over-30 count is at most the over-7 count, which is at most the number of records |
| AdminController.DaysMapEntries | src/main/java/com/library/librarysystem/controller/AdminController.java:312-314 | the map's keys are exactly the records' ids, and the last record's entry is its days overdue |
| AdminController.DaysMapDistinct | src/main/java/com/library/librarysystem/controller/AdminController.java:312-314 | with distinct ids the map has one entry per record, each holding that record's days overdue |
| AdminController.DaysMapNonNegative | src/main/java/com/library/librarysystem/controller/AdminController.java:313 | for records already past due every entry is at least 0 days |
| AdminController.CountOver | src/main/java/com/library/librarysystem/controller/AdminController.java:316-317 | records more than a number of whole days past due; computed by `OverdueBuckets`, bounded by `CountOverAntitone` |
| AdminController.DaysMap | src/main/java/com/library/librarysystem/controller/AdminController.java:312-314 | the id-to-days map, a later record overwriting an earlier one with the same id; computed by `OverdueBuckets`, described by `DaysMapEntries`, `DaysMapDistinct` and `DaysMapNonNegative` |
| AdminController.OverdueManagement | src/main/java/com/library/librarysystem/controller/AdminController.java:292-324 | a non-`ADMIN` session is sent home and nothing changes; otherwise the overdue scan runs at the scan time, and the page holds the scanned records, their count, the id-to-days map and the over-7 and over-30 counts taken at the page's later clock reading, with over-30 at most over-7 at most the count, and non-negative days when the page reads the clock no earlier than the scan |

## Left out

- Persistence. The MongoDB repositories are in-memory tables. Record ids are positions in the record table, and users and books are keyed by id.
- Store order. `findAll` and derived queries return records in store order. The book catalogue handed to `searchBooks` is a parameter (`all`) standing for `findAll`'s result.
- Shared tables. In the system the services share one database; each service here owns its own copy of the tables it uses.
- The store's pattern query. The case-insensitive regular-expression match of `searchByKeyword` is the predicate parameter `matches`.
- Password hashing. `PasswordUtil` (SHA-256, random salt, Base64) is two functions the user service is given, `encrypt` and `verify`.
- The clock. The wall clock is a parameter. `borrowBook` reads it three times: once for the record's creation time, once for the borrow date and once for the due date. The model reads it once (`now`), so the creation time is the borrow date and the due date is exactly 30 days after it. The overdue page reads it twice, once inside the scan and once for the day counts; the model keeps both readings as the parameters `scanTime` and `viewTime` and does not assume their order, so non-negative day counts are stated only when the page's reading is no earlier than the scan's.
- Concurrency and transactions. `@Transactional` and the race between the stock check and the decrement are out of scope.
- Exceptions. The catch-all handlers are out of scope: the all-zero fallbacks of the two statistics operations, and the empty-list fallback of the overdue scan. The model's operations do not throw, so those branches are unreachable in it.
- `favoriteCategory` is the constant placeholder text and is not modelled.
- Date formatting to `yyyy-MM-dd` is not modelled; first and last borrow dates are instants.
- Fixed-width integers. `int`/`long` wrap-around is not modelled; counts and copy numbers are unbounded integers.
- The `Book` and `User` entity classes are not part of this model. Their fields are taken from how the core uses them.
- Role and status. The status string is the enumeration `Status`, since only the three values are ever written. The role stays a string, because the role counts must treat other roles.
- Other controllers, the data seeding and migration runners, and the remaining read-only service methods are not modelled. These are `getAllBooks`, `searchByTitle`, `getUserBorrowRecords`, the plain `getAllUsers()` and similar.
- The role check at the head of each administration page is modelled; their view names and model attributes other than the counts are not.
- `UserService.searchUsers` returns no list. The search page's loop over it therefore fails, and the page falls into its error branch. `AdminController.SearchUsers` models that branch as written.
- AdminController.SearchUsers: the error branch sets no reader or administrator totals; the model's error page carries all-zero counts in their place, since a page value needs some counts.
- The return cap. The cap on the shelf count after a return is stated for the system as a whole, but `returnBook` does not apply it. Only `increaseStock` caps, and `LoanProperties.ReturnIsNotCapped` shows the uncapped case.
- Examples. `BorrowService.BorrowReturnScenario` (a borrow, a return and a refused second return on a one-book library) and `BorrowRecordEntity.SettersAreIndependent` (setters on one record) are worked examples with no contract of their own.
- Getters. A getter is reading the field, and the setters' contracts state what each getter yields afterwards.
- The service-level round trip from borrow to return. It is stated on the pure transitions (`LoanProperties.BorrowThenReturnRestoresStock`), which the class methods are proved to follow exactly.
