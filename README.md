# Library management backend, modelled in Dafny

This project models the backend of a small in-memory library system
(`libraryManagementSystem.py`). The backend has three kinds of entity:

- A **book** has a name, an id, a fixed number of copies and a counter of
  copies lent out.
- A **user** has a name, an id and a list of borrowed books.
- The **backend manager** owns the ordered list of books and the ordered
  list of users. It looks entities up by name (first match wins). It lends
  and takes back books. A borrow or return changes nothing except the book
  found by name and the user found by name, and a failed one changes
  nothing at all. It also answers "who holds this book?" and "which books
  start with this prefix?".

The project has four modules:

- `LibrarySpec` (LibrarySpec.dfy) is the value model.
  - `BookRec`, `UserRec` and `Catalog` are the entities as values.
  - `FindUser` and `FindBook` give the position the name lookups find.
  - `AddBook`, `AddUser`, `BorrowBook` and `ReturnBook` give the outcome of
    each backend update and the catalog it leaves.
  - `BorrowersOf` gives the answer of `get_users_borrowed_book`.
  - `TakeCopy`, `GiveBackCopy` and `RemoveFirst` give the updates of a
    single book and a single user.
  - Lemmas state first-match lookup, copy bounds, the exact effect of
    `borrow_book` and `return_book`, and holder order.
- `Library` (Library.dfy) is the object model, shaped like the source.
  - `Book`, `User` and `BackendManager` are classes whose methods update
    their fields in place.
  - The scans (`is_borrowed`, the two lookups, `return_copy`,
    `get_users_borrowed_book`) are loops with invariants.
  - Each class is tied to the value model by `Rec()` / `Model()`.
  - For the book updates, `User.ReturnCopy`, and the backend's
    `AddBook`, `AddUser`, `BorrowBook`, `ReturnBook` and
    `GetUsersBorrowedBook`, the `ensures` equates the outcome and the new
    state with the matching `LibrarySpec` function applied to the old
    state.
  - The other methods are stated directly on the object lists:
    - `User.Borrow` appends the book.
    - `User.IsBorrowed` holds exactly when some entry has the book's id.
    - The two lookups are stated through `FirstIndexOf` over the names of
      the object lists. `LookupsAgree` shows that this is what `FindUser`
      and `FindBook` find on the model.
    - `GetBooksWithPrefix` is stated through the prefix filter
      `WithPrefix`. It lives in this module because its result is a list
      of `Book` objects.
- `LibraryInvariant` (LibraryInvariant.dfy) holds the properties that span
  operations.
  - `Consistent` is the bookkeeping invariant. It says that book ids are
    distinct, every held id names a book, and each book's counter equals
    the copies its holders hold.
  - `add_user`, `borrow_book` and `return_book` preserve it on every input.
    `add_book` preserves it when the new id is not already in use; the code
    does not check this, and `AddBookReusedIdBreaksConsistent` shows the
    invariant failing otherwise.
  - Under the invariant, the book-side step of `return_book` cannot fail.
    The source ignores that step's result.
  - It also holds the borrow-then-return round trip.
    - The books and every user's multiset of held ids always come back.
    - The whole catalog comes back exactly when the user's entries, from
      the first one with the book's id onward, all carry that id. That
      includes the case where the user did not hold the book before.
    - Otherwise the return drops the earliest held entry, so that entry in
      effect moves to the end of the list, which reorders it.
- `LibraryScenario` (LibraryScenario.dfy) replays the seed data the shell
  loads at start-up: six books and four users, then `mostafa` and `noha` each
  borrow `math3`, which has two copies. It shows that a third borrow of
  `math3` fails, that the holders come out as `["mostafa", "noha"]`, and
  that a return frees a copy.

The model follows the code where it allows more than a reader might expect:

- Nothing stops a user from holding two entries with the same book id:
  `borrow_book` never checks `is_borrowed`.
  - `BorrowReturnRoundTrip` always restores the multiset of the user's
    list, and the exact list when the user did not hold the id before.
  - `BorrowReturnExact` gives the exact condition. The list comes back
    unchanged exactly when every entry from the user's first one with that
    id onward carries the id. Otherwise the earliest entry for the id moves
    to the end.
  - `RoundTripReordersHeldCopy` gives a concrete case where the list is
    reordered.
- `get_users_borrowed_book` lists holders in roster order (the order of the
  users list), not in the order they borrowed.
- Neither `add_book` nor `add_user` rejects a duplicate id or name. Lookups
  by name return the first match.
- `return_book` ignores the result of the book's `return_copy`.
  - `ReturnNeverUnderflows` shows that under `Consistent` that result is
    always success.
  - Without `Consistent`, two books can share an id. Then the user's entry
    for one book can be returned through the other, and the copy counter
    that changes is not the one the entry came from.
  - `SharedIdReturnStrandsCopy` gives a concrete case. Books "A" and "B"
    share id "1", and the user took a copy of "A". Returning "B" succeeds,
    empties the user's list and changes no counter. The copy of "A" stays
    out with nobody holding it.

## Model

| member | source | states |
|---|---|---|
| `LibrarySpec.FirstIndexOf` | libraryManagementSystem.py:100-110 | the first-match scan: no result exactly when the key is absent; otherwise a position holding the key, with no earlier position holding it |
| `LibrarySpec.FirstIndexOfAt` | libraryManagementSystem.py:100-104 | the first match is unique: a position holding the key with no earlier occurrence is the one the scan returns |
| `LibrarySpec.FindUser` | libraryManagementSystem.py:100-104 | `get_user_by_name`: the first user, in roster order, with that name; none exactly when no user has it |
| `LibrarySpec.FindBook` | libraryManagementSystem.py:106-110 | `get_book_by_name`: the first book, in catalog order, with that name; none exactly when no book has it |
| `LibrarySpec.TakeCopy` | libraryManagementSystem.py:48-52 | `Book.borrow` succeeds exactly when copies remain, raises the counter by one only then, touches nothing else, keeps `0 <= total_borrows <= total_quantity`, and is undone by `GiveBackCopy` |
| `LibrarySpec.GiveBackCopy` | libraryManagementSystem.py:54-58 | `Book.return_copy` succeeds exactly when a copy is out, lowers the counter by one only then, touches nothing else, and keeps the counter bound |
| `LibrarySpec.RemoveFirst` | libraryManagementSystem.py:72-76 | `User.return_copy` as intended: the list without its first entry equal to the id, or unchanged when there is none |
| `LibrarySpec.RemoveFirstDropsOne` | libraryManagementSystem.py:72-76 | the intended deletion removes exactly one occurrence of the id, if there is one, and nothing else |
| `LibrarySpec.ReturnCopyAsWrittenFrom` | libraryManagementSystem.py:72-76 | the `enumerate` scan as written, from a position on: at the first matching entry it evaluates `book.id - 1` on the string id through Python's `-`, so it raises TypeError exactly when the rest of the list holds the id; it never raises IndexError; without a match the list is unchanged |
| `LibrarySpec.ReturnCopyAsWritten` | libraryManagementSystem.py:72-76 | `User.return_copy` as written: raises TypeError exactly when some entry matches, never IndexError, and otherwise leaves the list alone |
| `LibrarySpec.AsWrittenRaisesOnEveryReturn` | libraryManagementSystem.py:75 | whenever the user holds the id, the code as written raises, while the intended deletion removes one entry and shortens the list by one |
| `LibrarySpec.AsWrittenSeedReturn` | libraryManagementSystem.py:75 | concrete case: returning the seed book id "103" raises as written and empties the list as intended |
| `LibrarySpec.AddBook` | libraryManagementSystem.py:94-95 | `add_book` appends a book with no copies out, leaves earlier books and all users unchanged, and keeps every counter in bounds |
| `LibrarySpec.AddUser` | libraryManagementSystem.py:97-98 | `add_user` appends a user holding nothing and leaves earlier users and all books unchanged |
| `LibrarySpec.BorrowBook` | libraryManagementSystem.py:112-122 | `borrow_book` succeeds exactly when both names resolve and the book has a copy left; a failure changes nothing; counters stay in bounds; names are unchanged |
| `LibrarySpec.BorrowBookAt` | libraryManagementSystem.py:118-122 | once both names resolve, success changes exactly the resolved book (one more copy out) and the resolved user (the book's id appended), and failure changes nothing |
| `LibrarySpec.ReturnBook` | libraryManagementSystem.py:124-136 | `return_book` succeeds exactly when both names resolve and the user holds the book's id; a failure changes nothing; counters stay in bounds; names are unchanged |
| `LibrarySpec.ReturnBookAt` | libraryManagementSystem.py:131-136 | once both names resolve, success changes exactly the resolved book (one copy back) and the resolved user (first matching entry dropped) |
| `LibrarySpec.HoldersOf` | libraryManagementSystem.py:143 | the holders' names, one per holding user: never more names than users |
| `LibrarySpec.HoldersOfNames` | libraryManagementSystem.py:143 | a name is listed exactly when some user with that name holds the id |
| `LibrarySpec.HoldersOfAppend` | libraryManagementSystem.py:143 | collecting holders distributes over concatenation of the roster, so holders come out in roster order |
| `LibrarySpec.HoldersOfPrefix` | libraryManagementSystem.py:143 | scanning one more user appends that user's name exactly when they hold the id |
| `LibrarySpec.BorrowersOf` | libraryManagementSystem.py:138-143 | `get_users_borrowed_book`: empty for an unknown book name, otherwise exactly the names of the users holding the first such book's id |
| `Library.WithPrefix` | libraryManagementSystem.py:145-146 | the prefix filter never selects more books than the catalog holds |
| `Library.WithPrefixSelects` | libraryManagementSystem.py:145-146 | every selected book is in the catalog and starts with the prefix, and every catalog book that starts with it is selected |
| `Library.WithPrefixAppend` | libraryManagementSystem.py:145-146 | prefix selection distributes over concatenation, so it keeps catalog order |
| `Library.WithPrefixAll` | libraryManagementSystem.py:145-146 | the empty prefix selects the whole catalog, in order |
| `Library.Book.constructor` | libraryManagementSystem.py:42-46 | a new book has the given name, id and copies, and none lent |
| `Library.Book.Borrow` | libraryManagementSystem.py:48-52 | outcome and new counter are those of `TakeCopy` on the old book |
| `Library.Book.ReturnCopy` | libraryManagementSystem.py:54-58 | outcome and new counter are those of `GiveBackCopy` on the old book |
| `Library.User.constructor` | libraryManagementSystem.py:64-67 | a new user has the given name and id and holds nothing |
| `Library.User.Borrow` | libraryManagementSystem.py:69-70 | the book is appended at the end and earlier entries stay as they were |
| `Library.User.IsBorrowed` | libraryManagementSystem.py:78-82 | true exactly when some entry has the book's id |
| `Library.User.ReturnCopy` | libraryManagementSystem.py:72-76 | deletes at the matched position: the entry list loses exactly its first entry with the book's id, and the held ids become `RemoveFirst` of the old ones |
| `Library.BackendManager.constructor` | libraryManagementSystem.py:90-92 | a new backend has no books and no users |
| `Library.BackendManager.AddBook` | libraryManagementSystem.py:94-95 | appends one fresh book object, leaves the users list and earlier books untouched, and its model is `LibrarySpec.AddBook` of the old one |
| `Library.BackendManager.AddUser` | libraryManagementSystem.py:97-98 | appends one fresh user object, leaves the books list and earlier users untouched, and its model is `LibrarySpec.AddUser` of the old one |
| `Library.BackendManager.GetUserByName` | libraryManagementSystem.py:100-104 | returns the first user whose name matches, or null exactly when none does, and changes nothing |
| `Library.BackendManager.GetBookByName` | libraryManagementSystem.py:106-110 | returns the first book whose name matches, or null exactly when none does, and changes nothing |
| `Library.BackendManager.LookupsAgree` | libraryManagementSystem.py:100-110 | the first-match scans over the object lists' names find the same positions as `FindUser` and `FindBook` on the model |
| `Library.BackendManager.NotFound` | libraryManagementSystem.py:112-117 | an unknown user or book name makes both `borrow_book` and `return_book` fail without change |
| `Library.BackendManager.BorrowEffect` | libraryManagementSystem.py:118-122 | updating only the resolved book (counter first) and then the resolved user realises `LibrarySpec.BorrowBook` and keeps the backend valid |
| `Library.BackendManager.ReturnEffect` | libraryManagementSystem.py:131-136 | updating only the resolved user and the resolved book realises `LibrarySpec.ReturnBook` and keeps the backend valid |
| `Library.BackendManager.BorrowBook` | libraryManagementSystem.py:112-122 | keeps both lists and validity; outcome and new model are `LibrarySpec.BorrowBook` of the old model |
| `Library.BackendManager.ReturnBook` | libraryManagementSystem.py:124-136 | keeps both lists and validity; outcome and new model are `LibrarySpec.ReturnBook` of the old model |
| `Library.BackendManager.BorrowersAt` | libraryManagementSystem.py:138-143 | the holders reported for a name, stated over the object lists: none for an unknown name, otherwise the holders of the first matching book's id |
| `Library.BackendManager.GetUsersBorrowedBook` | libraryManagementSystem.py:138-143 | the returned names are `LibrarySpec.BorrowersOf` of the model |
| `Library.BackendManager.GetBooksWithPrefix` | libraryManagementSystem.py:145-146 | exactly the catalog's books starting with the prefix, all of them for the empty prefix |
| `LibraryInvariant.EmptyConsistent` | libraryManagementSystem.py:90-92 | the empty backend satisfies the bookkeeping invariant |
| `LibraryInvariant.AddBookConsistent` | libraryManagementSystem.py:94-95 | `add_book` with a fresh id and a non-negative quantity keeps the invariant |
| `LibraryInvariant.AddBookReusedIdBreaksConsistent` | libraryManagementSystem.py:94-95 | `add_book` accepts an id already in use, and that breaks the invariant: a consistent one-book catalog stops being consistent |
| `LibraryInvariant.AddUserConsistent` | libraryManagementSystem.py:97-98 | `add_user` keeps the invariant |
| `LibraryInvariant.ExchangeConsistent` | libraryManagementSystem.py:118-120 | changing one book and one user keeps the invariant when the counter moves with that user's holdings of the book's id |
| `LibraryInvariant.BorrowBookConsistent` | libraryManagementSystem.py:112-122 | `borrow_book` keeps the invariant |
| `LibraryInvariant.ReturnNeverUnderflows` | libraryManagementSystem.py:131-134 | under the invariant, when the user holds the book's id the book's own `return_copy` succeeds, so ignoring its result loses nothing |
| `LibraryInvariant.ReturnBookConsistent` | libraryManagementSystem.py:124-136 | `return_book` keeps the invariant |
| `LibraryInvariant.SharedIdReturnStrandsCopy` | libraryManagementSystem.py:124-136 | with two books sharing an id, returning the second one succeeds, empties the user's list and changes no counter, so the first book's copy stays out with no holder |
| `LibraryInvariant.BorrowThenReturn` | libraryManagementSystem.py:112-136 | a successful borrow followed by the matching return leaves the books as they were and drops the first matching entry from the user's extended list |
| `LibraryInvariant.BorrowReturnRoundTrip` | libraryManagementSystem.py:112-136 | after a successful borrow, the matching return succeeds, restores every book and every user's holdings, and restores the whole catalog when the user did not already hold the id |
| `LibraryInvariant.BorrowReturnExact` | libraryManagementSystem.py:112-136 | after a successful borrow, the matching return gives back the whole catalog exactly when the user's entries from the first one with the book's id onward all carry that id |
| `LibraryInvariant.RemoveFirstAppendedExact` | libraryManagementSystem.py:72-76 | appending an id and then dropping its first occurrence gives the list back exactly when every entry from the first occurrence onward is that id |
| `LibraryInvariant.RemoveFirstAppended` | libraryManagementSystem.py:72-76 | dropping the first occurrence of an id held only at the end of the list gives back the list without it |
| `LibraryInvariant.RoundTripReordersHeldCopy` | libraryManagementSystem.py:69-76 | when the user already holds the id and a different id follows it, a borrow and a return of that id reorder the user's list: ids "1","2" become "2","1" |
| `LibraryScenario.StockedByAdds` | libraryManagementSystem.py:174-185 | the six seed `add_book` and four `add_user` calls build the stocked catalog |
| `LibraryScenario.StockedConsistent` | libraryManagementSystem.py:174-185 | the stocked catalog satisfies the bookkeeping invariant |
| `LibraryScenario.FirstSeedBorrow` | libraryManagementSystem.py:187 | `mostafa` borrows `math3`: one copy out, id "103" on his list |
| `LibraryScenario.SecondSeedBorrow` | libraryManagementSystem.py:188 | `noha` borrows the second copy of `math3` |
| `LibraryScenario.ThirdSeedBorrowFails` | libraryManagementSystem.py:112-122 | with both copies of `math3` out, a borrow by `ali` fails and changes nothing |
| `LibraryScenario.SeedHolders` | libraryManagementSystem.py:138-143 | the holders of `math3` after the seed data are `mostafa` then `noha` |
| `LibraryScenario.SeedConsistent` | libraryManagementSystem.py:174-188 | the seed data keeps the bookkeeping invariant |
| `LibraryScenario.ReturnThenBorrow` | libraryManagementSystem.py:124-136 | once `mostafa` returns `math3`, `ali` can borrow it |

## Left out

- `input_valid`, the whole `FrontendManager` (menu, prompts, retries, printing) and the `__main__` entry point. They are console I/O around the backend. The seed data of `add_dummy_data` is replayed on the value model only (`LibraryScenario`).
- The `__str__` methods, which only format text for display.
- Object identity of borrowed entries. A user's list holds `Book` objects, but only their ids are ever compared, so `User.Rec()` abstracts the list to its ids.
- Names and ids are fixed at construction (`const`). The source never reassigns them.
- Python's dynamic typing. `total_quantity` is an integer that the constructor requires to be non-negative. Without that, the `== 0` test in `borrow` would not bound the counter.
- `User.ReturnCopy`: models the evident intent, deletion at the matched position, rather than line 75 as written. The as-written behaviour is modelled separately; see Findings.

## Findings

| source | as written | input that shows it | evidently intended | confidence | as-written member | corrected member |
|---|---|---|---|---|---|---|
| libraryManagementSystem.py:75 | after finding a matching entry, `return_copy` deletes at position `book.id - 1`; ids are strings, so the subtraction raises a TypeError, and every successful `return_book` call raises with it | a user holding the seed book with id "103" returns it | delete the matched entry, at position `idx` | high for the seed data's string ids; not executed | `LibrarySpec.ReturnCopyAsWritten` (the scan `LibrarySpec.ReturnCopyAsWrittenFrom`, with `LibrarySpec.AsWrittenRaisesOnEveryReturn`, `LibrarySpec.AsWrittenSeedReturn`) | `LibrarySpec.RemoveFirst` (with `LibrarySpec.RemoveFirstDropsOne`), used by `Library.User.ReturnCopy` |
