/** Value-level model of the library backend.

    A `Catalog` is the backend's state as plain values: its books and its
    users, each in insertion order. Every backend operation is a function
    from a catalog to a `Step` (success flag and the catalog afterwards);
    the classes in module `Library` are proved to follow these functions.

    A user's borrowed list is recorded here by book id: the backend only
    ever compares borrowed entries by id. */
module LibrarySpec {

  datatype Option<T> = None | Some(value: T)

  /** A book title with `totalQuantity` copies, `totalBorrows` of them lent out. */
  datatype BookRec = BookRec(name: string, id: string, totalQuantity: int, totalBorrows: int)

  /** A user; `borrowed` holds the ids of the borrowed books, oldest first. */
  datatype UserRec = UserRec(name: string, id: string, borrowed: seq<string>)

  datatype Catalog = Catalog(books: seq<BookRec>, users: seq<UserRec>)

  /** The outcome of a backend operation: whether it succeeded, and the state after it. */
  datatype Step = Step(ok: bool, state: Catalog)

  const Empty := Catalog([], [])

  // ---------------------------------------------------------------------
  // First-match search
  // ---------------------------------------------------------------------

  /** The position of the first occurrence of `key` in `keys`, if any. */
  function FirstIndexOf(keys: seq<string>, key: string): (r: Option<nat>)
    ensures r.None? <==> key !in keys
    ensures r.Some? ==> r.value < |keys| && keys[r.value] == key && key !in keys[..r.value]
  {
    if keys == [] then None
    else if keys[0] == key then Some(0)
    else match FirstIndexOf(keys[1..], key)
      case None => None
      case Some(k) =>
        assert keys[..k + 1] == [keys[0]] + keys[1..][..k];
        Some(k + 1)
  }

  /** The first occurrence is determined by its two defining facts. */
  lemma FirstIndexOfAt(keys: seq<string>, key: string, i: nat)
    requires i < |keys| && keys[i] == key && key !in keys[..i]
    ensures FirstIndexOf(keys, key) == Some(i)
  {
    var r := FirstIndexOf(keys, key);
    AbsentBefore(keys, key, i);
    AbsentBefore(keys, key, r.value);
  }

  /** A key missing from a prefix differs from every entry of that prefix. */
  lemma AbsentBefore(keys: seq<string>, key: string, n: nat)
    requires n <= |keys| && key !in keys[..n]
    ensures forall m :: 0 <= m < n ==> keys[m] != key
  {
    forall m | 0 <= m < n
      ensures keys[m] != key
    {
      assert keys[..n][m] == keys[m];
    }
  }

  function BookNames(books: seq<BookRec>): (r: seq<string>)
    ensures |r| == |books| && forall i :: 0 <= i < |books| ==> r[i] == books[i].name
  {
    seq(|books|, i requires 0 <= i < |books| => books[i].name)
  }

  function BookIds(books: seq<BookRec>): (r: seq<string>)
    ensures |r| == |books| && forall i :: 0 <= i < |books| ==> r[i] == books[i].id
  {
    seq(|books|, i requires 0 <= i < |books| => books[i].id)
  }

  function UserNames(users: seq<UserRec>): (r: seq<string>)
    ensures |r| == |users| && forall i :: 0 <= i < |users| ==> r[i] == users[i].name
  {
    seq(|users|, i requires 0 <= i < |users| => users[i].name)
  }

  /** `get_book_by_name`: the first book, in catalog order, with that name. */
  function FindBook(c: Catalog, name: string): (r: Option<nat>)
    ensures r.Some? ==> r.value < |c.books| && c.books[r.value].name == name
    ensures r.Some? ==> forall j :: 0 <= j < r.value ==> c.books[j].name != name
    ensures r.None? <==> forall j :: 0 <= j < |c.books| ==> c.books[j].name != name
  {
    var r := FirstIndexOf(BookNames(c.books), name);
    assert r.Some? ==> forall j :: 0 <= j < r.value ==> BookNames(c.books)[..r.value][j] == c.books[j].name;
    assert r.None? ==> forall j :: 0 <= j < |c.books| ==> BookNames(c.books)[j] != name;
    r
  }

  /** `get_user_by_name`: the first user, in roster order, with that name. */
  function FindUser(c: Catalog, name: string): (r: Option<nat>)
    ensures r.Some? ==> r.value < |c.users| && c.users[r.value].name == name
    ensures r.Some? ==> forall j :: 0 <= j < r.value ==> c.users[j].name != name
    ensures r.None? <==> forall j :: 0 <= j < |c.users| ==> c.users[j].name != name
  {
    var r := FirstIndexOf(UserNames(c.users), name);
    assert r.Some? ==> forall j :: 0 <= j < r.value ==> UserNames(c.users)[..r.value][j] == c.users[j].name;
    assert r.None? ==> forall j :: 0 <= j < |c.users| ==> UserNames(c.users)[j] != name;
    r
  }

  // ---------------------------------------------------------------------
  // Book: the copy counter
  // ---------------------------------------------------------------------

  /** The invariant a book keeps: no more copies lent than exist. */
  predicate CopiesBounded(b: BookRec) {
    0 <= b.totalBorrows <= b.totalQuantity
  }

  /** `Book.return_copy`: fails when nothing is lent, else one copy comes back. */
  function GiveBackCopy(b: BookRec): (r: (bool, BookRec))
    ensures r.0 <==> b.totalBorrows != 0
    ensures r.1 == b.(totalBorrows := r.1.totalBorrows)
    ensures r.1.totalBorrows == if r.0 then b.totalBorrows - 1 else b.totalBorrows
    ensures CopiesBounded(b) ==> CopiesBounded(r.1)
  {
    if b.totalBorrows == 0 then (false, b)
    else (true, b.(totalBorrows := b.totalBorrows - 1))
  }

  /** `Book.borrow`: fails when no copy is left, else one more copy is lent;
      a successful borrow is undone by giving the copy back. */
  function TakeCopy(b: BookRec): (r: (bool, BookRec))
    ensures r.0 <==> b.totalBorrows != b.totalQuantity
    ensures r.1 == b.(totalBorrows := r.1.totalBorrows)
    ensures r.1.totalBorrows == if r.0 then b.totalBorrows + 1 else b.totalBorrows
    ensures CopiesBounded(b) ==> CopiesBounded(r.1)
    ensures r.0 && b.totalBorrows >= 0 ==> GiveBackCopy(r.1) == (true, b)
  {
    if b.totalQuantity - b.totalBorrows == 0 then (false, b)
    else (true, b.(totalBorrows := b.totalBorrows + 1))
  }

  // ---------------------------------------------------------------------
  // User: the list of borrowed ids
  // ---------------------------------------------------------------------

  /** `User.return_copy` as intended: drop the first entry equal to `id`,
      keeping the order of the others. */
  function RemoveFirst(held: seq<string>, id: string): (r: seq<string>)
    ensures FirstIndexOf(held, id).None? ==> r == held
    ensures FirstIndexOf(held, id).Some? ==>
      var k := FirstIndexOf(held, id).value; r == held[..k] + held[k + 1..]
  {
    if held == [] then []
    else if held[0] == id then held[1..]
    else [held[0]] + RemoveFirst(held[1..], id)
  }

  /** Exactly one occurrence of `id` leaves the list, when there is one. */
  lemma RemoveFirstDropsOne(held: seq<string>, id: string)
    ensures multiset(RemoveFirst(held, id)) == multiset(held) - multiset{id}
  {
    match FirstIndexOf(held, id)
    case None =>
    case Some(k) =>
      var front, back := held[..k], held[k + 1..];
      assert held == front + [id] + back;
      assert multiset(front + [id] + back) - multiset{id} == multiset(front + back);
  }

  /** A Python value, as far as line 75 of `User.return_copy` needs one. */
  datatype PyValue = Str(text: string) | Int(number: int)

  /** Python's binary `-`: two integers subtract; a string operand raises
      TypeError, written here as `None`. */
  function PyMinus(a: PyValue, b: PyValue): Option<int> {
    match (a, b)
    case (Int(x), Int(y)) => Some(x - y)
    case _ => None
  }

  /** The outcome of `User.return_copy` exactly as written: the list after
      the call, or the exception it raises. */
  datatype Deletion = Deleted(held: seq<string>) | TypeError | IndexError

  /** Python's `del xs[k]`: a negative index counts from the end, and one
      outside the list raises IndexError. */
  function PyDel(xs: seq<string>, k: int): Deletion {
    if 0 <= k < |xs| then Deleted(xs[..k] + xs[k + 1..])
    else if -|xs| <= k < 0 then Deleted(xs[..|xs| + k] + xs[|xs| + k + 1..])
    else IndexError
  }

  /** The `enumerate` loop of `User.return_copy` as written, from position
      `idx` on: at the first entry whose id matches, it deletes at "that id
      minus one" and stops; past the end it leaves the list alone. Ids are
      strings, so the subtraction raises before anything is deleted. */
  function ReturnCopyAsWrittenFrom(held: seq<string>, id: string, idx: nat): (r: Deletion)
    requires idx <= |held|
    ensures r.TypeError? <==> id in held[idx..]
    ensures r.Deleted? ==> r.held == held
    ensures !r.IndexError?
    decreases |held| - idx
  {
    assert held[idx..] == if idx == |held| then [] else [held[idx]] + held[idx + 1..];
    if idx == |held| then Deleted(held)
    else if held[idx] == id then
      match PyMinus(Str(held[idx]), Int(1))
      case Some(k) => PyDel(held, k)
      case None => TypeError
    else ReturnCopyAsWrittenFrom(held, id, idx + 1)
  }

  /** `User.return_copy` as written, over the whole list. */
  function ReturnCopyAsWritten(held: seq<string>, id: string): (r: Deletion)
    ensures r.TypeError? <==> id in held
    ensures r.Deleted? ==> r.held == held
    ensures !r.IndexError?
  {
    assert held[0..] == held;
    ReturnCopyAsWrittenFrom(held, id, 0)
  }

  /** Whenever there is something to return, the code as written raises where
      the intended deletion drops exactly one matching entry. */
  lemma AsWrittenRaisesOnEveryReturn(held: seq<string>, id: string)
    requires id in held
    ensures ReturnCopyAsWritten(held, id) == TypeError
    ensures |RemoveFirst(held, id)| == |held| - 1
    ensures multiset(RemoveFirst(held, id)) == multiset(held) - multiset{id}
  {
    RemoveFirstDropsOne(held, id);
    assert |multiset(RemoveFirst(held, id))| == |multiset(held)| - 1;
  }

  /** The input that shows it: a user holding the seed book "103" (`math3`)
      cannot return it as written. */
  lemma AsWrittenSeedReturn()
    ensures ReturnCopyAsWritten(["103"], "103") == TypeError
    ensures RemoveFirst(["103"], "103") == []
  {
  }

  // ---------------------------------------------------------------------
  // The backend operations
  // ---------------------------------------------------------------------

  /** Every book of the catalog keeps its counter within its copies. */
  predicate Bounded(c: Catalog) {
    forall i :: 0 <= i < |c.books| ==> CopiesBounded(c.books[i])
  }

  /** `add_book`: a new book with no copies lent joins the end of the catalog. */
  function AddBook(c: Catalog, name: string, id: string, totalQuantity: int): (r: Catalog)
    requires totalQuantity >= 0
    ensures |r.books| == |c.books| + 1 && r.books[..|c.books|] == c.books
    ensures r.books[|c.books|] == BookRec(name, id, totalQuantity, 0)
    ensures r.users == c.users
    ensures Bounded(c) ==> Bounded(r)
  {
    Catalog(c.books + [BookRec(name, id, totalQuantity, 0)], c.users)
  }

  /** `add_user`: a new user holding nothing joins the end of the roster. */
  function AddUser(c: Catalog, name: string, id: string): (r: Catalog)
    ensures |r.users| == |c.users| + 1 && r.users[..|c.users|] == c.users
    ensures r.users[|c.users|] == UserRec(name, id, [])
    ensures r.books == c.books
  {
    Catalog(c.books, c.users + [UserRec(name, id, [])])
  }

  /** `borrow_book`: look both up by name, take a copy of the book, and only
      then append the book's id to the user's list. */
  function BorrowBook(c: Catalog, userName: string, bookName: string): (r: Step)
    ensures !r.ok ==> r.state == c
    ensures r.ok <==> FindUser(c, userName).Some? && FindBook(c, bookName).Some?
                      && TakeCopy(c.books[FindBook(c, bookName).value]).0
    ensures Bounded(c) ==> Bounded(r.state)
    ensures BookNames(r.state.books) == BookNames(c.books)
    ensures UserNames(r.state.users) == UserNames(c.users)
  {
    match (FindUser(c, userName), FindBook(c, bookName))
    case (Some(ui), Some(bi)) =>
      var (took, book) := TakeCopy(c.books[bi]);
      if took then
        var user := c.users[ui];
        Step(true, Catalog(c.books[bi := book], c.users[ui := user.(borrowed := user.borrowed + [book.id])]))
      else Step(false, c)
    case _ => Step(false, c)
  }

  /** `borrow_book` once both names are resolved, to positions `ui` and `bi`. */
  lemma BorrowBookAt(c: Catalog, userName: string, bookName: string, ui: nat, bi: nat)
    requires FindUser(c, userName) == Some(ui) && FindBook(c, bookName) == Some(bi)
    ensures var book := TakeCopy(c.books[bi]).1;
      BorrowBook(c, userName, bookName)
        == if TakeCopy(c.books[bi]).0
           then Step(true, Catalog(c.books[bi := book], c.users[ui := c.users[ui].(borrowed := c.users[ui].borrowed + [book.id])]))
           else Step(false, c)
  {
  }

  /** `return_book`: look both up by name; if the user holds the book's id,
      drop that entry and give the copy back. The book's own success flag is
      ignored, as in the source. */
  function ReturnBook(c: Catalog, userName: string, bookName: string): (r: Step)
    ensures !r.ok ==> r.state == c
    ensures r.ok <==> FindUser(c, userName).Some? && FindBook(c, bookName).Some?
                      && c.books[FindBook(c, bookName).value].id in c.users[FindUser(c, userName).value].borrowed
    ensures Bounded(c) ==> Bounded(r.state)
    ensures BookNames(r.state.books) == BookNames(c.books)
    ensures UserNames(r.state.users) == UserNames(c.users)
  {
    match (FindUser(c, userName), FindBook(c, bookName))
    case (Some(ui), Some(bi)) =>
      var user := c.users[ui];
      var book := c.books[bi];
      if book.id in user.borrowed then
        Step(true, Catalog(c.books[bi := GiveBackCopy(book).1],
                           c.users[ui := user.(borrowed := RemoveFirst(user.borrowed, book.id))]))
      else Step(false, c)
    case _ => Step(false, c)
  }

  /** `return_book` once both names are resolved, to positions `ui` and `bi`. */
  lemma ReturnBookAt(c: Catalog, userName: string, bookName: string, ui: nat, bi: nat)
    requires FindUser(c, userName) == Some(ui) && FindBook(c, bookName) == Some(bi)
    ensures var user, book := c.users[ui], c.books[bi];
      ReturnBook(c, userName, bookName)
        == if book.id in user.borrowed
           then Step(true, Catalog(c.books[bi := GiveBackCopy(book).1],
                                   c.users[ui := user.(borrowed := RemoveFirst(user.borrowed, book.id))]))
           else Step(false, c)
  {
  }

  /** The names of the users holding `id`, in roster order. */
  function HoldersOf(users: seq<UserRec>, id: string): (r: seq<string>)
    ensures |r| <= |users|
  {
    if users == [] then []
    else
      var rest := HoldersOf(users[1..], id);
      if id in users[0].borrowed then [users[0].name] + rest else rest
  }

  /** A name is listed exactly when some user with that name holds `id`. */
  lemma {:induction false} HoldersOfNames(users: seq<UserRec>, id: string)
    ensures forall n :: n in HoldersOf(users, id) <==> exists i :: 0 <= i < |users| && users[i].name == n && id in users[i].borrowed
  {
    if users != [] {
      HoldersOfNames(users[1..], id);
      assert forall i :: 1 <= i < |users| ==> users[i] == users[1..][i - 1];
    }
  }

  /** Collecting holders distributes over concatenation, so it keeps roster order. */
  lemma {:induction false} HoldersOfAppend(front: seq<UserRec>, back: seq<UserRec>, id: string)
    ensures HoldersOf(front + back, id) == HoldersOf(front, id) + HoldersOf(back, id)
  {
    if front == [] {
      assert front + back == back;
    } else {
      var head := if id in front[0].borrowed then [front[0].name] else [];
      var inFront, inBack := HoldersOf(front[1..], id), HoldersOf(back, id);
      assert (front + back)[1..] == front[1..] + back;
      HoldersOfAppend(front[1..], back, id);
      assert HoldersOf(front + back, id) == head + (inFront + inBack);
      assert head + (inFront + inBack) == (head + inFront) + inBack;
    }
  }

  /** Scanning one more user adds that user's name exactly when they hold `id`. */
  lemma HoldersOfPrefix(users: seq<UserRec>, i: nat, id: string)
    requires i < |users|
    ensures HoldersOf(users[..i + 1], id) ==
            HoldersOf(users[..i], id) + (if id in users[i].borrowed then [users[i].name] else [])
  {
    assert users[..i + 1] == users[..i] + [users[i]];
    HoldersOfAppend(users[..i], [users[i]], id);
  }

  /** `get_users_borrowed_book`: nobody for an unknown title, otherwise the
      holders of the first book with that name. */
  function BorrowersOf(c: Catalog, bookName: string): (r: seq<string>)
    ensures FindBook(c, bookName).None? ==> r == []
    ensures FindBook(c, bookName).Some? ==>
      forall n :: n in r <==> exists i :: 0 <= i < |c.users| && c.users[i].name == n
                                       && c.books[FindBook(c, bookName).value].id in c.users[i].borrowed
  {
    match FindBook(c, bookName)
    case None => []
    case Some(bi) =>
      HoldersOfNames(c.users, c.books[bi].id);
      HoldersOf(c.users, c.books[bi].id)
  }
}
