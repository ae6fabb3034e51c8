/** The library backend as objects: `Book` and `User` update their own
    fields in place, and `BackendManager` owns the ordered lists of both and
    mediates every cross-entity operation. Each class is tied to the value
    model in `LibrarySpec` by `Rec()` / `Model()`, and each mutating method
    states its new state through the corresponding spec function. */
module Library {
  import opened LibrarySpec

  /** The ids of a list of borrowed books, in list order. */
  function Ids(books: seq<Book>): (r: seq<string>)
    ensures |r| == |books| && forall i {:trigger r[i]} :: 0 <= i < |books| ==> r[i] == books[i].id
  {
    seq(|books|, i requires 0 <= i < |books| => books[i].id)
  }

  /** The names of a list of users, in list order. */
  function UserNamesOf(users: seq<User>): (r: seq<string>)
    ensures |r| == |users| && forall i :: 0 <= i < |users| ==> r[i] == users[i].name
  {
    seq(|users|, i requires 0 <= i < |users| => users[i].name)
  }

  /** The names of a list of books, in list order. */
  function BookNamesOf(books: seq<Book>): (r: seq<string>)
    ensures |r| == |books| && forall i :: 0 <= i < |books| ==> r[i] == books[i].name
  {
    seq(|books|, i requires 0 <= i < |books| => books[i].name)
  }

  /** Python's `str.startswith`. */
  predicate StartsWith(s: string, prefix: string) {
    |prefix| <= |s| && s[..|prefix|] == prefix
  }

  /** The books of `books` whose name starts with `prefix`, in list order. */
  function WithPrefix(books: seq<Book>, prefix: string): (r: seq<Book>)
    ensures |r| <= |books|
  {
    if books == [] then []
    else
      var rest := WithPrefix(books[1..], prefix);
      if StartsWith(books[0].name, prefix) then [books[0]] + rest else rest
  }

  /** A book is selected exactly when it is in the list and its name starts
      with the prefix. */
  lemma {:induction false} WithPrefixSelects(books: seq<Book>, prefix: string)
    ensures forall b :: b in WithPrefix(books, prefix) ==> b in books && StartsWith(b.name, prefix)
    ensures forall i :: 0 <= i < |books| && StartsWith(books[i].name, prefix) ==> books[i] in WithPrefix(books, prefix)
  {
    if books != [] {
      WithPrefixSelects(books[1..], prefix);
      assert forall i :: 1 <= i < |books| ==> books[i] == books[1..][i - 1];
    }
  }

  /** Selecting by prefix distributes over concatenation, so it keeps order. */
  lemma {:induction false} WithPrefixAppend(front: seq<Book>, back: seq<Book>, prefix: string)
    ensures WithPrefix(front + back, prefix) == WithPrefix(front, prefix) + WithPrefix(back, prefix)
  {
    if front == [] {
      assert front + back == back;
    } else {
      var head := if StartsWith(front[0].name, prefix) then [front[0]] else [];
      var inFront, inBack := WithPrefix(front[1..], prefix), WithPrefix(back, prefix);
      assert (front + back)[1..] == front[1..] + back;
      WithPrefixAppend(front[1..], back, prefix);
      assert WithPrefix(front + back, prefix) == head + (inFront + inBack);
      assert head + (inFront + inBack) == (head + inFront) + inBack;
    }
  }

  /** The empty prefix selects every book. */
  lemma {:induction false} WithPrefixAll(books: seq<Book>, prefix: string)
    ensures prefix == "" ==> WithPrefix(books, prefix) == books
  {
    if books != [] {
      WithPrefixAll(books[1..], prefix);
    }
  }

  class Book {
    const name: string
    const id: string
    const totalQuantity: int
    var totalBorrows: int

    /** The book as a value. */
    function Rec(): BookRec
      reads this
    {
      BookRec(name, id, totalQuantity, totalBorrows)
    }

    constructor (name: string, id: string, totalQuantity: int)
      requires totalQuantity >= 0
      ensures Rec() == BookRec(name, id, totalQuantity, 0)
      ensures CopiesBounded(Rec())
    {
      this.name := name;
      this.id := id;
      this.totalQuantity := totalQuantity;
      this.totalBorrows := 0;
    }

    /** `Book.borrow`. */
    method Borrow() returns (ok: bool)
      modifies this
      ensures (ok, Rec()) == TakeCopy(old(Rec()))
    {
      if totalQuantity - totalBorrows == 0 {
        return false;
      }
      totalBorrows := totalBorrows + 1;
      return true;
    }

    /** `Book.return_copy`. */
    method ReturnCopy() returns (ok: bool)
      modifies this
      ensures (ok, Rec()) == GiveBackCopy(old(Rec()))
    {
      if totalBorrows == 0 {
        return false;
      }
      totalBorrows := totalBorrows - 1;
      return true;
    }
  }

  class User {
    const name: string
    const id: string
    var borrowedBooks: seq<Book>

    /** The user as a value: borrowed books are recorded by id. */
    function Rec(): UserRec
      reads this
    {
      UserRec(name, id, Ids(borrowedBooks))
    }

    constructor (name: string, id: string)
      ensures Rec() == UserRec(name, id, [])
      ensures borrowedBooks == []
    {
      this.name := name;
      this.id := id;
      this.borrowedBooks := [];
    }

    /** `User.borrow`: the book goes to the end of the list. */
    method Borrow(book: Book)
      modifies this
      ensures borrowedBooks == old(borrowedBooks) + [book]
      ensures Rec() == old(Rec()).(borrowed := old(Rec()).borrowed + [book.id])
    {
      borrowedBooks := borrowedBooks + [book];
      assert Ids(borrowedBooks) == Ids(old(borrowedBooks)) + [book.id];
    }

    /** `User.is_borrowed`: some entry has the book's id. */
    method IsBorrowed(book: Book) returns (r: bool)
      ensures r <==> exists i :: 0 <= i < |borrowedBooks| && borrowedBooks[i].id == book.id
      ensures r <==> book.id in Rec().borrowed
    {
      var i := 0;
      while i < |borrowedBooks|
        invariant 0 <= i <= |borrowedBooks|
        invariant forall k :: 0 <= k < i ==> borrowedBooks[k].id != book.id
      {
        if borrowedBooks[i].id == book.id {
          assert Rec().borrowed[i] == book.id;
          return true;
        }
        i := i + 1;
      }
      return false;
    }

    /** `User.return_copy`, deleting the entry the scan matched. */
    method ReturnCopy(book: Book)
      modifies this
      ensures Rec() == old(Rec()).(borrowed := RemoveFirst(old(Rec()).borrowed, book.id))
      ensures match FirstIndexOf(Ids(old(borrowedBooks)), book.id)
        case None => borrowedBooks == old(borrowedBooks)
        case Some(k) => borrowedBooks == old(borrowedBooks)[..k] + old(borrowedBooks)[k + 1..]
    {
      ghost var held := Ids(borrowedBooks);
      var i := 0;
      while i < |borrowedBooks|
        invariant 0 <= i <= |borrowedBooks|
        invariant borrowedBooks == old(borrowedBooks)
        invariant book.id !in held[..i]
      {
        if borrowedBooks[i].id == book.id {
          FirstIndexOfAt(held, book.id, i);
          borrowedBooks := borrowedBooks[..i] + borrowedBooks[i + 1..];
          assert Ids(borrowedBooks) == held[..i] + held[i + 1..];
          return;
        }
        assert held[..i + 1] == held[..i] + [held[i]];
        i := i + 1;
      }
      assert held[..i] == held;
    }
  }

  /** A `borrow_book` or `return_book` request whose user name resolved to
      position `ui` of the roster and whose book name to position `bi` of the
      catalog. */
  datatype Resolved = Resolved(userName: string, bookName: string, ui: nat, bi: nat)

  class BackendManager {
    var books: seq<Book>
    var users: seq<User>

    /** The backend as a value. */
    ghost function Model(): (c: Catalog)
      reads this, books, users
      ensures |c.books| == |books| && forall i {:trigger c.books[i]} :: 0 <= i < |books| ==> c.books[i] == books[i].Rec()
      ensures |c.users| == |users| && forall i {:trigger c.users[i]} :: 0 <= i < |users| ==> c.users[i] == users[i].Rec()
    {
      Catalog(seq(|books|, i requires 0 <= i < |books| reads this, books => books[i].Rec()),
              seq(|users|, i requires 0 <= i < |users| reads this, users => users[i].Rec()))
    }

    /** Every list entry is its own object, and every counter is in range. */
    ghost predicate Valid()
      reads this, books, users
    {
      (forall i, j :: 0 <= i < j < |books| ==> books[i] != books[j]) &&
      (forall i, j :: 0 <= i < j < |users| ==> users[i] != users[j]) &&
      Bounded(Model())
    }

    constructor ()
      ensures Valid() && Model() == Empty
    {
      books := [];
      users := [];
    }

    /** `add_book`. */
    method AddBook(name: string, id: string, totalQuantity: int)
      requires Valid() && totalQuantity >= 0
      modifies this
      ensures Valid() && users == old(users)
      ensures |books| == |old(books)| + 1 && books[..|old(books)|] == old(books) && fresh(books[|old(books)|])
      ensures Model() == LibrarySpec.AddBook(old(Model()), name, id, totalQuantity)
    {
      var book := new Book(name, id, totalQuantity);
      books := books + [book];
      assert Model().books == old(Model()).books + [book.Rec()];
      assert Model().users == old(Model()).users;
    }

    /** `add_user`. */
    method AddUser(name: string, id: string)
      requires Valid()
      modifies this
      ensures Valid() && books == old(books)
      ensures |users| == |old(users)| + 1 && users[..|old(users)|] == old(users) && fresh(users[|old(users)|])
      ensures Model() == LibrarySpec.AddUser(old(Model()), name, id)
    {
      var user := new User(name, id);
      users := users + [user];
      assert Model().users == old(Model()).users + [user.Rec()];
      assert Model().books == old(Model()).books;
    }

    /** `get_user_by_name`: the first user with that name, or null. */
    method GetUserByName(userName: string) returns (user: User?)
      ensures match FirstIndexOf(UserNamesOf(users), userName)
        case None => user == null
        case Some(i) => user == users[i]
    {
      for i := 0 to |users|
        invariant userName !in UserNamesOf(users)[..i]
      {
        if users[i].name == userName {
          return users[i];
        }
        assert UserNamesOf(users)[..i + 1] == UserNamesOf(users)[..i] + [users[i].name];
      }
      assert UserNamesOf(users)[..|users|] == UserNamesOf(users);
      return null;
    }

    /** `get_book_by_name`: the first book with that name, or null. */
    method GetBookByName(bookName: string) returns (book: Book?)
      ensures match FirstIndexOf(BookNamesOf(books), bookName)
        case None => book == null
        case Some(i) => book == books[i]
    {
      for i := 0 to |books|
        invariant bookName !in BookNamesOf(books)[..i]
      {
        if books[i].name == bookName {
          return books[i];
        }
        assert BookNamesOf(books)[..i + 1] == BookNamesOf(books)[..i] + [books[i].name];
      }
      assert BookNamesOf(books)[..|books|] == BookNamesOf(books);
      return null;
    }

    /** The scans over the object lists find what `FindUser` and `FindBook`
        find on the model. */
    lemma LookupsAgree(userName: string, bookName: string)
      ensures FirstIndexOf(UserNamesOf(users), userName) == FindUser(Model(), userName)
      ensures FirstIndexOf(BookNamesOf(books), bookName) == FindBook(Model(), bookName)
    {
      assert UserNames(Model().users) == UserNamesOf(users) && BookNames(Model().books) == BookNamesOf(books);
    }

    /** A name that resolves to no user or to no book fails both `borrow_book`
        and `return_book` without any change. */
    lemma NotFound(userName: string, bookName: string)
      requires FirstIndexOf(UserNamesOf(users), userName).None? || FirstIndexOf(BookNamesOf(books), bookName).None?
      ensures LibrarySpec.BorrowBook(Model(), userName, bookName) == Step(false, Model())
      ensures LibrarySpec.ReturnBook(Model(), userName, bookName) == Step(false, Model())
    {
      assert UserNames(Model().users) == UserNamesOf(users) && BookNames(Model().books) == BookNamesOf(books);
    }

    /** When no entry changed, neither did the model. */
    twostate lemma ModelSame()
      requires books == old(books) && users == old(users)
      requires forall j :: 0 <= j < |books| ==> unchanged(books[j])
      requires forall j :: 0 <= j < |users| ==> unchanged(users[j])
      ensures Model() == old(Model())
    {
      assert Model().books == old(Model()).books;
      assert Model().users == old(Model()).users;
    }

    /** The effect of `borrow_book` once both names resolved and both objects
        were updated; the call succeeded when the book gave out a copy. */
    twostate lemma BorrowEffect(at: Resolved)
      requires old(Valid()) && books == old(books) && users == old(users)
      requires FirstIndexOf(UserNamesOf(users), at.userName) == Some(at.ui)
      requires FirstIndexOf(BookNamesOf(books), at.bookName) == Some(at.bi)
      requires forall j :: 0 <= j < |books| && books[j] != books[at.bi] ==> unchanged(books[j])
      requires forall j :: 0 <= j < |users| && users[j] != users[at.ui] ==> unchanged(users[j])
      requires books[at.bi].Rec() == TakeCopy(old(books[at.bi].Rec())).1
      requires var held := old(users[at.ui].Rec());
        users[at.ui].Rec() == if TakeCopy(old(books[at.bi].Rec())).0 then held.(borrowed := held.borrowed + [books[at.bi].id]) else held
      ensures Valid()
      ensures Step(TakeCopy(old(books[at.bi].Rec())).0, Model()) == LibrarySpec.BorrowBook(old(Model()), at.userName, at.bookName)
    {
      var c, ui, bi := old(Model()), at.ui, at.bi;
      assert UserNames(c.users) == UserNamesOf(users) && BookNames(c.books) == BookNamesOf(books);
      assert Model() == Catalog(c.books[bi := books[bi].Rec()], c.users[ui := users[ui].Rec()]);
      BorrowBookAt(c, at.userName, at.bookName, ui, bi);
      if !TakeCopy(c.books[bi]).0 {
        assert c.books[bi := books[bi].Rec()] == c.books && c.users[ui := users[ui].Rec()] == c.users;
      }
    }

    /** The effect of `return_book` once both names resolved and both objects
        were updated; the call succeeded when the user held the book's id. */
    twostate lemma ReturnEffect(at: Resolved)
      requires old(Valid()) && books == old(books) && users == old(users)
      requires FirstIndexOf(UserNamesOf(users), at.userName) == Some(at.ui)
      requires FirstIndexOf(BookNamesOf(books), at.bookName) == Some(at.bi)
      requires forall j :: 0 <= j < |books| && books[j] != books[at.bi] ==> unchanged(books[j])
      requires forall j :: 0 <= j < |users| && users[j] != users[at.ui] ==> unchanged(users[j])
      requires var held, id := old(users[at.ui].Rec()), books[at.bi].id;
        books[at.bi].Rec() == (if id in held.borrowed then GiveBackCopy(old(books[at.bi].Rec())).1 else old(books[at.bi].Rec())) &&
        users[at.ui].Rec() == if id in held.borrowed then held.(borrowed := RemoveFirst(held.borrowed, id)) else held
      ensures Valid()
      ensures Step(books[at.bi].id in old(users[at.ui].Rec()).borrowed, Model()) == LibrarySpec.ReturnBook(old(Model()), at.userName, at.bookName)
    {
      var c, ui, bi := old(Model()), at.ui, at.bi;
      assert UserNames(c.users) == UserNamesOf(users) && BookNames(c.books) == BookNamesOf(books);
      assert Model() == Catalog(c.books[bi := books[bi].Rec()], c.users[ui := users[ui].Rec()]);
      ReturnBookAt(c, at.userName, at.bookName, ui, bi);
      if c.books[bi].id !in c.users[ui].borrowed {
        assert c.books[bi := books[bi].Rec()] == c.books && c.users[ui := users[ui].Rec()] == c.users;
      }
    }

    /** `borrow_book`: take a copy of the book first, then record it on the user. */
    method BorrowBook(userName: string, bookName: string) returns (ok: bool)
      requires Valid()
      modifies books, users
      ensures Valid() && books == old(books) && users == old(users)
      ensures Step(ok, Model()) == LibrarySpec.BorrowBook(old(Model()), userName, bookName)
    {
      var user := GetUserByName(userName);
      var book := GetBookByName(bookName);
      if user == null || book == null {
        ModelSame();
        NotFound(userName, bookName);
        return false;
      }
      ghost var at := Resolved(userName, bookName, FirstIndexOf(UserNamesOf(users), userName).value,
                                                   FirstIndexOf(BookNamesOf(books), bookName).value);
      ok := book.Borrow();
      if ok {
        user.Borrow(book);
      }
      BorrowEffect(at);
    }

    /** `return_book`: drop the user's entry, then give the copy back; the
        book's own success flag is not consulted. */
    method ReturnBook(userName: string, bookName: string) returns (ok: bool)
      requires Valid()
      modifies books, users
      ensures Valid() && books == old(books) && users == old(users)
      ensures Step(ok, Model()) == LibrarySpec.ReturnBook(old(Model()), userName, bookName)
    {
      var user := GetUserByName(userName);
      var book := GetBookByName(bookName);
      if user == null || book == null {
        ModelSame();
        NotFound(userName, bookName);
        return false;
      }
      ghost var at := Resolved(userName, bookName, FirstIndexOf(UserNamesOf(users), userName).value,
                                                   FirstIndexOf(BookNamesOf(books), bookName).value);
      ok := user.IsBorrowed(book);
      if ok {
        user.ReturnCopy(book);
        var _ := book.ReturnCopy();
      }
      ReturnEffect(at);
    }

    /** The holders' names `get_users_borrowed_book` reports, in terms of the object lists. */
    lemma BorrowersAt(bookName: string)
      ensures match FirstIndexOf(BookNamesOf(books), bookName)
        case None => BorrowersOf(Model(), bookName) == []
        case Some(bi) => BorrowersOf(Model(), bookName) == HoldersOf(Model().users, books[bi].id)
    {
      assert BookNames(Model().books) == BookNamesOf(books);
    }

    /** `get_users_borrowed_book`: the names of the holders, in roster order. */
    method GetUsersBorrowedBook(bookName: string) returns (names: seq<string>)
      requires Valid()
      ensures names == BorrowersOf(Model(), bookName)
    {
      ghost var c := Model();
      BorrowersAt(bookName);
      var book := GetBookByName(bookName);
      if book == null {
        ModelSame();
        return [];
      }
      names := [];
      for i := 0 to |users|
        invariant names == HoldersOf(c.users[..i], book.id)
      {
        var holds := users[i].IsBorrowed(book);
        assert holds <==> book.id in c.users[i].borrowed;
        if holds {
          names := names + [users[i].name];
        }
        HoldersOfPrefix(c.users, i, book.id);
      }
      assert c.users[..|users|] == c.users;
      ModelSame();
    }

    /** `get_books_with_prefix`: the books whose name starts with `prefix`,
        in catalog order; the empty prefix selects every book. */
    function GetBooksWithPrefix(prefix: string): (r: seq<Book>)
      reads this
      ensures forall i :: 0 <= i < |r| ==> r[i] in books && StartsWith(r[i].name, prefix)
      ensures forall i :: 0 <= i < |books| && StartsWith(books[i].name, prefix) ==> books[i] in r
      ensures prefix == "" ==> r == books
    {
      WithPrefixAll(books, prefix);
      WithPrefixSelects(books, prefix);
      WithPrefix(books, prefix)
    }
  }
}
