/** Properties that relate several backend operations: the bookkeeping
    invariant tying every book's counter to the users' lists, the reason
    `return_book` may ignore the book's own success flag, and the
    borrow-then-return round trip. */
module LibraryInvariant {
  import opened LibrarySpec

  // ---------------------------------------------------------------------
  // Copies held across the roster
  // ---------------------------------------------------------------------

  /** How many entries with id `id` the users hold altogether. */
  function Held(users: seq<UserRec>, id: string): nat {
    if users == [] then 0 else multiset(users[0].borrowed)[id] + Held(users[1..], id)
  }

  /** A user who holds `id` makes the total positive. */
  lemma {:induction false} HeldPositive(users: seq<UserRec>, ui: nat, id: string)
    requires ui < |users| && id in users[ui].borrowed
    ensures Held(users, id) >= 1
  {
    if ui > 0 {
      HeldPositive(users[1..], ui - 1, id);
    }
  }

  /** Nobody holding `id` makes the total zero. */
  lemma {:induction false} HeldZero(users: seq<UserRec>, id: string)
    requires forall u :: 0 <= u < |users| ==> id !in users[u].borrowed
    ensures Held(users, id) == 0
  {
    if users != [] {
      assert id !in users[0].borrowed;
      HeldZero(users[1..], id);
    }
  }

  /** A new user joining the end adds what they hold. */
  lemma {:induction false} HeldAppend(users: seq<UserRec>, user: UserRec, id: string)
    ensures Held(users + [user], id) == Held(users, id) + multiset(user.borrowed)[id]
  {
    if users == [] {
      assert users + [user] == [user];
    } else {
      assert (users + [user])[1..] == users[1..] + [user];
      HeldAppend(users[1..], user, id);
    }
  }

  /** Replacing one user changes the total by the difference in what that user holds. */
  lemma {:induction false} HeldUpdate(users: seq<UserRec>, ui: nat, user: UserRec, id: string)
    requires ui < |users|
    ensures Held(users[ui := user], id) + multiset(users[ui].borrowed)[id]
            == Held(users, id) + multiset(user.borrowed)[id]
  {
    if ui == 0 {
      assert users[ui := user][1..] == users[1..];
    } else {
      assert users[ui := user][1..] == users[1..][ui - 1 := user];
      HeldUpdate(users[1..], ui - 1, user, id);
    }
  }

  // ---------------------------------------------------------------------
  // The bookkeeping invariant
  // ---------------------------------------------------------------------

  /** Every counter is in range, book ids are distinct, every id a user holds
      names a book, and every book's counter equals the copies the users hold. */
  predicate Consistent(c: Catalog) {
    && Bounded(c)
    && (forall i, j :: 0 <= i < j < |c.books| ==> c.books[i].id != c.books[j].id)
    && (forall u, x :: 0 <= u < |c.users| && x in c.users[u].borrowed ==> x in BookIds(c.books))
    && (forall i :: 0 <= i < |c.books| ==> Held(c.users, c.books[i].id) == c.books[i].totalBorrows)
  }

  lemma EmptyConsistent()
    ensures Consistent(Empty)
  {
  }

  /** `add_book` keeps the invariant when the new id is not in use. */
  lemma AddBookConsistent(c: Catalog, name: string, id: string, totalQuantity: int)
    requires Consistent(c) && totalQuantity >= 0 && id !in BookIds(c.books)
    ensures Consistent(AddBook(c, name, id, totalQuantity))
  {
    var r := AddBook(c, name, id, totalQuantity);
    assert r.books == c.books + [BookRec(name, id, totalQuantity, 0)];
    HeldZero(c.users, id);
    assert BookIds(r.books) == BookIds(c.books) + [id];
  }

  /** `add_user` keeps the invariant: the newcomer holds nothing. */
  lemma AddUserConsistent(c: Catalog, name: string, id: string)
    requires Consistent(c)
    ensures Consistent(AddUser(c, name, id))
  {
    var r := AddUser(c, name, id);
    assert r.users == c.users + [UserRec(name, id, [])];
    forall i | 0 <= i < |r.books|
      ensures Held(r.users, r.books[i].id) == r.books[i].totalBorrows
    {
      HeldAppend(c.users, UserRec(name, id, []), r.books[i].id);
    }
  }

  /** Replacing one book and one user keeps the invariant when the book's
      counter moves exactly as the user's holdings of its id do, the user's
      holdings of every other id stay put, and the user gains no other id. */
  lemma ExchangeConsistent(c: Catalog, ui: nat, bi: nat, book: BookRec, user: UserRec)
    requires Consistent(c) && ui < |c.users| && bi < |c.books|
    requires book.id == c.books[bi].id && CopiesBounded(book)
    requires book.totalBorrows + multiset(c.users[ui].borrowed)[book.id]
             == c.books[bi].totalBorrows + multiset(user.borrowed)[book.id]
    requires forall x :: x != book.id ==> multiset(user.borrowed)[x] == multiset(c.users[ui].borrowed)[x]
    requires forall x :: x in user.borrowed ==> x in c.users[ui].borrowed || x == book.id
    ensures Consistent(Catalog(c.books[bi := book], c.users[ui := user]))
  {
    var r := Catalog(c.books[bi := book], c.users[ui := user]);
    assert BookIds(r.books) == BookIds(c.books);
    forall i | 0 <= i < |r.books|
      ensures Held(r.users, r.books[i].id) == r.books[i].totalBorrows
    {
      HeldUpdate(c.users, ui, user, r.books[i].id);
    }
    forall u, x | 0 <= u < |r.users| && x in r.users[u].borrowed
      ensures x in BookIds(r.books)
    {
      if u == ui && x == book.id {
        assert BookIds(c.books)[bi] == x;
      }
    }
  }

  /** `borrow_book` keeps the invariant: the copy the book gives out is the
      entry the user gains. */
  lemma BorrowBookConsistent(c: Catalog, userName: string, bookName: string)
    requires Consistent(c)
    ensures Consistent(BorrowBook(c, userName, bookName).state)
  {
    if BorrowBook(c, userName, bookName).ok {
      var ui, bi := FindUser(c, userName).value, FindBook(c, bookName).value;
      BorrowBookAt(c, userName, bookName, ui, bi);
      var id, held := c.books[bi].id, c.users[ui].borrowed;
      assert multiset(held + [id]) == multiset(held) + multiset{id};
      ExchangeConsistent(c, ui, bi, TakeCopy(c.books[bi]).1, c.users[ui].(borrowed := held + [id]));
    }
  }

  /** Under the invariant a holder's book always has a copy out, so the
      book-side step of `return_book`, whose result the source ignores,
      never fails. */
  lemma ReturnNeverUnderflows(c: Catalog, ui: nat, bi: nat)
    requires Consistent(c) && ui < |c.users| && bi < |c.books|
    requires c.books[bi].id in c.users[ui].borrowed
    ensures GiveBackCopy(c.books[bi]).0
  {
    HeldPositive(c.users, ui, c.books[bi].id);
  }

  /** `return_book` keeps the invariant: the entry the user drops is the copy
      the book takes back. */
  lemma ReturnBookConsistent(c: Catalog, userName: string, bookName: string)
    requires Consistent(c)
    ensures Consistent(ReturnBook(c, userName, bookName).state)
  {
    if ReturnBook(c, userName, bookName).ok {
      var ui, bi := FindUser(c, userName).value, FindBook(c, bookName).value;
      ReturnBookAt(c, userName, bookName, ui, bi);
      ReturnNeverUnderflows(c, ui, bi);
      var id, held := c.books[bi].id, c.users[ui].borrowed;
      RemoveFirstDropsOne(held, id);
      var user := c.users[ui].(borrowed := RemoveFirst(held, id));
      forall x | x in user.borrowed
        ensures x in held
      {
        assert x in multiset(user.borrowed);
      }
      ExchangeConsistent(c, ui, bi, GiveBackCopy(c.books[bi]).1, user);
    }
  }

  // ---------------------------------------------------------------------
  // Borrow, then return
  // ---------------------------------------------------------------------

  /** Two rosters that agree on every user's name and id and on how many
      entries of each id every user holds. */
  predicate SameHoldings(a: seq<UserRec>, b: seq<UserRec>) {
    |a| == |b| &&
    forall i :: 0 <= i < |a| ==>
      a[i].name == b[i].name && a[i].id == b[i].id && multiset(a[i].borrowed) == multiset(b[i].borrowed)
  }

  /** A successful `borrow_book` followed by `return_book` of the same pair
      succeeds, restores every book exactly, and restores every user's
      holdings. The whole catalog comes back unchanged exactly when the
      user's entries from the first one with that id onward all have that id,
      in particular when the user did not hold it before. */
  lemma BorrowReturnRoundTrip(c: Catalog, userName: string, bookName: string)
    requires Bounded(c) && BorrowBook(c, userName, bookName).ok
    ensures var back := ReturnBook(BorrowBook(c, userName, bookName).state, userName, bookName);
      && back.ok
      && back.state.books == c.books
      && SameHoldings(back.state.users, c.users)
      && (c.books[FindBook(c, bookName).value].id !in c.users[FindUser(c, userName).value].borrowed ==> back.state == c)
  {
    var ui, bi := FindUser(c, userName).value, FindBook(c, bookName).value;
    var id, held := c.books[bi].id, c.users[ui].borrowed;
    BorrowThenReturn(c, userName, bookName);
    RemoveFirstDropsOne(held + [id], id);
    assert multiset(held + [id]) - multiset{id} == multiset(held);
    var user := c.users[ui].(borrowed := RemoveFirst(held + [id], id));
    SameHoldingsAt(c.users, ui, user);
    if id !in held {
      RemoveFirstAppended(held, id);
      assert c.users[ui := user] == c.users;
    }
  }

  /** The whole catalog comes back after a successful borrow and the matching
      return exactly when the user's list is settled from its first entry
      with the book's id on. */
  lemma BorrowReturnExact(c: Catalog, userName: string, bookName: string)
    requires Bounded(c) && BorrowBook(c, userName, bookName).ok
    ensures var held, id := c.users[FindUser(c, userName).value].borrowed, c.books[FindBook(c, bookName).value].id;
      ReturnBook(BorrowBook(c, userName, bookName).state, userName, bookName).state == c <==> SettledFrom(held, id)
  {
    var ui, bi := FindUser(c, userName).value, FindBook(c, bookName).value;
    var id, held := c.books[bi].id, c.users[ui].borrowed;
    BorrowThenReturn(c, userName, bookName);
    RemoveFirstAppendedExact(held, id);
    var user := c.users[ui].(borrowed := RemoveFirst(held + [id], id));
    if RemoveFirst(held + [id], id) == held {
      assert c.users[ui := user] == c.users;
    }
    if c.users[ui := user] == c.users {
      assert c.users[ui := user][ui] == user;
    }
  }

  /** Replacing one user by one with the same name, id and holdings keeps the holdings. */
  lemma SameHoldingsAt(users: seq<UserRec>, ui: nat, user: UserRec)
    requires ui < |users| && user.name == users[ui].name && user.id == users[ui].id
    requires multiset(user.borrowed) == multiset(users[ui].borrowed)
    ensures SameHoldings(users[ui := user], users)
  {
  }

  /** The state a successful borrow and the matching return leave: only the
      user's list differs, with the first entry of the id dropped from the
      extended list. */
  lemma BorrowThenReturn(c: Catalog, userName: string, bookName: string)
    requires Bounded(c) && BorrowBook(c, userName, bookName).ok
    ensures var ui, bi := FindUser(c, userName).value, FindBook(c, bookName).value;
      var held, id := c.users[ui].borrowed, c.books[bi].id;
      ReturnBook(BorrowBook(c, userName, bookName).state, userName, bookName)
        == Step(true, Catalog(c.books, c.users[ui := c.users[ui].(borrowed := RemoveFirst(held + [id], id))]))
  {
    var ui, bi := FindUser(c, userName).value, FindBook(c, bookName).value;
    BorrowBookAt(c, userName, bookName, ui, bi);
    var mid := BorrowBook(c, userName, bookName).state;
    var id, held := c.books[bi].id, c.users[ui].borrowed;
    assert UserNames(mid.users) == UserNames(c.users) && BookNames(mid.books) == BookNames(c.books);
    assert FindUser(mid, userName) == Some(ui) && FindBook(mid, bookName) == Some(bi);
    ReturnBookAt(mid, userName, bookName, ui, bi);
    assert mid.users[ui].borrowed == held + [id];
    assert (held + [id])[|held|] == id;
    assert mid.books[bi] == TakeCopy(c.books[bi]).1;
    assert mid.books[bi := GiveBackCopy(mid.books[bi]).1] == c.books;
    assert mid.users[ui := mid.users[ui].(borrowed := RemoveFirst(held + [id], id))]
        == c.users[ui := c.users[ui].(borrowed := RemoveFirst(held + [id], id))];
  }

  /** Removing the first `id` from a list that held it only at its end gives
      the list back. */
  lemma RemoveFirstAppended(held: seq<string>, id: string)
    requires id !in held
    ensures RemoveFirst(held + [id], id) == held
  {
    FirstIndexOfAt(held + [id], id, |held|);
    assert (held + [id])[..|held|] == held;
  }

  /** Every entry of `held` from the first one equal to `id` onward equals `id`. */
  predicate SettledFrom(held: seq<string>, id: string) {
    forall k :: 0 <= k < |held| && id in held[..k + 1] ==> held[k] == id
  }

  /** Appending `id` and then removing the first `id` gives the list back
      exactly when the list is settled from its first `id` on: otherwise the
      first `id` moves to the end past a different entry. */
  lemma {:induction false} RemoveFirstAppendedExact(held: seq<string>, id: string)
    ensures RemoveFirst(held + [id], id) == held <==> SettledFrom(held, id)
  {
    if held == [] {
    } else if held[0] == id {
      assert (held + [id])[1..] == held[1..] + [id];
      SettledAtHead(held, id);
    } else {
      assert (held + [id])[1..] == held[1..] + [id];
      RemoveFirstAppendedExact(held[1..], id);
      SettledPastHead(held, id);
      assert held == [held[0]] + held[1..];
    }
  }

  /** A list starting with `id` is settled exactly when it is all `id`, that
      is, when shifting it left by one and appending `id` leaves it as it is. */
  lemma SettledAtHead(held: seq<string>, id: string)
    requires held != [] && held[0] == id
    ensures held[1..] + [id] == held <==> SettledFrom(held, id)
  {
    if held[1..] + [id] == held {
      ShiftedAllSame(held, id);
    }
    if SettledFrom(held, id) {
      forall k | 0 <= k < |held|
        ensures (held[1..] + [id])[k] == held[k]
      {
        if k + 1 < |held| {
          assert held[..k + 2][0] == id;
        }
        assert held[..k + 1][0] == id;
      }
    }
  }

  /** A first entry other than `id` does not matter for being settled. */
  lemma SettledPastHead(held: seq<string>, id: string)
    requires held != [] && held[0] != id
    ensures SettledFrom(held, id) <==> SettledFrom(held[1..], id)
  {
    var rest := held[1..];
    if SettledFrom(rest, id) {
      forall k | 0 <= k < |held| && id in held[..k + 1]
        ensures held[k] == id
      {
        assert k > 0 by { assert held[..1] == [held[0]]; }
        assert held[..k + 1] == [held[0]] + rest[..k];
        assert held[k] == rest[k - 1];
      }
    }
    if SettledFrom(held, id) {
      forall k | 0 <= k < |rest| && id in rest[..k + 1]
        ensures rest[k] == id
      {
        assert held[..k + 2] == [held[0]] + rest[..k + 1];
        assert held[k + 1] == rest[k];
      }
    }
  }

  /** A list that equals itself shifted left by one with `id` appended holds
      nothing but `id`. */
  lemma {:induction false} ShiftedAllSame(s: seq<string>, id: string)
    requires |s| > 0 && s[1..] + [id] == s
    ensures forall k :: 0 <= k < |s| ==> s[k] == id
  {
    if |s| > 1 {
      var t := s[1..];
      forall k | 0 <= k < |t|
        ensures (t[1..] + [id])[k] == t[k]
      {
        assert (s[1..] + [id])[k + 1] == s[k + 1];
      }
      ShiftedAllSame(t, id);
      assert (s[1..] + [id])[0] == s[0];
    } else if |s| == 1 {
      assert (s[1..] + [id])[0] == s[0];
    }
  }

  /** A catalog where user "u" holds ids "1" then "2", and both books have one copy out. */
  function Reorder(): (c: Catalog)
    ensures Consistent(c)
  {
    var c := Catalog([BookRec("A", "1", 2, 1), BookRec("B", "2", 1, 1)], [UserRec("u", "9", ["1", "2"])]);
    assert BookIds(c.books) == ["1", "2"];
    assert multiset(c.users[0].borrowed)["1"] == 1 && multiset(c.users[0].borrowed)["2"] == 1;
    c
  }

  /** When the user already holds the book and a different id follows it,
      the round trip reorders the list: in `Reorder()`, borrowing and
      returning book "A" leaves the user with "2" then "1", because the
      return drops the first entry. */
  lemma RoundTripReordersHeldCopy()
    ensures BorrowBook(Reorder(), "u", "A").ok
    ensures ReturnBook(BorrowBook(Reorder(), "u", "A").state, "u", "A").state.users[0].borrowed == ["2", "1"]
    ensures Reorder().users[0].borrowed == ["1", "2"]
  {
    var c := Reorder();
    assert FindUser(c, "u") == Some(0) && FindBook(c, "A") == Some(0);
    BorrowBookAt(c, "u", "A", 0, 0);
    var mid := BorrowBook(c, "u", "A").state;
    assert mid.users[0].borrowed == ["1", "2", "1"];
    assert FindUser(mid, "u") == Some(0) && FindBook(mid, "A") == Some(0);
    ReturnBookAt(mid, "u", "A", 0, 0);
    FirstIndexOfAt(["1", "2", "1"], "1", 0);
    assert RemoveFirst(["1", "2", "1"], "1") == ["2", "1"];
  }

  /** `add_book` does not check ids: adding a second book under an id
      already in use breaks the invariant, which is why `AddBookConsistent`
      asks for a fresh id. */
  lemma AddBookReusedIdBreaksConsistent()
    ensures Consistent(Catalog([BookRec("A", "1", 1, 0)], []))
    ensures !Consistent(AddBook(Catalog([BookRec("A", "1", 1, 0)], []), "B", "1", 1))
  {
    var c := Catalog([BookRec("A", "1", 1, 0)], []);
    assert Held([], "1") == 0;
    var r := AddBook(c, "B", "1", 1);
    assert r.books[0].id == r.books[1].id;
  }

  /** Two books sharing an id: the user took a copy of "A", and returning
      "B" instead succeeds, empties the user's list and changes no book, so
      the copy of "A" stays out with nobody holding it. */
  function SharedId(): Catalog {
    Catalog([BookRec("A", "1", 1, 1), BookRec("B", "1", 1, 0)], [UserRec("u", "9", ["1"])])
  }

  lemma SharedIdReturnStrandsCopy()
    ensures ReturnBook(SharedId(), "u", "B") == Step(true, Catalog(SharedId().books, [UserRec("u", "9", [])]))
    ensures BorrowersOf(ReturnBook(SharedId(), "u", "B").state, "A") == []
    ensures ReturnBook(SharedId(), "u", "B").state.books[0].totalBorrows == 1
  {
    var c := SharedId();
    FirstIndexOfAt(UserNames(c.users), "u", 0);
    FirstIndexOfAt(BookNames(c.books), "B", 1);
    ReturnBookAt(c, "u", "B", 0, 1);
    FirstIndexOfAt(["1"], "1", 0);
    assert RemoveFirst(["1"], "1") == [];
    var d := Catalog(c.books, [UserRec("u", "9", [])]);
    FirstIndexOfAt(BookNames(d.books), "A", 0);
    assert HoldersOf(d.users[1..], "1") == [];
  }
}
