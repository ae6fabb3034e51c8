/** The seed data the interactive shell loads at start-up (six books, four
    users, `math3` lent to `mostafa` and then to `noha`), replayed on the
    value model. */
module LibraryScenario {
  import opened LibrarySpec
  import opened LibraryInvariant

  /** The six seed books, none lent. */
  const Shelf := [BookRec("math4", "100", 3, 0), BookRec("math2", "101", 5, 0), BookRec("math1", "102", 4, 0),
                  BookRec("math3", "103", 2, 0), BookRec("prog1", "201", 3, 0), BookRec("prog2", "202", 3, 0)]

  /** The four seed users, holding nothing. */
  const Roster := [UserRec("mostafa", "30301", []), UserRec("ali", "50501", []),
                   UserRec("noha", "70701", []), UserRec("ashraf", "90901", [])]

  /** The catalog the six `add_book` and four `add_user` calls build. */
  lemma StockedByAdds()
    ensures var books := AddBook(AddBook(AddBook(AddBook(AddBook(AddBook(Empty,
              "math4", "100", 3), "math2", "101", 5), "math1", "102", 4),
              "math3", "103", 2), "prog1", "201", 3), "prog2", "202", 3);
      AddUser(AddUser(AddUser(AddUser(books, "mostafa", "30301"), "ali", "50501"), "noha", "70701"), "ashraf", "90901")
        == Catalog(Shelf, Roster)
  {
  }

  /** The stocked catalog keeps the bookkeeping invariant: its ids are distinct
      and nothing is lent. */
  lemma StockedConsistent()
    ensures Consistent(Catalog(Shelf, Roster))
  {
    ShelfIdsDistinct();
    assert forall u :: 0 <= u < |Roster| ==> Roster[u].borrowed == [];
    forall i | 0 <= i < |Shelf|
      ensures Held(Roster, Shelf[i].id) == 0
    {
      HeldZero(Roster, Shelf[i].id);
    }
  }

  /** The seed ids differ pairwise: each pair differs in its first or its last digit. */
  lemma ShelfIdsDistinct()
    ensures forall i, j :: 0 <= i < j < |Shelf| ==> Shelf[i].id != Shelf[j].id
  {
    forall i, j | 0 <= i < j < |Shelf|
      ensures Shelf[i].id != Shelf[j].id
    {
      assert Shelf[i].id[0] != Shelf[j].id[0] || Shelf[i].id[2] != Shelf[j].id[2];
    }
  }

  /** The first seed borrow: `mostafa` takes one of the two `math3` copies. */
  lemma FirstSeedBorrow()
    ensures BorrowBook(Catalog(Shelf, Roster), "mostafa", "math3")
         == Step(true, Catalog(Shelf[3 := BookRec("math3", "103", 2, 1)],
                               Roster[0 := UserRec("mostafa", "30301", ["103"])]))
  {
    var c := Catalog(Shelf, Roster);
    FirstIndexOfAt(BookNames(Shelf), "math3", 3);
    FirstIndexOfAt(UserNames(Roster), "mostafa", 0);
    BorrowBookAt(c, "mostafa", "math3", 0, 3);
    assert Roster[0].borrowed + ["103"] == ["103"];
    assert TakeCopy(Shelf[3]).1 == BookRec("math3", "103", 2, 1);
    assert Roster[0].(borrowed := ["103"]) == UserRec("mostafa", "30301", ["103"]);
  }

  /** The catalog after both seed borrows. */
  function Seeded(): Catalog {
    Catalog(Shelf[3 := BookRec("math3", "103", 2, 2)],
            Roster[0 := UserRec("mostafa", "30301", ["103"])][2 := UserRec("noha", "70701", ["103"])])
  }

  /** The second seed borrow: `noha` takes the other copy. */
  lemma SecondSeedBorrow()
    ensures BorrowBook(BorrowBook(Catalog(Shelf, Roster), "mostafa", "math3").state, "noha", "math3")
         == Step(true, Seeded())
  {
    FirstSeedBorrow();
    var c := Catalog(Shelf[3 := BookRec("math3", "103", 2, 1)], Roster[0 := UserRec("mostafa", "30301", ["103"])]);
    FirstIndexOfAt(BookNames(c.books), "math3", 3);
    FirstIndexOfAt(UserNames(c.users), "noha", 2);
    BorrowBookAt(c, "noha", "math3", 2, 3);
    assert c.users[2].borrowed + ["103"] == ["103"];
    assert TakeCopy(c.books[3]).1 == BookRec("math3", "103", 2, 2);
    UpdateTwice(Shelf, 3, BookRec("math3", "103", 2, 1), BookRec("math3", "103", 2, 2));
    assert c.users[2].(borrowed := ["103"]) == UserRec("noha", "70701", ["103"]);
  }

  /** Updating one position twice keeps only the second value. */
  lemma UpdateTwice<T>(s: seq<T>, i: nat, a: T, b: T)
    requires i < |s|
    ensures s[i := a][i := b] == s[i := b]
  {
  }

  /** With both copies of `math3` out, a third borrow, by `ali`, fails and
      changes nothing. */
  lemma ThirdSeedBorrowFails()
    ensures BorrowBook(Seeded(), "ali", "math3") == Step(false, Seeded())
  {
    var c := Seeded();
    FirstIndexOfAt(BookNames(c.books), "math3", 3);
    FirstIndexOfAt(UserNames(c.users), "ali", 1);
  }

  /** The holders of `math3` are `mostafa` and `noha`, in roster order. */
  lemma SeedHolders()
    ensures BorrowersOf(Seeded(), "math3") == ["mostafa", "noha"]
  {
    var c := Seeded();
    FirstIndexOfAt(BookNames(c.books), "math3", 3);
    assert HoldersOf(c.users[3..], "103") == [];
    assert c.users[2..] == [c.users[2]] + c.users[3..];
    assert HoldersOf(c.users[2..], "103") == ["noha"];
  }

  /** The seed data keeps the bookkeeping invariant. */
  lemma SeedConsistent()
    ensures Consistent(Seeded())
  {
    StockedConsistent();
    BorrowBookConsistent(Catalog(Shelf, Roster), "mostafa", "math3");
    BorrowBookConsistent(BorrowBook(Catalog(Shelf, Roster), "mostafa", "math3").state, "noha", "math3");
    SecondSeedBorrow();
  }

  /** Once `mostafa` gives a copy back, `ali` can borrow `math3`. */
  lemma ReturnThenBorrow()
    ensures ReturnBook(Seeded(), "mostafa", "math3").ok
    ensures BorrowBook(ReturnBook(Seeded(), "mostafa", "math3").state, "ali", "math3").ok
  {
    var c := Seeded();
    FirstIndexOfAt(BookNames(c.books), "math3", 3);
    FirstIndexOfAt(UserNames(c.users), "mostafa", 0);
    ReturnBookAt(c, "mostafa", "math3", 0, 3);
    var d := ReturnBook(c, "mostafa", "math3").state;
    assert d.books[3] == BookRec("math3", "103", 2, 1);
    FirstIndexOfAt(BookNames(d.books), "math3", 3);
    FirstIndexOfAt(UserNames(d.users), "ali", 1);
  }
}
