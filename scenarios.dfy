/** Sessions of catalog operations, as an operator would drive them through
    the menus, with what the contracts above let a caller conclude. */
module Scenarios {
  import opened Books
  import opened Users
  import opened Catalog
  import opened Transactions

  /** Add "1984", add a student, check the book out to her and back in;
      then a rejected user type does not use up an id. */
  method BorrowAndReturn() {
    var lib := new Library();
    var ids := new IdCounter();
    var book := RegisterBook(lib, "1984", "Orwell", "111");
    var r := RegisterUser(lib, ids, 1, "Alice");
    assert r.Ok? && r.value.id == 0 && r.value.kind.ClassType() == "Student";
    var alice := r.value;
    assert lib.FindUserByID(0) == alice;

    var found := lib.FindBookByTitle("1984");
    assert lib.books["111"].title == "1984";
    assert found == book;
    var outcome := CheckOut(lib, found, alice);
    assert outcome == CheckedOut && !book.available && alice.borrowed == [book];

    outcome := CheckIn(lib, book, alice);
    assert outcome == CheckedIn && book.available && alice.borrowed == [];

    var rejected := RegisterUser(lib, ids, 3, "Bob");
    assert rejected.InvalidArgument? && lib.users.Keys == {0};
    var next := RegisterUser(lib, ids, 2, "Carol");
    assert next.Ok? && next.value.id == 1;
  }

  /** Two books titled "Dune": lookup by title reaches the one with the
      smaller ISBN, whichever was added first. */
  method SharedTitleLookup() {
    var lib := new Library();
    var later := RegisterBook(lib, "Dune", "Herbert", "B");
    var first := RegisterBook(lib, "Dune", "Herbert", "A");
    var found := lib.FindBookByTitle("Dune");
    assert lib.books["A"].title == "Dune" && Strings.Less("A", "B");
    assert found == first;
  }

  /** A user holds one "Dune" while lookup resolves the other: the menu's
      check-in reports success and returns nothing; the identity-guarded
      check-in reports that the book is not borrowed. */
  method SharedTitleCheckIn(lib: Library, dana: User, held: Book, found: Book)
    requires lib.Valid()
    requires dana.id in lib.users && lib.users[dana.id] == dana
    requires dana.borrowed == [held] && held != found && held.title == found.title
    modifies dana, found
  {
    assert dana.borrowed[0].title == found.title;
    ghost var wasAvailable := found.available;
    var outcome := CheckInAsWritten(lib, found, dana, found.title);
    assert outcome == CheckedIn && dana.borrowed == [held] && found.available == wasAvailable;
    outcome := CheckIn(lib, found, dana);
    assert outcome == NotBorrowed;
  }
}
