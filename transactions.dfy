/** The catalog operations the menus perform once their input is resolved:
    registering a book or a user, checking a book out to a user, and checking
    it back in. */
module Transactions {
  import opened Books
  import opened Users
  import opened Catalog

  /** Which report the menu prints after a transaction. The messages that
      borrowBook and returnBook print themselves are not part of it. */
  datatype Outcome = CheckedOut | Unavailable | CheckedIn | NotBorrowed

  /** Add a book: build it with the factory and file it under its ISBN. */
  method RegisterBook(lib: Library, title: string, author: string, isbn: string) returns (book: Book)
    requires lib.Valid()
    modifies lib
    ensures lib.Valid()
    ensures fresh(book) && book.available
    ensures book.title == title && book.author == author && book.isbn == isbn
    ensures lib.books == old(lib.books)[isbn := book] && lib.users == old(lib.users)
  {
    book := CreateBook(title, author, isbn);
    lib.AddBook(book);
  }

  /** Add a user: the factory decides on the type; a user it builds gets the
      next id, which no registered user has, and is filed under it; a
      rejected type changes neither the catalog nor the counter. */
  method RegisterUser(lib: Library, ids: IdCounter, userType: int, name: string) returns (r: Result<User>)
    requires lib.Valid() && lib.IdsBelow(ids)
    modifies lib, ids
    ensures lib.Valid() && lib.IdsBelow(ids)
    ensures r.Ok? <==> userType == 1 || userType == 2
    ensures lib.books == old(lib.books)
    ensures r.Ok? ==> fresh(r.value) && r.value.name == name && r.value.kind == KindFor(userType).value && r.value.borrowed == []
    ensures r.Ok? ==> r.value.id == old(ids.next) && ids.next == old(ids.next) + 1
    ensures r.Ok? ==> r.value.id !in old(lib.users) && lib.users == old(lib.users)[r.value.id := r.value]
    ensures r.InvalidArgument? ==> lib.users == old(lib.users) && ids.next == old(ids.next)
  {
    r := CreateUser(userType, name, ids);
    if r.Ok? {
      lib.AddUser(r.value);
    }
  }

  /** Check out a resolved book to a resolved user: an available book is
      borrowed, an unavailable one is reported and nothing changes. */
  method CheckOut(lib: Library, book: Book, user: User) returns (outcome: Outcome)
    requires lib.Valid()
    requires user.id in lib.users && lib.users[user.id] == user
    modifies user, book
    ensures lib.Valid()
    ensures outcome == if old(book.available) then CheckedOut else Unavailable
    ensures old(book.available) ==> user.borrowed == old(user.borrowed) + [book]
    ensures !old(book.available) ==> user.borrowed == old(user.borrowed)
    ensures !book.available
  {
    if book.available {
      user.BorrowBook(book);
      assert book in lib.users[user.id].borrowed;
      forall isbn | isbn in lib.books && !lib.books[isbn].available
        ensures exists id :: id in lib.users && lib.books[isbn] in lib.users[id].borrowed
      {
        var b := lib.books[isbn];
        if b != book {
          var holder :| holder in lib.users && b in old(lib.users[holder].borrowed);
          assert b in lib.users[holder].borrowed;
        }
      }
      outcome := CheckedOut;
    } else {
      outcome := Unavailable;
    }
  }

  /** Check in a resolved book for a resolved user, guarded by the user
      actually holding that book: it is returned exactly when it is held. */
  method CheckIn(lib: Library, book: Book, user: User) returns (outcome: Outcome)
    requires lib.Valid()
    requires user.id in lib.users && lib.users[user.id] == user
    modifies user, book
    ensures lib.Valid()
    ensures outcome == if book in old(user.borrowed) then CheckedIn else NotBorrowed
    ensures user.borrowed == RemoveFirst(old(user.borrowed), book)
    ensures book in old(user.borrowed) ==> book !in user.borrowed && book.available
    ensures book !in old(user.borrowed) ==> user.borrowed == old(user.borrowed) && book.available == old(book.available)
  {
    var i := IndexOf(user.borrowed, book);
    if i == |user.borrowed| {
      RemoveFirstAbsent(user.borrowed, book);
      return NotBorrowed;
    }
    assert Distinct(lib.users[user.id].borrowed);
    RemoveFirstMultiset(user.borrowed, book);
    ghost var before := user.borrowed;
    user.ReturnBook(book);
    outcome := CheckedIn;
    assert book !in user.borrowed;
    assert lib.Valid() by {
      assert Distinct(user.borrowed);
      forall id, b | id in lib.users && b in lib.users[id].borrowed
        ensures b in old(lib.users[id].borrowed) && b != book
      {
        RemoveFirstMembers(before, book, b);
      }
      forall isbn | isbn in lib.books && !lib.books[isbn].available
        ensures exists id :: id in lib.users && lib.books[isbn] in lib.users[id].borrowed
      {
        var b := lib.books[isbn];
        var holder :| holder in lib.users && b in old(lib.users[holder].borrowed);
        RemoveFirstMembers(before, book, b);
        assert b in lib.users[holder].borrowed;
      }
    }
  }

  /** Some book in the list has exactly this title. */
  ghost predicate TitleHeld(borrowed: seq<Book>, title: string) {
    exists i :: 0 <= i < |borrowed| && borrowed[i].title == title
  }

  /** The check-in guard's scan of the user's list for a book with the
      title the operator typed. */
  method HasBorrowedTitle(borrowed: seq<Book>, title: string) returns (found: bool)
    ensures found <==> TitleHeld(borrowed, title)
  {
    found := false;
    var i := 0;
    while i < |borrowed|
      invariant i <= |borrowed|
      invariant forall j :: 0 <= j < i ==> borrowed[j].title != title
    {
      if borrowed[i].title == title {
        return true;
      }
      i := i + 1;
    }
  }

  /** Check-in as the menu performs it: the guard asks whether the user holds
      SOME book with the title, while returnBook removes the resolved book by
      identity; "checked in" is reported whenever the guard passes. */
  method CheckInAsWritten(lib: Library, book: Book, user: User, title: string) returns (outcome: Outcome)
    requires lib.Valid()
    requires user.id in lib.users && lib.users[user.id] == user
    modifies user, book
    ensures lib.Valid()
    ensures outcome == if TitleHeld(old(user.borrowed), title) then CheckedIn else NotBorrowed
    ensures outcome == CheckedIn ==> user.borrowed == RemoveFirst(old(user.borrowed), book)
    ensures outcome == CheckedIn && book in old(user.borrowed) ==> book.available
    ensures book !in old(user.borrowed) ==> book.available == old(book.available)
    ensures outcome == NotBorrowed ==> user.borrowed == old(user.borrowed) && book.available == old(book.available)
  {
    var has := HasBorrowedTitle(user.borrowed, title);
    if !has {
      return NotBorrowed;
    }
    var _ := CheckIn(lib, book, user);
    outcome := CheckedIn;
  }

  /** The guard of CheckInAsWritten passes for any user who holds a book
      with the same title as the resolved book but not the resolved book
      itself; returnBook then removes nothing, yet "checked in" is reported. */
  lemma CheckInAsWrittenReportsWithoutReturn(borrowed: seq<Book>, resolved: Book, held: Book)
    requires held in borrowed && resolved !in borrowed && held.title == resolved.title
    ensures TitleHeld(borrowed, resolved.title)
    ensures RemoveFirst(borrowed, resolved) == borrowed
  {
    var i :| 0 <= i < |borrowed| && borrowed[i] == held;
    assert borrowed[i].title == resolved.title;
    RemoveFirstAbsent(borrowed, resolved);
  }
}
