/** The catalog: books keyed by ISBN and users keyed by id, each in an
    ordered map. */
module Catalog {
  import opened Strings
  import opened Books
  import opened Users

  /** The next key of an in-order walk over a std::map: the least key not
      yet visited. */
  method LeastKey(keys: set<string>) returns (least: string)
    requires keys != {}
    ensures least in keys
    ensures forall k :: k in keys && k != least ==> Less(least, k)
  {
    least :| least in keys;
    var rest := keys - {least};
    while rest != {}
      invariant rest <= keys && least in keys && least !in rest
      invariant forall k :: k in keys - rest && k != least ==> Less(least, k)
      decreases rest
    {
      var k :| k in rest;
      if Less(k, least) {
        forall j | j in keys - rest && j != k
          ensures Less(k, j)
        {
          if j != least {
            LessTransitive(k, least, j);
          }
        }
        least := k;
      } else {
        LessTotal(k, least);
      }
      rest := rest - {k};
    }
  }

  class Library {
    var books: map<string, Book>
    var users: map<int, User>

    /** An empty catalog. */
    constructor ()
      ensures books == map[] && users == map[]
    {
      books := map[];
      users := map[];
    }

    /** Every entry is filed under its own key. */
    ghost predicate KeysMatch()
      reads this
    {
      && (forall isbn :: isbn in books ==> books[isbn].isbn == isbn)
      && (forall id :: id in users ==> users[id].id == id)
    }

    /** The books some registered user holds. */
    ghost function Held(): set<Book>
      reads this, users.Values
    {
      set id, b | id in users && b in users[id].borrowed :: b
    }

    /** The borrow/return consistency: a catalog book is available exactly
        when no user holds it; a held book is unavailable, held by one user
        only, and once only in that user's list. */
    ghost predicate Valid()
      reads this, users.Values, books.Values, Held()
    {
      && KeysMatch()
      && (forall id :: id in users ==> Distinct(users[id].borrowed))
      && (forall id, other, b :: id in users && other in users && b in users[id].borrowed && b in users[other].borrowed ==> id == other)
      && (forall id, b :: id in users && b in users[id].borrowed ==> !b.available)
      && (forall isbn :: isbn in books && !books[isbn].available ==> exists id :: id in users && books[isbn] in users[id].borrowed)
    }

    /** No registered user has an id the counter has yet to hand out, so the
        next user created cannot replace one already filed. */
    ghost predicate IdsBelow(ids: IdCounter)
      reads this, ids
    {
      forall id :: id in users ==> id < ids.next
    }

    /** addBook: files the book under its ISBN, replacing any book there. */
    method AddBook(book: Book)
      modifies this
      ensures books == old(books)[book.isbn := book] && users == old(users)
      ensures old(Valid()) && book.available ==> Valid()
    {
      books := books[book.isbn := book];
    }

    /** addUser: files the user under its id, replacing any user there. */
    method AddUser(user: User)
      modifies this
      ensures users == old(users)[user.id := user] && books == old(books)
      ensures old(Valid()) && user.id !in old(users) && user.borrowed == [] ==> Valid()
    {
      users := users[user.id := user];
      if old(Valid()) && user.id !in old(users) {
        forall isbn | isbn in books && !books[isbn].available
          ensures exists id :: id in users && books[isbn] in users[id].borrowed
        {
          var id :| id in old(users) && books[isbn] in old(users)[id].borrowed;
          assert users[id] == old(users)[id];
        }
      }
    }

    /** findBookByTitle: walks the books in ISBN order and stops at the first
        whose title is exactly the one asked for; null when none has it. */
    method FindBookByTitle(title: string) returns (found: Book?)
      requires KeysMatch()
      ensures found == null <==> forall isbn :: isbn in books ==> books[isbn].title != title
      ensures found != null ==> found.isbn in books && books[found.isbn] == found && found.title == title
      ensures found != null ==> forall isbn :: isbn in books && books[isbn].title == title ==> !Less(isbn, found.isbn)
    {
      var rest := books.Keys;
      while rest != {}
        invariant rest <= books.Keys
        invariant forall isbn :: isbn in books.Keys - rest ==> books[isbn].title != title
        invariant forall seen, next :: seen in books.Keys - rest && next in rest ==> Less(seen, next)
        decreases rest
      {
        var isbn := LeastKey(rest);
        if books[isbn].title == title {
          forall other | other in books && books[other].title == title
            ensures !Less(other, isbn)
          {
            if other == isbn {
              LessIrreflexive(isbn);
            } else {
              LessAsymmetric(isbn, other);
            }
          }
          return books[isbn];
        }
        rest := rest - {isbn};
      }
      return null;
    }

    /** findUserByID: the user filed under the id, or null when there is none. */
    function FindUserByID(id: int): (found: User?)
      reads this
      ensures found != null <==> id in users
      ensures found != null ==> found in users.Values && found == users[id]
      ensures found != null && KeysMatch() ==> found.id == id
    {
      if id in users then users[id] else null
    }
  }
}
