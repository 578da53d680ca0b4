# Library catalog — a Dafny model

This project models the in-memory catalog of a console library system. The
catalog holds books (title, author, ISBN, an availability flag) and users
(students and faculty), each with the ordered list of books they have
borrowed. Users borrow and return books, and the catalog files books under
their ISBN and users under their id in two ordered maps. The model
follows the C++ classes. `Book`, `User` and `Library` are Dafny classes whose
methods update their fields in place. The process-wide user id counter is an
`IdCounter` object that is passed explicitly. The factories and the
resolved check-out and check-in steps of the transaction menu are methods
over those objects.

Modules, one per component:

- `Strings`: the key order of `std::map<string, …>`, which is std::string's
  lexicographic order (`Less`). Lemmas show it is a strict total order.
- `Books`: `Book` and `BookFactory::createBook`.
- `Users`: the Student/Faculty tag, the factory's decision on the type
  code, the id counter, and `User` with `borrowBook` and `returnBook`. Also
  `RemoveFirst`, the specification of `vector::erase` at the position
  `std::find` returns, with its lemmas.
- `Catalog`: `Library`, with `addBook`, `addUser`, `findBookByTitle` (an
  in-order walk over the ISBN keys that stops at the first title match) and
  `findUserByID`. `Library.Valid()` is the borrow/return consistency
  invariant: a catalog book is unavailable exactly when some user holds it;
  every held book is unavailable, is held by one user only, and appears once
  in that user's list.
- `Transactions`: registering a book or a user as the menus do (factory,
  then add), and checking a resolved book out to a resolved user or back in.
  Each keeps `Valid()`.
- `Scenarios`: client methods that drive the operations above and state what
  their contracts give a caller. They cover a borrow/return round trip, a
  rejected user type that uses no id, and two books sharing a title.

Two behaviours of the code a reader may not expect:

- Books are kept in ISBN key order, not in insertion order.
- "A book is available iff no user holds it" is guaranteed only for books
  still in the catalog and books some user holds. `addBook` with an ISBN
  already in use drops the old book from the catalog even if a user still
  holds it.

## Model

| member | source | states |
|---|---|---|
| `Strings.LessIrreflexive` | CIS17B-S25-33477-Assignment2/Source.cpp:132 | no ISBN key sorts before itself |
| `Strings.LessAsymmetric` | CIS17B-S25-33477-Assignment2/Source.cpp:132 | two keys never sort before each other |
| `Strings.LessTransitive` | CIS17B-S25-33477-Assignment2/Source.cpp:132 | the key order is transitive |
| `Strings.LessTotal` | CIS17B-S25-33477-Assignment2/Source.cpp:132 | any two different keys are ordered one way or the other, so the map's walk order is determined |
| `Books.Book.constructor` | CIS17B-S25-33477-Assignment2/Source.cpp:24-25 | a new book keeps the given title, author and ISBN and starts available |
| `Books.CreateBook` | CIS17B-S25-33477-Assignment2/Source.cpp:222-224 | the factory always succeeds with a fresh, available book holding exactly the given fields |
| `Users.UserKind.ClassType` | CIS17B-S25-33477-Assignment2/Source.cpp:114-125 | a user reports "Student" exactly when it is a student and "Faculty" exactly when it is faculty |
| `Users.KindFor` | CIS17B-S25-33477-Assignment2/Source.cpp:207-217 | type 1 means Student, type 2 means Faculty, and every other type is the invalid-argument error "Invalid user type." |
| `Users.IdCounter.constructor` | CIS17B-S25-33477-Assignment2/Source.cpp:108 | the id counter starts at 0 |
| `Users.User.constructor` | CIS17B-S25-33477-Assignment2/Source.cpp:61-63 | a new user takes the counter's current value as its id, the counter goes up by one, and the borrowed list starts empty |
| `Users.IndexOf` | CIS17B-S25-33477-Assignment2/Source.cpp:78-79 | the result is the first position holding the book by identity; it equals the list length exactly when the book is absent |
| `Users.RemoveFirstAt` | CIS17B-S25-33477-Assignment2/Source.cpp:78-80 | removing a book deletes the position of its first occurrence; the other entries keep their order |
| `Users.RemoveFirstAbsent` | CIS17B-S25-33477-Assignment2/Source.cpp:83-85 | removing a book that is not in the list leaves the list unchanged |
| `Users.RemoveFirstMultiset` | CIS17B-S25-33477-Assignment2/Source.cpp:80 | removal takes away exactly one copy of the book and nothing else |
| `Users.RemoveFirstMembers` | CIS17B-S25-33477-Assignment2/Source.cpp:80 | removal adds no entry and keeps every entry other than the removed book |
| `Users.RemoveFirstAppended` | CIS17B-S25-33477-Assignment2/Source.cpp:67-82 | borrowing a book the list does not hold and then returning it restores the list |
| `Users.User.BorrowBook` | CIS17B-S25-33477-Assignment2/Source.cpp:67-75 | an available book goes to the end of the list and becomes unavailable; an unavailable book changes nothing; only this user and this book are modified |
| `Users.User.ReturnBook` | CIS17B-S25-33477-Assignment2/Source.cpp:77-86 | the first occurrence of the book (by identity) leaves the list and the book becomes available; a book not in the list changes nothing |
| `Users.CreateUser` | CIS17B-S25-33477-Assignment2/Source.cpp:207-217 | types 1 and 2 build a fresh Student or Faculty with the next id and advance the counter; any other type is an invalid-argument error and the counter is untouched |
| `Catalog.LeastKey` | CIS17B-S25-33477-Assignment2/Source.cpp:155 | the next key of the map's in-order walk is the least key not yet visited |
| `Catalog.Library.constructor` | CIS17B-S25-33477-Assignment2/Source.cpp:135 | the catalog starts with no books and no users |
| `Catalog.Library.AddBook` | CIS17B-S25-33477-Assignment2/Source.cpp:146-148 | exactly the book's ISBN key is set to the book, replacing any previous book, and nothing else changes; an available book keeps the catalog consistent |
| `Catalog.Library.AddUser` | CIS17B-S25-33477-Assignment2/Source.cpp:150-152 | exactly the user's id key is set to the user and nothing else changes; a new id and an empty list keep the catalog consistent |
| `Catalog.Library.FindBookByTitle` | CIS17B-S25-33477-Assignment2/Source.cpp:154-161 | null exactly when no book has the title; otherwise the catalog book with that exact title whose ISBN is least in key order |
| `Catalog.Library.FindUserByID` | CIS17B-S25-33477-Assignment2/Source.cpp:163-168 | the user filed under the id when the id is a key, null exactly when it is not; in a catalog whose users are filed under their own ids, the user found carries the id asked for |
| `Transactions.RegisterBook` | CIS17B-S25-33477-Assignment2/Source.cpp:249-250 | adding a book files a fresh available book under its ISBN and keeps the catalog consistent |
| `Transactions.RegisterUser` | CIS17B-S25-33477-Assignment2/Source.cpp:303-309 | a built user gets the next id, which no registered user has, so nothing is overwritten and ids keep increasing; a rejected type leaves the catalog and the counter unchanged; consistency is kept |
| `Transactions.CheckOut` | CIS17B-S25-33477-Assignment2/Source.cpp:370-376 | an available book is appended to the user's list and becomes unavailable; an unavailable one is reported and nothing changes; consistency is kept |
| `Transactions.HasBorrowedTitle` | CIS17B-S25-33477-Assignment2/Source.cpp:424-430 | true exactly when some book in the list has exactly the title |
| `Transactions.CheckInAsWritten` | CIS17B-S25-33477-Assignment2/Source.cpp:424-439 | success is reported exactly when the user holds some book with the title; the resolved book is then removed only if it is itself in the list, and a book not in the list keeps its flag; consistency is kept |
| `Transactions.CheckInAsWrittenReportsWithoutReturn` | CIS17B-S25-33477-Assignment2/Source.cpp:424-438 | for every list that holds a book with the resolved book's title but not the resolved book itself, the guard passes and removal leaves the list unchanged |
| `Transactions.CheckIn` | CIS17B-S25-33477-Assignment2/Source.cpp:437-438 | success is reported exactly when the user holds the resolved book, which is then removed and available again; consistency is kept |

## Findings

| source | as written | input that shows it | evidently intended | confidence | as-written member | corrected member |
|---|---|---|---|---|---|---|
| CIS17B-S25-33477-Assignment2/Source.cpp:424-439 | the check-in guard passes when the user holds any book with the typed title; returnBook then removes the resolved book by identity; when it is not held, returnBook prints "You have not borrowed this book." and the menu still prints "has been checked in", so both lines appear | add "Dune" with ISBN "B" and check it out to user 0; add "Dune" with ISBN "A"; check in "Dune" for user 0: the lookup resolves "A", the guard passes on "B", nothing is returned, and success is reported | report a check-in only when the resolved book itself was returned | medium, not executed | `Transactions.CheckInAsWritten` (with `Transactions.CheckInAsWrittenReportsWithoutReturn`) | `Transactions.CheckIn` |

## Left out

- Console I/O and the menu loops (`manageBooks`, `manageUsers`, `manageTransactions`, `main`, Source.cpp:227-494). The transaction methods take the book and user that the prompts resolved. The re-prompts on a title or id that is not found are the null results of `FindBookByTitle` and `FindUserByID`.
- The cancel path at the user-type prompt, which leaves `userType` unset (Source.cpp:280, 296). It is part of the prompt handling.
- `stoi` parsing of typed numbers. It is library behaviour. The model takes the integer it would produce.
- `displayBook`, `listBorrowedBooks`, `listBooks` and `listUsers`. They only format text. Their order is the map key order and the borrow order that the model keeps.
- The failure messages that `borrowBook` prints ("Book is not available for borrowing.", Source.cpp:73) and that `returnBook` prints ("You have not borrowed this book.", Source.cpp:84). The model keeps only their effect, which is no change of state. An `Outcome` names only the report the menu prints after the transaction.
- `setAvailability`, `isAvailable` and the getters. The model reads and writes the fields directly: the bibliographic fields, name, id and kind are `const`, and `available` and `borrowed` are `var`.
- The singleton's lazy initialisation, raw `new` and leaked memory. A single `Library` object is passed explicitly.
- `virtual` dispatch for `getClassType`. A `UserKind` tag replaces the subclasses.
- Users.User.constructor: does not model the 32-bit `int` width of `idCounter`. Ids are unbounded integers, so the overflow after 2^31 - 1 users (undefined behaviour in C++) is not represented.
- Strings.Less: compares characters by code point. This matches std::string's byte-wise comparison for single-byte text. Multi-byte encodings are not modelled.
- Catalog.Library.AddUser: consistency is promised only when the id is new and the user holds nothing. The source never calls it otherwise, because the counter guarantees a fresh id; `Transactions.RegisterUser` shows this.
