/** Library users: Student and Faculty share every field and differ only in
    their class tag; each holds the books it has borrowed, in borrow order. */
module Users {
  import opened Books

  /** The class of a user, in place of the Student/Faculty subclasses. */
  datatype UserKind = Student | Faculty {
    /** getClassType: the name each subclass reports. */
    function ClassType(): (s: string)
      ensures s == "Student" <==> this == Student
      ensures s == "Faculty" <==> this == Faculty
    {
      match this
      case Student => "Student"
      case Faculty => "Faculty"
    }
  }

  /** A value, or the invalid_argument exception with its message. */
  datatype Result<T> = Ok(value: T) | InvalidArgument(message: string)

  /** The decision UserFactory::createUser takes on the type code. */
  function KindFor(userType: int): (r: Result<UserKind>)
    ensures r.Ok? <==> userType == 1 || userType == 2
    ensures r == Ok(Student) <==> userType == 1
    ensures r == Ok(Faculty) <==> userType == 2
    ensures r.InvalidArgument? ==> r.message == "Invalid user type."
  {
    if userType == 1 then Ok(Student)
    else if userType == 2 then Ok(Faculty)
    else InvalidArgument("Invalid user type.")
  }

  /** The process-wide User::idCounter, starting at 0. */
  class IdCounter {
    var next: int

    constructor ()
      ensures next == 0
    {
      next := 0;
    }
  }

  /** Every element occurs at most once. */
  ghost predicate Distinct<T>(s: seq<T>) {
    forall x :: x in s ==> multiset(s)[x] == 1
  }

  /** s without its first occurrence of x (vector::erase at the position
      std::find returns); s itself when x does not occur. */
  function RemoveFirst<T(==)>(s: seq<T>, x: T): seq<T>
  {
    if s == [] then []
    else if s[0] == x then s[1..]
    else [s[0]] + RemoveFirst(s[1..], x)
  }

  /** Removing the first occurrence deletes the position of that occurrence
      and keeps the other entries in their order. */
  lemma {:induction false} RemoveFirstAt<T>(s: seq<T>, x: T, i: nat)
    requires i < |s| && s[i] == x && x !in s[..i]
    ensures RemoveFirst(s, x) == s[..i] + s[i + 1..]
  {
    if i > 0 {
      assert s[0] in s[..i];
      assert s[1..][..i - 1] == s[1..i];
      RemoveFirstAt(s[1..], x, i - 1);
      assert s[..i] == [s[0]] + s[1..i];
    }
  }

  /** Removing something that does not occur changes nothing. */
  lemma {:induction false} RemoveFirstAbsent<T>(s: seq<T>, x: T)
    requires x !in s
    ensures RemoveFirst(s, x) == s
  {
    if s != [] {
      assert s[0] != x;
      RemoveFirstAbsent(s[1..], x);
    }
  }

  /** Exactly one copy of x is removed, and nothing else. */
  lemma {:induction false} RemoveFirstMultiset<T>(s: seq<T>, x: T)
    requires x in s
    ensures multiset(RemoveFirst(s, x)) == multiset(s) - multiset{x}
  {
    assert s == [s[0]] + s[1..];
    if s[0] != x {
      assert x in s[1..];
      RemoveFirstMultiset(s[1..], x);
    }
  }

  /** Removal keeps every other element and adds none. */
  lemma {:induction false} RemoveFirstMembers<T>(s: seq<T>, x: T, y: T)
    ensures y in RemoveFirst(s, x) ==> y in s
    ensures y in s && y != x ==> y in RemoveFirst(s, x)
  {
    if s != [] && s[0] != x {
      RemoveFirstMembers(s[1..], x, y);
      assert s == [s[0]] + s[1..];
    }
  }

  /** Borrowing a book not yet held and returning it restores the list. */
  lemma {:induction false} RemoveFirstAppended<T>(s: seq<T>, x: T)
    requires x !in s
    ensures RemoveFirst(s + [x], x) == s
  {
    assert (s + [x])[|s|] == x && (s + [x])[..|s|] == s;
    RemoveFirstAt(s + [x], x, |s|);
  }

  /** std::find by identity: the first position holding x, or |s| when x
      does not occur. */
  method IndexOf<T(==)>(s: seq<T>, x: T) returns (i: nat)
    ensures i <= |s|
    ensures i == |s| <==> x !in s
    ensures i < |s| ==> s[i] == x && x !in s[..i]
  {
    i := 0;
    while i < |s| && s[i] != x
      invariant i <= |s|
      invariant x !in s[..i]
    {
      i := i + 1;
    }
  }

  class User {
    const name: string
    const id: int
    const kind: UserKind
    var borrowed: seq<Book>

    /** Takes the counter's current value as the id and increments it. */
    constructor (name: string, kind: UserKind, ids: IdCounter)
      modifies ids
      ensures this.name == name && this.kind == kind
      ensures id == old(ids.next) && ids.next == old(ids.next) + 1
      ensures borrowed == []
    {
      this.name := name;
      this.kind := kind;
      id := ids.next;
      borrowed := [];
      ids.next := ids.next + 1;
    }

    /** borrowBook: an available book goes to the end of the list and becomes
        unavailable; an unavailable one changes nothing. */
    method BorrowBook(book: Book)
      modifies this, book
      ensures old(book.available) ==> borrowed == old(borrowed) + [book] && !book.available
      ensures !old(book.available) ==> borrowed == old(borrowed) && !book.available
    {
      if book.available {
        borrowed := borrowed + [book];
        book.available := false;
      }
    }

    /** returnBook: the first occurrence of the book (by identity) leaves the
        list and the book becomes available; a book not in the list changes
        nothing. */
    method ReturnBook(book: Book)
      modifies this, book
      ensures borrowed == RemoveFirst(old(borrowed), book)
      ensures book in old(borrowed) ==> book.available
      ensures book !in old(borrowed) ==> book.available == old(book.available)
    {
      var i := IndexOf(borrowed, book);
      if i < |borrowed| {
        RemoveFirstAt(borrowed, book, i);
        borrowed := borrowed[..i] + borrowed[i + 1..];
        book.available := true;
      } else {
        RemoveFirstAbsent(borrowed, book);
      }
    }
  }

  /** UserFactory::createUser: type 1 builds a Student, type 2 a Faculty;
      any other type throws before a constructor runs, so no id is used. */
  method CreateUser(userType: int, name: string, ids: IdCounter) returns (r: Result<User>)
    modifies ids
    ensures r.Ok? <==> KindFor(userType).Ok?
    ensures r.Ok? ==> fresh(r.value) && r.value.name == name && r.value.kind == KindFor(userType).value
    ensures r.Ok? ==> r.value.id == old(ids.next) && ids.next == old(ids.next) + 1 && r.value.borrowed == []
    ensures r.InvalidArgument? ==> r.message == KindFor(userType).message && ids.next == old(ids.next)
  {
    match KindFor(userType)
    case Ok(kind) =>
      var user := new User(name, kind, ids);
      r := Ok(user);
    case InvalidArgument(message) =>
      r := InvalidArgument(message);
  }
}
