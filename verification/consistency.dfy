/** The cross-record invariant of the catalog: a book is checked out
    exactly when one member's list holds its ISBN, and is held by nobody
    otherwise. Checkout and return preserve it. */
module Consistency {
  import opened Results
  import opened Seqs
  import opened Text
  import opened Models
  import opened Books
  import opened Users
  import opened Circulation

  /** How many members' lists hold `isbn`. */
  function HolderCount(users: seq<User>, isbn: string): (n: nat)
    ensures n == 0 <==> forall j :: 0 <= j < |users| ==> isbn !in users[j].borrowed
  {
    if |users| == 0 then 0
    else (if isbn in users[0].borrowed then 1 else 0) + HolderCount(users[1..], isbn)
  }

  /** The relationship invariant as stated for the catalog: checked out
      if and only if exactly one member holds the ISBN. */
  predicate ExactlyOneHolder(lib: Library) {
    forall k :: 0 <= k < |lib.catalog.books| ==>
      (lib.catalog.books[k].checkedOut <==> HolderCount(lib.members.users, lib.catalog.books[k].isbn) == 1)
  }

  /** The invariant the operations actually keep: a checked-out book has
      exactly one holder and an available book has none. */
  predicate Consistent(lib: Library) {
    forall k :: 0 <= k < |lib.catalog.books| ==>
      HolderCount(lib.members.users, lib.catalog.books[k].isbn) == (if lib.catalog.books[k].checkedOut then 1 else 0)
  }

  /** Every member's list is free of duplicates. */
  predicate DistinctLists(users: seq<User>) {
    forall j :: 0 <= j < |users| ==> NoDuplicates(users[j].borrowed)
  }

  /** The shape assumptions the invariant needs. */
  predicate WellFormed(lib: Library) {
    UniqueIsbns(lib.catalog.books) && DistinctLists(lib.members.users)
  }

  /** The invariant kept is the stated one plus "no holder while available". */
  lemma ConsistentIsExactlyOneHolder(lib: Library)
    ensures Consistent(lib) <==>
      && ExactlyOneHolder(lib)
      && (forall k :: 0 <= k < |lib.catalog.books| && !lib.catalog.books[k].checkedOut ==>
            HolderCount(lib.members.users, lib.catalog.books[k].isbn) == 0)
  {
  }

  /** Holder count of a three-member list, member by member. */
  lemma HolderCountOfThree(x: User, y: User, z: User, isbn: string)
    ensures HolderCount([x, y, z], isbn)
         == (if isbn in x.borrowed then 1 else 0) + (if isbn in y.borrowed then 1 else 0) + (if isbn in z.borrowed then 1 else 0)
  {
    assert [x, y, z][1..] == [y, z];
    assert [y, z][1..] == [z];
    assert [z][1..] == [];
    assert HolderCount([z], isbn) == (if isbn in z.borrowed then 1 else 0);
    assert HolderCount([y, z], isbn) == (if isbn in y.borrowed then 1 else 0) + HolderCount([z], isbn);
  }

  /** Checking out an available book that two members already hold
      succeeds and leaves it checked out with three holders. */
  lemma CheckOutOfSharedBook(lib: Library, userId: string, isbn: string)
    requires CanCheckOut(lib, userId, isbn)
    requires HolderCount(lib.members.users, Trim(isbn)) == 2
    ensures CheckOutBook(lib, userId, isbn).ok
    ensures !ExactlyOneHolder(CheckOutBook(lib, userId, isbn).next)
  {
    var r := CheckOutBook(lib, userId, isbn);
    var j := FindUser(lib.members.users, userId).value;
    var i := FindBook(lib.catalog.books, isbn).value;
    var users := lib.members.users;
    var b := lib.catalog.books[i];
    HolderCountUpdate(users, j, r.next.members.users[j], b.isbn);
    assert users[j := r.next.members.users[j]] == r.next.members.users;
    var last := |r.next.catalog.books| - 1;
    assert r.next.catalog.books[last] == b.(checkedOut := true);
  }

  /** A library where the stated invariant holds although an available book
      has two holders, and a third member can check it out: with
      `CheckOutOfSharedBook`, the stated invariant alone is not kept by
      checkout, even under distinct ISBNs, duplicate-free lists and distinct
      member ids, which is why `Consistent` also demands no holder while a
      book is available. */
  lemma TwoHoldersOfAvailableBook(lib: Library, isbn: string, a: string, b: string, c: string)
    requires IsTrimmed(isbn) && a != b && c != a && c != b
    requires lib.catalog.books == [Book("", "", isbn, false)]
    requires lib.members.users == [User("", a, [isbn]), User("", b, [isbn]), User("", c, [])]
    ensures WellFormed(lib) && UniqueIds(lib.members.users)
    ensures ExactlyOneHolder(lib)
    ensures CanCheckOut(lib, c, isbn)
    ensures HolderCount(lib.members.users, Trim(isbn)) == 2
  {
    var users := lib.members.users;
    FindUserAt(users, c, 2);
    assert FindUser(users, c) == Some(2);
    TrimOfTrimmed(isbn);
    FindBookAt(lib.catalog.books, isbn, 0);
    assert FindBook(lib.catalog.books, isbn) == Some(0);
    assert users[2].borrowed == [];
    HolderCountOfThree(users[0], users[1], users[2], isbn);
    TwoHoldersShape(lib, isbn, a, b, c);
  }

  /** The library of `TwoHoldersOfAvailableBook` meets the shape assumptions
      under which `Consistent` is preserved, and its member ids are distinct. */
  lemma TwoHoldersShape(lib: Library, isbn: string, a: string, b: string, c: string)
    requires a != b && c != a && c != b
    requires lib.catalog.books == [Book("", "", isbn, false)]
    requires lib.members.users == [User("", a, [isbn]), User("", b, [isbn]), User("", c, [])]
    ensures WellFormed(lib) && UniqueIds(lib.members.users)
  {
    var users := lib.members.users;
    forall j | 0 <= j < |users|
      ensures NoDuplicates(users[j].borrowed)
    {
      assert |users[j].borrowed| <= 1;
    }
    assert users[0].userId == a && users[1].userId == b && users[2].userId == c;
  }

  /** Replacing member `j` changes the count for `isbn` only by whether the
      old and the new record hold it. */
  lemma {:induction false} HolderCountUpdate(users: seq<User>, j: nat, u: User, isbn: string)
    requires j < |users|
    ensures HolderCount(users[j := u], isbn) + (if isbn in users[j].borrowed then 1 else 0)
         == HolderCount(users, isbn) + (if isbn in u.borrowed then 1 else 0)
    decreases j
  {
    if j > 0 {
      assert users[j := u][1..] == users[1..][j - 1 := u];
      HolderCountUpdate(users[1..], j - 1, u, isbn);
    }
  }

  /** Replacing member `j` by a record that holds the same ISBNs apart from
      `isbn` leaves every other ISBN's count alone. */
  lemma HolderCountOthers(users: seq<User>, j: nat, u: User, isbn: string, other: string)
    requires j < |users| && other != isbn
    requires forall x :: x != isbn ==> (x in u.borrowed <==> x in users[j].borrowed)
    ensures HolderCount(users[j := u], other) == HolderCount(users, other)
  {
    HolderCountUpdate(users, j, u, other);
  }

  /** Moving a book to the end of the catalog under the same ISBN keeps the
      ISBNs distinct. */
  lemma MoveToEndKeepsUnique(books: seq<Book>, i: nat, b: Book)
    requires i < |books| && UniqueIsbns(books) && b.isbn == books[i].isbn
    ensures UniqueIsbns(RemoveAt(books, i) + [b])
  {
    var rest := RemoveAt(books, i);
    var s := rest + [b];
    forall a, c | 0 <= a < c < |s|
      ensures s[a].isbn != s[c].isbn
    {
      var a' := if a < i then a else a + 1;
      assert s[a] == books[a'];
      if c < |rest| {
        var c' := if c < i then c else c + 1;
        assert s[c] == books[c'];
      }
    }
  }

  /** Every book left in the catalog after moving book `i` to the end,
      other than the moved one, is an original book with another ISBN. */
  lemma RestHasOtherIsbns(books: seq<Book>, i: nat, k: nat)
    requires i < |books| && UniqueIsbns(books) && k < |books| - 1
    ensures RemoveAt(books, i)[k].isbn != books[i].isbn
    ensures exists k' :: 0 <= k' < |books| && books[k'] == RemoveAt(books, i)[k]
  {
    var k' := if k < i then k else k + 1;
    assert books[k'] == RemoveAt(books, i)[k];
  }

  /** The invariant holds after book `i` moves to the end with flag
      `flag`, when member `j` changes only in `isbn` and the moved book's
      holder count becomes what `flag` demands. */
  lemma MovedKeepsConsistent(lib: Library, j: nat, i: nat, flag: bool, borrowed: seq<string>, lib': Library)
    requires WellFormed(lib) && Consistent(lib)
    requires j < |lib.members.users| && i < |lib.catalog.books|
    requires Moved(lib, j, i, flag, borrowed, lib')
    requires forall x :: x != lib.catalog.books[i].isbn ==> (x in borrowed <==> x in lib.members.users[j].borrowed)
    requires HolderCount(lib'.members.users, lib.catalog.books[i].isbn) == (if flag then 1 else 0)
    ensures Consistent(lib')
  {
    var books := lib.catalog.books;
    var users := lib.members.users;
    var u := users[j].(borrowed := borrowed);
    var isbn := books[i].isbn;
    forall k | 0 <= k < |lib'.catalog.books|
      ensures HolderCount(lib'.members.users, lib'.catalog.books[k].isbn) == (if lib'.catalog.books[k].checkedOut then 1 else 0)
    {
      if k < |books| - 1 {
        RestHasOtherIsbns(books, i, k);
        var b := lib'.catalog.books[k];
        assert b == RemoveAt(books, i)[k];
        var k' :| 0 <= k' < |books| && books[k'] == b;
        HolderCountOthers(users, j, u, isbn, b.isbn);
      }
    }
  }

  /** One successful checkout step, stated on the positions it touches. */
  lemma CheckOutStep(lib: Library, j: nat, i: nat, lib': Library)
    requires WellFormed(lib) && Consistent(lib)
    requires j < |lib.members.users| && i < |lib.catalog.books|
    requires !lib.catalog.books[i].checkedOut
    requires lib.catalog.books[i].isbn !in lib.members.users[j].borrowed
    requires Moved(lib, j, i, true, lib.members.users[j].borrowed + [lib.catalog.books[i].isbn], lib')
    ensures WellFormed(lib') && Consistent(lib')
  {
    var users := lib.members.users;
    var b := lib.catalog.books[i];
    var borrowed := users[j].borrowed + [b.isbn];
    var u := users[j].(borrowed := borrowed);
    MoveToEndKeepsUnique(lib.catalog.books, i, b.(checkedOut := true));
    assert NoDuplicates(borrowed) by {
      assert BorrowBook(users[j], b).next.borrowed == borrowed;
    }
    assert lib'.members.users[j] == u;
    HolderCountUpdate(users, j, u, b.isbn);
    assert HolderCount(users, b.isbn) == 0;
    MovedKeepsConsistent(lib, j, i, true, borrowed, lib');
  }

  /** One successful return step, stated on the positions it touches. */
  lemma ReturnStep(lib: Library, j: nat, i: nat, lib': Library)
    requires WellFormed(lib) && Consistent(lib)
    requires j < |lib.members.users| && i < |lib.catalog.books|
    requires lib.catalog.books[i].checkedOut
    requires lib.catalog.books[i].isbn in lib.members.users[j].borrowed
    requires Moved(lib, j, i, false, RemoveFirst(lib.members.users[j].borrowed, lib.catalog.books[i].isbn), lib')
    ensures WellFormed(lib') && Consistent(lib')
  {
    var users := lib.members.users;
    var b := lib.catalog.books[i];
    var borrowed := RemoveFirst(users[j].borrowed, b.isbn);
    var u := users[j].(borrowed := borrowed);
    MoveToEndKeepsUnique(lib.catalog.books, i, b.(checkedOut := false));
    assert lib'.members.users[j] == u;
    HolderCountUpdate(users, j, u, b.isbn);
    assert HolderCount(users, b.isbn) == 1;
    MovedKeepsConsistent(lib, j, i, false, borrowed, lib');
  }

  /** Checkout keeps the invariant and the shape assumptions it rests on. */
  lemma CheckOutKeepsConsistent(lib: Library, userId: string, isbn: string)
    requires WellFormed(lib) && Consistent(lib)
    ensures WellFormed(CheckOutBook(lib, userId, isbn).next)
    ensures Consistent(CheckOutBook(lib, userId, isbn).next)
  {
    var r := CheckOutBook(lib, userId, isbn);
    if r.ok {
      CheckOutStep(lib, FindUser(lib.members.users, userId).value, FindBook(lib.catalog.books, isbn).value, r.next);
    }
  }

  /** Return keeps the invariant and the shape assumptions it rests on. */
  lemma ReturnKeepsConsistent(lib: Library, userId: string, isbn: string)
    requires WellFormed(lib) && Consistent(lib)
    ensures WellFormed(Circulation.ReturnBook(lib, userId, isbn).next)
    ensures Consistent(Circulation.ReturnBook(lib, userId, isbn).next)
  {
    var r := Circulation.ReturnBook(lib, userId, isbn);
    if r.ok {
      ReturnStep(lib, FindUser(lib.members.users, userId).value, FindBook(lib.catalog.books, isbn).value, r.next);
    }
  }
}
