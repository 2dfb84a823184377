/** `CheckManager` (check.py): checkout and return, each a flag flip on the
    book followed by a change to the member's list, with the flip undone
    when the member-side step fails. */
module Circulation {
  import opened Results
  import opened Seqs
  import opened Text
  import opened Models
  import opened Books
  import opened Users

  /** The coordinator's view of the two registries it was built with. */
  datatype Library = Library(catalog: Catalog, members: Members)

  /** Whether checkout can succeed: the member and the book exist, the
      book is available and the member does not already hold its ISBN. */
  predicate CanCheckOut(lib: Library, userId: string, isbn: string) {
    var j := FindUser(lib.members.users, userId);
    var i := FindBook(lib.catalog.books, isbn);
    && j.Some? && i.Some?
    && !lib.catalog.books[i.value].checkedOut
    && lib.catalog.books[i.value].isbn !in lib.members.users[j.value].borrowed
  }

  /** Whether return can succeed: the member and the book exist, the book
      is checked out and the member holds its ISBN. */
  predicate CanReturn(lib: Library, userId: string, isbn: string) {
    var j := FindUser(lib.members.users, userId);
    var i := FindBook(lib.catalog.books, isbn);
    && j.Some? && i.Some?
    && lib.catalog.books[i.value].checkedOut
    && lib.catalog.books[i.value].isbn in lib.members.users[j.value].borrowed
  }

  /** The net effect of a successful checkout or return of book `i` by
      member `j`: the book, with its flag set to `flag`, is moved to the end
      of the catalog; the member's list becomes `borrowed`; the catalog is
      saved twice, once without the book and once with it at the end; the
      member collection is changed in memory but not saved. */
  predicate Moved(lib: Library, j: nat, i: nat, flag: bool, borrowed: seq<string>, lib': Library)
    requires j < |lib.members.users| && i < |lib.catalog.books|
  {
    var rest := RemoveAt(lib.catalog.books, i);
    && lib'.catalog.books == rest + [lib.catalog.books[i].(checkedOut := flag)]
    && lib'.catalog.saved == lib.catalog.saved + [rest, lib'.catalog.books]
    && lib'.members.users == lib.members.users[j := lib.members.users[j].(borrowed := borrowed)]
    && lib'.members.saved == lib.members.saved
  }

  /** Re-finding the book after its flag was flipped in place lands on the
      same position, and removing it there gives what removing the
      original would. */
  lemma RefindAfterFlip(books: seq<Book>, isbn: string, b: Book)
    requires FindBook(books, isbn).Some?
    requires b.isbn == books[FindBook(books, isbn).value].isbn
    ensures var i := FindBook(books, isbn).value;
            && FindBook(books[i := b], isbn) == Some(i)
            && RemoveAt(books[i := b], i) == RemoveAt(books, i)
  {
    var i := FindBook(books, isbn).value;
    FindBookAt(books[i := b], isbn, i);
  }

  /** `check_out_book`. An unknown member or book, an already checked-out
      book, or a member already holding the ISBN all give `false` with
      nothing changed (the last after the flag has been set and rolled
      back). Otherwise the book is flagged, the ISBN appended to the
      member's list, and the book moved to the end of the catalog. */
  function CheckOutBook(lib: Library, userId: string, isbn: string): (r: Attempt<Library>)
    ensures r.ok <==> CanCheckOut(lib, userId, isbn)
    ensures !r.ok ==> r.next == lib
    ensures r.ok ==> var j := FindUser(lib.members.users, userId).value;
                     var i := FindBook(lib.catalog.books, isbn).value;
                     Moved(lib, j, i, true, lib.members.users[j].borrowed + [lib.catalog.books[i].isbn], r.next)
  {
    match FindUser(lib.members.users, userId)
    case None => Attempt(false, lib)
    case Some(j) =>
      match FindBook(lib.catalog.books, isbn)
      case None => Attempt(false, lib)
      case Some(i) =>
        var user := lib.members.users[j];
        var flip := CheckOut(lib.catalog.books[i]);
        if !flip.ok then Attempt(false, lib)
        else
          // the registry handed out its own record, so the flip is already in the catalog
          var flipped := Catalog(lib.catalog.books[i := flip.next], lib.catalog.saved);
          var borrow := BorrowBook(user, flip.next);
          if borrow.ok then
            RefindAfterFlip(lib.catalog.books, isbn, flip.next);
            var removed := RemoveBook(flipped, isbn);
            var added := AddBook(removed.next, flip.next);
            Attempt(true, Library(added, Members(lib.members.users[j := borrow.next], lib.members.saved)))
          else
            var undo := CheckIn(flip.next);
            Attempt(false, Library(Catalog(flipped.books[i := undo.next], flipped.saved), lib.members))
  }

  /** `return_book`. An unknown member or book, an available book, or a
      member not holding the ISBN all give `false` with nothing changed
      (the last after the flag has been cleared and restored). Otherwise
      the book is made available, the ISBN's first occurrence leaves the
      member's list, and the book moves to the end of the catalog. */
  function ReturnBook(lib: Library, userId: string, isbn: string): (r: Attempt<Library>)
    ensures r.ok <==> CanReturn(lib, userId, isbn)
    ensures !r.ok ==> r.next == lib
    ensures r.ok ==> var j := FindUser(lib.members.users, userId).value;
                     var i := FindBook(lib.catalog.books, isbn).value;
                     Moved(lib, j, i, false, RemoveFirst(lib.members.users[j].borrowed, lib.catalog.books[i].isbn), r.next)
  {
    match FindUser(lib.members.users, userId)
    case None => Attempt(false, lib)
    case Some(j) =>
      match FindBook(lib.catalog.books, isbn)
      case None => Attempt(false, lib)
      case Some(i) =>
        var user := lib.members.users[j];
        var flip := CheckIn(lib.catalog.books[i]);
        if !flip.ok then Attempt(false, lib)
        else
          var flipped := Catalog(lib.catalog.books[i := flip.next], lib.catalog.saved);
          var give := Models.ReturnBook(user, flip.next);
          if give.ok then
            RefindAfterFlip(lib.catalog.books, isbn, flip.next);
            var removed := RemoveBook(flipped, isbn);
            var added := AddBook(removed.next, flip.next);
            Attempt(true, Library(added, Members(lib.members.users[j := give.next], lib.members.saved)))
          else
            var undo := CheckOut(flip.next);
            Attempt(false, Library(Catalog(flipped.books[i := undo.next], flipped.saved), lib.members))
  }

  /** Replacing the first member with an id by a record with the same id
      keeps it the first match. */
  lemma FindUserAfterReplace(users: seq<User>, userId: string, j: nat, u: User)
    requires FindUser(users, userId) == Some(j) && u.userId == userId
    ensures FindUser(users[j := u], userId) == Some(j)
  {
    FindUserAt(users[j := u], userId, j);
  }

  /** With unique ISBNs, a book moved to the end under its own ISBN is
      found at the end. */
  lemma FindBookAfterMove(books: seq<Book>, isbn: string, i: nat, b: Book)
    requires UniqueIsbns(books) && FindBook(books, isbn) == Some(i) && b.isbn == books[i].isbn
    ensures FindBook(RemoveAt(books, i) + [b], isbn) == Some(|books| - 1)
  {
    var rest := RemoveAt(books, i);
    forall k | 0 <= k < |rest|
      ensures (rest + [b])[k].isbn != Trim(isbn)
    {
      if k < i { assert rest[k] == books[k]; } else { assert rest[k] == books[k + 1]; }
    }
    FindBookAt(rest + [b], isbn, |rest|);
  }

  /** A return right after a successful checkout by the same member
      succeeds and gives the member back unchanged; the book is available
      again but now sits at the end of the catalog, and the catalog was
      saved four times. */
  lemma CheckOutThenReturn(lib: Library, userId: string, isbn: string)
    requires UniqueIsbns(lib.catalog.books)
    requires CanCheckOut(lib, userId, isbn)
    ensures var i := FindBook(lib.catalog.books, isbn).value;
            var r := ReturnBook(CheckOutBook(lib, userId, isbn).next, userId, isbn);
            && r.ok
            && r.next.members == lib.members
            && r.next.catalog.books == RemoveAt(lib.catalog.books, i) + [lib.catalog.books[i]]
            && |r.next.catalog.saved| == |lib.catalog.saved| + 4
  {
    var j := FindUser(lib.members.users, userId).value;
    var i := FindBook(lib.catalog.books, isbn).value;
    var users := lib.members.users;
    var b := lib.catalog.books[i];
    var rest := RemoveAt(lib.catalog.books, i);
    var lib1 := CheckOutBook(lib, userId, isbn).next;
    var held := users[j].borrowed + [b.isbn];
    assert Moved(lib, j, i, true, held, lib1);
    FindUserAfterReplace(users, userId, j, lib1.members.users[j]);
    FindBookAfterMove(lib.catalog.books, isbn, i, b.(checkedOut := true));
    assert lib1.catalog.books[|rest|] == b.(checkedOut := true);
    assert lib1.members.users[j].borrowed == held;
    assert CanReturn(lib1, userId, isbn);
    var r := ReturnBook(lib1, userId, isbn);
    BorrowThenReturn(users[j], b);
    assert RemoveFirst(held, b.isbn) == users[j].borrowed;
    assert Moved(lib1, j, |rest|, false, users[j].borrowed, r.next);
    assert RemoveAt(lib1.catalog.books, |rest|) == rest;
    assert lib1.members.users[j].(borrowed := users[j].borrowed) == users[j];
    assert r.next.members.users == lib1.members.users[j := users[j]];
    assert lib1.members.users == users[j := lib1.members.users[j]];
    ReplaceBack(users, j, lib1.members.users[j]);
  }

  /** The member side of a successful checkout is never saved: the catalog
      gets two saves, the member collection none, so a member store that
      matched memory before no longer does. */
  lemma CheckOutLeavesMembersUnsaved(lib: Library, userId: string, isbn: string)
    requires |lib.members.saved| > 0 && lib.members.saved[|lib.members.saved| - 1] == lib.members.users
    requires CheckOutBook(lib, userId, isbn).ok
    ensures CheckOutBook(lib, userId, isbn).next.members.saved == lib.members.saved
    ensures CheckOutBook(lib, userId, isbn).next.members.users != lib.members.users
  {
    var j := FindUser(lib.members.users, userId).value;
    var i := FindBook(lib.catalog.books, isbn).value;
    var lib' := CheckOutBook(lib, userId, isbn).next;
    assert Moved(lib, j, i, true, lib.members.users[j].borrowed + [lib.catalog.books[i].isbn], lib');
    assert |lib'.members.users[j].borrowed| != |lib.members.users[j].borrowed|;
  }

  /** The member side of a successful return is never saved either. */
  lemma ReturnLeavesMembersUnsaved(lib: Library, userId: string, isbn: string)
    requires |lib.members.saved| > 0 && lib.members.saved[|lib.members.saved| - 1] == lib.members.users
    requires ReturnBook(lib, userId, isbn).ok
    ensures ReturnBook(lib, userId, isbn).next.members.saved == lib.members.saved
    ensures ReturnBook(lib, userId, isbn).next.members.users != lib.members.users
  {
    var j := FindUser(lib.members.users, userId).value;
    var i := FindBook(lib.catalog.books, isbn).value;
    var lib' := ReturnBook(lib, userId, isbn).next;
    assert Moved(lib, j, i, false, RemoveFirst(lib.members.users[j].borrowed, lib.catalog.books[i].isbn), lib');
    assert |lib'.members.users[j].borrowed| != |lib.members.users[j].borrowed|;
  }

  /** The checkout case the repository's tests exercise, for any titles
      and ids: one available book, one member with nothing borrowed. */
  lemma CheckOutScenario(title: string, author: string, isbn: string, name: string, userId: string)
    ensures var book := NewBook(title, author, isbn, false);
            var lib := Library(Catalog([book], []), Members([NewUser(name, userId, None)], []));
            var r := CheckOutBook(lib, userId, isbn);
            && r.ok
            && r.next.catalog.books == [book.(checkedOut := true)]
            && r.next.members.users[0].borrowed == [book.isbn]
  {
    var book := NewBook(title, author, isbn, false);
    var lib := Library(Catalog([book], []), Members([NewUser(name, userId, None)], []));
    FindUserAt(lib.members.users, userId, 0);
    FindBookAt(lib.catalog.books, isbn, 0);
  }

  /** The return case the repository's tests exercise, for any titles and
      ids: the book checked out and held by the member. */
  lemma ReturnScenario(title: string, author: string, isbn: string, name: string, userId: string)
    requires IsTrimmed(isbn)
    ensures var book := NewBook(title, author, isbn, true);
            var lib := Library(Catalog([book], []), Members([NewUser(name, userId, Some([isbn]))], []));
            var r := ReturnBook(lib, userId, isbn);
            && r.ok
            && r.next.catalog.books == [book.(checkedOut := false)]
            && r.next.members.users[0].borrowed == []
  {
    TrimOfTrimmed(isbn);
    var book := NewBook(title, author, isbn, true);
    var lib := Library(Catalog([book], []), Members([NewUser(name, userId, Some([isbn]))], []));
    FindUserAt(lib.members.users, userId, 0);
    FindBookAt(lib.catalog.books, isbn, 0);
    assert IndexOf([isbn], isbn) == 0;
  }
}
