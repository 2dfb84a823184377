/** The two records of the catalog, `Book` and `User`, with their state
    changes and their conversion to and from the dictionaries the store
    persists (models.py). */
module Models {
  import opened Results
  import opened Seqs
  import opened Text

  /** A book; `checkedOut` is the private `_is_checked_out` flag. */
  datatype Book = Book(title: string, author: string, isbn: string, checkedOut: bool)

  /** A member; `borrowed` lists the ISBNs the member holds, in borrowing order. */
  datatype User = User(name: string, userId: string, borrowed: seq<string>)

  /** A truthy optional argument: the update operations skip
      both `None` and `""`. */
  predicate Supplied(o: Option<string>) {
    o.Some? && o.value != ""
  }

  /** The new value of a field an update may overwrite. */
  function Pick(o: Option<string>, current: string): string {
    if Supplied(o) then o.value else current
  }

  /** The constructor `Book(title, author, isbn, is_checked_out)`: the ISBN is stripped. */
  function NewBook(title: string, author: string, isbn: string, checkedOut: bool): (b: Book)
    ensures b.title == title && b.author == author && b.checkedOut == checkedOut
    ensures IsTrimmed(b.isbn) && CutFrom(isbn, b.isbn, |isbn| - |TrimStart(isbn)|)
  {
    Book(title, author, Trim(isbn), checkedOut)
  }

  /** The constructor `User(name, user_id, borrowed_books)`: a missing list
      (`None`) becomes a fresh empty one. */
  function NewUser(name: string, userId: string, borrowed: Option<seq<string>>): (u: User)
    ensures u.name == name && u.userId == userId
    ensures borrowed.None? ==> u.borrowed == []
    ensures borrowed.Some? ==> u.borrowed == borrowed.value
  {
    User(name, userId, if borrowed.Some? then borrowed.value else [])
  }

  /** `Book.check_out`: succeeds exactly when the book was available, and
      leaves it checked out either way; nothing but the flag changes. */
  function CheckOut(b: Book): (r: Attempt<Book>)
    ensures r.ok <==> !b.checkedOut
    ensures r.next.checkedOut
    ensures r.next.title == b.title && r.next.author == b.author && r.next.isbn == b.isbn
  {
    if !b.checkedOut then Attempt(true, b.(checkedOut := true)) else Attempt(false, b)
  }

  /** `Book.check_in`: succeeds exactly when the book was checked out, and
      leaves it available either way; nothing but the flag changes. */
  function CheckIn(b: Book): (r: Attempt<Book>)
    ensures r.ok <==> b.checkedOut
    ensures !r.next.checkedOut
    ensures r.next.title == b.title && r.next.author == b.author && r.next.isbn == b.isbn
  {
    if b.checkedOut then Attempt(true, b.(checkedOut := false)) else Attempt(false, b)
  }

  /** Each flag flip is undone by the other one when it succeeded: the
      compensating step of the coordinator restores the book exactly. */
  lemma FlipsUndoEachOther(b: Book)
    ensures CheckOut(b).ok ==> CheckIn(CheckOut(b).next) == Attempt(true, b)
    ensures CheckIn(b).ok ==> CheckOut(CheckIn(b).next) == Attempt(true, b)
  {
  }

  /** `User.borrow_book`: succeeds exactly when the book's ISBN is not yet
      held, and then appends it; otherwise the user is unchanged. A list
      without duplicates keeps none. */
  function BorrowBook(u: User, b: Book): (r: Attempt<User>)
    ensures r.ok <==> b.isbn !in u.borrowed
    ensures r.ok ==> r.next.borrowed == u.borrowed + [b.isbn]
    ensures !r.ok ==> r.next == u
    ensures r.next.name == u.name && r.next.userId == u.userId
    ensures b.isbn in r.next.borrowed
    ensures NoDuplicates(u.borrowed) ==> NoDuplicates(r.next.borrowed)
  {
    if b.isbn !in u.borrowed then Attempt(true, u.(borrowed := u.borrowed + [b.isbn]))
    else Attempt(false, u)
  }

  /** `User.return_book`: succeeds exactly when the ISBN is held, and then
      removes its first occurrence; otherwise the user is unchanged. On a
      list without duplicates the ISBN is gone afterwards. */
  function ReturnBook(u: User, b: Book): (r: Attempt<User>)
    ensures r.ok <==> b.isbn in u.borrowed
    ensures r.ok ==> r.next.borrowed == RemoveFirst(u.borrowed, b.isbn)
    ensures !r.ok ==> r.next == u
    ensures r.next.name == u.name && r.next.userId == u.userId
    ensures forall x :: x != b.isbn ==> (x in r.next.borrowed <==> x in u.borrowed)
    ensures NoDuplicates(u.borrowed) ==> NoDuplicates(r.next.borrowed) && b.isbn !in r.next.borrowed
  {
    if b.isbn in u.borrowed then Attempt(true, u.(borrowed := RemoveFirst(u.borrowed, b.isbn)))
    else Attempt(false, u)
  }

  /** Returning a book right after borrowing it gives the user back as it was. */
  lemma BorrowThenReturn(u: User, b: Book)
    requires BorrowBook(u, b).ok
    ensures ReturnBook(BorrowBook(u, b).next, b) == Attempt(true, u)
  {
    var s := u.borrowed + [b.isbn];
    var i := IndexOf(s, b.isbn);
    assert s[..|u.borrowed|] == u.borrowed;
    assert RemoveFirst(s, b.isbn) == u.borrowed;
  }

  // ---------------------------------------------------------------------
  // Dictionary form

  /** A JSON value as the store writes it: a string, a boolean or a list of strings. */
  datatype Value = Str(text: string) | Flag(flag: bool) | StrList(items: seq<string>)

  /** The dictionary keys the records use, one constructor per JSON key:
      `title`, `author`, `isbn`, `is_checked_out`, `name`, `user_id`,
      `borrowed_books`. */
  datatype Key = Title | Author | Isbn | IsCheckedOut | Name | UserId | BorrowedBooks

  type Dict = map<Key, Value>

  /** Why a dictionary could not be turned into a record: a key that must
      be there is missing (Python's `KeyError`), or its value has a type the
      record cannot hold. */
  datatype DictError = MissingKey(key: Key) | WrongType(key: Key)

  /** `Book.to_dict`: the ISBN is stripped once more on the way out. */
  function BookToDict(b: Book): (d: Dict)
    ensures IsBookDict(d) && IsCheckedOut in d && d[IsCheckedOut] == Flag(b.checkedOut)
    ensures IsTrimmed(d[Isbn].text)
  {
    map[Title := Str(b.title), Author := Str(b.author),
        Isbn := Str(Trim(b.isbn)), IsCheckedOut := Flag(b.checkedOut)]
  }

  /** Whether a dictionary describes a book: title, author and ISBN present
      as strings, and the flag, when present, a boolean. */
  predicate IsBookDict(d: Dict) {
    && Title in d && d[Title].Str?
    && Author in d && d[Author].Str?
    && Isbn in d && d[Isbn].Str?
    && (IsCheckedOut in d ==> d[IsCheckedOut].Flag?)
  }

  /** `Book.from_dict`: the keys are read in the source's order, so the first
      missing one is reported; the ISBN is stripped, and a missing flag means
      "available". */
  function BookFromDict(d: Dict): (r: Result<Book, DictError>)
    ensures r.Success? <==> IsBookDict(d)
    ensures Title !in d ==> r == Failure(MissingKey(Title))
    ensures Title in d && Author !in d ==> r == Failure(MissingKey(Author))
    ensures Title in d && Author in d && Isbn !in d ==> r == Failure(MissingKey(Isbn))
    ensures r.Success? ==> && r.value.title == d[Title].text
                           && r.value.author == d[Author].text
                           && r.value.isbn == Trim(d[Isbn].text)
                           && IsTrimmed(r.value.isbn)
                           && (r.value.checkedOut <==> IsCheckedOut in d && d[IsCheckedOut].flag)
  {
    if Title !in d then Failure(MissingKey(Title))
    else if Author !in d then Failure(MissingKey(Author))
    else if Isbn !in d then Failure(MissingKey(Isbn))
    else if !d[Isbn].Str? then Failure(WrongType(Isbn))
    else if !d[Title].Str? then Failure(WrongType(Title))
    else if !d[Author].Str? then Failure(WrongType(Author))
    else if IsCheckedOut in d && !d[IsCheckedOut].Flag? then Failure(WrongType(IsCheckedOut))
    else
      var checkedOut := if IsCheckedOut in d then d[IsCheckedOut].flag else false;
      Success(NewBook(d[Title].text, d[Author].text, d[Isbn].text, checkedOut))
  }

  /** Reading back what `BookToDict` wrote gives the book with its ISBN
      stripped, so a book whose ISBN is already stripped, as every
      constructed book's is, comes back unchanged. */
  lemma BookDictRoundTrip(b: Book)
    ensures BookFromDict(BookToDict(b)) == Success(b.(isbn := Trim(b.isbn)))
    ensures IsTrimmed(b.isbn) ==> BookFromDict(BookToDict(b)) == Success(b)
  {
    var d := BookToDict(b);
    assert d[Title] == Str(b.title) && d[Author] == Str(b.author);
    assert d[Isbn] == Str(Trim(b.isbn)) && d[IsCheckedOut] == Flag(b.checkedOut);
    TrimIdempotent(b.isbn);
    assert BookFromDict(d) == Success(NewBook(b.title, b.author, Trim(b.isbn), b.checkedOut));
    if IsTrimmed(b.isbn) {
      TrimOfTrimmed(b.isbn);
    }
  }

  /** `User.to_dict`. */
  function UserToDict(u: User): (d: Dict)
    ensures IsUserDict(d)
    ensures BorrowedBooks in d && d[BorrowedBooks] == StrList(u.borrowed)
  {
    map[Name := Str(u.name), UserId := Str(u.userId), BorrowedBooks := StrList(u.borrowed)]
  }

  /** Whether a dictionary describes a user: name and id present as strings,
      and the borrowed list, when present, a list of strings. */
  predicate IsUserDict(d: Dict) {
    && Name in d && d[Name].Str?
    && UserId in d && d[UserId].Str?
    && (BorrowedBooks in d ==> d[BorrowedBooks].StrList?)
  }

  /** `User.from_dict`: a missing `borrowed_books` key gives an empty list. */
  function UserFromDict(d: Dict): (r: Result<User, DictError>)
    ensures r.Success? <==> IsUserDict(d)
    ensures Name !in d ==> r == Failure(MissingKey(Name))
    ensures Name in d && UserId !in d ==> r == Failure(MissingKey(UserId))
    ensures r.Success? ==> && r.value.name == d[Name].text
                           && r.value.userId == d[UserId].text
                           && r.value.borrowed == (if BorrowedBooks in d then d[BorrowedBooks].items else [])
  {
    if Name !in d then Failure(MissingKey(Name))
    else if UserId !in d then Failure(MissingKey(UserId))
    else if !d[Name].Str? then Failure(WrongType(Name))
    else if !d[UserId].Str? then Failure(WrongType(UserId))
    else if BorrowedBooks in d && !d[BorrowedBooks].StrList? then Failure(WrongType(BorrowedBooks))
    else
      var borrowed := if BorrowedBooks in d then Some(d[BorrowedBooks].items) else None;
      Success(NewUser(d[Name].text, d[UserId].text, borrowed))
  }

  /** Reading back what `UserToDict` wrote gives the same user, borrowed
      list and its order included. */
  lemma UserDictRoundTrip(u: User)
    ensures UserFromDict(UserToDict(u)) == Success(u)
  {
  }
}
