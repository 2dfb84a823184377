/** `BookManager` (book.py): the in-memory book collection and the log of
    every snapshot it hands to the store's `save_books`. */
module Books {
  import opened Results
  import opened Seqs
  import opened Text
  import opened Models

  /** The catalog. `saved` records, oldest first, each collection passed to
      `save_books`; it starts empty for a freshly loaded catalog. */
  datatype Catalog = Catalog(books: seq<Book>, saved: seq<seq<Book>>)

  /** No two books share an ISBN: the uniqueness the catalog assumes but
      never enforces. */
  predicate UniqueIsbns(books: seq<Book>) {
    forall i, j :: 0 <= i < j < |books| ==> books[i].isbn != books[j].isbn
  }

  /** `find_book_by_isbn`: the position of the first book whose ISBN equals
      the stripped query, or `None`. */
  function FindBook(books: seq<Book>, isbn: string): (r: Option<nat>)
    ensures r.Some? ==> r.value < |books| && books[r.value].isbn == Trim(isbn)
    ensures r.Some? ==> forall j :: 0 <= j < r.value ==> books[j].isbn != Trim(isbn)
    ensures r.None? <==> forall j :: 0 <= j < |books| ==> books[j].isbn != Trim(isbn)
  {
    FirstIndex(books, (b: Book) => b.isbn == Trim(isbn))
  }

  /** The first match is determined by the books up to and including it. */
  lemma FindBookAt(books: seq<Book>, isbn: string, i: nat)
    requires i < |books| && books[i].isbn == Trim(isbn)
    requires forall j :: 0 <= j < i ==> books[j].isbn != Trim(isbn)
    ensures FindBook(books, isbn) == Some(i)
  {
  }

  /** `add_book`: appends at the end with no uniqueness check, and saves
      the whole new collection once. */
  function AddBook(c: Catalog, b: Book): (c': Catalog)
    ensures |c'.books| == |c.books| + 1 && c'.books[..|c.books|] == c.books && c'.books[|c.books|] == b
    ensures c'.saved == c.saved + [c'.books]
  {
    var books := c.books + [b];
    Catalog(books, c.saved + [books])
  }

  /** Looking up a freshly added book finds the new entry unless an older
      book with the same ISBN shadows it, which no check prevents. */
  lemma AddThenFind(c: Catalog, b: Book)
    requires IsTrimmed(b.isbn)
    ensures FindBook(c.books, b.isbn).None? ==> FindBook(AddBook(c, b).books, b.isbn) == Some(|c.books|)
    ensures FindBook(c.books, b.isbn).Some? ==> FindBook(AddBook(c, b).books, b.isbn) == FindBook(c.books, b.isbn)
  {
    TrimOfTrimmed(b.isbn);
    var books := AddBook(c, b).books;
    var found := FindBook(c.books, b.isbn);
    var at := if found.None? then |c.books| else found.value;
    forall j | 0 <= j < at
      ensures books[j].isbn != b.isbn
    {
      assert books[j] == c.books[j];
    }
    assert books[at].isbn == b.isbn;
    FindBookAt(books, b.isbn, at);
  }

  /** `remove_book`: when some book has the stripped ISBN, the first such
      book is removed, the others keep their order, the result is saved once
      and `true` returned; otherwise nothing changes and `false` is returned. */
  function RemoveBook(c: Catalog, isbn: string): (r: Attempt<Catalog>)
    ensures r.ok <==> exists k :: 0 <= k < |c.books| && c.books[k].isbn == Trim(isbn)
    ensures r.ok ==> && r.next.books == RemoveAt(c.books, FindBook(c.books, isbn).value)
                     && r.next.saved == c.saved + [r.next.books]
    ensures !r.ok ==> r.next == c
  {
    match FindBook(c.books, isbn)
    case None => Attempt(false, c)
    case Some(i) =>
      var books := RemoveAt(c.books, i);
      Attempt(true, Catalog(books, c.saved + [books]))
  }

  /** With unique ISBNs, a removed book can no longer be found. */
  lemma RemoveThenFind(c: Catalog, isbn: string)
    requires UniqueIsbns(c.books)
    ensures FindBook(RemoveBook(c, isbn).next.books, isbn).None?
  {
    var r := RemoveBook(c, isbn);
    if r.ok {
      var i := FindBook(c.books, isbn).value;
      forall k | 0 <= k < |r.next.books|
        ensures r.next.books[k].isbn != Trim(isbn)
      {
        if k < i { assert r.next.books[k] == c.books[k]; }
        else { assert r.next.books[k] == c.books[k + 1]; }
      }
    }
  }

  /** `update_book`: the first book with the stripped ISBN gets every
      supplied non-empty field (title, author, ISBN, the last one stored as
      given, without stripping); its flag, the other books and their order
      stay, and the collection is saved once. Without a match nothing
      changes and `false` is returned. */
  function UpdateBook(c: Catalog, isbn: string, title: Option<string>, author: Option<string>, newIsbn: Option<string>): (r: Attempt<Catalog>)
    ensures r.ok <==> FindBook(c.books, isbn).Some?
    ensures !r.ok ==> r.next == c
    ensures r.ok ==> var i := FindBook(c.books, isbn).value;
                     && |r.next.books| == |c.books|
                     && (forall k :: 0 <= k < |c.books| && k != i ==> r.next.books[k] == c.books[k])
                     && r.next.books[i].checkedOut == c.books[i].checkedOut
                     && (Supplied(title) ==> r.next.books[i].title == title.value)
                     && (!Supplied(title) ==> r.next.books[i].title == c.books[i].title)
                     && (Supplied(author) ==> r.next.books[i].author == author.value)
                     && (!Supplied(author) ==> r.next.books[i].author == c.books[i].author)
                     && (Supplied(newIsbn) ==> r.next.books[i].isbn == newIsbn.value)
                     && (!Supplied(newIsbn) ==> r.next.books[i].isbn == c.books[i].isbn)
                     && r.next.saved == c.saved + [r.next.books]
  {
    match FindBook(c.books, isbn)
    case None => Attempt(false, c)
    case Some(i) =>
      var b := c.books[i];
      var b' := b.(title := Pick(title, b.title), author := Pick(author, b.author), isbn := Pick(newIsbn, b.isbn));
      var books := c.books[i := b'];
      Attempt(true, Catalog(books, c.saved + [books]))
  }

  /** A new ISBN with whitespace at either end is stored unstripped, and
      since lookups compare with a stripped query, the updated book cannot
      be found by any ISBN in the in-memory catalog, until the catalog is
      reloaded from the store (see `UpdateWithPaddedIsbnSavedStripped`). */
  lemma UpdateWithPaddedIsbnHidesBook(c: Catalog, isbn: string, title: Option<string>, author: Option<string>, newIsbn: Option<string>, query: string)
    requires FindBook(c.books, isbn).Some?
    requires Supplied(newIsbn) && !IsTrimmed(newIsbn.value)
    ensures FindBook(UpdateBook(c, isbn, title, author, newIsbn).next.books, query) != FindBook(c.books, isbn)
  {
    var i := FindBook(c.books, isbn).value;
    var books := UpdateBook(c, isbn, title, author, newIsbn).next.books;
    assert books[i].isbn != Trim(query);
  }

  /** The same padded ISBN reaches the store stripped: the snapshot saved by
      `update_book` holds the unstripped ISBN, but `to_dict` writes it
      stripped, and reading it back gives the book with the stripped ISBN.
      The store and the in-memory catalog disagree until the next load. */
  lemma UpdateWithPaddedIsbnSavedStripped(c: Catalog, isbn: string, title: Option<string>, author: Option<string>, newIsbn: Option<string>)
    requires FindBook(c.books, isbn).Some?
    requires Supplied(newIsbn) && !IsTrimmed(newIsbn.value)
    ensures var i := FindBook(c.books, isbn).value;
            var saved := UpdateBook(c, isbn, title, author, newIsbn).next.saved;
            var b := saved[|saved| - 1][i];
            && b.isbn != Trim(newIsbn.value)
            && BookToDict(b)[Isbn] == Str(Trim(newIsbn.value))
            && BookFromDict(BookToDict(b)) == Success(b.(isbn := Trim(newIsbn.value)))
  {
    var i := FindBook(c.books, isbn).value;
    var saved: seq<seq<Book>> := UpdateBook(c, isbn, title, author, newIsbn).next.saved;
    var b: Book := saved[|saved| - 1][i];
    assert b.isbn == newIsbn.value;
    BookDictRoundTrip(b);
  }

  /** The updated book is found under its ISBN after the update (the new
      one when a stripped one is supplied, the old one otherwise), at the
      same position, unless an earlier book already has that ISBN. */
  lemma UpdateThenFind(c: Catalog, isbn: string, title: Option<string>, author: Option<string>, newIsbn: Option<string>)
    requires FindBook(c.books, isbn).Some?
    requires Supplied(newIsbn) ==> IsTrimmed(newIsbn.value)
    ensures var i := FindBook(c.books, isbn).value;
            var key := Pick(newIsbn, c.books[i].isbn);
            (forall k :: 0 <= k < i ==> c.books[k].isbn != key) ==>
              FindBook(UpdateBook(c, isbn, title, author, newIsbn).next.books, key) == Some(i)
  {
    var i := FindBook(c.books, isbn).value;
    var key := Pick(newIsbn, c.books[i].isbn);
    var r := UpdateBook(c, isbn, title, author, newIsbn);
    assert r.ok;
    var books := r.next.books;
    assert IsTrimmed(c.books[i].isbn);
    TrimOfTrimmed(key);
    assert books[i].isbn == key;
    if forall k :: 0 <= k < i ==> c.books[k].isbn != key {
      forall k | 0 <= k < i
        ensures books[k].isbn != Trim(key)
      {
        assert books[k] == c.books[k];
      }
      FindBookAt(books, key, i);
    }
  }
}
