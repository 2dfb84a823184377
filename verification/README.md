# Library catalog circulation, modelled in Dafny

A model of the circulation core of a small Python library catalog: the
`Book` and `User` records (models.py), the two registries `BookManager`
(book.py) and `UserManager` (user.py), and the coordinator `CheckManager`
(check.py), which checks books out to members and takes them back.

Everything is a pure function over immutable values:

- `Models.Book` / `Models.User` are the records; `check_out`, `check_in`,
  `borrow_book` and `return_book` return an `Attempt` (the boolean the
  Python method returns, plus the record afterwards).
- `Books.Catalog` and `Users.Members` hold the in-memory collection and a
  log `saved` of every snapshot passed to `Storage.save_books` /
  `Storage.save_users`, oldest first. The log holds the records as they
  were in memory, before `to_dict` turned them into JSON; the one place
  where that differs from what the store receives is an unstripped ISBN,
  which `to_dict` strips (`Books.UpdateWithPaddedIsbnSavedStripped`).
- A registry lookup returns the position of the first match. The Python
  code hands out the live object and mutates it; the model replaces the
  element at that position, so changes made through a lookup reach the
  stored collection exactly as they do in Python.
- `Circulation.Library` pairs the two registries. `CheckOutBook` and
  `ReturnBook` follow the source step by step: find the member, find the
  book, flip the flag in place, change the member's list, and on failure
  flip the flag back; on success remove the book by ISBN and append it
  again, which moves it to the end and saves the catalog twice.
- `Text.Trim` is Python's `str.strip()`, with `Text.IsSpace` written out
  as the characters `str.isspace` accepts.
- Dictionaries (`to_dict` / `from_dict`) are maps from the record keys to
  typed JSON values; a missing required key is a `Failure(MissingKey(..))`,
  the model of Python's `KeyError`.

The cross-record invariant is in `Consistency`. The natural statement of
the relationship between the two registries is "a book is checked out if
and only if exactly one member's list holds its ISBN" (`ExactlyOneHolder`).
That statement alone is not preserved by checkout: an available book that
two members hold satisfies it, and a third member can still check the book
out, leaving three holders (`CheckOutOfSharedBook`, with
`TwoHoldersOfAvailableBook` as a library where this happens, one with
distinct ISBNs, duplicate-free lists and distinct member ids). The invariant the code does keep is
`Consistent`: a checked-out book has exactly one holder and an available
book has none. Given distinct ISBNs and borrowed lists without duplicates,
checkout and return preserve it (`CheckOutKeepsConsistent`,
`ReturnKeepsConsistent`).

One would expect a successful checkout or return to persist the member
collection as well as the catalog, but check.py never calls `save_users`;
the model follows the code, so the member-side change lives only in memory
(`CheckOutLeavesMembersUnsaved`, `ReturnLeavesMembersUnsaved`).

## Model

| member | source | states |
|---|---|---|
| Text.Trim | models.py:28 | The stripped ISBN has no whitespace at either end and is a slice of the input with only whitespace cut away. |
| Text.TrimUnique | models.py:28 | Any whitespace-free-ended slice obtained by cutting only whitespace equals the strip, so the contract of `Trim` fixes it completely. |
| Text.TrimIdempotent | models.py:74 | Stripping an already stripped ISBN again (as `to_dict` and `from_dict` do) changes nothing. |
| Seqs.RemoveFirst | models.py:151 | `list.remove` drops exactly the first occurrence, keeps the rest in order, keeps every other value's membership, and on a duplicate-free list removes the value entirely. |
| Models.NewBook | models.py:25-29 | The constructor keeps title, author and flag and stores a stripped ISBN. |
| Models.NewUser | models.py:119-122 | A missing borrowed list becomes an empty one; a given list is kept as is. |
| Models.CheckOut | models.py:43-46 | Succeeds exactly when the book was available; afterwards it is checked out either way and nothing else changes. |
| Models.CheckIn | models.py:57-60 | Succeeds exactly when the book was checked out; afterwards it is available either way and nothing else changes. |
| Models.FlipsUndoEachOther | models.py:43-60 | A successful check-out followed by check-in, or the reverse, gives back the original book, which is what the coordinator's rollback relies on. |
| Models.BorrowBook | models.py:135-138 | Succeeds exactly when the ISBN was not held, then appends it at the end; otherwise the member is unchanged; a duplicate-free list stays duplicate-free. |
| Models.ReturnBook | models.py:150-153 | Succeeds exactly when the ISBN was held, then removes its first occurrence; otherwise the member is unchanged; on a duplicate-free list the ISBN is gone afterwards. |
| Models.BorrowThenReturn | models.py:135-153 | Returning right after a successful borrow restores the member exactly. |
| Models.BookToDict | models.py:71-76 | The dictionary always describes a book, carries the flag, and holds a stripped ISBN. |
| Models.BookFromDict | models.py:90-95 | Succeeds exactly on dictionaries that describe a book; reports the first missing key in reading order; strips the ISBN; a missing flag means available. |
| Models.BookDictRoundTrip | models.py:71-95 | Reading back a written book gives it with a stripped ISBN, hence unchanged when its ISBN was already stripped. |
| Models.UserToDict | models.py:163-167 | The dictionary always describes a member and carries the borrowed list as is. |
| Models.UserFromDict | models.py:181-185 | Succeeds exactly on dictionaries that describe a member; reports the first missing key; a missing borrowed list gives an empty one. |
| Models.UserDictRoundTrip | models.py:163-185 | Reading back a written member gives the same name, id and borrowed list in order. |
| Books.FindBook | book.py:53-58 | Returns the first book whose ISBN equals the stripped query, and none exactly when no book matches. |
| Books.AddBook | book.py:37-38 | Appends at the end without any uniqueness check, keeps the earlier books, and records one save of the new collection. |
| Books.AddThenFind | book.py:37-58 | A lookup finds the added book at the end unless an earlier book with the same ISBN shadows it. |
| Books.RemoveBook | book.py:71-80 | Succeeds exactly when some book has the stripped ISBN; then removes the first such book, keeps the others in order and records one save; otherwise nothing changes. |
| Books.RemoveThenFind | book.py:71-78 | With distinct ISBNs, a removed book is not found afterwards. |
| Books.UpdateBook | book.py:96-111 | On a match, only the non-empty supplied title, author and ISBN of the first match change; flag, length and other books stay, and one save is recorded; without a match nothing changes. |
| Books.UpdateWithPaddedIsbnHidesBook | book.py:102-103 | A supplied new ISBN with surrounding whitespace is stored unstripped in memory, and the updated book cannot be found by any query in the in-memory catalog until the catalog is reloaded. The interactive menu strips the new ISBN before the call (main.py:80), so only a direct caller of `update_book` can reach this. |
| Books.UpdateWithPaddedIsbnSavedStripped | book.py:102-106 | The same book reaches the store with its ISBN stripped by `to_dict`, so the store and the in-memory catalog disagree until the next load, which gives back the book with the stripped ISBN. |
| Books.UpdateThenFind | book.py:96-111 | After an update with no new ISBN or a stripped one, a lookup by the book's resulting ISBN finds it at its old position, unless an earlier book already has that ISBN. |
| Users.FindUser | user.py:59-62 | Returns the first member whose id equals the query exactly, and none exactly when no member matches. |
| Users.AddUser | user.py:40-46 | Refuses an id already present with no change and no save; otherwise appends, records one save and succeeds; distinct ids stay distinct. |
| Users.RemoveUser | user.py:75-82 | Succeeds exactly when some member has the id; then removes the first such member, keeps the rest in order and records one save; otherwise nothing changes. |
| Users.RemoveThenFind | user.py:75-82 | With distinct ids, a removed member is not found afterwards. |
| Users.UpdateUser | user.py:98-111 | On a match, only the non-empty supplied name and id change; the borrowed list and other members stay and one save is recorded; without a match nothing changes. |
| Users.UpdateUserKeepsIdsDistinct | user.py:98-103 | Ids stay distinct when the new id is not supplied or is not another member's. |
| Users.UpdateUserCanDuplicateIds | user.py:102-103 | Renaming a member to another member's id succeeds and leaves two members with the same id. |
| Circulation.CheckOutBook | check.py:42-62 | Succeeds exactly when member and book exist, the book is available and the member does not hold it; on failure nothing changes (including after the rollback); on success the flagged book moves to the end, its ISBN is appended to that member's list, only that member changes, the catalog is saved twice and the members not at all. |
| Circulation.ReturnBook | check.py:77-96 | Succeeds exactly when member and book exist, the book is checked out and the member holds it; on failure nothing changes (including after the rollback); on success the available book moves to the end, the first occurrence of its ISBN leaves that member's list, the catalog is saved twice and the members not at all. |
| Circulation.CheckOutThenReturn | check.py:53-92 | With distinct ISBNs, returning right after a checkout succeeds, restores the members exactly and leaves the book available at the end of the catalog after four saves. |
| Circulation.CheckOutLeavesMembersUnsaved | check.py:54-56 | After a successful checkout the member log is unchanged while the in-memory members differ, so a member store that was in sync no longer is. |
| Circulation.ReturnLeavesMembersUnsaved | check.py:88-90 | The same gap after a successful return. |
| Circulation.CheckOutScenario | test_main.py:58-67 | One available book and one member with nothing borrowed: checkout succeeds, the book is checked out and the member holds its ISBN once. |
| Circulation.ReturnScenario | test_main.py:69-78 | One checked-out book held by its member: return succeeds, the book is available and the member holds nothing. |
| Consistency.ConsistentIsExactlyOneHolder | check.py:53-60 | The kept invariant is the stated "checked out iff exactly one holder" plus "no holder while available". |
| Consistency.CheckOutOfSharedBook | check.py:53-58 | Checking out an available book with two holders succeeds and breaks the stated invariant. |
| Consistency.TwoHoldersOfAvailableBook | check.py:53-54 | Such a library exists, with distinct ISBNs, duplicate-free lists and distinct member ids: the stated invariant holds and a third member can check the book out. |
| Consistency.CheckOutKeepsConsistent | check.py:53-62 | Checkout preserves the invariant, distinct ISBNs and duplicate-free borrowed lists. |
| Consistency.ReturnKeepsConsistent | check.py:87-96 | Return preserves the invariant, distinct ISBNs and duplicate-free borrowed lists. |

## Left out

- storage.py: reading and writing the JSON files, and the fallbacks to an empty collection on a missing file, a decode error or another exception. Each save is recorded in the `saved` log and always succeeds, so a crash or failure between the two saves of a checkout is not modelled.
- main.py: the interactive menu loop; `output_decorator`, `__str__`, `list_books`, `list_users` and every `print`: presentation only.
- Python object identity: the model compares records structurally, so the same object stored twice in a list (where a change through one position would show at both) is not represented.
- Models.BookFromDict: a `title` or `author` that is not a string, or an `is_checked_out` that is not a boolean, is rejected as `WrongType`, where Python would store the value as it is; dictionary keys other than the ones the records read are not represented, and `from_dict` ignores them anyway.
- Models.UserFromDict: a `name` or `user_id` that is not a string, or a `borrowed_books` that is not a list of strings, is rejected as `WrongType`; in particular a JSON `null` list, which Python turns into an empty list, is not represented.
