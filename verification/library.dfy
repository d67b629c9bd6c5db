/** `HomeLibrary`: an ordered list of books and the operations the console
    offers on it. The list is a value; every operation returns the new
    list. */
module Library {
  import opened Wrappers
  import opened Text
  import opened Numerals
  import opened Dates
  import opened Schema
  import opened Validate
  import opened Books

  /** `add_book`: the book goes at the end. */
  function AddBook(books: seq<Book>, b: Book): (r: seq<Book>)
    ensures |r| == |books| + 1 && r[..|books|] == books && r[|books|] == b
  {
    books + [b]
  }

  /** `select_books`: the names, in list order. */
  function SelectBooks(books: seq<Book>): (r: seq<string>)
    ensures |r| == |books|
    ensures forall i :: 0 <= i < |books| ==> r[i] == books[i].name
  {
    seq(|books|, i requires 0 <= i < |books| => books[i].name)
  }

  /** Listing after an addition gives the earlier listing followed by the new
      name. */
  lemma SelectAfterAdd(books: seq<Book>, b: Book)
    ensures SelectBooks(AddBook(books, b)) == SelectBooks(books) + [b.name]
  {
  }

  /** `value in str(getattr(b, field, ''))`: an attribute the object lacks
      reads as the empty text. */
  predicate Hit(b: Book, field: string, value: string) {
    Contains(Attr(b, field).GetOr(""), value)
  }

  /** The condition of the search as a test on one book. */
  function Hits(field: string, value: string): Book -> bool {
    b => Hit(b, field, value)
  }

  /** `[book.name for book in books if keep(book)]`. */
  function NamesWhere(books: seq<Book>, keep: Book -> bool): (r: seq<string>)
    ensures |r| <= |books|
    decreases |books|
  {
    if |books| == 0 then []
    else
      var rest := NamesWhere(books[1..], keep);
      if keep(books[0]) then [books[0].name] + rest else rest
  }

  /** A name is listed exactly when some book of that name passes the test. */
  lemma {:induction false} NamesWhereMeans(books: seq<Book>, keep: Book -> bool, n: string)
    ensures n in NamesWhere(books, keep) <==>
      exists i :: 0 <= i < |books| && books[i].name == n && keep(books[i])
    decreases |books|
  {
    if |books| > 0 {
      NamesWhereMeans(books[1..], keep, n);
      if exists i :: 0 <= i < |books| && books[i].name == n && keep(books[i]) {
        var i :| 0 <= i < |books| && books[i].name == n && keep(books[i]);
        if i > 0 {
          assert books[1..][i - 1] == books[i];
        }
      }
      if exists i :: 0 <= i < |books| - 1 && books[1..][i].name == n && keep(books[1..][i]) {
        var i :| 0 <= i < |books| - 1 && books[1..][i].name == n && keep(books[1..][i]);
        assert books[i + 1] == books[1..][i];
      }
    }
  }

  /** Filtering two parts one after the other concatenates their results. */
  lemma {:induction false} NamesWhereAppend(a: seq<Book>, b: seq<Book>, keep: Book -> bool)
    ensures NamesWhere(a + b, keep) == NamesWhere(a, keep) + NamesWhere(b, keep)
    decreases |a|
  {
    if |a| > 0 {
      NamesWhereAppend(a[1..], b, keep);
      assert (a + b)[1..] == a[1..] + b;
    } else {
      assert a + b == b;
    }
  }

  /** A test every book passes lists every name, as `select_books` does. */
  lemma {:induction false} NamesWhereAll(books: seq<Book>, keep: Book -> bool)
    requires forall i :: 0 <= i < |books| ==> keep(books[i])
    ensures NamesWhere(books, keep) == SelectBooks(books)
    decreases |books|
  {
    if |books| > 0 {
      NamesWhereAll(books[1..], keep);
      assert SelectBooks(books) == [books[0].name] + SelectBooks(books[1..]);
    }
  }

  /** A test no book passes lists nothing. */
  lemma {:induction false} NamesWhereNone(books: seq<Book>, keep: Book -> bool)
    requires forall i :: 0 <= i < |books| ==> !keep(books[i])
    ensures NamesWhere(books, keep) == []
    decreases |books|
  {
    if |books| > 0 {
      NamesWhereNone(books[1..], keep);
    }
  }

  /** `search_books`: the names of the books whose attribute text contains
      `value`, in list order. A name is in the result exactly when some book
      of that name has such an attribute text. */
  function SearchBooks(books: seq<Book>, field: string, value: string): (r: seq<string>)
    ensures |r| <= |books|
    ensures forall n :: n in r <==>
      exists i :: 0 <= i < |books| && books[i].name == n && Hit(books[i], field, value)
  {
    var r := NamesWhere(books, Hits(field, value));
    assert forall n :: n in r <==>
      exists i :: 0 <= i < |books| && books[i].name == n && Hit(books[i], field, value)
    by {
      forall n {
        NamesWhereMeans(books, Hits(field, value), n);
      }
    }
    r
  }

  /** Searching a list made of two parts gives the results of the first part
      followed by those of the second: the order of the list is kept. */
  lemma SearchAppend(a: seq<Book>, b: seq<Book>, field: string, value: string)
    ensures SearchBooks(a + b, field, value) == SearchBooks(a, field, value) + SearchBooks(b, field, value)
  {
    NamesWhereAppend(a, b, Hits(field, value));
  }

  /** A single book gives its name once when it is a hit, and nothing
      otherwise; with `SearchAppend` this fixes the result of every list,
      one name per hit book, in list order. */
  lemma SearchOne(b: Book, field: string, value: string)
    ensures SearchBooks([b], field, value) == if Hit(b, field, value) then [b.name] else []
  {
  }

  /** Every text contains the empty text, so an empty search value lists
      every book, whatever the field. */
  lemma SearchEmptyValue(books: seq<Book>, field: string)
    ensures SearchBooks(books, field, "") == SelectBooks(books)
  {
    forall i | 0 <= i < |books| ensures Hits(field, "")(books[i]) {
      assert StartsWith(Attr(books[i], field).GetOr(""), "");
    }
    NamesWhereAll(books, Hits(field, ""));
  }

  /** A field that is not an attribute of a book compares as the empty text:
      it finds every book for the empty value and none for any other. */
  lemma SearchUnknownField(books: seq<Book>, field: string, value: string)
    requires field !in Attributes
    ensures SearchBooks(books, field, value) == if value == "" then SelectBooks(books) else []
  {
    if value == "" {
      SearchEmptyValue(books, field);
    } else {
      forall i | 0 <= i < |books| ensures !Hits(field, value)(books[i]) {
        AttrDefined(books[i], field);
        assert !StartsWith("", value);
      }
      NamesWhereNone(books, Hits(field, value));
    }
  }

  /** A book without a date read stores `None`, whose text `None` is what
      `str` shows; a search of `date_read` for "None" therefore finds it. */
  lemma SearchFindsAbsentDateRead(b: Book)
    requires b.dateRead == None
    ensures SearchBooks([b], "date_read", "None") == [b.name]
  {
    assert StartsWith("None", "None");
  }

  /** `delete_book`: every book of that name is removed; the others stay in
      their order. */
  function DeleteBook(books: seq<Book>, name: string): (r: seq<Book>)
    ensures |r| <= |books|
    ensures forall i :: 0 <= i < |r| ==> r[i].name != name
    decreases |books|
  {
    if |books| == 0 then []
    else
      var rest := DeleteBook(books[1..], name);
      if books[0].name == name then rest else [books[0]] + rest
  }

  /** A book is left after the deletion exactly when it was in the library
      under another name. */
  lemma {:induction false} DeleteMeans(books: seq<Book>, name: string, b: Book)
    ensures b in DeleteBook(books, name) <==> b in books && b.name != name
    decreases |books|
  {
    if |books| > 0 {
      DeleteMeans(books[1..], name, b);
      assert books == [books[0]] + books[1..];
    }
  }

  /** Deleting a name no book has leaves the library unchanged. */
  lemma {:induction false} DeleteAbsent(books: seq<Book>, name: string)
    requires name !in SelectBooks(books)
    ensures DeleteBook(books, name) == books
    decreases |books|
  {
    if |books| > 0 {
      assert SelectBooks(books)[0] == books[0].name;
      assert SelectBooks(books[1..]) == SelectBooks(books)[1..];
      DeleteAbsent(books[1..], name);
    }
  }

  /** Deleting from a list made of two parts deletes from each part and
      keeps them in order. */
  lemma {:induction false} DeleteAppend(a: seq<Book>, b: seq<Book>, name: string)
    ensures DeleteBook(a + b, name) == DeleteBook(a, name) + DeleteBook(b, name)
    decreases |a|
  {
    if |a| > 0 {
      DeleteAppend(a[1..], b, name);
      assert (a + b)[1..] == a[1..] + b;
    } else {
      assert a + b == b;
    }
  }

  /** Deleting a name twice is the same as deleting it once. */
  lemma DeleteTwice(books: seq<Book>, name: string)
    ensures DeleteBook(DeleteBook(books, name), name) == DeleteBook(books, name)
  {
    var r := DeleteBook(books, name);
    assert forall i :: 0 <= i < |r| ==> SelectBooks(r)[i] != name;
    DeleteAbsent(r, name);
  }

  /** The position of the first book of that name, or the length of the
      list when there is none. */
  function FirstNamed(books: seq<Book>, name: string): (k: nat)
    ensures k <= |books|
    ensures k < |books| ==> books[k].name == name
    ensures forall j :: 0 <= j < k ==> books[j].name != name
    decreases |books|
  {
    if |books| == 0 then 0
    else if books[0].name == name then 0
    else 1 + FirstNamed(books[1..], name)
  }

  /** `setattr(book, field, new_value)` for one of the fields the console
      offers to update. */
  datatype Patch =
    | SetName(name: string)
    | SetYear(year: int)
    | SetAuthors(authors: string)
    | SetGenres(genres: string)
    | SetWidth(width: Float)
    | SetHeight(height: Float)
    | SetBookType(bookType: string)
    | SetSource(source: string)
    | SetDateAdded(dateAdded: string)
    | SetDateRead(dateRead: Option<string>)
    | SetRating(rating: Option<string>)

  /** The attribute a patch assigns. */
  function Target(p: Patch): string {
    match p
    case SetName(_) => "name"
    case SetYear(_) => "year"
    case SetAuthors(_) => "authors"
    case SetGenres(_) => "genres"
    case SetWidth(_) => "width"
    case SetHeight(_) => "height"
    case SetBookType(_) => "book_type"
    case SetSource(_) => "source"
    case SetDateAdded(_) => "date_added"
    case SetDateRead(_) => "date_read"
    case SetRating(_) => "rating"
  }

  /** `str` of the value a patch assigns. */
  function ValueText(p: Patch): string {
    match p
    case SetName(v) => v
    case SetYear(v) => ShowInt(v)
    case SetAuthors(v) => v
    case SetGenres(v) => v
    case SetWidth(v) => ShowFloat(v)
    case SetHeight(v) => ShowFloat(v)
    case SetBookType(v) => v
    case SetSource(v) => v
    case SetDateAdded(v) => v
    case SetDateRead(v) => OptText(v)
    case SetRating(v) => OptText(v)
  }

  /** The book after the assignment: the named attribute now reads as the
      assigned value; nothing is re-validated and the id is kept. */
  function Apply(b: Book, p: Patch): (r: Book)
    ensures Attr(r, Target(p)) == Some(ValueText(p))
    ensures r.id == b.id
  {
    match p
    case SetName(v) => b.(name := v)
    case SetYear(v) => b.(year := v)
    case SetAuthors(v) => b.(authors := v)
    case SetGenres(v) => b.(genres := v)
    case SetWidth(v) => b.(width := v)
    case SetHeight(v) => b.(height := v)
    case SetBookType(v) => b.(bookType := v)
    case SetSource(v) => b.(source := v)
    case SetDateAdded(v) => b.(dateAdded := v)
    case SetDateRead(v) => b.(dateRead := v)
    case SetRating(v) => b.(rating := v)
  }

  /** An assignment changes the attribute it names and no other. */
  lemma ApplyChangesOnlyTarget(b: Book, p: Patch, attr: string)
    requires attr != Target(p)
    ensures Attr(Apply(b, p), attr) == Attr(b, attr)
  {
  }

  /** `update_book`: the first book of that name receives the assignment and
      the loop stops; every other book, including later ones of the same
      name, is left as it was, and without such a book nothing changes. */
  function UpdateBook(books: seq<Book>, name: string, p: Patch): (r: seq<Book>)
    ensures |r| == |books|
    ensures forall i :: 0 <= i < |books| ==>
      r[i] == if i == FirstNamed(books, name) then Apply(books[i], p) else books[i]
    decreases |books|
  {
    if |books| == 0 then []
    else if books[0].name == name then [Apply(books[0], p)] + books[1..]
    else [books[0]] + UpdateBook(books[1..], name, p)
  }

  /** Updating a name no book has leaves the library unchanged. */
  lemma UpdateAbsent(books: seq<Book>, name: string, p: Patch)
    requires name !in SelectBooks(books)
    ensures UpdateBook(books, name, p) == books
  {
    forall i | 0 <= i < |books| ensures books[i].name != name {
      assert SelectBooks(books)[i] == books[i].name;
    }
  }

  /** `validate_update_name` against this library's listing accepts exactly
      the names of at most 1000 characters that some book has. */
  lemma UpdateNameAccepted(books: seq<Book>, name: string)
    ensures ValidateUpdateName(name, SelectBooks(books)) == Pass <==>
      |name| <= 1000 && exists i :: 0 <= i < |books| && books[i].name == name
  {
    if exists i :: 0 <= i < |books| && books[i].name == name {
      var i :| 0 <= i < |books| && books[i].name == name;
      assert SelectBooks(books)[i] == name;
    }
  }

  /** A book taken from the counter after every id in the library keeps the
      ids rising when it is added. */
  lemma AddKeepsIdsIncreasing(books: seq<Book>, lastId: nat, a: BookArgs, now: Clock)
    requires IdsIncreasing(books)
    requires forall i :: 0 <= i < |books| ==> books[i].id <= lastId
    requires NewBook(lastId, a, now).book.Ok?
    ensures var c := NewBook(lastId, a, now);
      IdsIncreasing(AddBook(books, c.book.value))
      && forall i :: 0 <= i < |books| + 1 ==> AddBook(books, c.book.value)[i].id <= c.lastId
  {
  }

  /** Deleting keeps the ids rising. */
  lemma {:induction false} DeleteKeepsIdsIncreasing(books: seq<Book>, name: string)
    requires IdsIncreasing(books)
    ensures IdsIncreasing(DeleteBook(books, name))
    decreases |books|
  {
    if |books| > 0 {
      DeleteKeepsIdsIncreasing(books[1..], name);
      var rest := DeleteBook(books[1..], name);
      forall i | 0 <= i < |rest| ensures books[0].id < rest[i].id {
        DeleteMeans(books[1..], name, rest[i]);
        var j :| 0 <= j < |books[1..]| && books[1..][j] == rest[i];
        assert books[j + 1] == rest[i];
      }
    }
  }

  /** Updating keeps every id in place. */
  lemma UpdateKeepsIds(books: seq<Book>, name: string, p: Patch)
    ensures forall i :: 0 <= i < |books| ==> UpdateBook(books, name, p)[i].id == books[i].id
  {
  }
}
