/** The `Book` record: what its constructor stores, the class-level id
    counter it draws from, the validation it runs, and `getattr` on it. */
module Books {
  import opened Wrappers
  import opened Text
  import opened Numerals
  import opened Dates
  import opened Schema
  import opened Validate

  /** A `Book` object once `__init__` has assigned its attributes. Authors
      and genres are stored comma-joined. */
  datatype Book = Book(
    id: nat,
    name: string,
    year: int,
    authors: string,
    genres: string,
    width: Float,
    height: Float,
    bookType: string,
    source: string,
    dateAdded: string,
    dateRead: Option<string>,
    rating: Option<string>)

  /** The arguments of `Book(...)`; authors and genres come as lists. */
  datatype BookArgs = BookArgs(
    name: string,
    year: int,
    width: Float,
    height: Float,
    bookType: string,
    source: string,
    dateAdded: string,
    dateRead: Option<string>,
    rating: Option<string>,
    authors: seq<string>,
    genres: seq<string>)

  /** `x if x else None`: an empty text becomes `None`. */
  function OrNone(o: Option<string>): (r: Option<string>)
    ensures Truthy(o) ==> r == o
    ensures !Truthy(o) ==> r == None
  {
    if Truthy(o) then o else None
  }

  /** The attributes `__init__` assigns, before it validates them. */
  function Assemble(id: nat, a: BookArgs): Book {
    Book(id, a.name, a.year, Join(a.authors, ','), Join(a.genres, ','), a.width, a.height,
         a.bookType, a.source, a.dateAdded, OrNone(a.dateRead), OrNone(a.rating))
  }

  /** The validators of `validate_data` that do not look at the optional
      fields, in the order it calls them. */
  function CheckCore(b: Book, now: Clock): Check {
    AndThen(ValidateField(Name, b.name),
    AndThen(ValidateField(Authors, b.authors),
    AndThen(ValidateField(Genres, b.genres),
    AndThen(ValidateYear(b.year, now),
    AndThen(ValidateMeasure(Width, b.width),
    AndThen(ValidateMeasure(Height, b.height),
    AndThen(ValidateField(BookType, b.bookType),
    AndThen(ValidateField(Source, b.source),
            ValidateDateAdded(b.dateAdded, b.year, now)))))))))
  }

  /** The fields a book is checked on, which are the fields a line stores. */
  predicate BookField(k: Key) {
    k in {Name, Authors, Genres, Year, Width, Height, BookType, Source, DateAdded, DateRead, Rating}
  }

  /** `validate_data`: all eleven validators in order; the first failure is
      the error raised, and it always names one of the book's own fields. */
  function CheckBook(b: Book, now: Clock): (r: Check)
    ensures r.Fail? ==> BookField(r.error.key)
  {
    AndThen(CheckCore(b, now),
    AndThen(ValidateDateRead(b.dateRead, b.dateAdded),
            ValidateRating(b.rating)))
  }

  /** `validate_data` returns without raising. */
  predicate Valid(b: Book, now: Clock) {
    CheckBook(b, now) == Pass
  }

  /** What the validators of the required fields accept: the schema's
      limits and patterns, the year range, the measurement range, and the
      date added before now and not before the publication year. */
  predicate CoreValid(b: Book, now: Clock) {
    && |b.name| <= 51 && Matches(Name, b.name)
    && |b.authors| <= 51 && Matches(Authors, b.authors)
    && |b.genres| <= 71 && Matches(Genres, b.genres)
    && 1000 <= b.year < 100000 && b.year <= now.today.year
    && !b.width.negative && |ShowFloat(b.width)| <= 6 && Value(b.width) <= 1000.0
    && !b.height.negative && |ShowFloat(b.height)| <= 6 && Value(b.height) <= 1000.0
    && |b.bookType| <= 8 && Matches(BookType, b.bookType)
    && |b.source| <= 11 && Matches(Source, b.source)
    && PaddedDate(b.dateAdded).Some?
    && EarlierThan(PaddedDate(b.dateAdded).value, now)
    && PaddedDate(b.dateAdded).value.year >= b.year
  }

  lemma CoreMeans(b: Book, now: Clock)
    ensures CheckCore(b, now) == Pass <==> CoreValid(b, now)
  {
  }

  /** What `validate_data` accepts, field by field: the schema's limits and
      patterns, the year range, the measurement range, the dates before now
      and in order, and the optional fields either empty or well formed. */
  lemma ValidMeans(b: Book, now: Clock)
    ensures Valid(b, now) <==>
      && CoreValid(b, now)
      && (Truthy(b.dateRead) ==>
            PaddedDate(b.dateRead.value).Some?
            && !Before(PaddedDate(b.dateRead.value).value, PaddedDate(b.dateAdded).value))
      && (Truthy(b.rating) ==> |b.rating.value| <= 101 && RatingPrefix(b.rating.value))
  {
    CoreMeans(b, now);
    if PaddedDate(b.dateAdded).Some? {
      PaddedParses(b.dateAdded);
    }
  }

  /** The result of `Book(...)`: the counter after the call, and the book or
      the validation error it raised. */
  datatype Construction = Construction(lastId: nat, book: Result<Book, Invalid>)

  /** `Book(...)`: the class counter `_last_id` is incremented and becomes
      the id before any validation runs, so the counter moves on whether the
      book is accepted or rejected. */
  function NewBook(lastId: nat, a: BookArgs, now: Clock): (r: Construction)
    ensures r.lastId == lastId + 1
    ensures r.book.Ok? <==> Valid(Assemble(lastId + 1, a), now)
    ensures r.book.Ok? ==> r.book.value == Assemble(lastId + 1, a) && r.book.value.id == r.lastId
    ensures r.book.Err? ==> CheckBook(Assemble(lastId + 1, a), now) == Fail(r.book.error)
  {
    var b := Assemble(lastId + 1, a);
    var c := CheckBook(b, now);
    Construction(lastId + 1, if c.Pass? then Ok(b) else Err(c.error))
  }

  /** The arguments that rebuild a stored book, splitting authors and genres
      at the commas as the loader does. */
  function ArgsOf(b: Book): BookArgs {
    BookArgs(b.name, b.year, b.width, b.height, b.bookType, b.source, b.dateAdded,
             b.dateRead, b.rating, Split(b.authors, ','), Split(b.genres, ','))
  }

  /** Rebuilding a valid book from its own attributes gives the same book
      under the next id: joining the split authors and genres restores them. */
  lemma RebuildBook(lastId: nat, b: Book, now: Clock)
    requires Valid(b, now)
    requires b.dateRead != Some("") && b.rating != Some("")
    ensures NewBook(lastId, ArgsOf(b), now) == Construction(lastId + 1, Ok(b.(id := lastId + 1)))
  {
    JoinSplit(b.authors, ',');
    JoinSplit(b.genres, ',');
    assert Assemble(lastId + 1, ArgsOf(b)) == b.(id := lastId + 1);
  }

  /** Ids of a list of books rise strictly from front to back. */
  predicate IdsIncreasing(books: seq<Book>) {
    forall i, j :: 0 <= i < j < |books| ==> books[i].id < books[j].id
  }

  /** `str(None)`. */
  function OptText(o: Option<string>): string {
    match o
    case None => "None"
    case Some(s) => s
  }

  /** The attributes a `Book` object has. */
  const Attributes: seq<string> :=
    ["id", "name", "year", "authors", "genres", "width", "height",
     "book_type", "source", "date_added", "date_read", "rating"]

  /** `str(getattr(b, attr))`, or `None` when the object has no such
      attribute. */
  function Attr(b: Book, attr: string): Option<string> {
    if attr == "id" then Some(ShowInt(b.id))
    else if attr == "name" then Some(b.name)
    else if attr == "year" then Some(ShowInt(b.year))
    else if attr == "authors" then Some(b.authors)
    else if attr == "genres" then Some(b.genres)
    else if attr == "width" then Some(ShowFloat(b.width))
    else if attr == "height" then Some(ShowFloat(b.height))
    else if attr == "book_type" then Some(b.bookType)
    else if attr == "source" then Some(b.source)
    else if attr == "date_added" then Some(b.dateAdded)
    else if attr == "date_read" then Some(OptText(b.dateRead))
    else if attr == "rating" then Some(OptText(b.rating))
    else None
  }

  /** The object has exactly the twelve attributes: every other name is
      missing. */
  lemma AttrDefined(b: Book, attr: string)
    ensures Attr(b, attr).Some? <==> attr in Attributes
  {
  }
}
