/** The library file: `save_books_to_file` writes one line per book, the
    eleven `HEADERS` fields joined by `|`, and `load_books_from_file` reads
    it back through the `Book` constructor. The file's contents are a
    parameter (`None` when the file does not exist), and so is `now`. */
module Codec {
  import opened Wrappers
  import opened Text
  import opened Numerals
  import opened Dates
  import opened Schema
  import opened Validate
  import opened Books

  /** The attributes a line stores, in order; the id is not stored. */
  const Headers: seq<string> :=
    ["name", "year", "authors", "genres", "width", "height", "book_type", "source",
     "date_added", "date_read", "rating"]

  /** How an optional field is written: its text, or `absent` for `None`. */
  function OptionalText(o: Option<string>, absent: string): string {
    match o
    case None => absent
    case Some(s) => s
  }

  /** The eleven field texts of a line, with `absent` standing for `None`. */
  function Fields(b: Book, absent: string): seq<string> {
    [b.name, ShowInt(b.year), b.authors, b.genres, ShowFloat(b.width), ShowFloat(b.height),
     b.bookType, b.source, b.dateAdded, OptionalText(b.dateRead, absent), OptionalText(b.rating, absent)]
  }

  /** The f-string of `save_books_to_file`: each field is `str` of the
      attribute named in `Headers`, so an absent optional field is written
      as `None`. */
  function FieldTexts(b: Book): (r: seq<string>)
    ensures |r| == |Headers|
    ensures forall i :: 0 <= i < |Headers| ==> Attr(b, Headers[i]) == Some(r[i])
  {
    FieldsAreAttributes(b);
    Fields(b, "None")
  }

  lemma FieldsAreAttributes(b: Book)
    ensures forall i :: 0 <= i < |Headers| ==> Attr(b, Headers[i]) == Some(Fields(b, "None")[i])
  {
    var f := Fields(b, "None");
    assert Attr(b, "name") == Some(f[0]);
    assert Attr(b, "year") == Some(f[1]);
    assert Attr(b, "authors") == Some(f[2]);
    assert Attr(b, "genres") == Some(f[3]);
    assert Attr(b, "width") == Some(f[4]);
    assert Attr(b, "height") == Some(f[5]);
    assert Attr(b, "book_type") == Some(f[6]);
    assert Attr(b, "source") == Some(f[7]);
    assert Attr(b, "date_added") == Some(f[8]);
    assert Attr(b, "date_read") == Some(f[9]);
    assert Attr(b, "rating") == Some(f[10]);
  }

  /** One line of the file. */
  function EncodeLine(b: Book, absent: string): string {
    Join(Fields(b, absent), '|') + "\n"
  }

  function SaveWith(books: seq<Book>, absent: string): string
    decreases |books|
  {
    if |books| == 0 then "" else EncodeLine(books[0], absent) + SaveWith(books[1..], absent)
  }

  /** `save_books_to_file` as written: `None` is written as `None`. */
  function Save(books: seq<Book>): string {
    SaveWith(books, "None")
  }

  /** `save_books_to_file` writing an empty field for `None`, which the
      loader turns back into `None`. */
  function SaveFixed(books: seq<Book>): string {
    SaveWith(books, "")
  }

  /** `for line in file` on the decoded text: newlines are translated, and
      the text after the last newline is a line of its own (an empty one
      when the text ends in a newline, which the loader skips). */
  function Lines(text: string): (r: seq<string>)
    ensures Join(r, '\n') == UniversalNewlines(text)
    ensures forall i :: 0 <= i < |r| ==> '\n' !in r[i] && '\r' !in r[i]
  {
    var t := UniversalNewlines(text);
    NewlinesNoReturn(text);
    JoinSplit(t, '\n');
    SplitPieces(t, '\n');
    SplitExcludes(t, '\n', '\r');
    Split(t, '\n')
  }

  /** Why loading stopped: `int(...)`/`float(...)` rejected a field before
      the constructor ran, or the constructor raised. */
  datatype LoadFailure = NotANumber(key: Key) | Rejected(error: Invalid)

  /** What one line does: nothing (not eleven fields), a book, or an
      exception that ends the loading, with the id counter after it. */
  datatype LineOutcome = Skipped | Decoded(book: Book) | Stopped(lastId: nat, failure: LoadFailure)

  /** The year, width and height of a line after `int(...)` and
      `float(...)`. */
  datatype Numbers = Numbers(year: int, width: Float, height: Float)

  /** The conversions of a line's numeric fields, in the loader's order; the
      first that fails names its field. */
  function Convert(data: seq<string>): (r: Result<Numbers, Key>)
    requires |data| == |Headers|
    ensures r.Ok? <==> ParseInt(data[1]).Some? && ParseFloat(data[4]).Some? && ParseFloat(data[5]).Some?
    ensures r.Err? ==> r.error in {Year, Width, Height}
  {
    match (ParseInt(data[1]), ParseFloat(data[4]), ParseFloat(data[5]))
    case (None, _, _) => Err(Year)
    case (_, None, _) => Err(Width)
    case (_, _, None) => Err(Height)
    case (Some(year), Some(width), Some(height)) => Ok(Numbers(year, width, height))
  }

  /** A line before the constructor runs: not eleven fields, a field that
      `int(...)`/`float(...)` rejects, or the constructor's arguments. */
  datatype LineParse = Short | NotNumeric(key: Key) | Args(args: BookArgs)

  /** Stripping and splitting a line, then converting its numbers. */
  function ParseLine(line: string): (r: LineParse)
    ensures r.Short? <==> |Split(Strip(line), '|')| != |Headers|
    ensures var data := Split(Strip(line), '|');
      |data| == |Headers| ==> (r.NotNumeric? <==> Convert(data).Err?)
    ensures var data := Split(Strip(line), '|');
      r.NotNumeric? ==> |data| == |Headers| && r.key == Convert(data).error
    ensures var data := Split(Strip(line), '|');
      r.Args? ==>
        && |data| == |Headers| && Convert(data).Ok?
        && r.args == ArgsFrom(data, Convert(data).value.year, Convert(data).value.width, Convert(data).value.height)
  {
    var data := Split(Strip(line), '|');
    if |data| != |Headers| then Short
    else
      match Convert(data)
      case Err(k) => NotNumeric(k)
      case Ok(n) => Args(ArgsFrom(data, n.year, n.width, n.height))
  }

  /** What a parsed line does to the loading: a short line is skipped, a
      failed conversion raises before the constructor draws an id, and
      otherwise the constructor runs. */
  function Step(lastId: nat, p: LineParse, now: Clock): (r: LineOutcome)
    ensures r.Skipped? <==> p.Short?
    ensures r.Decoded? ==> r.book.id == lastId + 1
    ensures r.Stopped? && r.failure.NotANumber? ==> r.lastId == lastId
    ensures r.Stopped? && r.failure.Rejected? ==> r.lastId == lastId + 1
    ensures p.NotNumeric? ==> r == Stopped(lastId, NotANumber(p.key))
    ensures p.Args? ==> r == Outcome(NewBook(lastId, p.args, now))
  {
    match p
    case Short => Skipped
    case NotNumeric(k) => Stopped(lastId, NotANumber(k))
    case Args(a) => Outcome(NewBook(lastId, a, now))
  }

  /** The body of the loading loop for one line. */
  function DecodeLine(lastId: nat, line: string, now: Clock): (r: LineOutcome)
    ensures r.Skipped? <==> |Split(Strip(line), '|')| != |Headers|
    ensures r.Decoded? ==> r.book.id == lastId + 1
    ensures r.Stopped? && r.failure.NotANumber? ==> r.lastId == lastId
    ensures r.Stopped? && r.failure.Rejected? ==> r.lastId == lastId + 1
    ensures var data := Split(Strip(line), '|');
      |data| == |Headers| && Convert(data).Err? ==> r == Stopped(lastId, NotANumber(Convert(data).error))
    ensures var data := Split(Strip(line), '|');
      |data| == |Headers| && Convert(data).Ok? ==>
        var n := Convert(data).value;
        r == Outcome(NewBook(lastId, ArgsFrom(data, n.year, n.width, n.height), now))
  {
    Step(lastId, ParseLine(line), now)
  }

  /** A book line whose year field starts with one of the separators U+001C
      to U+001F keeps it through the line's `strip()` (the field is not the
      first) and stops the loading at `int(year)`, before the constructor
      draws an id. */
  lemma SeparatorYearStops(lastId: nat, line: string, now: Clock)
    requires var data := Split(Strip(line), '|');
      |data| == |Headers| && |data[1]| > 0 && '\U{1c}' <= data[1][0] <= '\U{1f}'
    ensures DecodeLine(lastId, line, now) == Stopped(lastId, NotANumber(Year))
  {
    SeparatorRejected(Split(Strip(line), '|')[1]);
  }

  /** A book that a line decodes to passed the constructor's validation. */
  lemma DecodedValid(lastId: nat, line: string, now: Clock)
    ensures DecodeLine(lastId, line, now).Decoded? ==> Valid(DecodeLine(lastId, line, now).book, now)
  {
  }

  /** The constructor's keyword arguments built from the text fields of a
      line and its converted numbers. */
  function ArgsFrom(data: seq<string>, year: int, width: Float, height: Float): BookArgs
    requires |data| == |Headers|
  {
    BookArgs(data[0], year, width, height, data[6], data[7], data[8],
             OrNone(Some(data[9])), OrNone(Some(data[10])),
             Split(data[2], ','), Split(data[3], ','))
  }

  /** A constructed book is added; a raised error ends the loading. */
  function Outcome(c: Construction): (r: LineOutcome)
    ensures r.Decoded? <==> c.book.Ok?
    ensures r.Decoded? ==> r.book == c.book.value
    ensures r.Stopped? ==> r.lastId == c.lastId && r.failure == Rejected(c.book.error)
  {
    match c.book
    case Ok(b) => Decoded(b)
    case Err(e) => Stopped(c.lastId, Rejected(e))
  }

  /** The books read, the id counter afterwards, and the exception that
      ended the loading, if any. */
  datatype Loaded = Loaded(books: seq<Book>, lastId: nat, failure: Option<LoadFailure>)

  /** The ids of `books` are `lastId + 1`, `lastId + 2`, ... in order. */
  predicate NumberedFrom(books: seq<Book>, lastId: nat) {
    forall i :: 0 <= i < |books| ==> books[i].id == lastId + 1 + i
  }

  lemma NumberedCons(b: Book, rest: seq<Book>, lastId: nat)
    requires b.id == lastId + 1 && NumberedFrom(rest, lastId + 1)
    ensures NumberedFrom([b] + rest, lastId)
  {
    forall i | 0 <= i < |rest| + 1 ensures ([b] + rest)[i].id == lastId + 1 + i {
      if i > 0 {
        assert ([b] + rest)[i] == rest[i - 1];
      }
    }
  }

  /** The loading loop: every decoded book is added, and the first
      exception ends the loop keeping the books already added. Only a
      rejected book moves the counter without adding a book. The contract
      states the numbering and the counter; which books a given text loads
      is stated per line by `DecodeLine` and `Continue` (a skipped line adds
      nothing and a stop ends the loop), and for saved files by `SaveLoad`,
      `SaveLoadFixed` and `DecodeKept`. */
  function LoadLines(lastId: nat, lines: seq<string>, now: Clock): (r: Loaded)
    ensures NumberedFrom(r.books, lastId)
    ensures |r.books| <= |lines|
    ensures r.lastId == lastId + |r.books| + (if r.failure.Some? && r.failure.value.Rejected? then 1 else 0)
    decreases |lines|, 1
  {
    if |lines| == 0 then Loaded([], lastId, None)
    else Continue(lastId, DecodeLine(lastId, lines[0], now), lines[1..], now)
  }

  /** The loading loop once the outcome of its current line is known. */
  function Continue(lastId: nat, o: LineOutcome, rest: seq<string>, now: Clock): (r: Loaded)
    requires o.Decoded? ==> o.book.id == lastId + 1
    ensures NumberedFrom(r.books, lastId)
    ensures |r.books| <= |rest| + 1
    ensures o.Skipped? ==> r == LoadLines(lastId, rest, now)
    ensures o.Stopped? ==> r == Loaded([], o.lastId, Some(o.failure))
    ensures !o.Stopped? ==> r.lastId == lastId + |r.books| + (if r.failure.Some? && r.failure.value.Rejected? then 1 else 0)
    decreases |rest| + 1, 0
  {
    match o
    case Skipped => LoadLines(lastId, rest, now)
    case Stopped(n, f) => Loaded([], n, Some(f))
    case Decoded(b) =>
      var tail := LoadLines(b.id, rest, now);
      NumberedCons(b, tail.books, lastId);
      Loaded([b] + tail.books, tail.lastId, tail.failure)
  }

  /** Every book the loop adds passed the constructor's validation. */
  lemma {:induction false} LoadLinesValid(lastId: nat, lines: seq<string>, now: Clock)
    ensures forall i :: 0 <= i < |LoadLines(lastId, lines, now).books| ==> Valid(LoadLines(lastId, lines, now).books[i], now)
    decreases |lines|
  {
    if |lines| > 0 {
      var o := DecodeLine(lastId, lines[0], now);
      var r := LoadLines(lastId, lines, now);
      assert r == Continue(lastId, o, lines[1..], now);
      if o.Skipped? {
        LoadLinesValid(lastId, lines[1..], now);
      } else if o.Decoded? {
        DecodedValid(lastId, lines[0], now);
        LoadLinesValid(o.book.id, lines[1..], now);
        var rest := LoadLines(o.book.id, lines[1..], now);
        assert r.books == [o.book] + rest.books;
        forall i | 0 <= i < |r.books| ensures Valid(r.books[i], now) {
          if i > 0 {
            assert r.books[i] == rest.books[i - 1];
          }
        }
      }
    }
  }

  /** `HomeLibrary()`: an empty list filled by `load_books_from_file`; a
      missing file leaves it empty. */
  function Load(lastId: nat, file: Option<string>, now: Clock): (r: Loaded)
    ensures file.None? ==> r == Loaded([], lastId, None)
    ensures NumberedFrom(r.books, lastId)
    ensures forall i :: 0 <= i < |r.books| ==> Valid(r.books[i], now)
  {
    match file
    case None => Loaded([], lastId, None)
    case Some(text) =>
      LoadLinesValid(lastId, Lines(text), now);
      LoadLines(lastId, Lines(text), now)
  }

  /** Neither a field separator nor a line break. */
  predicate NoBreak(s: string) {
    '|' !in s && '\n' !in s && '\r' !in s
  }

  /** A book whose line reads back as itself: no field holds a separator or
      a line break, the line does not begin or end in whitespace (which
      `line.strip()` would remove), and no optional field is the empty
      text. */
  predicate Clean(b: Book) {
    && NoBreak(b.name) && NoBreak(b.authors) && NoBreak(b.genres)
    && NoBreak(b.bookType) && NoBreak(b.source) && NoBreak(b.dateAdded)
    && (b.dateRead.Some? ==> b.dateRead.value != "" && NoBreak(b.dateRead.value))
    && (b.rating.Some? ==> b.rating.value != "" && NoBreak(b.rating.value)
                           && !IsSpace(b.rating.value[|b.rating.value| - 1]))
    && |b.name| > 0 && !IsSpace(b.name[0])
  }

  lemma DigitsNoBreak(s: string)
    requires AllDigits(s)
    ensures NoBreak(s)
  {
    assert forall i :: 0 <= i < |s| ==> s[i] != '|' && s[i] != '\n' && s[i] != '\r';
  }

  /** Printed numbers hold no separator or line break. */
  lemma NumeralsNoBreak(i: int, x: Float)
    ensures NoBreak(ShowInt(i)) && NoBreak(ShowFloat(x))
  {
    DigitsNoBreak(ShowNat(if i < 0 then -i else i));
    DigitsNoBreak(ShowNat(x.whole));
    DigitsNoBreak(FractionText(x.frac));
  }

  /** The fields of a clean book hold no separator or line break. */
  lemma FieldsNoBreak(b: Book, absent: string)
    requires Clean(b) && NoBreak(absent)
    ensures forall i :: 0 <= i < |Fields(b, absent)| ==> NoBreak(Fields(b, absent)[i])
  {
    NumeralsNoBreak(b.year, b.width);
    NumeralsNoBreak(b.year, b.height);
  }

  /** The last field of a clean book's line does not end in whitespace,
      and when it is empty the line ends in the separator. */
  lemma LineEnd(b: Book, absent: string)
    requires Clean(b) && (absent == "None" || absent == "")
    ensures var line := Join(Fields(b, absent), '|'); |line| > 0 && !IsSpace(line[|line| - 1])
  {
    var parts := Fields(b, absent);
    var last := OptionalText(b.rating, absent);
    assert parts[|parts| - 1] == last;
    if b.rating.Some? {
      JoinLast(parts, '|');
    } else if absent == "None" {
      JoinLast(parts, '|');
      assert last[|last| - 1] == 'e';
    } else {
      JoinEndsWithSep(parts, '|');
    }
  }

  /** A clean book's line holds no line break and does not begin or end in
      whitespace. */
  lemma LineShape(b: Book, absent: string)
    requires Clean(b) && (absent == "None" || absent == "")
    ensures var line := Join(Fields(b, absent), '|');
      && '\n' !in line && '\r' !in line
      && |line| > 0 && !IsSpace(line[0]) && !IsSpace(line[|line| - 1])
  {
    var parts := Fields(b, absent);
    FieldsNoBreak(b, absent);
    JoinExcludes(parts, '|', '\n');
    JoinExcludes(parts, '|', '\r');
    JoinFirst(parts, '|');
    LineEnd(b, absent);
  }

  /** A line of a clean book is the join of its fields, unchanged by
      `strip()`, and splits back into them. */
  lemma LineFields(b: Book, absent: string)
    requires Clean(b) && (absent == "None" || absent == "")
    ensures var line := Join(Fields(b, absent), '|');
      '\n' !in line && '\r' !in line
      && Split(Strip(line), '|') == Fields(b, absent)
  {
    var parts := Fields(b, absent);
    LineShape(b, absent);
    FieldsNoBreak(b, absent);
    SplitJoin(parts, '|');
  }

  /** Valid books pass the checks that do not look at the optional fields. */
  lemma CoreIgnoresOptionals(b: Book, id: nat, read: Option<string>, rating: Option<string>, now: Clock)
    requires Valid(b, now)
    ensures CheckCore(b.(id := id, dateRead := read, rating := rating), now) == Pass
  {
    var b' := b.(id := id, dateRead := read, rating := rating);
    assert CheckCore(b, now) == Pass;
    assert CheckCore(b', now) == CheckCore(b, now);
  }

  /** The line of a clean book passes the field count and the number
      conversions and reaches the constructor with its own fields. */
  lemma LineDecodes(lastId: nat, b: Book, absent: string, now: Clock)
    requires Clean(b) && (absent == "None" || absent == "")
    ensures DecodeLine(lastId, Join(Fields(b, absent), '|'), now)
         == Outcome(NewBook(lastId, ArgsFrom(Fields(b, absent), b.year, b.width, b.height), now))
  {
    LineFields(b, absent);
    ParseShowInt(b.year);
    ParseShowFloat(b.width);
    ParseShowFloat(b.height);
  }

  /** A clean valid book whose optional fields are present, or written as
      empty text, decodes as itself under the next id. */
  lemma DecodeKept(lastId: nat, b: Book, absent: string, now: Clock)
    requires Valid(b, now) && Clean(b) && (absent == "None" || absent == "")
    requires absent == "" || (b.dateRead.Some? && b.rating.Some?)
    ensures DecodeLine(lastId, Join(Fields(b, absent), '|'), now) == Decoded(b.(id := lastId + 1))
  {
    LineDecodes(lastId, b, absent, now);
    assert ArgsFrom(Fields(b, absent), b.year, b.width, b.height) == ArgsOf(b);
    RebuildBook(lastId, b, now);
  }

  /** The constructor rejects a valid book's arguments once an absent
      optional field is replaced by the text `None`. */
  lemma NoneArgsRejected(lastId: nat, b: Book, now: Clock)
    requires Valid(b, now)
    requires b.dateRead.None? || b.rating.None?
    ensures var a := ArgsOf(b).(dateRead := OrNone(Some(OptionalText(b.dateRead, "None"))),
                                rating := OrNone(Some(OptionalText(b.rating, "None"))));
      NewBook(lastId, a, now).book == Err(Invalid(if b.dateRead.None? then DateRead else Rating, BadFormat))
  {
    var read := OrNone(Some(OptionalText(b.dateRead, "None")));
    var rating := OrNone(Some(OptionalText(b.rating, "None")));
    var a := ArgsOf(b).(dateRead := read, rating := rating);
    JoinSplit(b.authors, ',');
    JoinSplit(b.genres, ',');
    var made := Assemble(lastId + 1, a);
    assert made == b.(id := lastId + 1, dateRead := read, rating := rating);
    CoreIgnoresOptionals(b, lastId + 1, read, rating, now);
    NoneTextRejected(b.dateAdded);
    if b.dateRead.None? {
      assert read == Some("None");
      assert CheckBook(made, now) == Fail(Invalid(DateRead, BadFormat));
    } else {
      assert ValidateDateRead(read, b.dateAdded) == Pass;
      assert CheckBook(made, now) == Fail(Invalid(Rating, BadFormat));
    }
  }

  /** A clean valid book with an absent optional field, written as `None`,
      is rejected by the constructor: the text `None` is not a date or a
      rating. The counter has moved on. */
  lemma DecodeRejected(lastId: nat, b: Book, now: Clock)
    requires Valid(b, now) && Clean(b)
    requires b.dateRead.None? || b.rating.None?
    ensures DecodeLine(lastId, Join(Fields(b, "None"), '|'), now) ==
      Stopped(lastId + 1, Rejected(Invalid(if b.dateRead.None? then DateRead else Rating, BadFormat)))
  {
    LineDecodes(lastId, b, "None", now);
    NoneArgsRejected(lastId, b, now);
    assert ArgsFrom(Fields(b, "None"), b.year, b.width, b.height)
        == ArgsOf(b).(dateRead := OrNone(Some(OptionalText(b.dateRead, "None"))),
                      rating := OrNone(Some(OptionalText(b.rating, "None"))));
  }

  /** The books of `bs` under the ids `lastId + 1`, `lastId + 2`, ... */
  function Renumbered(bs: seq<Book>, lastId: nat): (r: seq<Book>)
    ensures |r| == |bs|
    ensures forall i :: 0 <= i < |bs| ==> r[i] == bs[i].(id := lastId + 1 + i)
    decreases |bs|
  {
    if |bs| == 0 then [] else [bs[0].(id := lastId + 1)] + Renumbered(bs[1..], lastId + 1)
  }

  /** A book with an optional field set to `None`. */
  predicate HasAbsent(b: Book) {
    b.dateRead.None? || b.rating.None?
  }

  /** The field whose `None` the constructor rejects first. */
  function AbsentKey(b: Book): Key {
    if b.dateRead.None? then DateRead else Rating
  }

  /** The position of the first book with an absent optional field, or the
      length of the list when there is none. */
  function FirstAbsent(books: seq<Book>): (k: nat)
    ensures k <= |books|
    ensures k < |books| ==> HasAbsent(books[k])
    ensures forall j :: 0 <= j < k ==> !HasAbsent(books[j])
    decreases |books|
  {
    if |books| == 0 then 0
    else if HasAbsent(books[0]) then 0
    else 1 + FirstAbsent(books[1..])
  }

  /** How many books of a saved list load back: all of them when `None` is
      written as an empty field, and those before the first absent optional
      field when it is written as `None`. */
  function Reloaded(books: seq<Book>, absent: string): (k: nat)
    ensures k <= |books|
  {
    if absent == "" then |books| else FirstAbsent(books)
  }

  /** A saved file of clean books holds no carriage return, so newline
      translation leaves it unchanged. */
  lemma {:induction false} SaveNoReturn(books: seq<Book>, absent: string)
    requires absent == "None" || absent == ""
    requires forall i :: 0 <= i < |books| ==> Clean(books[i])
    ensures '\r' !in SaveWith(books, absent)
    decreases |books|
  {
    if |books| > 0 {
      LineFields(books[0], absent);
      SaveNoReturn(books[1..], absent);
    }
  }

  /** The lines of a saved file: the first book's line, then the lines of
      the rest. */
  lemma SaveSplit(books: seq<Book>, absent: string)
    requires |books| > 0 && Clean(books[0]) && (absent == "None" || absent == "")
    ensures Split(SaveWith(books, absent), '\n')
         == [Join(Fields(books[0], absent), '|')] + Split(SaveWith(books[1..], absent), '\n')
  {
    var line := Join(Fields(books[0], absent), '|');
    LineFields(books[0], absent);
    assert SaveWith(books, absent) == line + ['\n'] + SaveWith(books[1..], absent);
    SplitAtSep(line, SaveWith(books[1..], absent), '\n');
  }

  /** The line each book is written as, in list order. */
  function BookLines(books: seq<Book>, absent: string): seq<string>
    decreases |books|
  {
    if |books| == 0 then [] else [Join(Fields(books[0], absent), '|')] + BookLines(books[1..], absent)
  }

  lemma {:induction false} SplitSaved(books: seq<Book>, absent: string)
    requires absent == "None" || absent == ""
    requires forall i :: 0 <= i < |books| ==> Clean(books[i])
    ensures Split(SaveWith(books, absent), '\n') == BookLines(books, absent) + [""]
    decreases |books|
  {
    if |books| == 0 {
      assert SaveWith(books, absent) == "";
    } else {
      SaveSplit(books, absent);
      SplitSaved(books[1..], absent);
      assert BookLines(books, absent) + [""]
          == [Join(Fields(books[0], absent), '|')] + (BookLines(books[1..], absent) + [""]);
    }
  }

  /** Reading back what `save_books_to_file` wrote: one line per book, in
      list order, each the book's fields joined by `|`, and after the last
      newline an empty line. */
  lemma SaveLines(books: seq<Book>, absent: string)
    requires absent == "None" || absent == ""
    requires forall i :: 0 <= i < |books| ==> Clean(books[i])
    ensures Lines(SaveWith(books, absent)) == BookLines(books, absent) + [""]
  {
    SaveNoReturn(books, absent);
    NewlinesNoReturn(SaveWith(books, absent));
    SplitSaved(books, absent);
  }

  /** The empty file: one empty line, which is skipped. */
  lemma LoadEmptySave(lastId: nat, absent: string, now: Clock)
    ensures LoadLines(lastId, Split(SaveWith([], absent), '\n'), now) == Loaded([], lastId, None)
  {
    assert Split(SaveWith([], absent), '\n') == [""];
    assert Split(Strip(""), '|') == [""];
  }

  /** The loading loop reads its first line and goes on with the rest. */
  lemma LoadStep(lastId: nat, line: string, lines: seq<string>, now: Clock)
    ensures LoadLines(lastId, [line] + lines, now) == Continue(lastId, DecodeLine(lastId, line, now), lines, now)
  {
    assert ([line] + lines)[1..] == lines;
  }

  /** A decoded book goes in front of whatever the rest of the lines load
      as. */
  lemma ContinueDecoded(lastId: nat, b: Book, lines: seq<string>, now: Clock)
    requires b.id == lastId + 1
    ensures var rest := LoadLines(lastId + 1, lines, now);
      Continue(lastId, Decoded(b), lines, now) == Loaded([b] + rest.books, rest.lastId, rest.failure)
  {
  }

  lemma RenumberedPrefix(books: seq<Book>, k: nat, lastId: nat)
    requires 0 < k <= |books|
    ensures Renumbered(books[..k], lastId)
         == [books[0].(id := lastId + 1)] + Renumbered(books[1..][..k - 1], lastId + 1)
  {
    assert books[..k][1..] == books[1..][..k - 1];
  }

  /** What loading a saved list gives: the books that reload, renumbered;
      the error of the first one that does not; and the counter after both. */
  predicate LoadsAs(r: Loaded, lastId: nat, books: seq<Book>, absent: string) {
    var k := Reloaded(books, absent);
    && r.books == Renumbered(books[..k], lastId)
    && r.failure == (if k == |books| then None else Some(Rejected(Invalid(AbsentKey(books[k]), BadFormat))))
    && r.lastId == lastId + k + (if k < |books| then 1 else 0)
  }

  lemma LoadSavedEmpty(lastId: nat, absent: string, now: Clock)
    ensures LoadsAs(LoadLines(lastId, Split(SaveWith([], absent), '\n'), now), lastId, [], absent)
  {
    LoadEmptySave(lastId, absent, now);
  }

  /** A first book with `None` written as `None` stops the loading at once. */
  lemma LoadSavedRejected(lastId: nat, books: seq<Book>, now: Clock)
    requires |books| > 0 && Valid(books[0], now) && Clean(books[0]) && HasAbsent(books[0])
    ensures LoadsAs(LoadLines(lastId, Split(SaveWith(books, "None"), '\n'), now), lastId, books, "None")
  {
    var b := books[0];
    var line := Join(Fields(b, "None"), '|');
    var tail := Split(SaveWith(books[1..], "None"), '\n');
    SaveSplit(books, "None");
    DecodeRejected(lastId, b, now);
    LoadStep(lastId, line, tail, now);
    assert Reloaded(books, "None") == 0;
    assert Renumbered(books[..0], lastId) == [];
  }

  /** A first book that reloads is followed by whatever the rest of the file
      loads as. */
  lemma LoadSavedKept(lastId: nat, books: seq<Book>, absent: string, now: Clock)
    requires absent == "None" || absent == ""
    requires |books| > 0 && Valid(books[0], now) && Clean(books[0])
    requires absent == "" || !HasAbsent(books[0])
    requires LoadsAs(LoadLines(lastId + 1, Split(SaveWith(books[1..], absent), '\n'), now), lastId + 1, books[1..], absent)
    ensures LoadsAs(LoadLines(lastId, Split(SaveWith(books, absent), '\n'), now), lastId, books, absent)
  {
    var b := books[0];
    var line := Join(Fields(b, absent), '|');
    var tail := Split(SaveWith(books[1..], absent), '\n');
    SaveSplit(books, absent);
    DecodeKept(lastId, b, absent, now);
    LoadStep(lastId, line, tail, now);
    ContinueDecoded(lastId, b.(id := lastId + 1), tail, now);
    var k := Reloaded(books, absent);
    assert k == Reloaded(books[1..], absent) + 1;
    RenumberedPrefix(books, k, lastId);
    if k < |books| {
      assert books[k] == books[1..][k - 1];
    }
  }

  /** Splitting a saved file at its newlines and loading the lines. */
  lemma {:induction false} LoadSavedLines(lastId: nat, books: seq<Book>, absent: string, now: Clock)
    requires absent == "None" || absent == ""
    requires forall i :: 0 <= i < |books| ==> Valid(books[i], now) && Clean(books[i])
    ensures LoadsAs(LoadLines(lastId, Split(SaveWith(books, absent), '\n'), now), lastId, books, absent)
    decreases |books|
  {
    if |books| == 0 {
      LoadSavedEmpty(lastId, absent, now);
    } else if absent == "None" && HasAbsent(books[0]) {
      LoadSavedRejected(lastId, books, now);
    } else {
      LoadSavedLines(lastId + 1, books[1..], absent, now);
      LoadSavedKept(lastId, books, absent, now);
    }
  }

  /** Loading the file `save_books_to_file` wrote: every book before the
      first one with an absent date read or rating comes back with a fresh
      id, and that book stops the loading, because its `None` was written
      as the text `None`, which the constructor rejects after drawing an
      id. Nothing after it is read. */
  lemma SaveLoad(lastId: nat, books: seq<Book>, now: Clock)
    requires forall i :: 0 <= i < |books| ==> Valid(books[i], now) && Clean(books[i])
    ensures var r := Load(lastId, Some(Save(books)), now);
      var k := FirstAbsent(books);
      && r.books == Renumbered(books[..k], lastId)
      && (k == |books| ==> r.failure == None && r.lastId == lastId + |books|)
      && (k < |books| ==> r.failure == Some(Rejected(Invalid(AbsentKey(books[k]), BadFormat)))
                          && r.lastId == lastId + k + 1)
  {
    SaveNoReturn(books, "None");
    NewlinesNoReturn(Save(books));
    LoadSavedLines(lastId, books, "None", now);
  }

  /** One book without a rating is enough: after saving and loading, the
      library is empty. */
  lemma SaveLoadLosesUnrated(lastId: nat, b: Book, now: Clock)
    requires Valid(b, now) && Clean(b) && b.rating.None?
    ensures Load(lastId, Some(Save([b])), now).books == []
  {
    SaveLoad(lastId, [b], now);
  }

  /** Loading a file written with empty fields for `None`: every book comes
      back, in order, equal to the saved one except for its fresh id. */
  lemma SaveLoadFixed(lastId: nat, books: seq<Book>, now: Clock)
    requires forall i :: 0 <= i < |books| ==> Valid(books[i], now) && Clean(books[i])
    ensures Load(lastId, Some(SaveFixed(books)), now)
         == Loaded(Renumbered(books, lastId), lastId + |books|, None)
  {
    SaveNoReturn(books, "");
    NewlinesNoReturn(SaveFixed(books));
    LoadSavedLines(lastId, books, "", now);
    assert books[..|books|] == books;
  }
}
