# Home library catalogue, modelled in Dafny

This project models the core of a small console book catalogue written in
Python: the `Book` record with its class-level id counter, the
`HomeLibrary` list operations (add, list names, substring search, delete by
name, update the first book of a name), the `|`-separated line format that
`save_books_to_file` writes and `load_books_from_file` reads, and the field
validators of `validate.py` built on `validate_field` and the `db_schema`
table.

Everything is a value: a book is an immutable datatype, the library is a
`seq<Book>`, the id counter is a `nat` passed in and returned, "now" is a
`Clock` parameter, and the file is its text (`None` when it does not exist).

Modules, in dependency order:

- `Wrappers` (`wrappers.dfy`): `Option` and `Result`.
- `Text` (`text.dfy`): `str.strip`, `str.split`, `str.join`, `in` on
  strings, and newline translation when reading a file.
- `Numerals` (`numerals.dfy`): `str`/`int` for integers, `str`/`float` for
  floats. A float is the exact decimal numeral its `repr` prints.
- `Dates` (`dates.dfy`): `strptime(s, "%d-%m-%Y")`, date order, and `now`.
- `Schema` (`schema.dfy`): `db_schema` limits, each pattern as the
  condition `re.match` puts on a prefix, and `validate_field`.
- `Validate` (`validate.dfy`): the validators of single fields.
- `Books` (`books.dfy`): `Book`, its constructor with the id counter, and
  `validate_data`.
- `Library` (`library.dfy`): the `HomeLibrary` operations.
- `Codec` (`codec.dfy`): saving and loading, and the round-trip theorems.

Lines of the file hold the eleven `HEADERS` fields and no id, ids are drawn
again from the counter on every load, search is a case-sensitive substring
test on every field, and delete and update go by name.

## Model

| member | source | states |
|---|---|---|
| Text.Strip | main.py:77 | the stripped text has no whitespace at either end, and text with no whitespace at its ends is unchanged |
| Text.StripStartMeans | main.py:77 | the leading half of `strip()` keeps a suffix of the text and every character it drops is whitespace |
| Text.StripEndMeans | main.py:77 | the trailing half of `strip()` keeps a prefix of the text and every character it drops is whitespace |
| Text.Split | main.py:77 | splitting yields at least one piece, even for the empty text |
| Text.SplitPieces | main.py:77 | no piece of a split contains the separator |
| Text.JoinSplit | main.py:20-21 | `Join` (`str.join`) of the pieces of a split with the same separator restores the string, so authors and genres split at commas and joined again are unchanged |
| Text.SplitJoin | main.py:77-79 | `Split` of a `Join` of separator-free pieces gives back exactly those pieces |
| Text.NewlinesNoReturn | main.py:75-76 | reading in text mode (`UniversalNewlines`) leaves no carriage return, and text without one is unchanged |
| Text.TranslateAppend | main.py:75-76 | when the first part is non-empty and ends in a character that is not a carriage return, the translation of the two parts together is the translation of the first part followed by the translation of the second part from a fresh start |
| Text.NewlinesAppend | main.py:75-76 | text not ending in a carriage return translates independently of what follows it |
| Text.CrLfBecomesNewline | main.py:75-76 | each `\r\n` pair is read as one `\n` |
| Text.LoneReturnBecomesNewline | main.py:75-76 | a carriage return not followed by `\n` is read as one `\n` |
| Text.ContainsIff | main.py:58 | `value in text` holds exactly when some window of the text equals the value |
| Numerals.ShowNat | main.py:102 | `str` of a non-negative integer is a run of digits without a leading zero whose value is the integer |
| Numerals.ParseShowInt | main.py:84 | `ParseInt(ShowInt(i))`, that is `int(str(i))`, is `i` for every integer |
| Numerals.ShowNatLength | validate.py:10 | `str(n)` has at most k characters exactly when n is below 10^k |
| Numerals.TrimZerosMeans | main.py:85-86 | reading a fraction drops only trailing zero digits, so `1.50` reads as the float `1.5` |
| Numerals.ParseShowFloat | main.py:85-86 | `ParseFloat(ShowFloat(x))`, that is `float(str(x))`, is `x`: the numeral written for a width or height reads back as the same value |
| Numerals.SeparatorRejected | main.py:84-86 | text starting with one of the characters U+001C to U+001F, which `isspace` accepts, is rejected by both `int` and `float` |
| Dates.ParseDate | validate.py:80 | a date `strptime` returns is one `datetime` can represent: a year from 1 to 9999 and a day that exists in its month |
| Dates.PaddedParses | validate.py:80 | on zero-padded `dd-mm-yyyy` text, `strptime` returns the date the text names |
| Dates.ParseDateForms | validate.py:80 | `strptime` also reads a day or month without its leading zero, and a day padded with a space |
| Dates.ParseLongDate | validate.py:79-80 | `dd-mm-yyyy` followed by one more character is not a date |
| Dates.ParseShowDate | validate.py:80 | every representable date has a zero-padded `dd-mm-yyyy` text that `strptime` reads back as that date |
| Schema.ValidateField | validate.py:29-33 | a value longer than its limit is rejected for length whatever its content; within the limit it passes exactly when the pattern matches; every error names the field |
| Schema.MatchesExtends | validate.py:32 | a value the start-anchored pattern accepts stays accepted whatever is appended |
| Schema.SoftCoverPrefix | validate.py:13 | `мягкий` followed by up to two arbitrary characters is accepted as a book type, and a third extra character is rejected for length |
| Validate.YearText | validate.py:10 | `str(year)` fits the five-character limit and starts with four digits exactly for the years 1000 to 99999 |
| Validate.ValidateYear | validate.py:48-51 | a year passes exactly when it is between 1000 and 99999 and not after the current year |
| Validate.ShownFloatFormat | validate.py:11-12 | `ShowFloat(x)`, that is `str(x)`, matches `\d+\.\d+` exactly when x is not negative |
| Validate.ValidateMeasure | validate.py:54-67 | a width or height passes exactly when it is non-negative, prints in at most six characters and is at most 1000; the below-zero error is never raised, because the format check rejects negative values first |
| Validate.DateShapeMatches | validate.py:15-16 | zero-padded `dd-mm-yyyy` text naming a date passes the length and pattern check of the date fields |
| Validate.PatternedDate | validate.py:79-80 | on text that passed the date fields' length and pattern check, `strptime` succeeds exactly on the zero-padded ten-character form naming a date |
| Validate.ValidateDateAdded | validate.py:78-84 | a date added passes exactly when it is zero-padded `dd-mm-yyyy` text naming a date strictly before now and its year is not before the publication year; at or after now is `InFuture`, an earlier year is `BeforePublication` |
| Validate.ValidateDateRead | validate.py:87-93 | an absent or empty date read passes; the date added is read by `strptime` in any form it accepts; when it parses and the date read is zero-padded `dd-mm-yyyy` naming a date, the check passes exactly when the date read is not before the date added; otherwise a present date read fails; every failure names the date read or the date added |
| Validate.ValidateRating | validate.py:96-98 | an absent or empty rating passes; otherwise it passes exactly when it fits 101 characters and starts with `n/10 - ` (n from 1 to 10) and one more character; a failure names the rating |
| Validate.ValidateUpdateName | validate.py:105-108 | a name passes exactly when it has at most 1000 characters and is among the library's names |
| Validate.NoneTextRejected | validate.py:87-98 | the text `None` fails the format check of both the date read and the rating |
| Books.OrNone | main.py:28-29 | an empty optional text becomes `None` and any other is kept |
| Books.CoreMeans | main.py:33-42 | the nine required validators pass exactly when the name, authors, genres, type and source meet their limits and patterns, the year and measures their ranges, and the date added is zero-padded `dd-mm-yyyy` before now and not before the year |
| Books.CheckBook | main.py:33-44 | a failing `validate_data` always names one of the eleven book fields |
| Books.ValidMeans | main.py:33-44 | a book is valid exactly when the required fields hold as in `CoreMeans`, a present date read is zero-padded `dd-mm-yyyy` not before the date added, and a present rating fits its limit and prefix |
| Books.NewBook | main.py:16-31 | the counter moves on by one whether or not the book is accepted; the book gets the new counter value as id; it is accepted exactly when its assembled attributes are valid, and otherwise the first failing validator's error is raised |
| Books.RebuildBook | main.py:79-92 | constructing a book from the attributes of a valid one, with authors and genres split at commas, gives the same book under the next id |
| Books.AttrDefined | main.py:58 | `Attr` (`getattr`) finds exactly the twelve attributes a book has |
| Library.AddBook | main.py:51-52 | the library grows by one, keeps its books in place and ends with the new one |
| Library.SelectBooks | main.py:54-55 | the listing has one name per book, in list order |
| Library.SelectAfterAdd | main.py:51-55 | after an addition the listing is the old listing followed by the new name |
| Library.SearchBooks | main.py:57-58 | the result is no longer than the library, and a name is in it exactly when some book of that name has an attribute text containing the value |
| Library.SearchOne | main.py:58 | a one-book library gives that book's name once when the book is a hit and nothing otherwise, which with `SearchAppend` fixes the result as one name per hit book in list order |
| Library.SearchAppend | main.py:57-58 | the results of a list in two parts are the results of the first part followed by those of the second, so list order is kept |
| Library.SearchEmptyValue | main.py:58 | an empty value finds every book, in list order, whatever the field |
| Library.SearchUnknownField | main.py:58 | a field that is not an attribute compares as the empty text: every book for the empty value, none otherwise |
| Library.SearchFindsAbsentDateRead | main.py:58 | a book with no date read is found by searching `date_read` for `None` |
| Library.DeleteBook | main.py:60-61 | no book of the deleted name is left |
| Library.DeleteMeans | main.py:60-61 | a book is left exactly when it was in the library under another name |
| Library.DeleteAppend | main.py:61 | deleting from a list in two parts deletes from each part and keeps their order |
| Library.DeleteAbsent | main.py:61 | deleting a name no book has changes nothing |
| Library.DeleteTwice | main.py:60-61 | deleting a name twice is the same as deleting it once |
| Library.DeleteKeepsIdsIncreasing | main.py:60-61 | deletion keeps ids strictly rising along the list |
| Library.Apply | main.py:67 | after the assignment the named attribute reads as `str` of the assigned value, and the id is kept |
| Library.ApplyChangesOnlyTarget | main.py:67 | an assignment changes no attribute other than the one it names |
| Library.UpdateBook | main.py:63-71 | the result has the length of the library, holds the assigned book at the first position whose book has that name, and holds the original book at each remaining position |
| Library.UpdateAbsent | main.py:63-71 | updating a name no book has changes nothing |
| Library.UpdateKeepsIds | main.py:63-71 | updating keeps every id in place |
| Library.UpdateNameAccepted | validate.py:105-108 | checked against this library's listing, a name is accepted exactly when it has at most 1000 characters and some book has it |
| Library.AddKeepsIdsIncreasing | main.py:17-18 | adding a freshly constructed book to a library whose ids are at most the counter keeps ids strictly rising and at most the new counter |
| Codec.FieldTexts | main.py:102 | a line holds, in `HEADERS` order, `str(getattr(book, h))` for each header `h`, so an absent optional field is written as `None` |
| Codec.SplitSaved | main.py:99-102 | the saved text split at `\n` is one line per book, in list order, then an empty piece after the last newline |
| Codec.SaveLines | main.py:99-102 | the text `save_books_to_file` writes for clean books, with an absent field as `None` (`Save`) or as empty text (`SaveFixed`), is read back as one line per book in list order, with its fields joined by the bar character, then an empty line |
| Codec.Lines | main.py:75-76 | the lines of a file joined by `\n` give the text with its newlines translated, and no line holds `\n` or `\r` |
| Codec.Convert | main.py:83-86 | the year, width and height convert exactly when `int` and `float` accept all three, and a failure names one of those fields |
| Codec.ParseLine | main.py:77-86 | a stripped line counts as a book line exactly when it splits into eleven fields; an eleven-field line fails conversion exactly when `Convert` rejects its numbers, naming the field `Convert` names, and otherwise yields the constructor arguments built from its fields and converted numbers |
| Codec.Step | main.py:79-93 | a line whose numbers do not convert stops the loading with that field's conversion error and the counter unchanged; a line with constructor arguments has the outcome of `NewBook` on those arguments, which draws the next id for the accepted and the rejected book alike |
| Codec.DecodeLine | main.py:77-93 | a line is skipped exactly when it does not split into eleven fields; an eleven-field line whose numbers do not convert stops with the field `Convert` names and the counter unchanged; one whose numbers convert has the outcome of `NewBook` on its fields and numbers; a decoded book takes the next id and a rejected book moves the counter by one |
| Codec.SeparatorYearStops | main.py:77-84 | a book line whose year field starts with one of U+001C to U+001F stops the loading with the year's conversion error and the counter unchanged |
| Codec.DecodedValid | main.py:79-93 | a book a line decodes to passed `validate_data` |
| Codec.Continue | main.py:76-93 | after a stopping line nothing more is read; otherwise the books added take consecutive ids from the counter |
| Codec.LoadLines | main.py:76-93 | loaded books are at most one per line and take consecutive ids from the counter, and the counter afterwards is past them, plus one if a book was rejected |
| Codec.LoadLinesValid | main.py:80-93 | every loaded book passed validation |
| Codec.Load | main.py:47-49 | a missing file gives an empty library; loaded books are valid and numbered consecutively |
| Codec.LineFields | main.py:77 | the line of a clean book is left unchanged by `strip()` and splits back into its eleven fields |
| Codec.DecodeKept | main.py:77-93 | a valid clean book whose optional fields are present decodes as itself under the next id |
| Codec.DecodeRejected | main.py:90-91 | a valid clean book with an absent date read or rating, written as `None`, is rejected by the constructor with the format error of that field, after drawing an id |
| Codec.SaveLoad | main.py:73-102 | loading a saved library returns, renumbered, the books before the first one with an absent date read or rating; that one stops the loading with its format error after consuming an id; without such a book all come back |
| Codec.SaveLoadLosesUnrated | main.py:96-102 | a library of one valid book without a rating loads back empty |
| Codec.SaveLoadFixed | main.py:90-91 | when absent optional fields are written as empty text, loading a saved library returns every book, in order, renumbered |

## Findings

| source | as written | input that shows it | evidently intended | confidence | as-written member | corrected member |
|---|---|---|---|---|---|---|
| main.py:102 | the line is an f-string of the attributes, so an absent `date_read` or `rating` is written as the text `None`; on reload that text is truthy, fails the format check, and the exception aborts the loading | one valid book with no rating, saved and loaded: the library comes back empty, and every book after the first unread one is lost | an absent optional field is written as an empty field, which the loader already turns back into `None` | high; not executed | Codec.SaveLoadLosesUnrated | Codec.SaveLoadFixed |

`Codec.SaveLoad` states the as-written behaviour for whole libraries.
`Codec.SaveFixed` is the corrected writer; `Codec.Save` is the writer as
written.

## Left out

- The console loop (`get_input`, `display_menu`, `main`, `make_correct_type`) and every `print`: interactive I/O. The validation done at the prompts is modelled by the validators themselves.
- `generate.py` and `client.py`: random data generation and a network load-test client, outside the catalogue.
- File I/O: the file is its text, `None` when it is missing. Encoding errors and other I/O failures are not modelled.
- `datetime.now()`: a `Clock` parameter (today's date and the microseconds since midnight), the same for every validator in one call.
- Binary floating point: a float is the exact decimal its `repr` prints. Exponent notation, rounding, `inf` and `nan` are not modelled.
- `Numerals.ParseInt`: `int()` and `float()` also accept underscores between digits and non-ASCII decimal digits in Python; the model accepts only ASCII digits with an optional sign, surrounded by the whitespace CPython skips there (`NumeralSpace`: the ASCII spaces ` \t\n\v\f\r` and the non-ASCII characters `isspace` accepts, not U+001C to U+001F).
- `Dates.ParseDate`: `strptime` reads `%d`, `%m` and `%Y` with `\d`, which in Python also matches non-ASCII digits; the model reads ASCII digits only.
- Regular expressions: `\d` and `\s` are ASCII digits and the Python whitespace characters; each pattern is a hand-written prefix predicate.
- `Books.Attr`: `getattr` of names other than the twelve data attributes (methods, dunder attributes) is treated as missing, so searching such a field compares against the empty text.
- `Library.UpdateBook`: `setattr` is modelled for the eleven `HEADERS` fields the console offers, with the value already converted to the field's type; assigning other attribute names is not modelled. The `except` around it in `update_book` cannot fire for these fields.
- `Codec.SaveLoad`: requires the books to be valid under the loading clock and clean (no `|` or line break in a field, no leading whitespace in the name, no trailing whitespace in the rating, no empty optional text); other books are not covered by the theorem.
- The class counter is shared by every `Book` call in the program; the model threads it through the calls it models, not through calls made elsewhere.
