/** The field schema: for each field a length limit and a pattern, and the
    generic check that applies them. Patterns are applied with `re.match`,
    which anchors at the start of the value only, so each pattern is
    written here as the condition on a PREFIX of the value that makes the
    match succeed. */
module Schema {
  import opened Text

  /** The keys of the schema. */
  datatype Key =
    | Name | Authors | Genres | Year | Width | Height | BookType | Source
    | DateAdded | DateRead | Rating | SearchField | UpdateName | UpdateField

  /** The most characters `str(value)` may have. */
  function Limit(k: Key): nat {
    match k
    case Name => 51
    case Authors => 51
    case Genres => 71
    case Year => 5
    case Width => 6
    case Height => 6
    case BookType => 8
    case Source => 11
    case DateAdded => 11
    case DateRead => 11
    case Rating => 101
    case SearchField => 1000
    case UpdateName => 1000
    case UpdateField => 1000
  }

  /** `[А-Яа-яЁёA-Za-z]`. */
  predicate Letter(c: char) {
    || 'А' <= c <= 'Я' || 'а' <= c <= 'я' || c == 'Ё' || c == 'ё'
    || 'A' <= c <= 'Z' || 'a' <= c <= 'z'
  }

  /** `[А-Яа-яЁёA-Za-z0-9\s]`. */
  predicate NameChar(c: char) {
    Letter(c) || IsDigit(c) || IsSpace(c)
  }

  /** `[А-Яа-яЁёA-Za-z\s,]`. */
  predicate ListChar(c: char) {
    Letter(c) || IsSpace(c) || c == ','
  }

  /** `\d+\.\d` matches at the start of `s`. */
  predicate DecimalPrefix(s: string)
    decreases |s|
  {
    && |s| >= 1 && IsDigit(s[0])
    && ((|s| >= 3 && s[1] == '.' && IsDigit(s[2])) || DecimalPrefix(s[1..]))
  }

  /** `\d{2}-\d{2}-\d{4}` matches at the start of `s`. */
  predicate DatePrefix(s: string) {
    && |s| >= 10 && s[2] == '-' && s[5] == '-'
    && IsDigit(s[0]) && IsDigit(s[1]) && IsDigit(s[3]) && IsDigit(s[4])
    && IsDigit(s[6]) && IsDigit(s[7]) && IsDigit(s[8]) && IsDigit(s[9])
  }

  /** `([1-9]|10)/10 - .` matches at the start of `s`; `.` is any character
      but a newline. */
  predicate RatingPrefix(s: string) {
    || (|s| >= 8 && '1' <= s[0] <= '9' && s[1..7] == "/10 - " && s[7] != '\n')
    || (|s| >= 9 && s[..8] == "10/10 - " && s[8] != '\n')
  }

  /** One of the alternatives of a `a|b|c` pattern of plain words is a
      prefix of `s`. */
  predicate StartsWithAny(s: string, words: seq<string>) {
    exists i :: 0 <= i < |words| && StartsWith(s, words[i])
  }

  const SoftCover: string := "мягкий"
  const HardCover: string := "твердый"
  const Sources: seq<string> := ["покупка", "подарок", "наследство"]
  const SearchFields: seq<string> := ["authors", "genres", "name"]
  const UpdateFields: seq<string> :=
    ["name", "year", "authors", "genres", "width", "height", "book_type", "source", "date_added", "date_read", "rating"]

  /** `re.match(db_schema[k]["regex"], s)` succeeds. */
  predicate Matches(k: Key, s: string) {
    match k
    case Name => |s| > 0 && NameChar(s[0])
    case Authors => |s| > 0 && ListChar(s[0])
    case Genres => |s| > 0 && ListChar(s[0])
    case Year => |s| >= 4 && IsDigit(s[0]) && IsDigit(s[1]) && IsDigit(s[2]) && IsDigit(s[3])
    case Width => DecimalPrefix(s)
    case Height => DecimalPrefix(s)
    case BookType => StartsWithAny(s, [SoftCover, HardCover])
    case Source => StartsWithAny(s, Sources)
    case DateAdded => DatePrefix(s)
    case DateRead => DatePrefix(s)
    case Rating => RatingPrefix(s)
    case SearchField => StartsWithAny(s, SearchFields)
    case UpdateName => true
    case UpdateField => StartsWithAny(s, UpdateFields)
  }

  /** Why a validator raised `ValueError`. */
  datatype Reason =
    | TooLong            // longer than the schema limit
    | BadFormat          // the pattern does not match
    | BadDate            // `strptime` rejects text the pattern let through
    | TooLarge           // width or height above 1000
    | Negative           // width or height below 0
    | InFuture           // year after this year, or date added not before now
    | BeforePublication  // date added in a year before the publication year
    | BeforeAdded        // date read earlier than date added
    | NotInLibrary       // no book of the library has that name

  datatype Invalid = Invalid(key: Key, reason: Reason)

  /** A validator either returns or raises `ValueError`. */
  datatype Check = Pass | Fail(error: Invalid)

  /** `validate_field(k, s)`: the length limit is checked first, and only a
      value within it is matched against the pattern. */
  function ValidateField(k: Key, s: string): (r: Check)
    ensures |s| > Limit(k) ==> r == Fail(Invalid(k, TooLong))
    ensures |s| <= Limit(k) ==> (r == Pass <==> Matches(k, s))
    ensures r.Fail? ==> r.error.key == k && (r.error.reason == TooLong || r.error.reason == BadFormat)
  {
    if |s| > Limit(k) then Fail(Invalid(k, TooLong))
    else if !Matches(k, s) then Fail(Invalid(k, BadFormat))
    else Pass
  }

  lemma {:induction false} DecimalPrefixExtends(s: string, t: string)
    requires DecimalPrefix(s)
    ensures DecimalPrefix(s + t)
    decreases |s|
  {
    var u := s + t;
    assert u[0] == s[0];
    if |s| >= 3 && s[1] == '.' && IsDigit(s[2]) {
      assert u[1] == s[1] && u[2] == s[2];
    } else {
      DecimalPrefixExtends(s[1..], t);
      assert u[1..] == s[1..] + t;
    }
  }

  lemma StartsWithExtends(s: string, t: string, w: string)
    requires StartsWith(s, w)
    ensures StartsWith(s + t, w)
  {
    assert (s + t)[..|w|] == s[..|w|];
  }

  /** Because `re.match` only anchors at the start, appending anything to a
      value the pattern accepts leaves it accepted. */
  lemma MatchesExtends(k: Key, s: string, t: string)
    requires Matches(k, s)
    ensures Matches(k, s + t)
  {
    var u := s + t;
    match k
    case Width => DecimalPrefixExtends(s, t);
    case Height => DecimalPrefixExtends(s, t);
    case BookType =>
      var i :| 0 <= i < 2 && StartsWith(s, [SoftCover, HardCover][i]);
      StartsWithExtends(s, t, [SoftCover, HardCover][i]);
    case Source =>
      var i :| 0 <= i < |Sources| && StartsWith(s, Sources[i]);
      StartsWithExtends(s, t, Sources[i]);
    case SearchField =>
      var i :| 0 <= i < |SearchFields| && StartsWith(s, SearchFields[i]);
      StartsWithExtends(s, t, SearchFields[i]);
    case UpdateField =>
      var i :| 0 <= i < |UpdateFields| && StartsWith(s, UpdateFields[i]);
      StartsWithExtends(s, t, UpdateFields[i]);
    case Rating =>
      if |s| >= 9 && s[..8] == "10/10 - " && s[8] != '\n' {
        assert u[..8] == s[..8];
      } else {
        assert u[1..7] == s[1..7];
      }
    case _ =>
      assert u[..|s|] == s;
  }

  /** The book type is checked only for its first characters: `мягкий`
      followed by up to two arbitrary characters passes, and a third extra
      character fails on length, not on the pattern. */
  lemma SoftCoverPrefix(t: string)
    ensures |t| <= 2 ==> ValidateField(BookType, SoftCover + t) == Pass
    ensures |t| >= 3 ==> ValidateField(BookType, SoftCover + t) == Fail(Invalid(BookType, TooLong))
  {
    if |t| <= 2 {
      var words := [SoftCover, HardCover];
      assert (SoftCover + t)[..|SoftCover|] == SoftCover;
      assert StartsWith(SoftCover + t, words[0]);
      assert StartsWithAny(SoftCover + t, [SoftCover, HardCover]);
    }
  }
}
