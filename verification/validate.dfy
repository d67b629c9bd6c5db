/** The per-field validators built on `validate_field`: range checks for the
    year, width and height, the date-ordering checks, the optional fields,
    and the check that an update names a book of the library. `now` is a
    parameter. The plain wrappers `validate_name`, `validate_authors`,
    `validate_genres`, `validate_book_type`, `validate_source`,
    `validate_search_field` and `validate_update_field` are
    `ValidateField` with their key and have no definition of their own. */
module Validate {
  import opened Wrappers
  import opened Text
  import opened Numerals
  import opened Dates
  import opened Schema

  /** Python truthiness of an `Optional[str]`: present and not empty. */
  predicate Truthy(o: Option<string>) {
    o.Some? && o.value != ""
  }

  /** Running one validator and then another: the first `ValueError` raised
      is the one the caller sees. */
  function AndThen(first: Check, next: Check): Check {
    if first.Fail? then first else next
  }

  /** `str(year)` fits five characters and starts with four digits exactly
      for the years 1000 to 99999. */
  lemma YearText(year: int)
    ensures |ShowInt(year)| <= Limit(Year) && Matches(Year, ShowInt(year)) <==> 1000 <= year < 100000
  {
    if year >= 0 {
      ShowNatLength(year, 3);
      ShowNatLength(year, 5);
      assert Pow10(3) == 1000 by {
        assert Pow10(1) == 10;
        assert Pow10(2) == 100;
      }
      assert Pow10(5) == 100000 by {
        assert Pow10(4) == 10 * Pow10(3);
      }
    }
  }

  /** `validate_year`: the format check on `str(year)`, then the year may not
      be after the current one. */
  function ValidateYear(year: int, now: Clock): (r: Check)
    ensures r == Pass <==> 1000 <= year < 100000 && year <= now.today.year
    ensures r.Fail? ==> r.error.key == Year
  {
    YearText(year);
    var c := ValidateField(Year, ShowInt(year));
    if c.Fail? then c
    else if year > now.today.year then Fail(Invalid(Year, InFuture))
    else Pass
  }

  lemma {:induction false} DecimalPrefixOfDigits(a: string, f: string)
    requires |a| >= 1 && AllDigits(a)
    requires |f| >= 1 && IsDigit(f[0])
    ensures DecimalPrefix(a + "." + f)
    decreases |a|
  {
    var s := a + "." + f;
    if |a| == 1 {
      assert s[1] == '.' && s[2] == f[0];
    } else {
      DecimalPrefixOfDigits(a[1..], f);
      assert s[1..] == a[1..] + "." + f;
    }
  }

  /** `str(x)` matches `\d+\.\d+` exactly when the float is not negative
      (a negative one starts with a minus sign). */
  lemma ShownFloatFormat(k: Key, x: Float)
    requires k == Width || k == Height
    ensures Matches(k, ShowFloat(x)) <==> !x.negative
  {
    var w := ShowNat(x.whole);
    var f := FractionText(x.frac);
    if !x.negative {
      DecimalPrefixOfDigits(w, f);
      assert ShowFloat(x) == w + "." + f;
    } else {
      assert ShowFloat(x)[0] == '-';
    }
  }

  /** `validate_width` and `validate_height`, which differ only in their key:
      the format check, then above 1000 is rejected, then below 0. The format
      check already rejects every negative value, so the last check never
      fires and the accepted values are exactly the numerals of at most six
      characters in the closed range 0 to 1000. */
  function ValidateMeasure(k: Key, x: Float): (r: Check)
    requires k == Width || k == Height
    ensures r != Fail(Invalid(k, Negative))
    ensures r == Pass <==> !x.negative && |ShowFloat(x)| <= 6 && Value(x) <= 1000.0
    ensures r.Fail? ==> r.error.key == k
  {
    ShownFloatFormat(k, x);
    var c := ValidateField(k, ShowFloat(x));
    if c.Fail? then c
    else if Value(x) > 1000.0 then Fail(Invalid(k, TooLarge))
    else if Value(x) < 0.0 then Fail(Invalid(k, Negative))
    else Pass
  }

  /** Zero-padded `dd-mm-yyyy` text naming a date passes the date fields'
      length limit and pattern. */
  lemma DateShapeMatches(k: Key, s: string)
    requires k == DateAdded || k == DateRead
    ensures PaddedDate(s).Some? ==> ValidateField(k, s) == Pass
  {
    if PaddedDate(s).Some? {
      assert s[6] == s[6..10][0] && s[7] == s[6..10][1] && s[8] == s[6..10][2] && s[9] == s[6..10][3];
    }
  }

  /** On text that has passed the date fields' length limit and pattern,
      `strptime` reads exactly the zero-padded `dd-mm-yyyy` form: an
      eleventh character is left unconverted, or is a fourth `-`. */
  lemma PatternedDate(k: Key, s: string)
    requires k == DateAdded || k == DateRead
    ensures ValidateField(k, s) == Pass ==> ParseDate(s) == PaddedDate(s)
  {
    if ValidateField(k, s) == Pass {
      assert |s| <= 11 && DatePrefix(s);
      if |s| == 10 {
        PaddedParses(s);
      } else {
        assert DateShape(s[..10]);
        ParseLongDate(s);
      }
    }
  }

  /** `validate_date_added`: the format check, then `strptime`, then the date
      must be before now, then its year may not be before the publication
      year. A date added passes exactly when it is zero-padded `dd-mm-yyyy`
      text naming a day before now in a year not before the publication. */
  function ValidateDateAdded(added: string, year: int, now: Clock): (r: Check)
    ensures r == Pass <==>
      PaddedDate(added).Some? && EarlierThan(PaddedDate(added).value, now) && PaddedDate(added).value.year >= year
    ensures PaddedDate(added).Some? && !EarlierThan(PaddedDate(added).value, now) ==>
      r == Fail(Invalid(DateAdded, InFuture))
    ensures PaddedDate(added).Some? && EarlierThan(PaddedDate(added).value, now) && PaddedDate(added).value.year < year ==>
      r == Fail(Invalid(DateAdded, BeforePublication))
    ensures r.Fail? ==> r.error.key == DateAdded
  {
    DateShapeMatches(DateAdded, added);
    PatternedDate(DateAdded, added);
    var c := ValidateField(DateAdded, added);
    if c.Fail? then c
    else match ParseDate(added)
      case None => Fail(Invalid(DateAdded, BadDate))
      case Some(d) =>
        if !EarlierThan(d, now) then Fail(Invalid(DateAdded, InFuture))
        else if d.year < year then Fail(Invalid(DateAdded, BeforePublication))
        else Pass
  }

  /** `validate_date_read`: an absent or empty date read is accepted;
      otherwise the format check, then both dates are parsed, and the date
      read may not be earlier than the date added. The date added is parsed
      by `strptime` without a format check of its own. */
  function ValidateDateRead(read: Option<string>, added: string): (r: Check)
    ensures !Truthy(read) ==> r == Pass
    ensures Truthy(read) && ParseDate(added).Some? && PaddedDate(read.value).Some? ==>
      (r == Pass <==> !Before(PaddedDate(read.value).value, ParseDate(added).value))
    ensures Truthy(read) && (PaddedDate(read.value).None? || ParseDate(added).None?) ==> r.Fail?
    ensures r.Fail? ==> r.error.key == DateRead || r.error.key == DateAdded
  {
    if !Truthy(read) then Pass
    else
      DateShapeMatches(DateRead, read.value);
      PatternedDate(DateRead, read.value);
      var c := ValidateField(DateRead, read.value);
      if c.Fail? then c
      else match (ParseDate(added), ParseDate(read.value))
        case (None, _) => Fail(Invalid(DateAdded, BadDate))
        case (_, None) => Fail(Invalid(DateRead, BadDate))
        case (Some(a), Some(d)) => if Before(d, a) then Fail(Invalid(DateRead, BeforeAdded)) else Pass
  }

  /** `validate_rating`: an absent or empty rating is accepted; otherwise the
      format check. */
  function ValidateRating(rating: Option<string>): (r: Check)
    ensures !Truthy(rating) ==> r == Pass
    ensures Truthy(rating) ==> (r == Pass <==> |rating.value| <= 101 && RatingPrefix(rating.value))
    ensures r.Fail? ==> r.error.key == Rating
  {
    if Truthy(rating) then ValidateField(Rating, rating.value) else Pass
  }

  /** `validate_update_name`: the pattern `.*` accepts anything, so a name is
      accepted exactly when it has at most 1000 characters and is among the
      library's titles. */
  function ValidateUpdateName(name: string, titles: seq<string>): (r: Check)
    ensures r == Pass <==> |name| <= 1000 && name in titles
  {
    var c := ValidateField(UpdateName, name);
    if c.Fail? then c
    else if name !in titles then Fail(Invalid(UpdateName, NotInLibrary))
    else Pass
  }

  /** The text `None`, which is what `str(None)` writes for an absent
      optional field, fails the format check of both optional fields. */
  lemma NoneTextRejected(added: string)
    ensures ValidateDateRead(Some("None"), added) == Fail(Invalid(DateRead, BadFormat))
    ensures ValidateRating(Some("None")) == Fail(Invalid(Rating, BadFormat))
  {
    assert !DatePrefix("None");
    assert !RatingPrefix("None");
  }
}
