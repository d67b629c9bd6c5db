/** The parts of Python's `str` the catalogue relies on: whitespace and digit
    classes, `strip`, `split`, `join`, the `in` substring test, and the
    newline translation a text-mode file applies when it is read. */
module Text {

  /** `c.isspace()`; it is also the class `\s` stands for in a `str` pattern. */
  predicate IsSpace(c: char) {
    || c == ' '
    || '\t' <= c <= '\r'
    || '\U{1c}' <= c <= '\U{1f}'
    || c == '\U{85}' || c == '\U{a0}' || c == '\U{1680}'
    || '\U{2000}' <= c <= '\U{200a}'
    || c == '\U{2028}' || c == '\U{2029}' || c == '\U{202f}' || c == '\U{205f}' || c == '\U{3000}'
  }

  /** An ASCII decimal digit. */
  predicate IsDigit(c: char) {
    '0' <= c <= '9'
  }

  predicate StartsWith(s: string, prefix: string) {
    |prefix| <= |s| && s[..|prefix|] == prefix
  }

  /** `s.lstrip()`, the first half of `strip()`: drops the leading
      whitespace (`StripStartMeans` says that nothing else goes). */
  function StripStart(s: string): (r: string)
    ensures |r| <= |s|
    ensures |r| > 0 ==> !IsSpace(r[0])
    ensures |s| > 0 && !IsSpace(s[0]) ==> r == s
    decreases |s|
  {
    if |s| > 0 && IsSpace(s[0]) then StripStart(s[1..]) else s
  }

  /** What `lstrip` removes is a run of whitespace at the front, and what it
      keeps is the rest of the text. */
  lemma {:induction false} StripStartMeans(s: string)
    ensures var r := StripStart(s);
      && r == s[|s| - |r|..]
      && forall i :: 0 <= i < |s| - |r| ==> IsSpace(s[i])
    decreases |s|
  {
    if |s| > 0 && IsSpace(s[0]) {
      StripStartMeans(s[1..]);
      var r := StripStart(s);
      assert s[1..][|s| - 1 - |r|..] == s[|s| - |r|..];
    }
  }

  /** `s.rstrip()`, the second half of `strip()`: drops the trailing
      whitespace (`StripEndMeans` says that nothing else goes). */
  function StripEnd(s: string): (r: string)
    ensures |r| <= |s|
    ensures |r| > 0 ==> !IsSpace(r[|r| - 1]) && r[0] == s[0]
    ensures |s| > 0 && !IsSpace(s[|s| - 1]) ==> r == s
    decreases |s|
  {
    if |s| > 0 && IsSpace(s[|s| - 1]) then StripEnd(s[..|s| - 1]) else s
  }

  /** What `rstrip` removes is a run of whitespace at the back, and what it
      keeps is the rest of the text. */
  lemma {:induction false} StripEndMeans(s: string)
    ensures var r := StripEnd(s);
      && r == s[..|r|]
      && forall i :: |r| <= i < |s| ==> IsSpace(s[i])
    decreases |s|
  {
    if |s| > 0 && IsSpace(s[|s| - 1]) {
      StripEndMeans(s[..|s| - 1]);
      var r := StripEnd(s);
      assert s[..|s| - 1][..|r|] == s[..|r|];
    }
  }

  /** `s.strip()`. */
  function Strip(s: string): (r: string)
    ensures |r| <= |s|
    ensures |r| > 0 ==> !IsSpace(r[0]) && !IsSpace(r[|r| - 1])
    ensures |s| > 0 && !IsSpace(s[0]) && !IsSpace(s[|s| - 1]) ==> r == s
  {
    StripEnd(StripStart(s))
  }

  /** `s.split(sep)` for a one-character separator: always at least one
      piece, and empty pieces are kept. */
  function Split(s: string, sep: char): (r: seq<string>)
    ensures |r| >= 1
    decreases |s|
  {
    if |s| == 0 then [""]
    else
      var rest := Split(s[1..], sep);
      if s[0] == sep then [""] + rest
      else [[s[0]] + rest[0]] + rest[1..]
  }

  /** No piece of a split holds the separator. */
  lemma {:induction false} SplitPieces(s: string, sep: char)
    ensures forall i :: 0 <= i < |Split(s, sep)| ==> sep !in Split(s, sep)[i]
    decreases |s|
  {
    if |s| > 0 {
      SplitPieces(s[1..], sep);
    }
  }

  /** A character the text does not hold is in none of the pieces of its
      split. */
  lemma {:induction false} SplitExcludes(s: string, sep: char, c: char)
    requires c !in s
    ensures forall i :: 0 <= i < |Split(s, sep)| ==> c !in Split(s, sep)[i]
    decreases |s|
  {
    if |s| > 0 {
      SplitExcludes(s[1..], sep, c);
    }
  }

  /** `sep.join(parts)`. */
  function Join(parts: seq<string>, sep: char): string
    decreases |parts|
  {
    if |parts| == 0 then ""
    else if |parts| == 1 then parts[0]
    else parts[0] + [sep] + Join(parts[1..], sep)
  }

  /** `needle in hay` on two strings. */
  predicate Contains(hay: string, needle: string)
    decreases |hay|
  {
    StartsWith(hay, needle) || (|hay| > 0 && Contains(hay[1..], needle))
  }

  /** What the decoder writes for one character, given whether the
      character before it was a carriage return: every "\r" is written as
      "\n", and a "\n" right after a "\r" is dropped, because that pair
      has already been written as one "\n". */
  function Emit(c: char, afterReturn: bool): string {
    if c == '\r' then "\n"
    else if c == '\n' && afterReturn then ""
    else [c]
  }

  /** Newline translation as a decoder that remembers whether the last
      character it read was a carriage return. */
  function Translate(s: string, afterReturn: bool): string
    decreases |s|
  {
    if |s| == 0 then "" else Emit(s[0], afterReturn) + Translate(s[1..], s[0] == '\r')
  }

  /** What reading a file in text mode does to its contents: every "\r\n"
      and every lone "\r" becomes "\n". */
  function UniversalNewlines(s: string): string {
    Translate(s, false)
  }

  /** After a character other than a carriage return the decoder starts
      afresh: a text in two parts, the first not ending in "\r", is
      translated part by part. */
  lemma {:induction false} TranslateAppend(a: string, b: string, afterReturn: bool)
    requires |a| > 0 && a[|a| - 1] != '\r'
    ensures Translate(a + b, afterReturn) == Translate(a, afterReturn) + Translate(b, false)
    decreases |a|
  {
    var u := a + b;
    assert u[0] == a[0];
    assert u[1..] == a[1..] + b;
    if |a| == 1 {
      assert a[1..] == "";
    } else {
      TranslateAppend(a[1..], b, a[0] == '\r');
    }
  }

  /** No carriage return survives the translation, and text without one is
      left as it is. */
  lemma {:induction false} NewlinesNoReturn(s: string)
    ensures '\r' !in UniversalNewlines(s)
    ensures '\r' !in s ==> UniversalNewlines(s) == s
  {
    TranslateNoReturn(s, false);
  }

  lemma {:induction false} TranslateNoReturn(s: string, afterReturn: bool)
    ensures '\r' !in Translate(s, afterReturn)
    ensures '\r' !in s && !afterReturn ==> Translate(s, afterReturn) == s
    decreases |s|
  {
    if |s| > 0 {
      TranslateNoReturn(s[1..], s[0] == '\r');
      if '\r' !in s && !afterReturn {
        assert s == [s[0]] + s[1..];
      }
    }
  }

  /** Text not ending in a carriage return is translated independently of
      what follows it. */
  lemma NewlinesAppend(a: string, b: string)
    requires |a| == 0 || a[|a| - 1] != '\r'
    ensures UniversalNewlines(a + b) == UniversalNewlines(a) + UniversalNewlines(b)
  {
    if |a| == 0 {
      assert a + b == b;
    } else {
      TranslateAppend(a, b, false);
    }
  }

  /** A "\r\n" pair becomes one "\n". */
  lemma {:induction false} CrLfBecomesNewline(a: string, b: string)
    requires |a| == 0 || a[|a| - 1] != '\r'
    ensures UniversalNewlines(a + "\r\n" + b) == UniversalNewlines(a) + "\n" + UniversalNewlines(b)
  {
    var t := "\r\n" + b;
    NewlinesAppend(a, t);
    assert a + "\r\n" + b == a + t;
    assert t[0] == '\r' && t[1..] == "\n" + b;
    assert ("\n" + b)[0] == '\n' && ("\n" + b)[1..] == b;
    assert Translate(t, false) == "\n" + Translate(b, false);
  }

  /** A carriage return not followed by a newline becomes one "\n". */
  lemma {:induction false} LoneReturnBecomesNewline(a: string, b: string)
    requires |a| == 0 || a[|a| - 1] != '\r'
    requires |b| == 0 || b[0] != '\n'
    ensures UniversalNewlines(a + "\r" + b) == UniversalNewlines(a) + "\n" + UniversalNewlines(b)
  {
    var t := "\r" + b;
    NewlinesAppend(a, t);
    assert a + "\r" + b == a + t;
    assert t[0] == '\r' && t[1..] == b;
    assert Translate(b, true) == Translate(b, false);
    assert Translate(t, false) == "\n" + Translate(b, false);
  }

  /** Joining the pieces of a split with the same separator gives back the
      original string. */
  lemma {:induction false} JoinSplit(s: string, sep: char)
    ensures Join(Split(s, sep), sep) == s
    decreases |s|
  {
    if |s| > 0 {
      JoinSplit(s[1..], sep);
      var rest := Split(s[1..], sep);
      var parts := Split(s, sep);
      assert s == [s[0]] + s[1..];
      if s[0] == sep {
        assert parts == [""] + rest;
        assert parts[1..] == rest;
      } else {
        assert parts == [[s[0]] + rest[0]] + rest[1..];
        if |rest| > 1 {
          assert parts[1..] == rest[1..];
          assert Join(rest, sep) == rest[0] + [sep] + Join(rest[1..], sep);
        }
      }
    }
  }

  /** Splitting `a + t` where `a` holds no separator glues `a` onto the first
      piece of `t`. */
  lemma {:induction false} SplitCons(a: string, t: string, sep: char)
    requires sep !in a
    ensures Split(a + t, sep) == [a + Split(t, sep)[0]] + Split(t, sep)[1..]
    decreases |a|
  {
    if |a| == 0 {
      assert a + t == t;
      assert a + Split(t, sep)[0] == Split(t, sep)[0];
    } else {
      SplitCons(a[1..], t, sep);
      var u := a + t;
      var rest := Split(u[1..], sep);
      assert u[1..] == a[1..] + t;
      assert u[0] == a[0] && a[0] != sep;
      assert Split(u, sep) == [[u[0]] + rest[0]] + rest[1..];
      assert [a[0]] + (a[1..] + Split(t, sep)[0]) == a + Split(t, sep)[0];
    }
  }

  /** A separator right after a separator-free prefix ends the first piece. */
  lemma SplitAtSep(a: string, t: string, sep: char)
    requires sep !in a
    ensures Split(a + [sep] + t, sep) == [a] + Split(t, sep)
  {
    SplitCons(a, [sep] + t, sep);
    assert ([sep] + t)[1..] == t;
    assert Split([sep] + t, sep) == [""] + Split(t, sep);
    assert a + "" == a;
    assert a + [sep] + t == a + ([sep] + t);
  }

  /** Splitting a join of separator-free pieces gives back the pieces. */
  lemma {:induction false} SplitJoin(parts: seq<string>, sep: char)
    requires |parts| >= 1
    requires forall i :: 0 <= i < |parts| ==> sep !in parts[i]
    ensures Split(Join(parts, sep), sep) == parts
    decreases |parts|
  {
    if |parts| == 1 {
      SplitCons(parts[0], "", sep);
      assert parts[0] + "" == parts[0];
    } else {
      SplitJoin(parts[1..], sep);
      SplitAtSep(parts[0], Join(parts[1..], sep), sep);
      assert parts == [parts[0]] + parts[1..];
    }
  }

  /** A join contains a character only if the separator or a piece does. */
  lemma {:induction false} JoinExcludes(parts: seq<string>, sep: char, c: char)
    requires c != sep
    requires forall i :: 0 <= i < |parts| ==> c !in parts[i]
    ensures c !in Join(parts, sep)
    decreases |parts|
  {
    if |parts| > 1 {
      JoinExcludes(parts[1..], sep, c);
    }
  }

  /** The first character of a join is that of its first piece when that
      piece is not empty. */
  lemma JoinFirst(parts: seq<string>, sep: char)
    requires |parts| >= 1 && |parts[0]| > 0
    ensures |Join(parts, sep)| > 0 && Join(parts, sep)[0] == parts[0][0]
  {
  }

  /** The last character of a join is that of its last piece when that
      piece is not empty. */
  lemma {:induction false} JoinLast(parts: seq<string>, sep: char)
    requires |parts| >= 1 && |parts[|parts| - 1]| > 0
    ensures var j := Join(parts, sep);
      |j| > 0 && j[|j| - 1] == parts[|parts| - 1][|parts[|parts| - 1]| - 1]
    decreases |parts|
  {
    if |parts| > 1 {
      JoinLast(parts[1..], sep);
    }
  }

  /** A join whose last piece is empty ends with the separator. */
  lemma {:induction false} JoinEndsWithSep(parts: seq<string>, sep: char)
    requires |parts| >= 2 && parts[|parts| - 1] == ""
    ensures var j := Join(parts, sep); |j| > 0 && j[|j| - 1] == sep
    decreases |parts|
  {
    if |parts| > 2 {
      JoinEndsWithSep(parts[1..], sep);
    } else {
      assert Join(parts, sep) == parts[0] + [sep] + "";
    }
  }

  /** `needle` occurs in `hay` starting at index `i`. */
  predicate OccursAt(hay: string, needle: string, i: int) {
    0 <= i && i + |needle| <= |hay| && hay[i..i + |needle|] == needle
  }

  /** The recursive `in` test agrees with "some window of `hay` equals
      `needle`". */
  lemma {:induction false} ContainsIff(hay: string, needle: string)
    ensures Contains(hay, needle) <==> exists i :: OccursAt(hay, needle, i)
    decreases |hay|
  {
    if StartsWith(hay, needle) {
      assert OccursAt(hay, needle, 0);
    } else if |hay| == 0 {
    } else {
      ContainsIff(hay[1..], needle);
      if Contains(hay[1..], needle) {
        var j :| OccursAt(hay[1..], needle, j);
        assert hay[j + 1..j + 1 + |needle|] == hay[1..][j..j + |needle|];
        assert OccursAt(hay, needle, j + 1);
      }
      if exists i :: OccursAt(hay, needle, i) {
        var i :| OccursAt(hay, needle, i);
        assert i != 0;
        assert hay[1..][i - 1..i - 1 + |needle|] == hay[i..i + |needle|];
        assert OccursAt(hay[1..], needle, i - 1);
      }
    }
  }
}
