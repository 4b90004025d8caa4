/**
 * The handful of Python string operations the bot's command handlers use:
 * `startswith`, `in`, `lower`/`upper`/`capitalize`, `split(sep)`, `split()`,
 * `sep.join`, `replace(c, '')`, `lstrip`, `str(n)`, `"%02d"` and `int(s)`.
 * Case mapping covers ASCII letters only.
 */
module Text {
  import opened Wrappers

  /** `s.startswith(prefix)`. */
  predicate StartsWith(s: string, prefix: string) {
    |prefix| <= |s| && s[..|prefix|] == prefix
  }

  /** `sub in s`. */
  predicate Contains(s: string, sub: string)
    decreases |s|
  {
    StartsWith(s, sub) || (|s| > 0 && Contains(s[1..], sub))
  }

  // ---------------------------------------------------------------------
  // Case mapping.
  // ---------------------------------------------------------------------

  function LowerChar(c: char): char {
    if 'A' <= c <= 'Z' then (c as int + 32) as char else c
  }

  function UpperChar(c: char): char {
    if 'a' <= c <= 'z' then (c as int - 32) as char else c
  }

  /** `s.lower()`: the same length, with no upper-case letter left. */
  function Lower(s: string): (r: string)
    ensures |r| == |s|
    ensures forall i :: 0 <= i < |r| ==> !('A' <= r[i] <= 'Z')
  {
    seq(|s|, i requires 0 <= i < |s| => LowerChar(s[i]))
  }

  /** `s.upper()`: the same length, with no lower-case letter left. */
  function Upper(s: string): (r: string)
    ensures |r| == |s|
    ensures forall i :: 0 <= i < |r| ==> !('a' <= r[i] <= 'z')
  {
    seq(|s|, i requires 0 <= i < |s| => UpperChar(s[i]))
  }

  /** `s.capitalize()`: the first character in upper case, the rest in lower case. */
  function Capitalize(s: string): (r: string)
    ensures |r| == |s|
    ensures |r| > 0 ==> !('a' <= r[0] <= 'z')
    ensures forall i :: 1 <= i < |r| ==> !('A' <= r[i] <= 'Z')
  {
    if |s| == 0 then "" else [UpperChar(s[0])] + Lower(s[1..])
  }

  lemma LowerConcat(a: string, b: string)
    ensures Lower(a + b) == Lower(a) + Lower(b)
  {
  }

  /** Capitalising a word changes only the case of its letters. */
  lemma LowerCapitalize(s: string)
    ensures |Capitalize(s)| == |s|
    ensures Lower(Capitalize(s)) == Lower(s)
  {
    if |s| > 0 {
      var c := Capitalize(s);
      assert |c| == |s|;
      forall i | 0 <= i < |s|
        ensures Lower(c)[i] == Lower(s)[i]
      {
        if i == 0 {
          assert c[0] == UpperChar(s[0]);
        } else {
          assert c[i] == LowerChar(s[i]);
        }
      }
    }
  }

  /** Upper-casing changes nothing that lower-casing then sees. */
  lemma LowerUpper(s: string)
    ensures Lower(Upper(s)) == Lower(s)
  {
  }

  // ---------------------------------------------------------------------
  // Splitting and joining on a one-character separator.
  // ---------------------------------------------------------------------

  /** How many times `c` occurs in `s`. */
  function Occurrences(s: string, c: char): nat
    decreases |s|
  {
    if |s| == 0 then 0 else (if s[0] == c then 1 else 0) + Occurrences(s[1..], c)
  }

  /** `s.split(sep)`: the pieces between occurrences of `sep`, empty pieces kept. */
  function Split(s: string, sep: char): (parts: seq<string>)
    ensures |parts| == Occurrences(s, sep) + 1
    decreases |s|
  {
    if |s| == 0 then [""]
    else
      var rest := Split(s[1..], sep);
      if s[0] == sep then [""] + rest
      else [[s[0]] + rest[0]] + rest[1..]
  }

  /** `sep.join(parts)`. */
  function Join(parts: seq<string>, sep: string): string
    decreases |parts|
  {
    if |parts| == 0 then ""
    else if |parts| == 1 then parts[0]
    else parts[0] + sep + Join(parts[1..], sep)
  }

  /** A character occurs a positive number of times exactly when it is in the text. */
  lemma {:induction false} OccurrencesIn(s: string, c: char)
    ensures Occurrences(s, c) > 0 <==> c in s
    decreases |s|
  {
    if |s| > 0 {
      OccurrencesIn(s[1..], c);
      assert s == [s[0]] + s[1..];
    }
  }

  /** Lower-casing neither makes nor removes spaces. */
  lemma LowerSpaces(s: string)
    ensures ' ' in Lower(s) <==> ' ' in s
  {
    if ' ' in s {
      var i :| 0 <= i < |s| && s[i] == ' ';
      assert Lower(s)[i] == ' ';
    }
  }

  /** Joining the pieces of a split with the separator gives back the text. */
  lemma {:induction false} JoinSplit(s: string, sep: char)
    ensures Join(Split(s, sep), [sep]) == s
    decreases |s|
  {
    if |s| > 0 {
      var rest := Split(s[1..], sep);
      JoinSplit(s[1..], sep);
      if s[0] == sep {
        assert Split(s, sep) == [""] + rest;
        assert ([""] + rest)[1..] == rest;
      } else {
        var parts := Split(s, sep);
        assert parts == [[s[0]] + rest[0]] + rest[1..];
        if |rest| == 1 {
          assert parts == [[s[0]] + rest[0]];
        } else {
          assert parts[1..] == rest[1..];
          assert Join(rest, [sep]) == rest[0] + [sep] + Join(rest[1..], [sep]);
        }
      }
    }
  }

  /** A text with a separator in it is its first piece, the separator, its second piece and the rest. */
  lemma SplitShape(s: string, sep: char)
    requires |Split(s, sep)| >= 2
    ensures var p := Split(s, sep);
      exists rest :: s == p[0] + [sep] + p[1] + rest && (|p| == 2 <==> rest == []) && (rest == [] || rest[0] == sep)
  {
    var p := Split(s, sep);
    JoinSplit(s, sep);
    var rest := if |p| == 2 then [] else [sep] + Join(p[2..], [sep]);
    assert Join(p, [sep]) == p[0] + [sep] + Join(p[1..], [sep]);
    assert p[1..][1..] == p[2..];
    assert Join(p[1..], [sep]) == p[1] + rest;
    assert s == p[0] + [sep] + p[1] + rest;
  }

  /** No piece of a split contains the separator. */
  lemma {:induction false} SplitPiecesFree(s: string, sep: char, k: int)
    requires 0 <= k < |Split(s, sep)|
    ensures sep !in Split(s, sep)[k]
    decreases |s|
  {
    if |s| > 0 {
      var rest := Split(s[1..], sep);
      if s[0] == sep {
        if k > 0 { SplitPiecesFree(s[1..], sep, k - 1); }
      } else {
        if k == 0 {
          SplitPiecesFree(s[1..], sep, 0);
        } else {
          SplitPiecesFree(s[1..], sep, k);
        }
      }
    }
  }

  /** Splitting a text that ends in a piece free of the separator. */
  lemma {:induction false} SplitFree(a: string, sep: char)
    requires sep !in a
    ensures Split(a, sep) == [a]
    decreases |a|
  {
    if |a| > 0 {
      SplitFree(a[1..], sep);
      assert [a[0]] + a[1..] == a;
    }
  }

  /** Splitting `a + sep + t` when `a` holds no separator. */
  lemma {:induction false} SplitAfterPiece(a: string, sep: char, t: string)
    requires sep !in a
    ensures Split(a + [sep] + t, sep) == [a] + Split(t, sep)
    decreases |a|
  {
    if |a| == 0 {
      assert a + [sep] + t == [sep] + t;
      assert ([sep] + t)[1..] == t;
    } else {
      var s := a + [sep] + t;
      assert s[1..] == a[1..] + [sep] + t;
      SplitAfterPiece(a[1..], sep, t);
      assert [a[0]] + a[1..] == a;
    }
  }

  /** Splitting a join gives back the pieces, when no piece holds the separator. */
  lemma {:induction false} SplitJoin(parts: seq<string>, sep: char)
    requires |parts| > 0
    requires forall k :: 0 <= k < |parts| ==> sep !in parts[k]
    ensures Split(Join(parts, [sep]), sep) == parts
    decreases |parts|
  {
    if |parts| == 1 {
      SplitFree(parts[0], sep);
    } else {
      SplitJoin(parts[1..], sep);
      SplitAfterPiece(parts[0], sep, Join(parts[1..], [sep]));
      assert [parts[0]] + parts[1..] == parts;
    }
  }

  // ---------------------------------------------------------------------
  // Splitting on runs of white space.
  // ---------------------------------------------------------------------

  /** The characters Python's `str.isspace()` accepts. */
  predicate IsSpace(c: char) {
    c == ' ' || '\t' <= c <= '\r' || '\U{1C}' <= c <= '\U{1F}' || c == '\U{85}' || c == '\U{A0}'
    || c == '\U{1680}' || '\U{2000}' <= c <= '\U{200A}' || c == '\U{2028}' || c == '\U{2029}'
    || c == '\U{202F}' || c == '\U{205F}' || c == '\U{3000}'
  }

  predicate NoSpace(s: string) {
    forall i :: 0 <= i < |s| ==> !IsSpace(s[i])
  }

  /** The length of the word at the start of `s`. */
  function WordEnd(s: string): (n: nat)
    requires |s| > 0 && !IsSpace(s[0])
    ensures 1 <= n <= |s|
    ensures NoSpace(s[..n])
    ensures n < |s| ==> IsSpace(s[n])
    decreases |s|
  {
    if |s| == 1 || IsSpace(s[1]) then 1 else 1 + WordEnd(s[1..])
  }

  /** `s.split()`: the maximal runs of non-space characters. */
  function Words(s: string): seq<string>
    decreases |s|
  {
    if |s| == 0 then []
    else if IsSpace(s[0]) then Words(s[1..])
    else
      var n := WordEnd(s);
      [s[..n]] + Words(s[n..])
  }

  function Concat(ws: seq<string>): string
    decreases |ws|
  {
    if |ws| == 0 then "" else ws[0] + Concat(ws[1..])
  }

  /** `s` with its white space removed. */
  function DropSpaces(s: string): string
    decreases |s|
  {
    if |s| == 0 then "" else (if IsSpace(s[0]) then "" else [s[0]]) + DropSpaces(s[1..])
  }

  lemma {:induction false} DropSpacesConcat(a: string, b: string)
    ensures DropSpaces(a + b) == DropSpaces(a) + DropSpaces(b)
    decreases |a|
  {
    if |a| > 0 {
      assert (a + b)[0] == a[0];
      assert (a + b)[1..] == a[1..] + b;
      DropSpacesConcat(a[1..], b);
    } else {
      assert a + b == b;
    }
  }

  lemma {:induction false} DropSpacesNone(a: string)
    requires NoSpace(a)
    ensures DropSpaces(a) == a
    decreases |a|
  {
    if |a| > 0 {
      DropSpacesNone(a[1..]);
    }
  }

  /** Every word is non-empty and free of white space. */
  lemma {:induction false} WordsAreWords(s: string, k: int)
    requires 0 <= k < |Words(s)|
    ensures Words(s)[k] != "" && NoSpace(Words(s)[k])
    decreases |s|
  {
    if IsSpace(s[0]) {
      WordsAreWords(s[1..], k);
    } else if k > 0 {
      var n := WordEnd(s);
      WordsAreWords(s[n..], k - 1);
    }
  }

  /** The words, run together, are the text without its white space. */
  lemma {:induction false} ConcatWords(s: string)
    ensures Concat(Words(s)) == DropSpaces(s)
    decreases |s|
  {
    if |s| > 0 {
      if IsSpace(s[0]) {
        ConcatWords(s[1..]);
      } else {
        var n := WordEnd(s);
        ConcatWords(s[n..]);
        assert s == s[..n] + s[n..];
        DropSpacesConcat(s[..n], s[n..]);
        DropSpacesNone(s[..n]);
        assert ([s[..n]] + Words(s[n..]))[1..] == Words(s[n..]);
      }
    }
  }

  /** A word followed by white space or nothing ends where the word does. */
  lemma {:induction false} WordEndOf(a: string, t: string)
    requires |a| > 0 && NoSpace(a) && (|t| == 0 || IsSpace(t[0]))
    ensures WordEnd(a + t) == |a|
    decreases |a|
  {
    var s := a + t;
    if |a| == 1 {
      if |s| > 1 {
        assert s[1] == t[0];
      }
    } else {
      assert s[1..] == a[1..] + t;
      assert s[1] == a[1];
      WordEndOf(a[1..], t);
    }
  }

  /** The words of a word followed by white space or nothing. */
  lemma WordsAfterWord(a: string, t: string)
    requires |a| > 0 && NoSpace(a) && (|t| == 0 || IsSpace(t[0]))
    ensures Words(a + t) == [a] + Words(t)
  {
    WordEndOf(a, t);
    var s := a + t;
    assert s[..|a|] == a;
    assert s[|a|..] == t;
  }

  /** `" ".join(words).split()` gives back the words, when each is non-empty and free of white space. */
  lemma {:induction false} WordsJoin(words: seq<string>)
    requires forall i :: 0 <= i < |words| ==> words[i] != "" && NoSpace(words[i])
    ensures Words(Join(words, " ")) == words
    decreases |words|
  {
    if |words| == 1 {
      WordsAfterWord(words[0], "");
      assert words[0] + "" == words[0];
    } else if |words| > 1 {
      var t := Join(words[1..], " ");
      WordsJoin(words[1..]);
      assert Join(words, " ") == words[0] + (" " + t);
      WordsAfterWord(words[0], " " + t);
      assert (" " + t)[1..] == t;
      assert [words[0]] + words[1..] == words;
    }
  }

  /** `s.replace(c, '')`. */
  function RemoveChar(s: string, c: char): (r: string)
    ensures |r| <= |s|
    decreases |s|
  {
    if |s| == 0 then "" else (if s[0] == c then "" else [s[0]]) + RemoveChar(s[1..], c)
  }

  lemma {:induction false} RemoveCharFree(s: string, c: char)
    ensures c !in RemoveChar(s, c)
    ensures |RemoveChar(s, c)| == |s| - Occurrences(s, c)
    ensures forall x :: x in RemoveChar(s, c) ==> x in s
    decreases |s|
  {
    if |s| > 0 {
      RemoveCharFree(s[1..], c);
    }
  }

  // ---------------------------------------------------------------------
  // Decimal numerals.
  // ---------------------------------------------------------------------

  predicate IsDigit(c: char) {
    '0' <= c <= '9'
  }

  predicate AllDigits(s: string) {
    forall i :: 0 <= i < |s| ==> IsDigit(s[i])
  }

  function Digit(n: nat): (c: char)
    requires n < 10
    ensures IsDigit(c)
  {
    ('0' as int + n) as char
  }

  function DigitValue(c: char): (n: nat)
    requires IsDigit(c)
    ensures n < 10 && Digit(n) == c
  {
    c as int - '0' as int
  }

  /** `str(n)`: the decimal numeral without leading zeros. */
  function Decimal(n: nat): (s: string)
    ensures |s| >= 1 && AllDigits(s)
    ensures (s[0] == '0') == (n == 0)
    decreases n
  {
    if n < 10 then [Digit(n)] else Decimal(n / 10) + [Digit(n % 10)]
  }

  /** The value of a non-empty run of decimal digits. */
  function DigitsValue(s: string): nat
    requires AllDigits(s)
    decreases |s|
  {
    if |s| == 0 then 0 else 10 * DigitsValue(s[..|s| - 1]) + DigitValue(s[|s| - 1])
  }

  /** `int(s)` on a run of ASCII digits; anything else is `None` (a `ValueError`). */
  function ParseInt(s: string): Option<nat> {
    if |s| > 0 && AllDigits(s) then Some(DigitsValue(s)) else None
  }

  lemma DigitRoundTrip(n: nat)
    requires n < 10
    ensures DigitValue(Digit(n)) == n
  {
  }

  /** The value of a numeral followed by one more digit. */
  lemma DigitsValueSnoc(s: string, n: nat)
    requires AllDigits(s) && n < 10
    ensures AllDigits(s + [Digit(n)]) && DigitsValue(s + [Digit(n)]) == 10 * DigitsValue(s) + n
  {
    var t := s + [Digit(n)];
    assert t[..|t| - 1] == s;
    DigitRoundTrip(n);
  }

  /** `"%02d" % n` for 0 <= n < 100, the form `strftime` gives `%H`, `%M` and `%I`. */
  function Pad2(n: nat): string
    requires n < 100
  {
    [Digit(n / 10), Digit(n % 10)]
  }

  lemma ParsePad2(n: nat)
    requires n < 100
    ensures ParseInt(Pad2(n)) == Some(n)
  {
    DigitsValueSnoc("", n / 10);
    assert "" + [Digit(n / 10)] == [Digit(n / 10)];
    DigitsValueSnoc([Digit(n / 10)], n % 10);
    assert [Digit(n / 10)] + [Digit(n % 10)] == Pad2(n);
  }

  /** `s.lstrip(c)`. */
  function LStrip(s: string, c: char): string
    decreases |s|
  {
    if |s| > 0 && s[0] == c then LStrip(s[1..], c) else s
  }

  /** `s.lstrip(c)` is the longest end of `s` that does not start with `c`. */
  lemma {:induction false} LStripSuffix(s: string, c: char)
    ensures var r := LStrip(s, c);
      |r| <= |s| && r == s[|s| - |r|..]
      && (|r| > 0 ==> r[0] != c)
      && forall i :: 0 <= i < |s| - |r| ==> s[i] == c
    decreases |s|
  {
    if |s| > 0 && s[0] == c {
      LStripSuffix(s[1..], c);
    }
  }

  /** Stripping the leading zero of a two-digit numeral gives `str(n)`. */
  lemma StripPad2(n: nat)
    requires 1 <= n < 100
    ensures LStrip(Pad2(n), '0') == Decimal(n)
  {
    var s := Pad2(n);
    if n < 10 {
      assert s[0] == '0' && s[1..] == [Digit(n)];
    } else {
      assert Decimal(n / 10) == [Digit(n / 10)];
    }
  }
}
