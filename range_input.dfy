/**
 * The "start-end" answer main reads for a range scan: split on '-', then both
 * halves read as integers. Integer reading is restricted to non-empty strings
 * of ASCII digits.
 */
module RangeInput {
  import opened Wrappers

  /** How main reads the answer: no separator, a malformed answer, or the two bounds. */
  datatype Parsed = MissingSeparator | BadFormat | Bounds(startPort: int, endPort: int)

  const Separator: char := '-'

  /** Splitting on a separator character: one part more than there are separators. */
  function Split(s: string, sep: char): (parts: seq<string>)
    ensures |parts| >= 1
  {
    if s == [] then [[]]
    else
      var rest := Split(s[1..], sep);
      if s[0] == sep then [[]] + rest
      else [[s[0]] + rest[0]] + rest[1..]
  }

  /** Joining parts back together with the separator between them. */
  function Join(parts: seq<string>, sep: char): string
    requires |parts| >= 1
  {
    if |parts| == 1 then parts[0] else parts[0] + [sep] + Join(parts[1..], sep)
  }

  /** Splitting loses nothing: joining the parts gives the input back. */
  lemma {:induction false} JoinSplit(s: string, sep: char)
    ensures Join(Split(s, sep), sep) == s
  {
    if s != [] {
      var rest := Split(s[1..], sep);
      JoinSplit(s[1..], sep);
      if s[0] != sep && |rest| > 1 {
        assert Join(rest, sep) == rest[0] + [sep] + Join(rest[1..], sep);
        assert rest[1..][1..] == rest[2..];
      }
    }
  }

  /** A string without the separator is a single part. */
  lemma {:induction false} SplitWithoutSeparator(s: string, sep: char)
    requires sep !in s
    ensures Split(s, sep) == [s]
  {
    if s != [] {
      SplitWithoutSeparator(s[1..], sep);
      assert [s[0]] + s[1..] == s;
    }
  }

  /** A leading piece without the separator becomes the first part. */
  lemma {:induction false} SplitAfterPiece(x: string, sep: char, y: string)
    requires sep !in x
    ensures Split(x + [sep] + y, sep) == [x] + Split(y, sep)
  {
    if x != [] {
      assert (x + [sep] + y)[1..] == x[1..] + [sep] + y;
      SplitAfterPiece(x[1..], sep, y);
      assert [x[0]] + x[1..] == x;
    } else {
      assert (x + [sep] + y)[1..] == y;
    }
  }

  predicate IsDigit(c: char) { '0' <= c <= '9' }

  predicate AllDigits(s: string) { forall i :: 0 <= i < |s| ==> IsDigit(s[i]) }

  function DigitValue(c: char): nat requires IsDigit(c) { (c - '0') as nat }

  function DigitChar(d: nat): (c: char)
    requires d < 10
    ensures IsDigit(c) && DigitValue(c) == d
  {
    ('0' as int + d) as char
  }

  /** The number a string of decimal digits denotes (the empty string denotes 0). */
  function DigitsValue(s: string): (r: nat)
    requires AllDigits(s)
    ensures r == 0 <==> forall i :: 0 <= i < |s| ==> s[i] == '0'
  {
    if s == [] then 0 else DigitsValue(s[..|s| - 1]) * 10 + DigitValue(s[|s| - 1])
  }

  /** Reading an integer: defined exactly on non-empty digit strings. */
  function ParseNat(s: string): (r: Option<nat>)
    ensures r.Some? <==> s != [] && AllDigits(s)
    ensures r.Some? ==> Separator !in s
  {
    if s != [] && AllDigits(s) then
      assert forall i :: 0 <= i < |s| ==> s[i] != Separator;
      Some(DigitsValue(s))
    else None
  }

  /** The decimal digits of a number, without leading zeros. */
  function ShowNat(n: nat): (s: string)
    ensures s != [] && AllDigits(s)
    ensures |s| > 1 ==> s[0] != '0'
  {
    if n < 10 then [DigitChar(n)] else ShowNat(n / 10) + [DigitChar(n % 10)]
  }

  /** Reading a number's digits gives the number back. */
  lemma {:induction false} ParseShow(n: nat)
    ensures ParseNat(ShowNat(n)) == Some(n)
  {
    if n >= 10 {
      ParseShow(n / 10);
      var s := ShowNat(n);
      assert s[..|s| - 1] == ShowNat(n / 10);
      assert s[|s| - 1] == DigitChar(n % 10);
      assert DigitsValue(s) == (n / 10) * 10 + n % 10;
    } else {
      assert ShowNat(n)[..0] == [];
    }
  }

  /** Writing back the number read from a digit string without a leading zero gives that string. */
  lemma {:induction false} ShowParse(s: string)
    requires s != [] && AllDigits(s)
    requires |s| > 1 ==> s[0] != '0'
    ensures ShowNat(ParseNat(s).value) == s
  {
    var init, last := s[..|s| - 1], s[|s| - 1];
    var v := DigitsValue(s);
    if |s| == 1 {
      assert init == [];
      assert s == [DigitChar(DigitValue(last))];
    } else {
      assert init[0] == s[0];
      assert AllDigits(init);
      ShowParse(init);
      assert DigitsValue(init) != 0;
      assert v / 10 == DigitsValue(init) && v % 10 == DigitValue(last);
      assert DigitChar(DigitValue(last)) == last;
      assert s == init + [last];
    }
  }

  /** main's reading of the range answer. */
  function ParseRange(s: string): (r: Parsed)
    ensures r == MissingSeparator <==> Separator !in s
  {
    if Separator !in s then MissingSeparator
    else
      var parts := Split(s, Separator);
      if |parts| != 2 then BadFormat
      else
        match (ParseNat(parts[0]), ParseNat(parts[1]))
        case (Some(a), Some(b)) => Bounds(a, b)
        case _ => BadFormat
  }

  /** Bounds come only from two integers around a single separator. */
  lemma ParseRangeSound(s: string, a: int, b: int)
    requires ParseRange(s) == Bounds(a, b)
    ensures exists i ::
              0 <= i < |s| && s[i] == Separator
              && ParseNat(s[..i]) == Some(a) && ParseNat(s[i + 1..]) == Some(b)
  {
    var parts := Split(s, Separator);
    JoinSplit(s, Separator);
    assert Join(parts, Separator) == parts[0] + [Separator] + parts[1];
    var i := |parts[0]|;
    assert s[..i] == parts[0] && s[i + 1..] == parts[1] && s[i] == Separator;
  }

  /** Two integers around a separator always give those bounds. */
  lemma ParseRangeComplete(s: string, i: int, a: int, b: int)
    requires 0 <= i < |s| && s[i] == Separator
    requires ParseNat(s[..i]) == Some(a) && ParseNat(s[i + 1..]) == Some(b)
    ensures ParseRange(s) == Bounds(a, b)
  {
    assert s == s[..i] + [Separator] + s[i + 1..];
    SplitAfterPiece(s[..i], Separator, s[i + 1..]);
    SplitWithoutSeparator(s[i + 1..], Separator);
  }

  /** Writing two numbers around a separator reads back as those bounds. */
  lemma ParseRangeRoundTrip(a: nat, b: nat)
    ensures ParseRange(ShowNat(a) + "-" + ShowNat(b)) == Bounds(a, b)
  {
    var x, y := ShowNat(a), ShowNat(b);
    var s := x + "-" + y;
    ParseShow(a);
    ParseShow(b);
    var i := |x|;
    assert s[..i] == x && s[i + 1..] == y && s[i] == Separator;
    ParseRangeComplete(s, i, a, b);
  }

  /** Three parts fall into the malformed branch. */
  lemma ThreePartsAreBadFormat()
    ensures ParseRange("1-2-3") == BadFormat
  {
    SplitWithoutSeparator("3", Separator);
    SplitAfterPiece("2", Separator, "3");
    assert "2-3" == "2" + [Separator] + "3";
    SplitAfterPiece("1", Separator, "2-3");
    assert "1-2-3" == "1" + [Separator] + "2-3";
  }
}
