/** The pieces of JavaScript's string and number behaviour that the card's
    helpers rely on: the `\s` and `\d` character classes, turning a
    non-negative integer into its decimal text (`Number.prototype.toString`),
    `Array.prototype.join` over numbers, and `parseInt(s, 16)`.
    Numbers are exact integers here; NaN is `None`. */
module JsText {
  import opened Wrappers

  /** The characters `\s` matches in a regular expression; `parseInt` trims
      the same set (white space and line terminators) from the front: tab,
      line feed, vertical tab, form feed, carriage return, space, no-break
      space, the Unicode space separators, line and paragraph separator, and
      the byte order mark. */
  const WhiteSpace: string :=
    "\t\n\U{000B}\U{000C}\r \U{00A0}\U{1680}"
    + "\U{2000}\U{2001}\U{2002}\U{2003}\U{2004}\U{2005}\U{2006}\U{2007}\U{2008}\U{2009}\U{200A}"
    + "\U{2028}\U{2029}\U{202F}\U{205F}\U{3000}\U{FEFF}"

  predicate IsSpace(c: char)
  {
    Occurs(c, WhiteSpace)
  }

  /** Whether `c` is one of the characters of `t`, read from the front. */
  predicate Occurs(c: char, t: string)
  {
    t != [] && (t[0] == c || Occurs(c, t[1..]))
  }

  /** A visible ASCII character: never white space. */
  predicate Printable(c: char)
  {
    '!' <= c <= '~'
  }

  lemma PrintableNotSpace(c: char)
    ensures Printable(c) ==> !IsSpace(c)
  {
    if Printable(c) {
      assert forall k :: 0 <= k < |WhiteSpace| ==> !Printable(WhiteSpace[k]);
      NotOccurs(c, WhiteSpace);
    }
  }

  lemma {:induction false} NotOccurs(c: char, t: string)
    requires Printable(c)
    requires forall k :: 0 <= k < |t| ==> !Printable(t[k])
    ensures !Occurs(c, t)
    decreases |t|
  {
    if t != [] {
      assert !Printable(t[0]);
      NotOccurs(c, t[1..]);
    }
  }

  /** `\d`: the ASCII decimal digits only. */
  predicate IsDigit(c: char)
  {
    '0' <= c <= '9'
  }

  /** A digit of radix 16 as `parseInt` accepts it, in either case. */
  predicate IsHexDigit(c: char)
  {
    IsDigit(c) || 'a' <= c <= 'f' || 'A' <= c <= 'F'
  }

  predicate AllDigits(s: string)
  {
    forall i :: 0 <= i < |s| ==> IsDigit(s[i])
  }

  predicate AllHexDigits(s: string)
  {
    forall i :: 0 <= i < |s| ==> IsHexDigit(s[i])
  }

  function DigitValue(c: char): (v: nat)
    requires IsDigit(c)
    ensures v < 10
  {
    c as int - '0' as int
  }

  function HexDigitValue(c: char): (v: nat)
    requires IsHexDigit(c)
    ensures v < 16
    ensures IsDigit(c) ==> v == DigitValue(c)
  {
    if IsDigit(c) then DigitValue(c)
    else if 'a' <= c <= 'f' then c as int - 'a' as int + 10
    else c as int - 'A' as int + 10
  }

  /** The digit character for `d`. */
  function DigitChar(d: nat): (c: char)
    requires d < 10
    ensures IsDigit(c) && DigitValue(c) == d
  {
    ('0' as int + d) as char
  }

  /** The lower-case hexadecimal digit for `d`. */
  function HexDigitChar(d: nat): (c: char)
    requires d < 16
    ensures IsHexDigit(c) && HexDigitValue(c) == d
  {
    if d < 10 then DigitChar(d) else ('a' as int + d - 10) as char
  }

  /** The number a string of decimal digits denotes (what `Number("007")`
      gives for the digits a regular expression captured). */
  function DecimalValue(ds: string): nat
    requires AllDigits(ds)
  {
    if ds == [] then 0 else DecimalValue(ds[..|ds| - 1]) * 10 + DigitValue(ds[|ds| - 1])
  }

  /** The number a string of hexadecimal digits denotes. */
  function HexValue(ds: string): nat
    requires AllHexDigits(ds)
  {
    if ds == [] then 0 else HexValue(ds[..|ds| - 1]) * 16 + HexDigitValue(ds[|ds| - 1])
  }

  function Pow16(k: nat): (p: nat)
    ensures p >= 1
  {
    if k == 0 then 1 else 16 * Pow16(k - 1)
  }

  /** `n.toString()` for a non-negative integer below 10^21 (from there on
      JavaScript uses exponent form): the shortest decimal text. */
  function NatToString(n: nat): (s: string)
    ensures s != [] && AllDigits(s)
    ensures DecimalValue(s) == n
    ensures |s| > 1 ==> s[0] != '0'
  {
    if n < 10 then [DigitChar(n)]
    else
      var s := NatToString(n / 10) + [DigitChar(n % 10)];
      assert s[..|s| - 1] == NatToString(n / 10);
      s
  }

  /** `i.toString()` for an integer. */
  function IntToString(i: int): (s: string)
    ensures s != []
    ensures i >= 0 ==> AllDigits(s) && DecimalValue(s) == i
    ensures i < 0 ==> s[0] == '-'
  {
    if i < 0 then "-" + NatToString(-i) else NatToString(i)
  }

  /** `xs.join(sep)` for an array of integers. */
  function Join(xs: seq<int>, sep: string): (s: string)
    ensures xs == [] ==> s == []
  {
    if xs == [] then []
    else if |xs| == 1 then IntToString(xs[0])
    else Join(xs[..|xs| - 1], sep) + sep + IntToString(xs[|xs| - 1])
  }

  /** Every character of `s[i..j]` is white space. */
  predicate SpacesIn(s: string, i: nat, j: nat)
    requires i <= j <= |s|
    decreases j - i
  {
    i == j || (IsSpace(s[i]) && SpacesIn(s, i + 1, j))
  }

  /** Every character of `s[i..j]` is a decimal digit. */
  predicate DigitsIn(s: string, i: nat, j: nat)
    requires i <= j <= |s|
    decreases j - i
  {
    i == j || (IsDigit(s[i]) && DigitsIn(s, i + 1, j))
  }

  /** Every character of `s[i..j]` is a hexadecimal digit. */
  predicate HexDigitsIn(s: string, i: nat, j: nat)
    requires i <= j <= |s|
    decreases j - i
  {
    i == j || (IsHexDigit(s[i]) && HexDigitsIn(s, i + 1, j))
  }

  /** Where the run of white space that starts at index `i` ends (the
      greedy `\s*`). */
  function SkipSpaces(s: string, i: nat): (j: nat)
    requires i <= |s|
    ensures i <= j <= |s| && SpacesIn(s, i, j)
    ensures j == |s| || !IsSpace(s[j])
    decreases |s| - i
  {
    if i < |s| && IsSpace(s[i]) then SkipSpaces(s, i + 1) else i
  }

  /** Where the run of decimal digits that starts at index `i` ends (the
      greedy `\d+` when the run is not empty). */
  function SkipDigits(s: string, i: nat): (j: nat)
    requires i <= |s|
    ensures i <= j <= |s| && DigitsIn(s, i, j)
    ensures j == |s| || !IsDigit(s[j])
    decreases |s| - i
  {
    if i < |s| && IsDigit(s[i]) then SkipDigits(s, i + 1) else i
  }

  /** Where the run of hexadecimal digits that starts at index `i` ends. */
  function SkipHexDigits(s: string, i: nat): (j: nat)
    requires i <= |s|
    ensures i <= j <= |s| && HexDigitsIn(s, i, j)
    ensures j == |s| || !IsHexDigit(s[j])
    decreases |s| - i
  {
    if i < |s| && IsHexDigit(s[i]) then SkipHexDigits(s, i + 1) else i
  }

  /** `parseInt(s, 16)`: leading white space is skipped, one optional sign is
      read, then an optional `0x`/`0X` prefix, then the longest run of
      hexadecimal digits; an empty run gives NaN (`None`). */
  function ParseIntHex(s: string): (r: Option<int>)
    ensures s == [] ==> r == None
    ensures s != [] && !IsSpace(s[0]) && s[0] != '+' && s[0] != '-' && !IsHexDigit(s[0]) ==> r == None
  {
    var start := SkipSpaces(s, 0);
    var negative := start < |s| && s[start] == '-';
    var afterSign := if start < |s| && (s[start] == '+' || s[start] == '-') then start + 1 else start;
    var first := if afterSign + 1 < |s| && s[afterSign] == '0' && (s[afterSign + 1] == 'x' || s[afterSign + 1] == 'X')
                 then afterSign + 2 else afterSign;
    var end := SkipHexDigits(s, first);
    if end == first then None
    else
      HexDigitsInAll(s, first, end);
      var v: int := HexValue(s[first..end]);
      Some(if negative then -v else v)
  }

  /** A run of digits, read character by character, is a digit string. */
  lemma {:induction false} DigitsInAll(s: string, i: nat, j: nat)
    requires i <= j <= |s| && DigitsIn(s, i, j)
    ensures AllDigits(s[i..j])
    decreases j - i
  {
    if i < j {
      DigitsInAll(s, i + 1, j);
      assert s[i..j] == [s[i]] + s[i + 1..j];
    }
  }

  /** A run of hex digits, read character by character, is a hex-digit string. */
  lemma {:induction false} HexDigitsInAll(s: string, i: nat, j: nat)
    requires i <= j <= |s| && HexDigitsIn(s, i, j)
    ensures AllHexDigits(s[i..j])
    decreases j - i
  {
    if i < j {
      HexDigitsInAll(s, i + 1, j);
      assert s[i..j] == [s[i]] + s[i + 1..j];
    }
  }

  /** The characters of a digit string, wherever it sits, form a run of digits. */
  lemma {:induction false} AllDigitsIn(s: string, i: nat, j: nat)
    requires i <= j <= |s| && AllDigits(s[i..j])
    ensures DigitsIn(s, i, j)
    decreases j - i
  {
    if i < j {
      assert s[i + 1..j] == s[i..j][1..];
      AllDigitsIn(s, i + 1, j);
    }
  }

  /** Skipping white space from `i` stops at the first index `j` that is
      not white space. */
  lemma {:induction false} SkipSpacesTo(s: string, i: nat, j: nat)
    requires i <= j <= |s| && SpacesIn(s, i, j)
    requires j == |s| || !IsSpace(s[j])
    ensures SkipSpaces(s, i) == j
    decreases j - i
  {
    if i < j {
      SkipSpacesTo(s, i + 1, j);
    }
  }

  /** Skipping digits from `i` stops at the first index `j` that is not a digit. */
  lemma {:induction false} SkipDigitsTo(s: string, i: nat, j: nat)
    requires i <= j <= |s| && DigitsIn(s, i, j)
    requires j == |s| || !IsDigit(s[j])
    ensures SkipDigits(s, i) == j
    decreases j - i
  {
    if i < j {
      SkipDigitsTo(s, i + 1, j);
    }
  }

  /** Skipping hex digits over a string made of nothing else reaches its end. */
  lemma {:induction false} SkipHexDigitsToEnd(s: string, i: nat)
    requires i <= |s|
    requires forall k :: i <= k < |s| ==> IsHexDigit(s[k])
    ensures SkipHexDigits(s, i) == |s|
    decreases |s| - i
  {
    if i < |s| {
      SkipHexDigitsToEnd(s, i + 1);
    }
  }

  /** Reading the hex digits of `a + b` one by one: `a`'s value shifts left by
      four bits for each digit of `b`. */
  lemma {:induction false} HexValueAppend(a: string, b: string)
    requires AllHexDigits(a) && AllHexDigits(b)
    ensures HexValue(a + b) == HexValue(a) * Pow16(|b|) + HexValue(b)
  {
    if b != [] {
      var ab := a + b;
      var b' := b[..|b| - 1];
      var d := HexDigitValue(b[|b| - 1]);
      assert ab[..|ab| - 1] == a + b';
      assert ab[|ab| - 1] == b[|b| - 1];
      assert AllHexDigits(ab) && AllHexDigits(b');
      HexValueAppend(a, b');
      assert HexValue(ab) == HexValue(a + b') * 16 + d;
      assert HexValue(b) == HexValue(b') * 16 + d;
      ShiftDigit(HexValue(a), Pow16(|b'|), HexValue(b'), d);
    } else {
      assert a + b == a;
    }
  }

  /** `k` hex digits denote less than 16^k. */
  lemma {:induction false} HexValueBound(ds: string)
    requires AllHexDigits(ds)
    ensures HexValue(ds) < Pow16(|ds|)
  {
    if ds != [] {
      var init := ds[..|ds| - 1];
      assert AllHexDigits(init);
      HexValueBound(init);
      assert HexValue(ds) <= (Pow16(|init|) - 1) * 16 + 15;
    }
  }

  lemma ShiftDigit(x: int, p: int, y: int, d: int)
    ensures (x * p + y) * 16 + d == x * (16 * p) + (y * 16 + d)
  {
  }

  /** `parseInt(ds, 16)` of a non-empty string of hex digits is its value. */
  lemma ParseIntHexOfDigits(ds: string)
    requires ds != [] && AllHexDigits(ds)
    ensures ParseIntHex(ds) == Some(HexValue(ds))
  {
    assert IsHexDigit(ds[0]);
    PrintableNotSpace(ds[0]);
    SkipSpacesTo(ds, 0, 0);
    assert |ds| >= 2 ==> ds[1] != 'x' && ds[1] != 'X' by {
      if |ds| >= 2 { assert IsHexDigit(ds[1]); }
    }
    SkipHexDigitsToEnd(ds, 0);
    assert ds[0..|ds|] == ds;
  }
}
