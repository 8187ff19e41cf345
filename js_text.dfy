/** The few JavaScript string and number conversions the matching widget, its
    host-form bridge and the release script rely on: `String.prototype.trim`,
    `parseInt`, `Number`, `Number.prototype.toString` on integers and
    `String.prototype.split` on one character. NaN is `None`. */
module JsText {

  datatype Option<+T> = None | Some(value: T)

  /** The white space and line terminators that `trim`, `parseInt` and
      `Number` skip (section 7.2 and 7.3 of ECMA-262): tab, line tabulation,
      form feed, space, no-break space, the byte order mark, the other space
      separators of Unicode category Zs, and LF, CR, U+2028 and U+2029. */
  predicate IsWhitespace(c: char) {
    c == '\t' || c == '\n' || c == '\U{000B}' || c == '\U{000C}' || c == '\r' || c == ' ' ||
    c == '\U{00A0}' || c == '\U{1680}' || '\U{2000}' <= c <= '\U{200A}' ||
    c == '\U{2028}' || c == '\U{2029}' || c == '\U{202F}' || c == '\U{205F}' ||
    c == '\U{3000}' || c == '\U{FEFF}'
  }

  predicate AllWhitespace(s: string) {
    forall i :: 0 <= i < |s| ==> IsWhitespace(s[i])
  }

  predicate IsDigit(c: char) {
    '0' <= c <= '9'
  }

  predicate AllDigits(s: string) {
    forall i :: 0 <= i < |s| ==> IsDigit(s[i])
  }

  /** The number of white-space characters `s` starts with. */
  function LeadingSpaces(s: string): (n: nat)
    ensures n <= |s|
    ensures n < |s| ==> !IsWhitespace(s[n])
  {
    if s != [] && IsWhitespace(s[0]) then 1 + LeadingSpaces(s[1..]) else 0
  }

  /** The length of `s` without its trailing white space. */
  function TrailingStart(s: string): (n: nat)
    ensures n <= |s|
    ensures n > 0 ==> !IsWhitespace(s[n - 1])
  {
    if s != [] && IsWhitespace(s[|s| - 1]) then TrailingStart(s[..|s| - 1]) else |s|
  }

  function TrimStart(s: string): (r: string)
    ensures r == [] || !IsWhitespace(r[0])
  {
    s[LeadingSpaces(s)..]
  }

  function TrimEnd(s: string): (r: string)
    ensures r == [] || !IsWhitespace(r[|r| - 1])
  {
    s[..TrailingStart(s)]
  }

  /** `s.trim()`: white space removed from both ends. */
  function Trim(s: string): (r: string)
    ensures r == [] || (!IsWhitespace(r[0]) && !IsWhitespace(r[|r| - 1]))
  {
    TrimEnd(TrimStart(s))
  }

  /** A string with no white space at either end is its own trim. */
  lemma TrimKeeps(s: string)
    requires s == [] || (!IsWhitespace(s[0]) && !IsWhitespace(s[|s| - 1]))
    ensures Trim(s) == s
  {
  }

  lemma TrimStartKeeps(s: string)
    requires s == [] || !IsWhitespace(s[0])
    ensures TrimStart(s) == s
  {
  }

  /** A run `w` of white space in front adds exactly its length to the
      white space skipped. */
  lemma {:induction false} LeadingSpacesAppend(w: string, s: string)
    requires AllWhitespace(w)
    ensures LeadingSpaces(w + s) == |w| + LeadingSpaces(s)
  {
    if w != [] {
      assert (w + s)[1..] == w[1..] + s;
      LeadingSpacesAppend(w[1..], s);
    } else {
      assert w + s == s;
    }
  }

  /** White space in front does not change what `trimStart` leaves. */
  lemma TrimStartSkips(w: string, s: string)
    requires AllWhitespace(w)
    ensures TrimStart(w + s) == TrimStart(s)
  {
    LeadingSpacesAppend(w, s);
    assert (w + s)[|w| + LeadingSpaces(s)..] == s[LeadingSpaces(s)..];
  }

  /** The white space cut at the back is exactly the run `w`. */
  lemma {:induction false} TrailingStartOf(r: string, w: string)
    requires AllWhitespace(w)
    requires r == [] || !IsWhitespace(r[|r| - 1])
    ensures TrailingStart(r + w) == |r|
  {
    if w != [] {
      assert (r + w)[..|r + w| - 1] == r + w[..|w| - 1];
      TrailingStartOf(r, w[..|w| - 1]);
    } else {
      assert r + w == r;
    }
  }

  /** Cutting trailing white space never reaches a first character that is
      not white space. */
  lemma {:induction false} TrailingStartKeepsFirst(s: string)
    requires s != [] && !IsWhitespace(s[0])
    ensures TrailingStart(s) >= 1
  {
    if |s| > 1 && IsWhitespace(s[|s| - 1]) {
      TrailingStartKeepsFirst(s[..|s| - 1]);
    }
  }

  /** `trim` removes exactly the white space around a word: whatever runs of
      white space surround `r`, and only those, are cut. */
  lemma TrimSpec(w1: string, r: string, w2: string)
    requires AllWhitespace(w1) && AllWhitespace(w2)
    requires r == [] || (!IsWhitespace(r[0]) && !IsWhitespace(r[|r| - 1]))
    ensures Trim(w1 + r + w2) == r
  {
    if r == [] {
      assert AllWhitespace(w1 + w2);
      LeadingSpacesAppend(w1 + w2, []);
      assert w1 + r + w2 == (w1 + w2) + [];
    } else {
      assert w1 + r + w2 == w1 + (r + w2);
      LeadingSpacesAppend(w1, r + w2);
      assert TrimStart(w1 + r + w2) == r + w2;
      TrailingStartOf(r, w2);
    }
  }

  function DigitValue(c: char): (n: nat)
    requires IsDigit(c)
    ensures n < 10
  {
    c as int - '0' as int
  }

  function DigitChar(n: nat): (c: char)
    requires n < 10
    ensures IsDigit(c) && DigitValue(c) == n
  {
    ('0' as int + n) as char
  }

  /** The value of a string of decimal digits, most significant first. */
  function DigitsValue(s: string): nat
    requires AllDigits(s)
  {
    if s == [] then 0 else DigitsValue(s[..|s| - 1]) * 10 + DigitValue(s[|s| - 1])
  }

  /** Decimal notation of a natural number, without leading zeros. */
  function NatToString(n: nat): (s: string)
    ensures s != [] && AllDigits(s)
    ensures s[0] == '0' ==> n == 0
  {
    if n < 10 then [DigitChar(n)] else NatToString(n / 10) + [DigitChar(n % 10)]
  }

  lemma {:induction false} NatToStringValue(n: nat)
    ensures DigitsValue(NatToString(n)) == n
  {
    if n >= 10 {
      NatToStringValue(n / 10);
      var s := NatToString(n);
      assert s[..|s| - 1] == NatToString(n / 10);
    }
  }

  /** `n.toString()` for an integer `n`. */
  function IntToString(n: int): (s: string)
    ensures s != [] && !IsWhitespace(s[0]) && !IsWhitespace(s[|s| - 1])
    ensures '.' !in s
    ensures n >= 0 <==> AllDigits(s)
  {
    if n < 0 then "-" + NatToString(-n) else NatToString(n)
  }

  /** The longest prefix of `s` made of decimal digits. */
  function DigitPrefix(s: string): (r: string)
    ensures AllDigits(r) && r <= s
    ensures |r| < |s| ==> !IsDigit(s[|r|])
  {
    if s != [] && IsDigit(s[0]) then [s[0]] + DigitPrefix(s[1..]) else []
  }

  /** The value of a run of digits, negated when `negative`. */
  function SignedValue(negative: bool, digits: string): int
    requires AllDigits(digits)
  {
    var v: int := DigitsValue(digits);
    if negative then -v else v
  }

  /** `parseInt(s)` for a string without a radix prefix: leading white space,
      an optional sign, then the longest run of decimal digits; no digit is
      NaN. Whatever follows the digits is ignored. */
  function ParseInt(s: string): (r: Option<int>)
  {
    LeadingNumber(TrimStart(s))
  }

  /** `parseInt` once the leading white space is skipped. */
  function LeadingNumber(u: string): (r: Option<int>)
  {
    var signed := u != [] && (u[0] == '-' || u[0] == '+');
    var digits := DigitPrefix(if signed then u[1..] else u);
    if digits == [] then None else Some(SignedValue(signed && u[0] == '-', digits))
  }

  /** `Number(s)`: the whole trimmed string must be an optionally signed run
      of decimal digits; the empty string is 0; anything else is NaN. */
  function Number(s: string): (r: Option<int>)
  {
    WholeNumber(Trim(s))
  }

  /** `Number` on a string already trimmed. */
  function WholeNumber(u: string): (r: Option<int>)
  {
    var signed := u != [] && (u[0] == '-' || u[0] == '+');
    var digits := if signed then u[1..] else u;
    if u == [] then Some(0)
    else if digits == [] || !AllDigits(digits) then None
    else Some(SignedValue(signed && u[0] == '-', digits))
  }

  lemma {:induction false} DigitPrefixAppend(s: string, tail: string)
    requires AllDigits(s)
    requires tail == [] || !IsDigit(tail[0])
    ensures DigitPrefix(s + tail) == s
  {
    if s != [] {
      assert (s + tail)[1..] == s[1..] + tail;
      DigitPrefixAppend(s[1..], tail);
    }
  }

  /** `parseInt` reads an optionally negated run of digits and stops at the
      first character after it that is not a digit. */
  lemma ParseIntOfDigits(sign: string, digits: string, tail: string)
    requires sign == "" || sign == "-"
    requires digits != [] && AllDigits(digits)
    requires tail == [] || !IsDigit(tail[0])
    ensures ParseInt(sign + digits + tail) == Some(SignedValue(sign == "-", digits))
  {
    var u := sign + digits + tail;
    assert u[0] == (if sign == "-" then '-' else digits[0]);
    TrimStartKeeps(u);
    LeadingNumberOfDigits(sign, digits, tail);
  }

  lemma LeadingNumberOfDigits(sign: string, digits: string, tail: string)
    requires sign == "" || sign == "-"
    requires digits != [] && AllDigits(digits)
    requires tail == [] || !IsDigit(tail[0])
    ensures LeadingNumber(sign + digits + tail) == Some(SignedValue(sign == "-", digits))
  {
    var u := sign + digits + tail;
    assert u[0] == (if sign == "-" then '-' else digits[0]);
    var rest := if sign == "-" then u[1..] else u;
    assert rest == digits + tail;
    DigitPrefixAppend(digits, tail);
  }

  /** `Number` reads an optionally negated run of digits. */
  lemma NumberOfDigits(sign: string, digits: string)
    requires sign == "" || sign == "-"
    requires digits != [] && AllDigits(digits)
    ensures Number(sign + digits) == Some(SignedValue(sign == "-", digits))
  {
    var u := sign + digits;
    assert u[0] == (if sign == "-" then '-' else digits[0]);
    assert u[|u| - 1] == digits[|digits| - 1];
    TrimKeeps(u);
    WholeNumberOfDigits(sign, digits);
  }

  lemma WholeNumberOfDigits(sign: string, digits: string)
    requires sign == "" || sign == "-"
    requires digits != [] && AllDigits(digits)
    ensures WholeNumber(sign + digits) == Some(SignedValue(sign == "-", digits))
  {
    var u := sign + digits;
    assert u[0] == (if sign == "-" then '-' else digits[0]);
    var rest := if sign == "-" then u[1..] else u;
    assert rest == digits;
  }

  /** `toString` writes an integer as an optional minus sign and the digits
      of its magnitude. */
  lemma IntToStringParts(n: int) returns (sign: string, digits: string)
    ensures sign == (if n < 0 then "-" else "")
    ensures digits != [] && AllDigits(digits)
    ensures IntToString(n) == sign + digits
    ensures SignedValue(n < 0, digits) == n
  {
    var m: nat := if n < 0 then -n else n;
    digits := NatToString(m);
    NatToStringValue(m);
    sign := if n < 0 then "-" else "";
    assert IntToString(n) == sign + digits;
  }

  /** `parseInt` reads back every integer `toString` writes: the drag payload
      and the host form's answer value both survive the trip. */
  lemma ParseIntOfIntToString(n: int)
    ensures ParseInt(IntToString(n)) == Some(n)
  {
    var sign, digits := IntToStringParts(n);
    ParseIntOfDigits(sign, digits, "");
    assert sign + digits + "" == IntToString(n);
  }

  /** `Number` reads back every integer `toString` writes. */
  lemma NumberOfIntToString(n: int)
    ensures Number(IntToString(n)) == Some(n)
  {
    var sign, digits := IntToStringParts(n);
    NumberOfDigits(sign, digits);
  }

  /** `parseInt` ignores whatever follows the number: "12px" reads as 12.
      A lone "0" followed by "x" or "X" is a hexadecimal prefix instead. */
  lemma ParseIntIgnoresTail(n: int, tail: string)
    requires tail == [] || !IsDigit(tail[0])
    requires n != 0 || tail == [] || (tail[0] != 'x' && tail[0] != 'X')
    ensures ParseInt(IntToString(n) + tail) == Some(n)
  {
    var sign, digits := IntToStringParts(n);
    ParseIntOfDigits(sign, digits, tail);
  }

  /** `parseInt` skips leading white space itself. */
  lemma ParseIntSkipsSpace(w: string, s: string)
    requires AllWhitespace(w)
    ensures ParseInt(w + s) == ParseInt(s)
  {
    TrimStartSkips(w, s);
  }

  /** Text that starts, after white space, with neither a sign nor a digit
      is NaN to `parseInt`, whatever follows: "abc" and "x1" are NaN. */
  lemma ParseIntNotANumber(w: string, c: char, tail: string)
    requires AllWhitespace(w)
    requires !IsWhitespace(c) && !IsDigit(c) && c != '-' && c != '+'
    ensures ParseInt(w + [c] + tail) == None
  {
    assert w + [c] + tail == w + ([c] + tail);
    TrimStartSkips(w, [c] + tail);
    TrimStartKeeps([c] + tail);
  }

  /** `Number` of blank text is 0, not NaN. */
  lemma NumberOfBlank(s: string)
    requires AllWhitespace(s)
    ensures Number(s) == Some(0)
  {
    LeadingSpacesAppend(s, []);
    assert s + [] == s;
  }

  /** Unlike `parseInt`, `Number` refuses a number followed by anything but
      white space or a decimal point: "12px" is NaN. */
  lemma NumberRejectsTail(n: int, c: char)
    requires !IsWhitespace(c) && !IsDigit(c) && c != '.'
    ensures Number(IntToString(n) + [c]) == None
  {
    var u := IntToString(n) + [c];
    TrimKeeps(u);
    var signed := u[0] == '-' || u[0] == '+';
    var digits := if signed then u[1..] else u;
    assert digits[|digits| - 1] == c;
  }

  /** `s.split(sep)` for a one-character separator. */
  function Split(s: string, sep: char): (r: seq<string>)
    ensures |r| >= 1
    ensures forall i :: 0 <= i < |r| ==> sep !in r[i]
    ensures sep !in s ==> r == [s]
  {
    if s == [] then [""]
    else
      var rest := Split(s[1..], sep);
      if s[0] == sep then [""] + rest
      else
        assert sep !in s ==> sep !in s[1..] && [s[0]] + s[1..] == s;
        [[s[0]] + rest[0]] + rest[1..]
  }

  /** The part before the first separator is split off as the first piece. */
  lemma {:induction false} SplitCons(a: string, sep: char, b: string)
    requires sep !in a
    ensures Split(a + [sep] + b, sep) == [a] + Split(b, sep)
  {
    var s := a + [sep] + b;
    if a == [] {
      assert s[0] == sep && s[1..] == b;
    } else {
      assert s[0] == a[0] && s[1..] == a[1..] + [sep] + b;
      SplitCons(a[1..], sep, b);
      assert [a[0]] + a[1..] == a;
    }
  }
}
