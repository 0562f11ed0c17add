/**
 * The Python string builtins the transcript formatter calls: `str.isspace`
 * and `str.strip()`, `sep.join(parts)` and the integer format `f"{n:0Wd}"`.
 * `s.split(sep)` and the `int(s)` parse are not called by the formatter;
 * they are here as the inverses of join and of the format, so that the
 * round trips can be stated.
 */
module Strings {

  import opened Wrappers

  // ---------------------------------------------------------------------
  // Whitespace and str.strip()
  // ---------------------------------------------------------------------

  /** Python's `str.isspace()` for one character: tab, line feed, vertical
      tab, form feed, carriage return, the file/group/record/unit separators
      0x1C-0x1F, space, next line (0x85), no-break space, and the Unicode
      space, line and paragraph separators. */
  predicate IsSpace(c: char) {
    var n := c as int;
    (0x09 <= n <= 0x0D) || (0x1C <= n <= 0x20) || n == 0x85 || n == 0xA0 || n == 0x1680
    || (0x2000 <= n <= 0x200A) || n == 0x2028 || n == 0x2029 || n == 0x202F
    || n == 0x205F || n == 0x3000
  }

  predicate AllSpace(s: string) {
    forall k :: 0 <= k < |s| ==> IsSpace(s[k])
  }

  /** `s` without its leading run of whitespace (Python `str.lstrip()`). */
  function TrimStart(s: string): string {
    if s != [] && IsSpace(s[0]) then TrimStart(s[1..]) else s
  }

  /** `s` without its trailing run of whitespace (Python `str.rstrip()`). */
  function TrimEnd(s: string): string {
    if s != [] && IsSpace(s[|s| - 1]) then TrimEnd(s[..|s| - 1]) else s
  }

  /** `lstrip()` removes exactly the leading whitespace: what it keeps is a
      suffix of `s` that does not start with whitespace, and what it drops
      is all whitespace. */
  lemma {:induction false} TrimStartSpec(s: string)
    ensures var r := TrimStart(s);
      && |r| <= |s| && r == s[|s| - |r|..]
      && AllSpace(s[..|s| - |r|])
      && (r != [] ==> !IsSpace(r[0]))
  {
    if s != [] && IsSpace(s[0]) {
      TrimStartSpec(s[1..]);
      var r := TrimStart(s);
      assert s[..|s| - |r|] == [s[0]] + s[1..][..|s| - 1 - |r|];
    }
  }

  /** `rstrip()` removes exactly the trailing whitespace. */
  lemma {:induction false} TrimEndSpec(s: string)
    ensures var r := TrimEnd(s);
      && |r| <= |s| && r == s[..|r|]
      && AllSpace(s[|r|..])
      && (r != [] ==> !IsSpace(r[|r| - 1]))
  {
    if s != [] && IsSpace(s[|s| - 1]) {
      var s' := s[..|s| - 1];
      TrimEndSpec(s');
      var r := TrimEnd(s);
      assert s[|r|..] == s'[|r|..] + [s[|s| - 1]];
    }
  }

  /** `r` is what is left of `s` once a leading and a trailing run of
      whitespace are cut off, and neither end of `r` is whitespace. */
  predicate IsStripOf(s: string, pre: string, r: string, post: string) {
    s == pre + r + post && AllSpace(pre) && AllSpace(post)
    && (r != [] ==> !IsSpace(r[0]) && !IsSpace(r[|r| - 1]))
  }

  /** Python `str.strip()` with no argument. */
  function Strip(s: string): string {
    TrimEnd(TrimStart(s))
  }

  /** The whitespace `strip()` removes in front. */
  function StrippedPrefix(s: string): string {
    TrimStartSpec(s);
    s[..|s| - |TrimStart(s)|]
  }

  /** The whitespace `strip()` removes at the back. */
  function StrippedSuffix(s: string): string {
    TrimEndSpec(TrimStart(s));
    TrimStart(s)[|Strip(s)|..]
  }

  /** What `strip()` leaves: `s` minus a leading and a trailing run of
      whitespace, with no whitespace at either end. */
  lemma StripSpec(s: string)
    ensures IsStripOf(s, StrippedPrefix(s), Strip(s), StrippedSuffix(s))
  {
    TrimStartSpec(s);
    TrimEndSpec(TrimStart(s));
    StripParts(s, TrimStart(s), Strip(s));
  }

  /** Trimming the end after the start leaves the middle of `s`. */
  lemma StripParts(s: string, t: string, r: string)
    requires |t| <= |s| && t == s[|s| - |t|..] && AllSpace(s[..|s| - |t|])
    requires t != [] ==> !IsSpace(t[0])
    requires |r| <= |t| && r == t[..|r|] && AllSpace(t[|r|..])
    requires r != [] ==> !IsSpace(r[|r| - 1])
    ensures IsStripOf(s, s[..|s| - |t|], r, t[|r|..])
  {
    var pre, post := s[..|s| - |t|], t[|r|..];
    assert s == pre + t;
    assert t == r + post;
    if r != [] {
      assert r[0] == t[0];
    }
  }

  /** Where the three parts of a concatenation sit in it. */
  lemma ConcatIndex(a: string, b: string, c: string, k: int)
    ensures 0 <= k < |a| ==> (a + b + c)[k] == a[k]
    ensures 0 <= k < |b| ==> (a + b + c)[|a| + k] == b[k]
    ensures 0 <= k < |c| ==> (a + b + c)[|a| + |b| + k] == c[k]
  {
  }

  /** The characterisation in Strip's contract has one solution only:
      it is an independent definition of Python's `strip()`. */
  lemma StripUnique(s: string, pre: string, r: string, post: string)
    requires IsStripOf(s, pre, r, post)
    ensures r == Strip(s)
  {
    StripSpec(s);
    var pre', post' := StrippedPrefix(s), StrippedSuffix(s);
    var r' := Strip(s);
    if r != [] && r' != [] {
      SameLeadingRun(s, pre, r, post, pre', r', post');
      SameTrailingRun(s, pre, r, post, pre', r', post');
      assert r == s[|pre|..|s| - |post|];
      assert r' == s[|pre'|..|s| - |post'|];
    } else if r != [] {
      ConcatIndex(pre, r, post, 0);
      ConcatIndex(pre', r', post', 0);
      SpaceAt(pre', post', |pre|);
    } else if r' != [] {
      ConcatIndex(pre, r, post, 0);
      ConcatIndex(pre', r', post', 0);
      SpaceAt(pre, post, |pre'|);
    }
  }

  /** Every character of a concatenation of two all-whitespace strings is
      whitespace. */
  lemma SpaceAt(pre: string, post: string, k: int)
    ensures AllSpace(pre) && AllSpace(post) && 0 <= k < |pre + post| ==> IsSpace((pre + post)[k])
  {
    if AllSpace(pre) && AllSpace(post) && 0 <= k < |pre + post| {
      if k < |pre| { assert (pre + post)[k] == pre[k]; } else { assert (pre + post)[k] == post[k - |pre|]; }
    }
  }

  lemma SameLeadingRun(s: string, pre: string, r: string, post: string,
                       pre': string, r': string, post': string)
    requires s == pre + r + post && s == pre' + r' + post'
    requires r != [] && r' != []
    requires AllSpace(pre) && AllSpace(pre') && !IsSpace(r[0]) && !IsSpace(r'[0])
    ensures |pre| == |pre'|
  {
    if |pre| < |pre'| {
      ConcatIndex(pre, r, post, 0);
      ConcatIndex(pre', r', post', |pre|);
      assert false;
    } else if |pre'| < |pre| {
      ConcatIndex(pre', r', post', 0);
      ConcatIndex(pre, r, post, |pre'|);
      assert false;
    }
  }

  lemma SameTrailingRun(s: string, pre: string, r: string, post: string,
                        pre': string, r': string, post': string)
    requires s == pre + r + post && s == pre' + r' + post'
    requires r != [] && r' != []
    requires AllSpace(post) && AllSpace(post') && !IsSpace(r[|r| - 1]) && !IsSpace(r'[|r'| - 1])
    ensures |post| == |post'|
  {
    if |post| < |post'| {
      ConcatIndex(pre, r, post, |r| - 1);
      ConcatIndex(pre', r', post', |post'| - |post| - 1);
      assert false;
    } else if |post'| < |post| {
      ConcatIndex(pre', r', post', |r'| - 1);
      ConcatIndex(pre, r, post, |post| - |post'| - 1);
      assert false;
    }
  }

  /** Stripping twice is stripping once. */
  lemma StripIdempotent(s: string)
    ensures Strip(Strip(s)) == Strip(s)
  {
    var r := Strip(s);
    StripSpec(s);
    assert r == [] + r + [];
    assert IsStripOf(r, [], r, []);
    StripUnique(r, [], r, []);
  }

  // ---------------------------------------------------------------------
  // sep.join(parts) and s.split(sep)
  // ---------------------------------------------------------------------

  /** Python `sep.join(parts)` for a one-character separator: the parts in
      order with one separator between neighbours; no parts give "". */
  function Join(parts: seq<string>, sep: char): (r: string)
  {
    if |parts| == 0 then []
    else if |parts| == 1 then parts[0]
    else parts[0] + [sep] + Join(parts[1..], sep)
  }

  /** Python `s.split(sep)` for a one-character separator: the maximal
      separator-free pieces, so "" splits into [""]. */
  function Split(s: string, sep: char): (r: seq<string>)
    ensures |r| >= 1
  {
    if s == [] then [[]]
    else
      var rest := Split(s[1..], sep);
      if s[0] == sep then [[]] + rest else [[s[0]] + rest[0]] + rest[1..]
  }

  /** The two joined sequences are joined with one separator between them. */
  lemma {:induction false} JoinAppend(a: seq<string>, b: seq<string>, sep: char)
    requires a != [] && b != []
    ensures Join(a + b, sep) == Join(a, sep) + [sep] + Join(b, sep)
  {
    if |a| == 1 {
      assert (a + b)[1..] == b;
    } else {
      assert (a + b)[1..] == a[1..] + b;
      JoinAppend(a[1..], b, sep);
    }
  }

  /** Joining the pieces of a split gives back the string. */
  lemma {:induction false} JoinSplit(s: string, sep: char)
    ensures Join(Split(s, sep), sep) == s
  {
    if s != [] {
      var rest := Split(s[1..], sep);
      JoinSplit(s[1..], sep);
      if s[0] == sep {
        assert ([[]] + rest)[1..] == rest;
      } else if |rest| > 1 {
        var r := [[s[0]] + rest[0]] + rest[1..];
        assert r[1..] == rest[1..];
        assert Join(rest, sep) == rest[0] + [sep] + Join(rest[1..], sep);
      }
    }
  }

  lemma {:induction false} SplitNoSeparator(a: string, sep: char)
    requires sep !in a
    ensures Split(a, sep) == [a]
  {
    if a != [] {
      SplitNoSeparator(a[1..], sep);
      assert [a[0]] + a[1..] == a;
    }
  }

  lemma {:induction false} SplitAfterPiece(a: string, b: string, sep: char)
    requires sep !in a
    ensures Split(a + [sep] + b, sep) == [a] + Split(b, sep)
  {
    if a == [] {
      assert (a + [sep] + b)[1..] == b;
    } else {
      assert (a + [sep] + b)[1..] == a[1..] + [sep] + b;
      SplitAfterPiece(a[1..], b, sep);
      assert [a[0]] + a[1..] == a;
    }
  }

  /** Splitting a join gives back the parts, provided no part contains the
      separator and there is at least one part (a join of [] and of [""]
      are both ""). */
  lemma {:induction false} SplitJoin(parts: seq<string>, sep: char)
    requires |parts| >= 1
    requires forall i :: 0 <= i < |parts| ==> sep !in parts[i]
    ensures Split(Join(parts, sep), sep) == parts
  {
    if |parts| == 1 {
      SplitNoSeparator(parts[0], sep);
    } else {
      SplitJoin(parts[1..], sep);
      SplitAfterPiece(parts[0], Join(parts[1..], sep), sep);
      assert [parts[0]] + parts[1..] == parts;
    }
  }

  // ---------------------------------------------------------------------
  // Decimal numerals: f"{n:0Wd}" and int(s)
  // ---------------------------------------------------------------------

  predicate IsDigit(c: char) {
    '0' <= c <= '9'
  }

  predicate AllDigits(s: string) {
    forall k :: 0 <= k < |s| ==> IsDigit(s[k])
  }

  function DigitChar(d: nat): (c: char)
    requires d < 10
    ensures IsDigit(c)
  {
    ('0' as int + d) as char
  }

  function DigitValue(c: char): nat
    requires IsDigit(c)
  {
    c as int - '0' as int
  }

  /** The shortest decimal numeral of `n`, as Python's `str(n)`. */
  function Decimal(n: nat): (r: string)
    ensures |r| >= 1 && AllDigits(r)
    ensures n > 0 ==> r[0] != '0'
  {
    if n < 10 then [DigitChar(n)] else Decimal(n / 10) + [DigitChar(n % 10)]
  }

  /** The value of a numeral read most significant digit first. */
  function ParseDecimal(s: string): nat
    requires AllDigits(s)
  {
    if s == [] then 0 else ParseDecimal(s[..|s| - 1]) * 10 + DigitValue(s[|s| - 1])
  }

  lemma {:induction false} ParseDecimalOfDecimal(n: nat)
    ensures ParseDecimal(Decimal(n)) == n
  {
    if n >= 10 {
      var d := Decimal(n);
      assert d[..|d| - 1] == Decimal(n / 10);
      ParseDecimalOfDecimal(n / 10);
    }
  }

  /** The numeral is one digit below 10, two below 100, and longer above. */
  lemma DecimalLength(n: nat)
    ensures |Decimal(n)| == 1 <==> n < 10
    ensures |Decimal(n)| <= 2 <==> n < 100
  {
    if n >= 100 {
      assert |Decimal(n / 10)| >= 2;
    }
  }

  function Zeros(k: nat): (r: string)
    ensures |r| == k && forall i :: 0 <= i < k ==> r[i] == '0'
  {
    if k == 0 then [] else ['0'] + Zeros(k - 1)
  }

  /** `s` widened to `width` characters with leading '0's. */
  function ZeroPad(s: string, width: nat): (r: string)
  {
    if |s| < width then Zeros(width - |s|) + s else s
  }

  /** Python's `f"{n:0{width}d}"`: the sign, then the digits zero-filled so
      that sign and digits together are at least `width` wide. */
  function FormatPadded(n: int, width: nat): (r: string)
  {
    if n < 0 then "-" + ZeroPad(Decimal(-n), if width > 0 then width - 1 else 0)
    else ZeroPad(Decimal(n), width)
  }

  /** The part of Python's `int(s)` needed to read back `f"{n:0Wd}"`: an
      optional '-' followed by decimal digits. Everything else is `None`
      here, although `int()` also accepts surrounding whitespace, a '+' sign
      and '_' between digits. */
  function ParseInt(s: string): (r: Option<int>)
  {
    if |s| >= 2 && s[0] == '-' && AllDigits(s[1..]) then Some(0 - ParseDecimal(s[1..]))
    else if |s| >= 1 && AllDigits(s) then Some(ParseDecimal(s))
    else None
  }

  lemma {:induction false} ParseDecimalLeadingZeros(k: nat, s: string)
    requires AllDigits(s)
    ensures AllDigits(Zeros(k) + s) && ParseDecimal(Zeros(k) + s) == ParseDecimal(s)
    decreases |s|
  {
    var z := Zeros(k) + s;
    assert AllDigits(z) by {
      forall i | 0 <= i < |z| ensures IsDigit(z[i]) {
        if i >= k { assert z[i] == s[i - k]; }
      }
    }
    if s == [] {
      ParseZeros(k);
      assert z == Zeros(k);
    } else {
      var s' := s[..|s| - 1];
      assert AllDigits(s');
      assert z[..|z| - 1] == Zeros(k) + s';
      ParseDecimalLeadingZeros(k, s');
    }
  }

  lemma {:induction false} ParseZeros(k: nat)
    ensures ParseDecimal(Zeros(k)) == 0
  {
    if k > 0 {
      assert Zeros(k)[..k - 1] == Zeros(k - 1);
      ParseZeros(k - 1);
    }
  }

  /** Zero padding never changes the value a numeral reads back to. */
  lemma ParseZeroPad(n: nat, width: nat)
    ensures |ZeroPad(Decimal(n), width)| >= 1
    ensures AllDigits(ZeroPad(Decimal(n), width))
    ensures ParseDecimal(ZeroPad(Decimal(n), width)) == n
  {
    var d := Decimal(n);
    ParseDecimalOfDecimal(n);
    if |d| < width {
      ParseDecimalLeadingZeros(width - |d|, d);
    }
  }

  /** `int(f"{n:0{width}d}") == n` for every integer and every width. */
  lemma ParseFormatPadded(n: int, width: nat)
    ensures ParseInt(FormatPadded(n, width)) == Some(n)
  {
    if n < 0 {
      ParseFormatNegative(n, width);
    } else {
      ParseZeroPad(n, width);
    }
  }

  lemma ParseFormatNegative(n: int, width: nat)
    requires n < 0
    ensures ParseInt(FormatPadded(n, width)) == Some(n)
  {
    var w := if width > 0 then width - 1 else 0;
    var d := ZeroPad(Decimal(-n), w);
    ParseZeroPad(-n, w);
    ParseNegative(d);
    assert FormatPadded(n, width) == "-" + d;
  }

  /** A minus sign before a non-empty numeral reads back negated. */
  lemma ParseNegative(d: string)
    requires |d| >= 1 && AllDigits(d)
    ensures ParseInt("-" + d) == Some(-(ParseDecimal(d) as int))
  {
    var f := "-" + d;
    assert f[1..] == d;
  }

  /** A non-negative field is `width` wide while its numeral fits, and
      otherwise the bare numeral, which then has no leading zero. */
  lemma FormatPaddedWidth(n: nat, width: nat)
    ensures |FormatPadded(n, width)| == (if |Decimal(n)| < width then width else |Decimal(n)|)
    ensures AllDigits(FormatPadded(n, width))
    ensures |FormatPadded(n, width)| > width && n > 0 ==> FormatPadded(n, width)[0] != '0'
    ensures |Decimal(n)| >= width ==> FormatPadded(n, width) == Decimal(n)
  {
    ParseZeroPad(n, width);
  }

  /** A formatted integer has digits and at most a minus sign. */
  lemma FormatPaddedChars(n: int, width: nat)
    ensures forall i :: 0 <= i < |FormatPadded(n, width)| ==>
      IsDigit(FormatPadded(n, width)[i]) || FormatPadded(n, width)[i] == '-'
  {
    if n < 0 {
      ParseZeroPad(-n, if width > 0 then width - 1 else 0);
    } else {
      ParseZeroPad(n, width);
    }
  }
}
