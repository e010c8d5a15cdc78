/**
 * JavaScript string semantics used by the controllers: the `\s` class of regular
 * expressions and `trim`, `split("/")`, Node's `path.basename` on `/`-separated URLs, and the
 * decimal rendering of integers in template literals.
 */
module Text {
  import opened Wrappers

  /** ECMAScript WhiteSpace and LineTerminator code points: what `\s` matches and `trim` removes. */
  predicate IsJsSpace(c: char) {
    || c == '\t' || c == '\n' || c == '\U{B}' || c == '\U{C}' || c == '\r' || c == ' '
    || c == '\U{A0}' || c == '\U{1680}' || ('\U{2000}' <= c <= '\U{200A}')
    || c == '\U{2028}' || c == '\U{2029}' || c == '\U{202F}' || c == '\U{205F}'
    || c == '\U{3000}' || c == '\U{FEFF}'
  }

  /** The regular-expression class `\w`. */
  predicate IsWordChar(c: char) {
    'a' <= c <= 'z' || 'A' <= c <= 'Z' || '0' <= c <= '9' || c == '_'
  }

  /** `pat` occurs in `s` starting at index `i`. */
  predicate StartsAt(s: string, pat: string, i: nat) {
    i + |pat| <= |s| && s[i..i + |pat|] == pat
  }

  /** `pat` occurs nowhere in `s`. */
  predicate Absent(s: string, pat: string) {
    forall i: nat :: i <= |s| ==> !StartsAt(s, pat, i)
  }

  /** Leading white space removed. */
  function TrimStart(s: string): (r: string)
    ensures |r| <= |s| && r == s[|s| - |r|..]
    ensures r == [] || !IsJsSpace(r[0])
    ensures forall k :: 0 <= k < |s| - |r| ==> IsJsSpace(s[k])
  {
    if s != [] && IsJsSpace(s[0]) then TrimStart(s[1..]) else s
  }

  /** Trailing white space removed. */
  function TrimEnd(s: string): (r: string)
    ensures |r| <= |s| && r == s[..|r|]
    ensures r == [] || !IsJsSpace(r[|r| - 1])
    ensures forall k :: |r| <= k < |s| ==> IsJsSpace(s[k])
  {
    if s != [] && IsJsSpace(s[|s| - 1]) then TrimEnd(s[..|s| - 1]) else s
  }

  /** `String.prototype.trim`. */
  function Trim(s: string): (r: string)
    ensures r == [] || (!IsJsSpace(r[0]) && !IsJsSpace(r[|r| - 1]))
    ensures r == [] <==> forall k :: 0 <= k < |s| ==> IsJsSpace(s[k])
    ensures (s == [] || (!IsJsSpace(s[0]) && !IsJsSpace(s[|s| - 1]))) ==> r == s
  {
    var t := TrimStart(s);
    var r := TrimEnd(t);
    assert r != [] ==> r[0] == t[0];
    assert r == [] ==> forall k :: 0 <= k < |s| ==> IsJsSpace(s[k]) by {
      if r == [] {
        assert t == [];
      }
    }
    r
  }

  /** `s.split("/")`: the runs between slashes, always at least one (possibly empty) part. */
  function Split(s: string): (parts: seq<string>)
    ensures |parts| >= 1
    ensures forall k :: 0 <= k < |parts| ==> '/' !in parts[k]
  {
    if s == [] then [""]
    else
      var rest := Split(s[1..]);
      if s[0] == '/' then [""] + rest
      else [[s[0]] + rest[0]] + rest[1..]
  }

  /** A string without a slash splits into itself alone. */
  lemma {:induction false} SplitNoSlash(s: string)
    requires '/' !in s
    ensures Split(s) == [s]
  {
    if s != [] {
      SplitNoSlash(s[1..]);
      assert [s[0]] + s[1..] == s;
    }
  }

  /** Splitting at a slash splits each side independently. */
  lemma {:induction false} SplitAtSlash(a: string, b: string)
    ensures Split(a + "/" + b) == Split(a) + Split(b)
  {
    if a == [] {
      assert a + "/" + b == "/" + b;
      assert ("/" + b)[1..] == b;
    } else {
      var s := a + "/" + b;
      assert s[0] == a[0];
      assert s[1..] == a[1..] + "/" + b;
      SplitAtSlash(a[1..], b);
    }
  }

  /** A string holding a slash splits into at least two parts. */
  lemma {:induction false} SplitWithSlash(s: string)
    requires '/' in s
    ensures |Split(s)| >= 2
  {
    if s[0] != '/' {
      SplitWithSlash(s[1..]);
    }
  }

  /** `s` with every trailing slash removed. */
  function DropTrailingSlashes(s: string): (r: string)
    ensures |r| <= |s| && r == s[..|r|]
    ensures r == [] || r[|r| - 1] != '/'
  {
    if s != [] && s[|s| - 1] == '/' then DropTrailingSlashes(s[..|s| - 1]) else s
  }

  /**
   * Node's `path.basename(p)`: the last segment once trailing slashes are ignored. The server
   * runs on Windows, where `path` is `path.win32` and also cuts at `\`; the URLs read back here
   * end in `<uuid>.jpg`, which holds no backslash, so both give this segment.
   */
  function Basename(p: string): (r: string)
    ensures '/' !in r
  {
    var parts := Split(DropTrailingSlashes(p));
    parts[|parts| - 1]
  }

  /** `p.split("/").slice(-2, -1)[0]`: the second-to-last segment, `None` standing for `undefined`. */
  function SecondToLastSegment(p: string): (r: Option<string>)
    ensures r.Some? ==> '/' !in r.value
    ensures r.None? <==> '/' !in p
  {
    var parts := Split(p);
    assert '/' !in p <==> |parts| < 2 by {
      if '/' !in p { SplitNoSlash(p); } else { SplitWithSlash(p); }
    }
    if |parts| >= 2 then Some(parts[|parts| - 2]) else None
  }

  /**
   * The two segments the delete handlers read back from a URL `prefix/dir/name` are
   * exactly `dir` and `name` whenever neither contains a slash and `name` is not empty.
   */
  lemma LastTwoSegments(prefix: string, dir: string, name: string)
    requires '/' !in dir && '/' !in name && name != []
    ensures SecondToLastSegment(prefix + "/" + dir + "/" + name) == Some(dir)
    ensures Basename(prefix + "/" + dir + "/" + name) == name
  {
    var s := prefix + "/" + dir + "/" + name;
    assert s == prefix + "/" + (dir + "/" + name);
    SplitAtSlash(prefix, dir + "/" + name);
    SplitAtSlash(dir, name);
    SplitNoSlash(dir);
    SplitNoSlash(name);
    assert Split(s) == Split(prefix) + [dir] + [name];
    assert s[|s| - 1] == name[|name| - 1];
    assert DropTrailingSlashes(s) == s;
  }

  function DigitChar(d: nat): (c: char)
    requires d < 10
    ensures '0' <= c <= '9'
  {
    "0123456789"[d]
  }

  predicate AllDigits(s: string) {
    forall k :: 0 <= k < |s| ==> '0' <= s[k] <= '9'
  }

  /** The decimal digits of a natural number, most significant first, without leading zeros. */
  function Digits(n: nat): (r: string)
    ensures r != [] && AllDigits(r)
  {
    if n < 10 then [DigitChar(n)] else Digits(n / 10) + [DigitChar(n % 10)]
  }

  /** `String(n)`, or `${n}` in a template literal, for an integral JavaScript number. */
  function DecimalText(n: int): (r: string)
    ensures r != [] && '/' !in r
  {
    if n < 0 then "-" + Digits(-n) else Digits(n)
  }

  /** The value of a non-empty string of decimal digits. */
  function DigitsValue(s: string): nat
    requires s != [] && AllDigits(s)
  {
    var last := (s[|s| - 1] as int - '0' as int) as nat;
    if |s| == 1 then last else DigitsValue(s[..|s| - 1]) * 10 + last
  }

  /** SQLite's `sqlite3Isspace`: the white space it skips around a number written as text. */
  predicate IsSqlSpace(c: char) {
    c == ' ' || c == '\t' || c == '\n' || c == '\U{B}' || c == '\U{C}' || c == '\r'
  }

  /** `s` without SQLite white space at either end. */
  function SqlTrim(s: string): (r: string)
    ensures s == [] || (!IsSqlSpace(s[0]) && !IsSqlSpace(s[|s| - 1])) ==> r == s
  {
    if s != [] && IsSqlSpace(s[0]) then SqlTrim(s[1..])
    else if s != [] && IsSqlSpace(s[|s| - 1]) then SqlTrim(s[..|s| - 1])
    else s
  }

  /** Trimming leaves no SQL white space at either end. */
  lemma {:induction false} SqlTrimEnds(s: string)
    ensures var r := SqlTrim(s); r == [] || (!IsSqlSpace(r[0]) && !IsSqlSpace(r[|r| - 1]))
    decreases |s|
  {
    if s != [] && IsSqlSpace(s[0]) {
      SqlTrimEnds(s[1..]);
    } else if s != [] && IsSqlSpace(s[|s| - 1]) {
      SqlTrimEnds(s[..|s| - 1]);
    }
  }

  /** The length of the run of decimal digits that starts `s`. */
  function DigitRun(s: string): (n: nat)
    ensures n <= |s| && AllDigits(s[..n])
    ensures n < |s| ==> !('0' <= s[n] <= '9')
  {
    if s != [] && '0' <= s[0] <= '9' then
      var n := 1 + DigitRun(s[1..]);
      assert forall k :: 1 <= k < n ==> s[..n][k] == s[1..][..n - 1][k - 1];
      n
    else 0
  }

  /** `s` cut after the run of decimal digits that starts it. */
  function SplitDigits(s: string): (r: (string, string))
    ensures AllDigits(r.0) && r.0 + r.1 == s
    ensures r.1 != [] ==> !('0' <= r.1[0] <= '9')
  {
    var n := DigitRun(s);
    assert s[..n] + s[n..] == s;
    (s[..n], s[n..])
  }

  lemma AllDigitsAppend(a: string, b: string)
    requires AllDigits(a) && AllDigits(b)
    ensures AllDigits(a + b)
  {
    assert forall k :: 0 <= k < |a + b| ==> (a + b)[k] == if k < |a| then a[k] else b[k - |a|];
  }

  /** A number as SQLite reads it from text: its sign, its integer and fraction digits, and its exponent. */
  datatype Numeral = Numeral(negative: bool, whole: string, fraction: string, exponent: int)

  /** The digits of a numeral's mantissa, integer part first. */
  function Mantissa(n: Numeral): string {
    n.whole + n.fraction
  }

  /** An optionally signed run of decimal digits, as an exponent is written. */
  function SignedDigitsValue(s: string): (r: Option<int>)
    ensures r.Some? ==> s != []
  {
    var d := if s != [] && (s[0] == '-' || s[0] == '+') then s[1..] else s;
    if d != [] && AllDigits(d) then Some(if s[0] == '-' then -(DigitsValue(d) as int) else DigitsValue(d) as int)
    else None
  }

  /**
   * `sqlite3AtoF` reading the whole of `s` as a number: optional white space, an optional sign,
   * an unsigned number, optional white space.
   */
  function ParseNumeral(s: string): (r: Option<Numeral>)
    ensures r.Some? ==> Mantissa(r.value) != [] && AllDigits(Mantissa(r.value))
  {
    var t := SqlTrim(s);
    if t != [] && (t[0] == '-' || t[0] == '+') then ParseUnsigned(t[0] == '-', t[1..])
    else ParseUnsigned(false, t)
  }

  /**
   * An unsigned number: digits with an optional `.` and fraction digits (at least one digit in
   * all), then an optional exponent `e` or `E` with an optional sign and at least one digit.
   */
  function ParseUnsigned(negative: bool, u: string): (r: Option<Numeral>)
    ensures r.Some? ==> Mantissa(r.value) != [] && AllDigits(Mantissa(r.value))
  {
    var (whole, v) := SplitDigits(u);
    var (fraction, x) := if v != [] && v[0] == '.' then SplitDigits(v[1..]) else ("", v);
    var exponent := if x == [] then Some(0)
                    else if x[0] == 'e' || x[0] == 'E' then SignedDigitsValue(x[1..])
                    else None;
    if whole + fraction == [] || exponent.None? then None
    else
      AllDigitsAppend(whole, fraction);
      Some(Numeral(negative, whole, fraction, exponent.value))
  }

  function Pow10(e: nat): (r: nat)
    ensures r > 0
  {
    if e == 0 then 1 else 10 * Pow10(e - 1)
  }

  /** The integer a numeral denotes, None when its value has a fractional part. */
  function NumeralInteger(n: Numeral): Option<int>
    requires Mantissa(n) != [] && AllDigits(Mantissa(n))
  {
    var m := DigitsValue(Mantissa(n));
    var shift := n.exponent - |n.fraction|;
    var magnitude := if shift >= 0 then Some(m * Pow10(shift))
                     else if m % Pow10(-shift) == 0 then Some(m / Pow10(-shift))
                     else None;
    if magnitude.None? then None
    else Some(if n.negative then -(magnitude.value as int) else magnitude.value as int)
  }

  /**
   * The integer a TEXT operand equals when SQLite compares it with an INTEGER column. Numeric
   * affinity turns text that reads in full as a number into that number, which then equals the
   * integer of the same value; text that does not read as a number, or whose value is not
   * integral, equals no integer.
   */
  function DecimalValue(s: string): Option<int> {
    var n := ParseNumeral(s);
    if n.None? then None else NumeralInteger(n.value)
  }

  /** A string of digits reads in full. */
  lemma {:induction false} DigitRunAll(s: string)
    requires AllDigits(s)
    ensures DigitRun(s) == |s|
  {
    if s != [] {
      DigitRunAll(s[1..]);
    }
  }

  lemma {:induction false} DigitsRoundTrip(n: nat)
    ensures DigitsValue(Digits(n)) == n
  {
    if n >= 10 {
      DigitsRoundTrip(n / 10);
      var s := Digits(n);
      assert s[..|s| - 1] == Digits(n / 10);
    }
  }

  /** A string of digits is one run of digits with nothing after it. */
  lemma SplitAllDigits(d: string)
    requires AllDigits(d)
    ensures SplitDigits(d) == (d, "")
  {
    DigitRunAll(d);
    assert d[..|d|] == d && d[|d|..] == "";
  }

  /** Digits alone read as the plain numeral of those digits. */
  lemma DigitsNumeral(negative: bool, d: string)
    requires d != [] && AllDigits(d)
    ensures ParseUnsigned(negative, d) == Some(Numeral(negative, d, "", 0))
  {
    SplitAllDigits(d);
    assert d + "" == d;
  }

  /** An optional sign followed by digits reads as the plain numeral of those digits. */
  lemma SignedDigitsNumeral(sign: string, d: string)
    requires sign == "" || sign == "-" || sign == "+"
    requires d != [] && AllDigits(d)
    ensures ParseNumeral(sign + d) == Some(Numeral(sign == "-", d, "", 0))
  {
    if sign == "" {
      assert sign + d == d;
      UnsignedText(d);
    } else {
      assert sign + d == [sign[0]] + d;
      SignedText(sign[0], d);
    }
    DigitsNumeral(sign == "-", d);
  }

  /** A sign followed by text that ends without white space reads as that text, unsigned, with the sign. */
  lemma SignedText(c: char, u: string)
    requires (c == '-' || c == '+') && u != [] && !IsSqlSpace(u[|u| - 1])
    ensures ParseNumeral([c] + u) == ParseUnsigned(c == '-', u)
  {
    var t := [c] + u;
    assert t[0] == c && t[|t| - 1] == u[|u| - 1] && t[1..] == u;
    assert SqlTrim(t) == t;
    assert t != [] && (t[0] == '-' || t[0] == '+');
  }

  /** The plain numeral of some digits denotes their value, negated when it carries a minus sign. */
  lemma PlainNumeralValue(negative: bool, d: string)
    requires d != [] && AllDigits(d)
    ensures NumeralInteger(Numeral(negative, d, "", 0)) ==
      Some(if negative then -(DigitsValue(d) as int) else DigitsValue(d) as int)
  {
    assert Mantissa(Numeral(negative, d, "", 0)) == d;
  }

  lemma NegativeRoundTrip(n: int)
    requires n < 0
    ensures DecimalValue(DecimalText(n)) == Some(n)
  {
    var m: nat := -n;
    var d := Digits(m);
    assert DecimalText(n) == "-" + d;
    DigitsRoundTrip(m);
    SignedDigitsNumeral("-", d);
    assert ParseNumeral(DecimalText(n)) == Some(Numeral(true, d, "", 0));
    PlainNumeralValue(true, d);
  }

  lemma NonNegativeRoundTrip(n: int)
    requires n >= 0
    ensures DecimalValue(DecimalText(n)) == Some(n)
  {
    var d := Digits(n);
    DigitsRoundTrip(n);
    SignedDigitsNumeral("", d);
    PlainNumeralValue(false, d);
    assert "" + d == d;
  }

  /** Reading back a rendered integer gives the integer: a route segment `${id}` selects row `id`. */
  lemma DecimalRoundTrip(n: int)
    ensures DecimalValue(DecimalText(n)) == Some(n)
  {
    if n < 0 { NegativeRoundTrip(n); } else { NonNegativeRoundTrip(n); }
  }

  /** A `+` before the digits selects the same row. */
  lemma PlusSignRoundTrip(n: nat)
    ensures DecimalValue("+" + Digits(n)) == Some(n)
  {
    var d := Digits(n);
    DigitsRoundTrip(n);
    SignedDigitsNumeral("+", d);
    PlainNumeralValue(false, d);
  }

  predicate AllSqlSpace(s: string) {
    forall k :: 0 <= k < |s| ==> IsSqlSpace(s[k])
  }

  /** White space around text without white space at its ends is trimmed away. */
  lemma {:induction false} SqlTrimPadded(a: string, s: string, b: string)
    requires AllSqlSpace(a) && AllSqlSpace(b)
    requires s != [] && !IsSqlSpace(s[0]) && !IsSqlSpace(s[|s| - 1])
    ensures SqlTrim(a + s + b) == s
    decreases |a| + |b|
  {
    var t := a + s + b;
    if a != [] {
      assert t[0] == a[0];
      assert t[1..] == a[1..] + s + b;
      SqlTrimPadded(a[1..], s, b);
    } else if b != [] {
      assert t[0] == s[0];
      assert t[|t| - 1] == b[|b| - 1];
      assert t[..|t| - 1] == a + s + b[..|b| - 1];
      SqlTrimPadded(a, s, b[..|b| - 1]);
    } else {
      assert t == s;
    }
  }

  /** White space before and after a rendered id selects the same row. */
  lemma PaddedRoundTrip(n: int, before: string, after: string)
    requires AllSqlSpace(before) && AllSqlSpace(after)
    ensures DecimalValue(before + DecimalText(n) + after) == Some(n)
  {
    var d := DecimalText(n);
    assert d[0] == '-' || '0' <= d[0] <= '9';
    assert '0' <= d[|d| - 1] <= '9';
    SqlTrimPadded(before, d, after);
    assert ParseNumeral(before + d + after) == ParseNumeral(d);
    DecimalRoundTrip(n);
  }

  /** `zeros` zero digits. */
  function Zeros(zeros: nat): (z: string)
    ensures |z| == zeros && AllDigits(z)
  {
    if zeros == 0 then "" else Zeros(zeros - 1) + "0"
  }

  /** The value of digits with one more digit appended. */
  lemma DigitsValueSnoc(d: string, c: char)
    requires d != [] && AllDigits(d) && '0' <= c <= '9'
    ensures AllDigits(d + [c])
    ensures DigitsValue(d + [c]) == DigitsValue(d) * 10 + (c as int - '0' as int)
  {
    AllDigitsAppend(d, [c]);
    var s := d + [c];
    assert s[..|s| - 1] == d;
  }

  /** Appending zero digits multiplies the value by a power of ten. */
  lemma {:induction false} DigitsValueZeros(d: string, zeros: nat)
    requires d != [] && AllDigits(d)
    ensures AllDigits(d + Zeros(zeros))
    ensures DigitsValue(d + Zeros(zeros)) == DigitsValue(d) * Pow10(zeros)
  {
    AllDigitsAppend(d, Zeros(zeros));
    if zeros == 0 {
      assert d + Zeros(0) == d;
    } else {
      DigitsValueZeros(d, zeros - 1);
      assert d + Zeros(zeros) == (d + Zeros(zeros - 1)) + ['0'];
      DigitsValueSnoc(d + Zeros(zeros - 1), '0');
      MulAssoc(DigitsValue(d), Pow10(zeros - 1), 10);
    }
  }

  lemma MulAssoc(a: nat, b: nat, c: nat)
    ensures a * b * c == a * (c * b)
  {
  }

  /** A positive multiple of `p` is at least `p`. */
  lemma MulAtLeast(k: int, p: nat)
    requires k >= 1
    ensures k * p >= p
  {
  }

  /** A multiple of `p` leaves no remainder, and dividing it gives back the factor. */
  lemma DivideMultiple(v: nat, p: nat)
    requires p > 0
    ensures (v * p) % p == 0 && (v * p) / p == v
  {
    var a := v * p;
    var q, r := a / p, a % p;
    assert a == q * p + r && 0 <= r < p;
    assert (v - q) * p == r;
    if v - q >= 1 {
      MulAtLeast(v - q, p);
    } else if q - v >= 1 {
      MulAtLeast(q - v, p);
    }
  }

  /** Digits followed by text that does not start with a digit split after the digits. */
  lemma SplitBeforeNonDigit(d: string, rest: string)
    requires AllDigits(d) && rest != [] && !('0' <= rest[0] <= '9')
    ensures SplitDigits(d + rest) == (d, rest)
  {
    var s := d + rest;
    var n := DigitRun(s);
    assert forall k :: 0 <= k < |d| ==> s[k] == d[k];
    assert s[|d|] == rest[0];
    assert s[..|d|] == d;
    assert s[|d|..] == rest;
  }

  /** Digits, a point and more digits read as a numeral with the latter as its fraction. */
  lemma PointNumeral(d: string, f: string)
    requires d != [] && AllDigits(d) && AllDigits(f)
    ensures ParseUnsigned(false, d + "." + f) == Some(Numeral(false, d, f, 0))
  {
    var v := "." + f;
    assert d + "." + f == d + v;
    SplitBeforeNonDigit(d, v);
    assert v[1..] == f;
    SplitAllDigits(f);
    WholeWithFraction(false, d + v, d, v, f);
  }

  /** Text that splits into digits, a point and all-digit rest reads as those digits with that fraction. */
  lemma WholeWithFraction(negative: bool, u: string, whole: string, v: string, f: string)
    requires SplitDigits(u) == (whole, v) && whole != []
    requires v != [] && v[0] == '.' && SplitDigits(v[1..]) == (f, "")
    ensures ParseUnsigned(negative, u) == Some(Numeral(negative, whole, f, 0))
  {
    assert whole + f != [];
  }

  /** Digits, `e` and exponent digits read as a numeral with that exponent. */
  lemma ExponentNumeral(d: string, de: string)
    requires d != [] && AllDigits(d) && de != [] && AllDigits(de)
    ensures ParseUnsigned(false, d + "e" + de) == Some(Numeral(false, d, "", DigitsValue(de)))
  {
    var x := "e" + de;
    assert d + "e" + de == d + x;
    SplitBeforeNonDigit(d, x);
    assert x[1..] == de && x[0] == 'e';
    assert de[0] != '-' && de[0] != '+';
    assert SignedDigitsValue(de) == Some(DigitsValue(de) as int);
    WholeWithExponent(false, d + x, d, x);
  }

  /** Text that splits into digits and an exponent part reads as those digits with that exponent. */
  lemma WholeWithExponent(negative: bool, u: string, whole: string, x: string)
    requires SplitDigits(u) == (whole, x) && whole != []
    requires x != [] && (x[0] == 'e' || x[0] == 'E') && SignedDigitsValue(x[1..]).Some?
    ensures ParseUnsigned(negative, u) == Some(Numeral(negative, whole, "", SignedDigitsValue(x[1..]).value))
  {
    assert whole + "" == whole;
  }

  /** A numeral without fraction denotes its digits' value scaled by its exponent. */
  lemma ScaledNumeralValue(d: string, e: nat)
    requires d != [] && AllDigits(d)
    ensures AllDigits(Mantissa(Numeral(false, d, "", e)))
    ensures NumeralInteger(Numeral(false, d, "", e)) == Some(DigitsValue(d) * Pow10(e))
  {
    assert Mantissa(Numeral(false, d, "", e)) == d;
  }

  /** A fraction of zeros does not change the value a numeral denotes. */
  lemma ZerosNumeralValue(d: string, zeros: nat)
    requires d != [] && AllDigits(d)
    ensures AllDigits(Mantissa(Numeral(false, d, Zeros(zeros), 0)))
    ensures NumeralInteger(Numeral(false, d, Zeros(zeros), 0)) == Some(DigitsValue(d) as int)
  {
    DigitsValueZeros(d, zeros);
    DivideMultiple(DigitsValue(d), Pow10(zeros));
    if zeros == 0 {
      assert Pow10(0) == 1;
    }
  }

  /** Text that starts with a digit and ends without white space reads as an unsigned number. */
  lemma UnsignedText(s: string)
    requires s != [] && '0' <= s[0] <= '9' && !IsSqlSpace(s[|s| - 1])
    ensures ParseNumeral(s) == ParseUnsigned(false, s)
  {
    assert SqlTrim(s) == s;
    assert s[0] != '-' && s[0] != '+';
  }

  /** A fraction of zeros after the digits, as in `3.0`, selects the same row. */
  lemma FractionZerosRoundTrip(n: nat, zeros: nat)
    ensures DecimalValue(Digits(n) + "." + Zeros(zeros)) == Some(n)
  {
    var d := Digits(n);
    var s := d + "." + Zeros(zeros);
    assert s[0] == d[0];
    assert s[|s| - 1] == '.' || s[|s| - 1] == '0' by {
      if zeros == 0 {
        assert s[|s| - 1] == '.';
      } else {
        assert s[|s| - 1] == Zeros(zeros)[zeros - 1];
      }
    }
    UnsignedText(s);
    PointNumeral(d, Zeros(zeros));
    ZerosNumeralValue(d, zeros);
    DigitsRoundTrip(n);
  }

  /** A fraction digit other than zero makes the value non-integral: such text selects no row. */
  lemma FractionalMatchesNothing(n: nat, c: char)
    requires '1' <= c <= '9'
    ensures DecimalValue(Digits(n) + "." + [c]) == None
  {
    var d := Digits(n);
    var s := d + "." + [c];
    assert s[0] == d[0] && s[|s| - 1] == c;
    UnsignedText(s);
    PointNumeral(d, [c]);
    assert ParseNumeral(s) == Some(Numeral(false, d, [c], 0));
    FractionNotInteger(d, c);
  }

  /** Digits with one non-zero fractional digit denote no integer. */
  lemma FractionNotInteger(d: string, c: char)
    requires d != [] && AllDigits(d) && '1' <= c <= '9'
    ensures Mantissa(Numeral(false, d, [c], 0)) == d + [c]
    ensures NumeralInteger(Numeral(false, d, [c], 0)) == None
  {
    DigitsValueSnoc(d, c);
    assert Mantissa(Numeral(false, d, [c], 0)) == d + [c];
    LastDigitNonZero(DigitsValue(d), c as int - '0' as int);
    assert Pow10(1) == 10;
  }

  /** A number whose last decimal digit is not zero is no multiple of ten. */
  lemma LastDigitNonZero(v: nat, k: int)
    requires 1 <= k <= 9
    ensures (v * 10 + k) % 10 == k
  {
  }

  /** Digits with an exponent select the row of the scaled value, `3e0` row 3 itself. */
  lemma ExponentRoundTrip(n: nat, e: nat)
    ensures DecimalValue(Digits(n) + "e" + Digits(e)) == Some(n * Pow10(e))
  {
    var d, de := Digits(n), Digits(e);
    var s := d + "e" + de;
    assert s[0] == d[0] && s[|s| - 1] == de[|de| - 1];
    UnsignedText(s);
    ExponentNumeral(d, de);
    DigitsRoundTrip(e);
    ScaledNumeralValue(d, e);
    DigitsRoundTrip(n);
  }

  /** `parts.join(sep)`. */
  function JoinWith(parts: seq<string>, sep: string): string
    decreases |parts|
  {
    if parts == [] then ""
    else if |parts| == 1 then parts[0]
    else parts[0] + sep + JoinWith(parts[1..], sep)
  }

  /** The shape of a version-4 UUID as `uuid.v4()` returns it: 8-4-4-4-12 lower-case hexadecimal digits. */
  predicate IsUuid(u: string) {
    && |u| == 36
    && (forall k :: 0 <= k < 36 ==> (u[k] == '-' <==> k == 8 || k == 13 || k == 18 || k == 23))
    && (forall k :: 0 <= k < 36 ==> u[k] == '-' || '0' <= u[k] <= '9' || 'a' <= u[k] <= 'f')
    && u[14] == '4'
  }

  lemma UuidHasNoSlash(u: string)
    requires IsUuid(u)
    ensures '/' !in u && u != []
  {
  }
}
