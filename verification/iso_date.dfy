/** The `YYYY-MM-DD` strings that join events to calendar days
    (`toISODate`), the parse that `new Date(deadline)` performs on a goal
    deadline, and the code-unit order of JavaScript's string `<`. */
module IsoDate {
  import opened Common
  import opened CalendarDate

  predicate IsDigit(c: char) {
    '0' <= c <= '9'
  }

  predicate AllDigits(s: string) {
    forall i :: 0 <= i < |s| ==> IsDigit(s[i])
  }

  function DigitChar(k: int): (c: char)
    requires 0 <= k <= 9
    ensures IsDigit(c)
  {
    (48 + k) as char
  }

  function DigitValue(c: char): (k: int)
    requires IsDigit(c)
    ensures 0 <= k <= 9
  {
    c as int - 48
  }

  function Pow10(k: nat): (p: nat)
    ensures p >= 1
  {
    if k == 0 then 1 else 10 * Pow10(k - 1)
  }

  /** Decimal digits of `n`, most significant first, without leading zeros. */
  function Digits(n: nat): (s: string)
    ensures 1 <= |s| && AllDigits(s)
    decreases n
  {
    if n < 10 then [DigitChar(n)] else Digits(n / 10) + [DigitChar(n % 10)]
  }

  function Zeros(k: nat): (s: string)
    ensures |s| == k && AllDigits(s)
  {
    seq(k, _ => '0')
  }

  /** `n` written with at least `w` digits, zero-filled on the left. */
  function Padded(n: nat, w: nat): (s: string)
    ensures AllDigits(s)
  {
    var ds := Digits(n);
    if |ds| < w then Zeros(w - |ds|) + ds else ds
  }

  /** Value of a digit string; leading zeros are allowed. */
  function ParseNat(s: string): nat
    requires AllDigits(s)
  {
    if |s| == 0 then 0 else DigitValue(s[0]) * Pow10(|s| - 1) + ParseNat(s[1..])
  }

  /** The year field of `toISOString`: four digits for years 0..9999,
      otherwise a sign and at least six digits. */
  function YearField(y: int): string {
    if 0 <= y <= 9999 then Padded(y, 4)
    else if y < 0 then "-" + Padded(-y, 6)
    else "+" + Padded(y, 6)
  }

  /** `toISODate`: the date part `YYYY-MM-DD` of a calendar day. For a
      valid day it is the year field followed by the shape `Parse` reads:
      a dash, two month digits, a dash, two day digits. */
  function Format(d: Date): (s: string)
    ensures Valid(d) ==>
      |s| == |YearField(d.year)| + 6 && s[..|s| - 6] == YearField(d.year)
      && s[|s| - 6] == '-' && s[|s| - 3] == '-'
      && s[|s| - 5..|s| - 3] == Padded(d.month, 2) && s[|s| - 2..] == Padded(d.day, 2)
  {
    var s := YearField(d.year) + "-" + Padded(if d.month < 0 then 0 else d.month, 2)
      + "-" + Padded(if d.day < 0 then 0 else d.day, 2);
    if Valid(d) then
      MonthDayFieldShape(d);
      assert s == YearField(d.year) + MonthDayField(d);
      s
    else s
  }

  function ParseYear(s: string): Option<int> {
    if |s| == 4 && AllDigits(s) then Some(ParseNat(s))
    else if |s| == 7 && (s[0] == '+' || s[0] == '-') && AllDigits(s[1..]) then
      var v: int := ParseNat(s[1..]);
      if s[0] == '+' then Some(v)
      else if v == 0 then None   // "-000000" is not a date
      else Some(-v)
    else None
  }

  /** Date-only ISO parse, as `new Date(s)` reads `YYYY-MM-DD` or
      `±YYYYYY-MM-DD`; anything else, or a day the month lacks, gives `None`
      (an Invalid Date). */
  function Parse(s: string): (r: Option<Date>)
    ensures r.Some? ==> Valid(r.value)
    ensures r.Some? ==>
      |s| >= 10 && s[|s| - 6] == '-' && s[|s| - 3] == '-'
      && AllDigits(s[|s| - 5..|s| - 3]) && AllDigits(s[|s| - 2..])
      && r.value.month == ParseNat(s[|s| - 5..|s| - 3]) && r.value.day == ParseNat(s[|s| - 2..])
  {
    if |s| < 10 || s[|s| - 3] != '-' || s[|s| - 6] != '-' then None
    else
      var ms := s[|s| - 5..|s| - 3];
      var ds := s[|s| - 2..];
      if !AllDigits(ms) || !AllDigits(ds) then None
      else
        match ParseYear(s[..|s| - 6])
        case None => None
        case Some(y) =>
          var d := Date(y, ParseNat(ms), ParseNat(ds));
          if Valid(d) then Some(d) else None
  }

  /** JavaScript's `a < b` on strings: lexicographic order of the
      characters, with a proper prefix ordered first. Characters compare by
      code point; JavaScript compares UTF-16 code units, which orders the
      same way on the digits, signs and dashes of date strings. */
  predicate LexLess(a: string, b: string) {
    if |a| == 0 then |b| > 0
    else if |b| == 0 then false
    else if a[0] != b[0] then a[0] < b[0]
    else LexLess(a[1..], b[1..])
  }

  // ---------------------------------------------------------------------
  // Digit strings.

  lemma DigitShift(v: int, p: int, r: int, c: int)
    ensures v * (10 * p) + (10 * r + c) == 10 * (v * p + r) + c
  {
    assert v * (10 * p) == 10 * (v * p);
  }

  lemma {:induction false} ParseNatAppend(s: string, c: char)
    requires AllDigits(s) && IsDigit(c)
    ensures ParseNat(s + [c]) == 10 * ParseNat(s) + DigitValue(c)
    decreases |s|
  {
    if |s| > 0 {
      var t := s + [c];
      assert t[1..] == s[1..] + [c];
      ParseNatAppend(s[1..], c);
      var v, p, r := DigitValue(s[0]), Pow10(|s| - 1), ParseNat(s[1..]);
      assert Pow10(|t| - 1) == 10 * p;
      assert ParseNat(t) == v * (10 * p) + (10 * r + DigitValue(c));
      DigitShift(v, p, r, DigitValue(c));
    } else {
      assert s + [c] == [c];
    }
  }

  lemma {:induction false} ParseNatDigits(n: nat)
    ensures ParseNat(Digits(n)) == n
    decreases n
  {
    if n >= 10 {
      ParseNatDigits(n / 10);
      ParseNatAppend(Digits(n / 10), DigitChar(n % 10));
    }
  }

  lemma {:induction false} ParseNatZeros(k: nat, s: string)
    requires AllDigits(s)
    ensures ParseNat(Zeros(k) + s) == ParseNat(s)
    decreases k
  {
    if k > 0 {
      var t := Zeros(k) + s;
      assert t[0] == '0' && DigitValue(t[0]) == 0;
      assert t[1..] == Zeros(k - 1) + s;
      ParseNatZeros(k - 1, s);
      assert ParseNat(t) == 0 * Pow10(|t| - 1) + ParseNat(t[1..]);
    } else {
      assert Zeros(k) + s == s;
    }
  }

  lemma ParsePadded(n: nat, w: nat)
    ensures ParseNat(Padded(n, w)) == n
  {
    ParseNatDigits(n);
    if |Digits(n)| < w {
      ParseNatZeros(w - |Digits(n)|, Digits(n));
    }
  }

  lemma {:induction false} DigitsLength(n: nat, w: nat)
    requires 1 <= w && n < Pow10(w)
    ensures |Digits(n)| <= w
    decreases n
  {
    if n >= 10 {
      assert w >= 2;
      assert n / 10 < Pow10(w - 1);
      DigitsLength(n / 10, w - 1);
    }
  }

  lemma PaddedLength(n: nat, w: nat)
    requires 1 <= w && n < Pow10(w)
    ensures |Padded(n, w)| == w
  {
    DigitsLength(n, w);
  }

  /** A number whose leading digit is `c`, `k` places up, is written with
      `k + 1` digits, the first of them `c`. */
  lemma {:induction false} LeadingDigit(n: nat, k: nat, c: nat)
    requires 1 <= c <= 9 && c * Pow10(k) <= n < (c + 1) * Pow10(k)
    ensures |Digits(n)| == k + 1 && Digits(n)[0] == DigitChar(c)
    decreases k
  {
    if k == 0 {
      assert n == c;
    } else {
      var p := Pow10(k - 1);
      var q, r := n / 10, n % 10;
      assert n == 10 * q + r && 0 <= r < 10;
      assert c * Pow10(k) == 10 * (c * p);
      assert (c + 1) * Pow10(k) == 10 * ((c + 1) * p);
      MulMonotone(1, c, p);
      LeadingDigit(q, k - 1, c);
      assert Digits(n) == Digits(q) + [DigitChar(r)];
    }
  }

  lemma {:induction false} MulMonotone(a: int, b: int, p: int)
    requires a <= b && p >= 0
    ensures a * p <= b * p
    decreases b - a
  {
    if a < b {
      MulMonotone(a, b - 1, p);
      assert b * p == (b - 1) * p + p;
    }
  }

  lemma {:induction false} ParseNatBound(s: string)
    requires AllDigits(s)
    ensures ParseNat(s) < Pow10(|s|)
    decreases |s|
  {
    if |s| > 0 {
      ParseNatBound(s[1..]);
      var v, p := DigitValue(s[0]), Pow10(|s| - 1);
      MulMonotone(v, 9, p);
    }
  }

  // ---------------------------------------------------------------------
  // Format and Parse are inverse on the dates JavaScript can hold.

  lemma ParseYearField(y: int)
    requires -999999 <= y <= 999999
    ensures ParseYear(YearField(y)) == Some(y)
  {
    assert Pow10(4) == 10000 && Pow10(6) == 1000000;
    if 0 <= y <= 9999 {
      PaddedLength(y, 4);
      ParsePadded(y, 4);
    } else {
      var n: nat := if y < 0 then -y else y;
      var sign := if y < 0 then "-" else "+";
      PaddedLength(n, 6);
      ParsePadded(n, 6);
      assert (sign + Padded(n, 6))[1..] == Padded(n, 6);
    }
  }

  /** The `-MM-DD` tail of a date string. */
  function MonthDayField(d: Date): string {
    "-" + Padded(if d.month < 0 then 0 else d.month, 2)
      + "-" + Padded(if d.day < 0 then 0 else d.day, 2)
  }

  lemma FormatSplit(d: Date)
    ensures Format(d) == YearField(d.year) + MonthDayField(d)
  {
  }

  /** The tail of a valid day: a dash, two month digits, a dash, two day digits. */
  lemma MonthDayFieldShape(d: Date)
    requires Valid(d)
    ensures var f := MonthDayField(d);
      |f| == 6 && f[0] == '-' && f[3] == '-'
      && f[1..3] == Padded(d.month, 2) && f[4..] == Padded(d.day, 2)
      && AllDigits(f[1..3]) && AllDigits(f[4..])
  {
    assert Pow10(2) == 100;
    PaddedLength(d.month, 2);
    PaddedLength(d.day, 2);
    var f := MonthDayField(d);
    assert f == "-" + Padded(d.month, 2) + "-" + Padded(d.day, 2);
  }

  lemma FormatThenParse(d: Date)
    requires Valid(d) && -999999 <= d.year <= 999999
    ensures Parse(Format(d)) == Some(d)
  {
    var yf, f := YearField(d.year), MonthDayField(d);
    MonthDayFieldShape(d);
    ParsePadded(d.month, 2);
    ParsePadded(d.day, 2);
    ParseYearField(d.year);
    FormatSplit(d);
    var s := Format(d);
    var n := |s|;
    assert s[n - 6..] == f;
    assert s[n - 5..n - 3] == f[1..3];
    assert s[n - 2..] == f[4..];
    assert s[..n - 6] == yf;
  }

  /** Distinct days never share a date string. */
  lemma FormatInjective(a: Date, b: Date)
    requires Valid(a) && -999999 <= a.year <= 999999
    requires Valid(b) && -999999 <= b.year <= 999999
    ensures Format(a) == Format(b) <==> a == b
  {
    FormatThenParse(a);
    FormatThenParse(b);
  }

  // ---------------------------------------------------------------------
  // String order against numeric order.

  lemma {:induction false} LexLessConcat(a1: string, a2: string, b1: string, b2: string)
    requires |a1| == |b1|
    ensures LexLess(a1 + a2, b1 + b2) <==> LexLess(a1, b1) || (a1 == b1 && LexLess(a2, b2))
    decreases |a1|
  {
    if |a1| > 0 {
      assert (a1 + a2)[0] == a1[0] && (b1 + b2)[0] == b1[0];
      assert (a1 + a2)[1..] == a1[1..] + a2;
      assert (b1 + b2)[1..] == b1[1..] + b2;
      LexLessConcat(a1[1..], a2, b1[1..], b2);
      if a1[0] == b1[0] {
        assert a1 == b1 <==> a1[1..] == b1[1..] by {
          if a1[1..] == b1[1..] {
            assert a1 == [a1[0]] + a1[1..] && b1 == [b1[0]] + b1[1..];
          }
        }
      }
    } else {
      assert a1 + a2 == a2 && b1 + b2 == b2;
    }
  }

  lemma DigitStepOrder(u: int, v: int, p: int, x: int, y: int)
    requires 0 <= u < v && p >= 1
    requires 0 <= x < p && 0 <= y < p
    ensures u * p + x < v * p + y
  {
    MulMonotone(u + 1, v, p);
    assert (u + 1) * p == u * p + p;
  }

  /** On digit strings of one width, string order is numeric order. */
  lemma {:induction false} LexLessDigits(a: string, b: string)
    requires |a| == |b| && AllDigits(a) && AllDigits(b)
    ensures LexLess(a, b) <==> ParseNat(a) < ParseNat(b)
    decreases |a|
  {
    if |a| > 0 {
      ParseNatBound(a[1..]);
      ParseNatBound(b[1..]);
      var p := Pow10(|a| - 1);
      var u, v := DigitValue(a[0]), DigitValue(b[0]);
      if u < v {
        DigitStepOrder(u, v, p, ParseNat(a[1..]), ParseNat(b[1..]));
      } else if v < u {
        DigitStepOrder(v, u, p, ParseNat(b[1..]), ParseNat(a[1..]));
      } else {
        LexLessDigits(a[1..], b[1..]);
      }
    }
  }

  /** Zero-padded fields of one width compare like the numbers they show. */
  lemma PaddedOrder(x: nat, y: nat, w: nat)
    requires 1 <= w && x < Pow10(w) && y < Pow10(w)
    ensures |Padded(x, w)| == w && |Padded(y, w)| == w
    ensures LexLess(Padded(x, w), Padded(y, w)) <==> x < y
    ensures Padded(x, w) == Padded(y, w) <==> x == y
  {
    PaddedLength(x, w);
    PaddedLength(y, w);
    ParsePadded(x, w);
    ParsePadded(y, w);
    LexLessDigits(Padded(x, w), Padded(y, w));
  }

  /** A dash followed by a field of fixed width compares field first. */
  lemma LexLessDashField(x1: string, r1: string, x2: string, r2: string)
    requires |x1| == |x2|
    ensures LexLess("-" + x1 + r1, "-" + x2 + r2) <==> LexLess(x1, x2) || (x1 == x2 && LexLess(r1, r2))
  {
    assert "-" + x1 + r1 == "-" + (x1 + r1);
    assert "-" + x2 + r2 == "-" + (x2 + r2);
    LexLessConcat("-", x1 + r1, "-", x2 + r2);
    LexLessConcat("-", [], "-", []);
    LexLessConcat(x1, r1, x2, r2);
  }

  /** The `-MM-DD` tails of valid days compare month first, then day. */
  lemma MonthDayOrder(a: Date, b: Date)
    requires Valid(a) && Valid(b)
    ensures LexLess(MonthDayField(a), MonthDayField(b))
      <==> a.month < b.month || (a.month == b.month && a.day < b.day)
  {
    assert Pow10(2) == 100;
    var ma, mb := Padded(a.month, 2), Padded(b.month, 2);
    var da, db := Padded(a.day, 2), Padded(b.day, 2);
    PaddedOrder(a.month, b.month, 2);
    PaddedOrder(a.day, b.day, 2);
    assert LexLess("-" + da, "-" + db) <==> a.day < b.day by {
      assert "-" + da == "-" + da + [] && "-" + db == "-" + db + [];
      LexLessDashField(da, [], db, []);
    }
    assert MonthDayField(a) == "-" + ma + ("-" + da);
    assert MonthDayField(b) == "-" + mb + ("-" + db);
    LexLessDashField(ma, "-" + da, mb, "-" + db);
  }

  /** For four-digit years, comparing the date strings compares the days. */
  lemma LexLessFormat(a: Date, b: Date)
    requires Valid(a) && 0 <= a.year <= 9999
    requires Valid(b) && 0 <= b.year <= 9999
    ensures LexLess(Format(a), Format(b)) <==> Before(a, b)
  {
    assert Pow10(4) == 10000;
    var ya, yb := Padded(a.year, 4), Padded(b.year, 4);
    PaddedOrder(a.year, b.year, 4);
    FormatSplit(a);
    FormatSplit(b);
    LexLessConcat(ya, MonthDayField(a), yb, MonthDayField(b));
    MonthDayOrder(a, b);
  }
}
