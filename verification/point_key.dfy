/** The string key of a point (`Point.toStr`) and its parse-back in
    `createFood`: `key.split(",")` followed by `parseInt` on each part. */
module PointKey {
  import opened Geometry
  import opened Wrappers

  predicate IsDigit(c: char)
  {
    '0' <= c <= '9'
  }

  predicate AllDigits(s: string)
  {
    forall i :: 0 <= i < |s| ==> IsDigit(s[i])
  }

  function DigitChar(d: nat): (c: char)
    requires d < 10
    ensures IsDigit(c) && c as int - '0' as int == d
  {
    ('0' as int + d) as char
  }

  /** Decimal digits of `n`, most significant first, without leading zeros. */
  function NatToStr(n: nat): (s: string)
    ensures |s| >= 1 && AllDigits(s)
    decreases n
  {
    if n < 10 then [DigitChar(n)] else NatToStr(n / 10) + [DigitChar(n % 10)]
  }

  /** `Number.prototype.toString` on an integer value: a minus sign for
      negative values, then the decimal digits. */
  function IntToStr(n: int): (s: string)
    ensures |s| >= 1 && ',' !in s
  {
    if n < 0 then "-" + NatToStr(-n) else NatToStr(n)
  }

  /** `Point.toStr`: both coordinates joined by a comma. */
  function ToStr(p: Point): string
  {
    IntToStr(p.x) + "," + IntToStr(p.y)
  }

  /** `String.prototype.split` with a one-character separator: the maximal
      separator-free pieces, in order. */
  function Split(s: string, sep: char): (parts: seq<string>)
    ensures |parts| >= 1
    ensures forall i :: 0 <= i < |parts| ==> sep !in parts[i]
    decreases |s|
  {
    if |s| == 0 then [""]
    else
      var rest := Split(s[1..], sep);
      if s[0] == sep then [""] + rest else [[s[0]] + rest[0]] + rest[1..]
  }

  /** `Array.prototype.join`: the inverse of `Split`. */
  function Join(parts: seq<string>, sep: char): string
    requires |parts| >= 1
  {
    if |parts| == 1 then parts[0] else parts[0] + [sep] + Join(parts[1..], sep)
  }

  /** The white space `parseInt` skips before the number: tab, vertical tab,
      form feed, the byte order mark, every space separator (Unicode
      category Zs) and the four line terminators. */
  predicate IsSpace(c: char)
  {
    c == '\t' || c == '\U{000B}' || c == '\U{000C}' || c == '\U{FEFF}'
    || c == ' ' || c == '\U{00A0}' || c == '\U{1680}' || '\U{2000}' <= c <= '\U{200A}'
    || c == '\U{202F}' || c == '\U{205F}' || c == '\U{3000}'
    || c == '\n' || c == '\r' || c == '\U{2028}' || c == '\U{2029}'
  }

  function TrimStart(s: string): (t: string)
    ensures |t| <= |s| && t == s[|s| - |t|..]
    ensures |t| == 0 || !IsSpace(t[0])
    ensures forall i :: 0 <= i < |s| - |t| ==> IsSpace(s[i])
  {
    if |s| > 0 && IsSpace(s[0]) then TrimStart(s[1..]) else s
  }

  /** Length of the longest prefix of `s` made only of digits. */
  function DigitPrefixLen(s: string): (n: nat)
    ensures n <= |s| && AllDigits(s[..n])
    ensures n < |s| ==> !IsDigit(s[n])
  {
    if |s| == 0 || !IsDigit(s[0]) then 0 else 1 + DigitPrefixLen(s[1..])
  }

  /** The value of a string of decimal digits. */
  function DigitsValue(s: string): nat
    requires AllDigits(s)
  {
    if |s| == 0 then 0 else DigitsValue(s[..|s| - 1]) * 10 + (s[|s| - 1] as int - '0' as int)
  }

  /** `parseInt` with no radix on a string that has no `0x` prefix: skip
      leading white space, read an optional sign and the longest run of digits
      after it; `None` (JavaScript's `NaN`) when there is no digit. */
  function ParseInt(s: string): Option<int>
  {
    ParseSigned(TrimStart(s))
  }

  /** The number at the very start of `t`: an optional sign, then the longest
      run of digits; `None` when there is no digit. */
  function ParseSigned(t: string): Option<int>
  {
    var negative := |t| > 0 && t[0] == '-';
    var u := if |t| > 0 && (t[0] == '-' || t[0] == '+') then t[1..] else t;
    var n := DigitPrefixLen(u);
    if n == 0 then None
    else
      var magnitude: int := DigitsValue(u[..n]);
      Some(if negative then -magnitude else magnitude)
  }

  /** The parse-back in `createFood`: the first two comma-separated parts of a
      key, each read with `parseInt`. `None` when a coordinate would be `NaN`
      (also when the key has no comma, so that its second part is undefined). */
  function Decode(key: string): Option<Point>
  {
    var parts := Split(key, ',');
    if |parts| < 2 then None
    else
      match (ParseInt(parts[0]), ParseInt(parts[1]))
      case (Some(x), Some(y)) => Some(Point(x, y))
      case _ => None
  }

  /** `Join` undoes `Split`. */
  lemma {:induction false} JoinSplit(s: string, sep: char)
    ensures Join(Split(s, sep), sep) == s
    decreases |s|
  {
    if |s| > 0 {
      var rest := Split(s[1..], sep);
      JoinSplit(s[1..], sep);
      if s[0] == sep {
        assert Split(s, sep)[1..] == rest;
      } else if |rest| == 1 {
      } else {
        assert Split(s, sep)[1..] == rest[1..];
        assert s == [s[0]] + s[1..];
      }
    }
  }

  /** Splitting at the first separator peels off the part before it. */
  lemma {:induction false} SplitAtFirst(a: string, sep: char, b: string)
    requires sep !in a
    ensures Split(a + [sep] + b, sep) == [a] + Split(b, sep)
    decreases |a|
  {
    if |a| == 0 {
      assert (a + [sep] + b)[1..] == b;
    } else {
      assert (a + [sep] + b)[1..] == a[1..] + [sep] + b;
      SplitAtFirst(a[1..], sep, b);
      assert [a[0]] + a[1..] == a;
    }
  }

  /** A string without the separator is one part. */
  lemma {:induction false} SplitNoSeparator(a: string, sep: char)
    requires sep !in a
    ensures Split(a, sep) == [a]
    decreases |a|
  {
    if |a| > 0 {
      SplitNoSeparator(a[1..], sep);
      assert [a[0]] + a[1..] == a;
    }
  }

  lemma {:induction false} DigitPrefixOfDigits(s: string)
    requires AllDigits(s)
    ensures DigitPrefixLen(s) == |s|
    decreases |s|
  {
    if |s| > 0 {
      DigitPrefixOfDigits(s[1..]);
    }
  }

  /** Reading the digits of `n` back gives `n`. */
  lemma {:induction false} NatToStrRoundTrip(n: nat)
    ensures DigitsValue(NatToStr(n)) == n
    decreases n
  {
    var s := NatToStr(n);
    if n >= 10 {
      NatToStrRoundTrip(n / 10);
      assert s[..|s| - 1] == NatToStr(n / 10);
    } else {
      assert s[..|s| - 1] == "";
    }
  }

  lemma SignOrDigitIsNoSpace(c: char)
    requires c == '-' || IsDigit(c)
    ensures !IsSpace(c)
  {
  }

  /** The rendering of an integer starts with no white space. */
  lemma TrimStartOfIntToStr(n: int)
    ensures TrimStart(IntToStr(n)) == IntToStr(n)
  {
    SignOrDigitIsNoSpace(IntToStr(n)[0]);
  }

  /** Reading a sign and digits back from the rendering of `n` gives `n`. */
  lemma ParseSignedRoundTrip(n: int)
    ensures ParseSigned(IntToStr(n)) == Some(n)
  {
    var m: nat := if n < 0 then -n else n;
    var digits := NatToStr(m);
    DigitPrefixOfDigits(digits);
    NatToStrRoundTrip(m);
    if n < 0 {
      assert IntToStr(n)[1..] == digits;
    }
    assert digits[..|digits|] == digits;
  }

  /** `parseInt` reads back what `toString` wrote, for every integer. */
  lemma ParseIntRoundTrip(n: int)
    ensures ParseInt(IntToStr(n)) == Some(n)
  {
    TrimStartOfIntToStr(n);
    ParseSignedRoundTrip(n);
  }

  lemma TrimStartSkipsSpace(c: char, s: string)
    requires IsSpace(c)
    ensures TrimStart([c] + s) == TrimStart(s)
  {
    assert ([c] + s)[1..] == s;
  }

  /** A leading white-space character does not change what `parseInt` reads. */
  lemma ParseIntSkipsSpace(c: char, s: string)
    requires IsSpace(c)
    ensures ParseInt([c] + s) == ParseInt(s)
  {
    TrimStartSkipsSpace(c, s);
  }

  /** `parseInt` skips the line separator and the ideographic space too. */
  lemma ParseIntSkipsUnicodeSpace(s: string)
    ensures ParseInt(['\U{2028}'] + s) == ParseInt(s)
    ensures ParseInt(['\U{3000}'] + s) == ParseInt(s)
  {
    ParseIntSkipsSpace('\U{2028}', s);
    ParseIntSkipsSpace('\U{3000}', s);
  }

  /** Decoding the key of a point gives the point back. */
  lemma DecodeToStr(p: Point)
    ensures Decode(ToStr(p)) == Some(p)
  {
    var a := IntToStr(p.x);
    var b := IntToStr(p.y);
    SplitAtFirst(a, ',', b);
    SplitNoSeparator(b, ',');
    assert Split(ToStr(p), ',') == [a, b];
    ParseIntRoundTrip(p.x);
    ParseIntRoundTrip(p.y);
  }

  /** Distinct points have distinct keys, so a key set stands for a point set. */
  lemma ToStrInjective(p: Point, q: Point)
    ensures ToStr(p) == ToStr(q) <==> p == q
  {
    if ToStr(p) == ToStr(q) {
      DecodeToStr(p);
      DecodeToStr(q);
    }
  }
}
