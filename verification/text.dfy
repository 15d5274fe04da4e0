/** Character strings as the firmware conversation sees them: C-string views of
    read buffers, substring search, decimal formatting (`printf("%d")`) and the
    two `sscanf` conversions the protocol uses (`%d` and `%f`). */
module Text {

  datatype Option<T> = None | Some(value: T)

  const NUL: char := '\0'

  /** The C string stored in a buffer: everything before the first NUL. */
  function CStr(buf: seq<char>): (s: seq<char>)
    ensures s <= buf
    ensures NUL !in s
    ensures |s| < |buf| ==> buf[|s|] == NUL
  {
    if |buf| == 0 || buf[0] == NUL then [] else [buf[0]] + CStr(buf[1..])
  }

  predicate StartsWith(s: string, prefix: string)
  {
    |prefix| <= |s| && s[..|prefix|] == prefix
  }

  /** `strstr(s, t) != NULL`, and `std::string::find(t) != npos`. */
  predicate Contains(s: string, t: string)
    decreases |s|
  {
    StartsWith(s, t) || (|s| > 0 && Contains(s[1..], t))
  }

  /** `t` occurs in `s` starting at index `i`. */
  predicate OccursAt(s: string, t: string, i: int)
  {
    0 <= i <= |s| - |t| && s[i..i + |t|] == t
  }

  /** Substring search agrees with the positional definition of an occurrence. */
  lemma {:induction false} ContainsIffOccurs(s: string, t: string)
    ensures Contains(s, t) <==> exists i :: OccursAt(s, t, i)
    decreases |s|
  {
    if |s| > 0 {
      ContainsIffOccurs(s[1..], t);
      if exists i :: OccursAt(s, t, i) {
        var i :| OccursAt(s, t, i);
        if i > 0 {
          assert s[1..][i - 1..i - 1 + |t|] == s[i..i + |t|];
          assert OccursAt(s[1..], t, i - 1);
        } else {
          assert StartsWith(s, t);
        }
      }
      if Contains(s[1..], t) && !StartsWith(s, t) {
        var i :| OccursAt(s[1..], t, i);
        assert s[i + 1..i + 1 + |t|] == s[1..][i..i + |t|];
        assert OccursAt(s, t, i + 1);
      }
      if StartsWith(s, t) {
        assert OccursAt(s, t, 0);
      }
    } else if StartsWith(s, t) {
      assert OccursAt(s, t, 0);
    }
  }

  // ---------------------------------------------------------------------------
  // Decimal digits

  predicate IsDigit(c: char)
  {
    '0' <= c <= '9'
  }

  predicate AllDigits(s: string)
  {
    forall i :: 0 <= i < |s| ==> IsDigit(s[i])
  }

  /** `isspace` in the C locale: space, tab, newline, vertical tab, form feed, return. */
  predicate IsSpace(c: char)
  {
    c == ' ' || 9 <= c as int <= 13
  }

  function DigitChar(d: nat): (c: char)
    requires d < 10
    ensures IsDigit(c)
  {
    ('0' as int + d) as char
  }

  function DigitValue(c: char): (d: nat)
    requires IsDigit(c)
    ensures d < 10 && DigitChar(d) == c
  {
    c as int - '0' as int
  }

  function Pow10(k: nat): (p: nat)
    ensures p >= 1
  {
    if k == 0 then 1 else 10 * Pow10(k - 1)
  }

  /** The number a string of decimal digits spells, most significant first. */
  function DigitsValue(s: string): (v: nat)
    requires AllDigits(s)
    ensures v < Pow10(|s|)
  {
    if |s| == 0 then 0 else DigitsValue(s[..|s| - 1]) * 10 + DigitValue(s[|s| - 1])
  }

  /** `printf("%u")` of a natural number: no leading zeros, at least one digit. */
  function NatToDigits(n: nat): (s: string)
    ensures 1 <= |s| && AllDigits(s)
    ensures |s| > 1 ==> s[0] != '0'
    ensures n < Pow10(|s|)
    ensures |s| > 1 ==> Pow10(|s| - 1) <= n
  {
    if n < 10 then [DigitChar(n)] else NatToDigits(n / 10) + [DigitChar(n % 10)]
  }

  /** `printf("%d")`: a minus sign for negative values, then the digits of the magnitude. */
  function IntToString(n: int): (s: string)
    ensures |s| >= 1
    ensures n < 0 <==> s[0] == '-'
  {
    if n < 0 then "-" + NatToDigits(-n) else NatToDigits(n)
  }

  lemma {:induction false} DigitsRoundTrip(n: nat)
    ensures DigitsValue(NatToDigits(n)) == n
    decreases n
  {
    if n >= 10 {
      var s := NatToDigits(n);
      assert s[..|s| - 1] == NatToDigits(n / 10);
      DigitsRoundTrip(n / 10);
    }
  }

  /** A number below `10^k` prints in at most `k` digits. */
  lemma NatToDigitsFits(n: nat, k: nat)
    requires 1 <= k && n < Pow10(k)
    ensures |NatToDigits(n)| <= k
  {
  }

  // ---------------------------------------------------------------------------
  // sscanf conversions

  function SkipSpace(s: string): (t: string)
    ensures |t| <= |s| && t == s[|s| - |t|..]
    ensures |t| > 0 ==> !IsSpace(t[0])
  {
    if |s| > 0 && IsSpace(s[0]) then SkipSpace(s[1..]) else s
  }

  /** Length of the longest run of digits at the start of `s`. */
  function DigitRun(s: string): (k: nat)
    ensures k <= |s|
    ensures AllDigits(s[..k])
    ensures k < |s| ==> !IsDigit(s[k])
  {
    if |s| == 0 || !IsDigit(s[0]) then 0 else 1 + DigitRun(s[1..])
  }

  /** The sign a `%d` or `%f` conversion accepts in front of the digits. */
  predicate HasSign(t: string)
  {
    |t| > 0 && (t[0] == '-' || t[0] == '+')
  }

  function AfterSign(t: string): string
  {
    if HasSign(t) then t[1..] else t
  }

  predicate Negative(t: string)
  {
    HasSign(t) && t[0] == '-'
  }

  /** The longest run of digits at the start of `u`, read as a number; `None` when
      `u` does not start with a digit. */
  function ScanDigits(u: string): Option<nat>
  {
    var k := DigitRun(u);
    if k == 0 then None else Some(DigitsValue(u[..k]))
  }

  /** `sscanf(s, "%d...")` returning 1: leading white space, an optional sign, then
      at least one digit. `None` stands for every other return value. */
  function ScanInt(s: string): Option<int>
  {
    var t := SkipSpace(s);
    match ScanDigits(AfterSign(t))
    case None => None
    case Some(v) =>
      var n: int := v;
      Some(if Negative(t) then -n else n)
  }

  /** The decimal fraction after a `.`: its digit run read as a value below one,
      each digit worth a tenth of the one before it. */
  function FractionValue(f: string): (v: real)
    ensures 0.0 <= v < 1.0
  {
    if |f| == 0 || !IsDigit(f[0]) then 0.0 else (DigitValue(f[0]) as real + FractionValue(f[1..])) / 10.0
  }

  /** A number in plain decimal notation: its sign, its whole part, and the
      digits after the point. */
  datatype Decimal = Decimal(negative: bool, whole: nat, fraction: string)

  /** The value a decimal denotes. */
  function DecimalValue(x: Decimal): real
  {
    var v := x.whole as real + FractionValue(x.fraction);
    if x.negative then -v else v
  }

  /** `sscanf(s, "%f...")` returning 1, for plain decimal notation: leading white
      space, an optional sign, digits with an optional fraction, at least one digit. */
  function ScanFloat(s: string): (r: Option<Decimal>)
    ensures r.Some? ==> AllDigits(r.value.fraction)
  {
    var t := SkipSpace(s);
    var u := AfterSign(t);
    var k := DigitRun(u);
    var fraction := if k < |u| && u[k] == '.' then u[k + 1..][..DigitRun(u[k + 1..])] else [];
    if k + |fraction| == 0 then None
    else Some(Decimal(Negative(t), DigitsValue(u[..k]), fraction))
  }

  lemma {:induction false} DigitRunOfDigits(p: string, rest: string)
    requires AllDigits(p)
    requires |rest| == 0 || !IsDigit(rest[0])
    ensures DigitRun(p + rest) == |p|
    decreases |p|
  {
    if |p| > 0 {
      assert (p + rest)[1..] == p[1..] + rest;
      DigitRunOfDigits(p[1..], rest);
    } else {
      assert p + rest == rest;
    }
  }

  lemma ScanDigitsOfDigits(d: string, rest: string)
    requires |d| >= 1 && AllDigits(d)
    requires |rest| == 0 || !IsDigit(rest[0])
    ensures ScanDigits(d + rest) == Some(DigitsValue(d))
  {
    DigitRunOfDigits(d, rest);
    assert (d + rest)[..|d|] == d;
  }

  lemma SkipSpaceNoop(s: string)
    requires |s| == 0 || !IsSpace(s[0])
    ensures SkipSpace(s) == s
  {
  }

  /** `%d` reads back what `printf("%d")` wrote, whatever non-digit follows it. */
  lemma ScanIntRoundTrip(n: int, rest: string)
    requires |rest| == 0 || !IsDigit(rest[0])
    ensures ScanInt(IntToString(n) + rest) == Some(n)
  {
    var m: nat := if n < 0 then -n else n;
    DigitsRoundTrip(m);
    ScanDigitsOfDigits(NatToDigits(m), rest);
    if n < 0 {
      ScanNegative(NatToDigits(m), rest);
    } else {
      ScanUnsigned(NatToDigits(m), rest);
    }
  }

  /** A leading minus sign in front of digits is read as a negation. */
  lemma ScanNegative(d: string, rest: string)
    requires |d| >= 1 && AllDigits(d)
    ensures ScanInt("-" + d + rest) == match ScanDigits(d + rest) case None => None case Some(v) => Some(-(v as int))
  {
    var s := "-" + d + rest;
    assert s == ['-'] + (d + rest);
    SkipSpaceNoop(s);
    assert AfterSign(s) == d + rest;
  }

  /** Digits with no sign are read as they stand. */
  lemma ScanUnsigned(d: string, rest: string)
    requires |d| >= 1 && AllDigits(d)
    ensures ScanInt(d + rest) == match ScanDigits(d + rest) case None => None case Some(v) => Some(v as int)
  {
    var s := d + rest;
    assert IsDigit(s[0]);
    SkipSpaceNoop(s);
    assert AfterSign(s) == s;
  }

  /** Tenths rendered as `<whole>.<digit>`, the way the instrument reports backlash. */
  function TenthsToString(t: nat): string
  {
    NatToDigits(t / 10) + "." + [DigitChar(t % 10)]
  }

  /** `%f` reads a `<whole>.<digit>` rendering back as the decimal it spells,
      whose value is exactly `t / 10`. */
  lemma ScanFloatTenths(t: nat, rest: string)
    requires |rest| == 0 || !IsDigit(rest[0])
    ensures ScanFloat(TenthsToString(t) + rest) == Some(Decimal(false, t / 10, [DigitChar(t % 10)]))
    ensures DecimalValue(Decimal(false, t / 10, [DigitChar(t % 10)])) == t as real / 10.0
  {
    var w := NatToDigits(t / 10);
    var c := DigitChar(t % 10);
    var s := TenthsToString(t) + rest;
    var k := |w|;
    assert s == w + (['.'] + ([c] + rest));
    assert IsDigit(s[0]);
    SkipSpaceNoop(s);
    assert AfterSign(s) == s;
    assert !Negative(s);
    DigitRunOfDigits(w, ['.'] + ([c] + rest));
    assert s[..k] == w;
    DigitsRoundTrip(t / 10);
    assert s[k] == '.';
    assert s[k + 1..] == [c] + rest;
    DigitRunOfDigits([c], rest);
    assert ([c] + rest)[..1] == [c];
    assert [c][1..] == [];
    assert DigitValue(c) == t % 10;
    assert FractionValue([c]) == (t % 10) as real / 10.0;
    assert t == 10 * (t / 10) + t % 10;
  }
}
