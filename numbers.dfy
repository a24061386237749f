/** The numeric coercion `pd.to_numeric(..., errors="coerce")` (dashboard.py
    lines 33-34 and 54) as a total parser: a text either reads as a decimal
    number or is missing. Nothing raises. */
module Numbers {
  import opened Options
  import opened Decimals
  import opened Text

  function DigitValue(c: char): (v: nat)
    requires IsDigit(c)
    ensures v < 10
  {
    c as int - '0' as int
  }

  predicate AllDigits(s: string) {
    forall k :: 0 <= k < |s| ==> IsDigit(s[k])
  }

  /** The value of a string of decimal digits, most significant first. */
  function DigitsValue(s: string): nat
    requires AllDigits(s)
  {
    if s == [] then 0 else DigitValue(s[0]) * Pow10(|s| - 1) + DigitsValue(s[1..])
  }

  /** Reads the text after the sign from left to right: digits accumulate into
      the mantissa `m`, a single '.' switches to counting fractional digits in
      `scale`, and any other character, or a second '.', rejects. At least one
      digit must have been read by the end. */
  function Scan(s: string, m: nat, seenDigit: bool, seenDot: bool, scale: nat): Option<(nat, nat)>
    decreases |s|
  {
    if s == [] then
      if seenDigit then Some((m, scale)) else None
    else if IsDigit(s[0]) then
      Scan(s[1..], 10 * m + DigitValue(s[0]), true, seenDot, if seenDot then scale + 1 else scale)
    else if s[0] == '.' && !seenDot then
      Scan(s[1..], m, seenDigit, true, scale)
    else
      None
  }

  predicate HasSign(s: string) {
    |s| > 0 && (s[0] == '-' || s[0] == '+')
  }

  /** The text without its sign character, if any. */
  function Unsigned(s: string): string {
    if HasSign(s) then s[1..] else s
  }

  /** Parses an optionally signed decimal numeral; what does not parse is
      missing. */
  function ParseNumber(s: string): Option<Number> {
    match Scan(Unsigned(s), 0, false, false, 0)
    case None => None
    case Some((m, k)) =>
      var neg := |s| > 0 && s[0] == '-';
      var signed: int := if neg then -(m as int) else m;
      Some(Normalise(Decimal(signed, k)))
  }

  /** Independent description of the accepted texts: after an optional sign,
      only digits and periods, at most one period, and at least one digit. */
  predicate IsNumeral(s: string) {
    var body := Unsigned(s);
    && (forall k :: 0 <= k < |body| ==> IsDigit(body[k]) || body[k] == '.')
    && multiset(body)['.'] <= 1
    && (exists k :: 0 <= k < |body| && IsDigit(body[k]))
  }

  lemma {:induction false} ScanAccepts(s: string, m: nat, seenDigit: bool, seenDot: bool, scale: nat)
    ensures Scan(s, m, seenDigit, seenDot, scale).Some? <==>
      && (forall k :: 0 <= k < |s| ==> IsDigit(s[k]) || s[k] == '.')
      && multiset(s)['.'] <= (if seenDot then 0 else 1)
      && (seenDigit || exists k :: 0 <= k < |s| && IsDigit(s[k]))
    decreases |s|
  {
    if s != [] {
      var t := s[1..];
      assert s == [s[0]] + t;
      assert multiset(s)['.'] == multiset(t)['.'] + (if s[0] == '.' then 1 else 0);
      assert forall k :: 0 < k < |s| ==> s[k] == t[k - 1];
      assert (exists k :: 0 <= k < |s| && IsDigit(s[k])) <==>
             IsDigit(s[0]) || exists k :: 0 <= k < |t| && IsDigit(t[k]) by {
        if exists k :: 0 <= k < |t| && IsDigit(t[k]) {
          var k :| 0 <= k < |t| && IsDigit(t[k]);
          assert IsDigit(s[k + 1]);
        }
      }
      if IsDigit(s[0]) {
        ScanAccepts(t, 10 * m + DigitValue(s[0]), true, seenDot, if seenDot then scale + 1 else scale);
      } else if s[0] == '.' && !seenDot {
        ScanAccepts(t, m, seenDigit, true, scale);
      }
    }
  }

  /** The coercion yields a number exactly for the numerals; anything else
      (the empty text, a lone "-", two periods, stray characters) is missing. */
  lemma ParseAcceptsNumerals(s: string)
    ensures ParseNumber(s).Some? <==> IsNumeral(s)
  {
    ScanAccepts(Unsigned(s), 0, false, false, 0);
  }

  // ---- Rendering a number: the reference the parser inverts ----

  function DigitChar(d: nat): (c: char)
    requires d < 10
    ensures IsDigit(c) && DigitValue(c) == d
  {
    ('0' as int + d) as char
  }

  /** The decimal digits of `n`, most significant first, without leading zeros. */
  function NatDigits(n: nat): (s: string)
    ensures AllDigits(s) && |s| >= 1
    decreases n
  {
    if n < 10 then [DigitChar(n)] else NatDigits(n / 10) + [DigitChar(n % 10)]
  }

  /** Left-pads with zeros to at least `width` digits. */
  function PadZeros(s: string, width: nat): (r: string)
    requires AllDigits(s)
    ensures AllDigits(r) && |r| >= width && |r| >= |s|
    decreases width - |s|
  {
    if |s| >= width then s else PadZeros(['0'] + s, width)
  }

  function Abs(m: int): nat {
    if m < 0 then -m else m
  }

  /** The plain decimal notation of a number: a '-' when negative, the
      integer digits, and, when the scale is positive, a '.' followed by
      exactly `scale` fractional digits. */
  function Render(n: Number): string {
    (if n.mantissa < 0 then "-" else "") + PlainBody(n)
  }

  /** The digits and period of the plain notation, without the sign. */
  function PlainBody(n: Number): string {
    var digits := PadZeros(NatDigits(Abs(n.mantissa)), n.scale + 1);
    var cut := |digits| - n.scale;
    if n.scale == 0 then digits else digits[..cut] + "." + digits[cut..]
  }

  lemma AllDigitsAppend(a: string, b: string)
    requires AllDigits(a) && AllDigits(b)
    ensures AllDigits(a + b)
  {
    forall k | 0 <= k < |a + b| ensures IsDigit((a + b)[k]) {
      if k < |a| { assert (a + b)[k] == a[k]; } else { assert (a + b)[k] == b[k - |a|]; }
    }
  }

  lemma ShiftArith(d0: int, p: int, q: int, x: int, y: int)
    ensures d0 * (p * q) + (x * q + y) == (d0 * p + x) * q + y
  {
    MulAssoc(d0, p, q);
    MulDistrib(d0 * p, x, q);
  }

  lemma {:induction false} DigitsValueAppend(a: string, b: string)
    requires AllDigits(a) && AllDigits(b)
    ensures AllDigits(a + b)
    ensures DigitsValue(a + b) == DigitsValue(a) * Pow10(|b|) + DigitsValue(b)
  {
    AllDigitsAppend(a, b);
    if a == [] {
      assert a + b == b;
    } else {
      var t := a[1..];
      assert AllDigits(t);
      var ab := a + b;
      assert ab[1..] == t + b && ab[0] == a[0] && |ab| - 1 == |t| + |b|;
      DigitsValueAppend(t, b);
      Pow10Add(|t|, |b|);
      ShiftArith(DigitValue(a[0]), Pow10(|t|), Pow10(|b|), DigitsValue(t), DigitsValue(b));
    }
  }

  lemma {:induction false} NatDigitsValue(n: nat)
    ensures DigitsValue(NatDigits(n)) == n
    decreases n
  {
    if n >= 10 {
      NatDigitsValue(n / 10);
      DigitsValueAppend(NatDigits(n / 10), [DigitChar(n % 10)]);
    }
  }

  lemma {:induction false} PadZerosValue(s: string, width: nat)
    requires AllDigits(s)
    ensures DigitsValue(PadZeros(s, width)) == DigitsValue(s)
    decreases width - |s|
  {
    if |s| < width {
      var z := ['0'] + s;
      assert z[1..] == s;
      PadZerosValue(z, width);
    }
  }

  lemma DigitStep(m: int, d0: int, p: int, r: int)
    ensures (10 * m + d0) * p + r == m * (10 * p) + (d0 * p + r)
  {
    MulDistrib(10 * m, d0, p);
    MulAssoc(10, m, p);
  }

  /** Scanning a run of digits multiplies the mantissa in by their value. */
  lemma {:induction false} ScanDigits(d: string, t: string, m: nat, seenDigit: bool, seenDot: bool, scale: nat)
    requires AllDigits(d)
    ensures Scan(d + t, m, seenDigit, seenDot, scale) ==
            Scan(t, m * Pow10(|d|) + DigitsValue(d), seenDigit || d != [], seenDot,
                 if seenDot then scale + |d| else scale)
    decreases |d|
  {
    if d != [] {
      assert (d + t)[0] == d[0] && (d + t)[1..] == d[1..] + t;
      assert AllDigits(d[1..]);
      var m' := 10 * m + DigitValue(d[0]);
      ScanDigits(d[1..], t, m', true, seenDot, if seenDot then scale + 1 else scale);
      var p := Pow10(|d| - 1);
      assert Pow10(|d|) == 10 * p;
      assert DigitsValue(d) == DigitValue(d[0]) * p + DigitsValue(d[1..]);
      DigitStep(m, DigitValue(d[0]), p, DigitsValue(d[1..]));
    } else {
      assert d + t == t;
    }
  }

  lemma NormaliseCanonical(n: Number)
    ensures Normalise(n) == n
  {
  }

  lemma RenderSplits(n: Number)
    ensures Unsigned(Render(n)) == PlainBody(n)
    ensures HasSign(Render(n)) <==> n.mantissa < 0
    ensures |Render(n)| > 0 && (Render(n)[0] == '-' <==> n.mantissa < 0)
  {
    var digits := PadZeros(NatDigits(Abs(n.mantissa)), n.scale + 1);
    var body := PlainBody(n);
    assert body[0] == digits[0];
    if n.mantissa < 0 {
      assert ("-" + body)[1..] == body;
    } else {
      assert Render(n) == "" + body == body;
    }
  }

  /** The plain notation uses only digits, '.' and '-'. */
  lemma RenderAlphabet(n: Number, k: nat)
    requires k < |Render(n)|
    ensures IsNumericChar(Render(n)[k])
  {
    var digits := PadZeros(NatDigits(Abs(n.mantissa)), n.scale + 1);
    var cut := |digits| - n.scale;
    var body := PlainBody(n);
    var sign := if n.mantissa < 0 then "-" else "";
    assert Render(n) == sign + body;
    if k >= |sign| {
      var b := k - |sign|;
      assert Render(n)[k] == body[b];
      if n.scale != 0 {
        if b < cut { assert body[b] == digits[b]; }
        else if b > cut { assert body[b] == digits[b - 1]; }
      }
    }
  }

  /** The padded digits of a number denote its magnitude. */
  lemma PaddedDigitsValue(n: Number)
    ensures DigitsValue(PadZeros(NatDigits(Abs(n.mantissa)), n.scale + 1)) == Abs(n.mantissa)
  {
    NatDigitsValue(Abs(n.mantissa));
    PadZerosValue(NatDigits(Abs(n.mantissa)), n.scale + 1);
  }

  /** Scanning integer digits, a period and fractional digits, either run
      possibly empty but not both: the mantissa is the value of all the
      digits and the scale is the number of fractional digits. */
  lemma ScanFraction(ip: string, fp: string)
    requires AllDigits(ip) && AllDigits(fp) && ip + fp != []
    ensures AllDigits(ip + fp)
    ensures Scan(ip + "." + fp, 0, false, false, 0) == Some((DigitsValue(ip + fp), |fp|))
  {
    var m := DigitsValue(ip);
    ScanIntegerPart(ip, fp);
    ScanPeriod(fp, m, ip != []);
    ScanFractionalPart(fp, m, ip != []);
    DigitsValueAppend(ip, fp);
  }

  lemma ScanIntegerPart(ip: string, fp: string)
    requires AllDigits(ip)
    ensures Scan(ip + "." + fp, 0, false, false, 0) == Scan("." + fp, DigitsValue(ip), ip != [], false, 0)
  {
    ScanDigits(ip, "." + fp, 0, false, false, 0);
    assert ip + "." + fp == ip + ("." + fp);
  }

  lemma ScanPeriod(fp: string, m: nat, seenDigit: bool)
    ensures Scan("." + fp, m, seenDigit, false, 0) == Scan(fp, m, seenDigit, true, 0)
  {
    assert ("." + fp)[0] == '.' && ("." + fp)[1..] == fp;
  }

  lemma ScanFractionalPart(fp: string, m: nat, seenDigit: bool)
    requires AllDigits(fp) && (seenDigit || fp != [])
    ensures Scan(fp, m, seenDigit, true, 0) == Some((m * Pow10(|fp|) + DigitsValue(fp), |fp|))
  {
    ScanDigits(fp, [], m, seenDigit, true, 0);
    assert fp + [] == fp;
  }

  /** Scanning a numeral without a period gives its integer value. */
  lemma ScanInteger(ip: string)
    requires AllDigits(ip) && ip != []
    ensures Scan(ip, 0, false, false, 0) == Some((DigitsValue(ip), 0))
  {
    ScanDigits(ip, [], 0, false, false, 0);
    assert ip + [] == ip;
  }

  /** The sign, as `to_numeric` applies it to the scanned magnitude. */
  function Signed(sign: string, v: nat): int {
    if sign == "-" then -(v as int) else v
  }

  /** The value of every numeral with a period: a sign, integer digits, a
      period and fractional digits (either run may be empty, not both) read
      as the digits' value over ten to the number of fractional digits, so
      "5." is 5, ".5" is 0.5 and "1.50" is 1.5. */
  lemma ParseFractionValue(sign: string, ip: string, fp: string)
    requires sign == "" || sign == "-" || sign == "+"
    requires AllDigits(ip) && AllDigits(fp) && ip + fp != []
    ensures AllDigits(ip + fp)
    ensures ParseNumber(sign + ip + "." + fp) ==
            Some(Normalise(Decimal(Signed(sign, DigitsValue(ip + fp)), |fp|)))
  {
    var body := ip + "." + fp;
    assert sign + ip + "." + fp == sign + body;
    assert body[0] == if ip != [] then ip[0] else '.';
    ScanFraction(ip, fp);
    ParseSigned(sign, body, DigitsValue(ip + fp), |fp|);
  }

  /** The value of every numeral without a period: a sign and digits read as
      that integer, so "01" is 1 and "+5" is 5. */
  lemma ParseIntegerValue(sign: string, ip: string)
    requires sign == "" || sign == "-" || sign == "+"
    requires AllDigits(ip) && ip != []
    ensures ParseNumber(sign + ip) == Some(Decimal(Signed(sign, DigitsValue(ip)), 0))
  {
    ScanInteger(ip);
    ParseSigned(sign, ip, DigitsValue(ip), 0);
    NormaliseCanonical(Decimal(Signed(sign, DigitsValue(ip)), 0));
  }

  /** A sign in front of an unsigned body that scans to `(m, k)`. */
  lemma ParseSigned(sign: string, body: string, m: nat, k: nat)
    requires sign == "" || sign == "-" || sign == "+"
    requires body != [] && (IsDigit(body[0]) || body[0] == '.')
    requires Scan(body, 0, false, false, 0) == Some((m, k))
    ensures ParseNumber(sign + body) == Some(Normalise(Decimal(Signed(sign, m), k)))
  {
    var s := sign + body;
    if sign == "" {
      assert s == body;
      assert !HasSign(s);
    } else {
      assert s[0] == sign[0] && s[1..] == body;
    }
    assert Unsigned(s) == body;
    assert (|s| > 0 && s[0] == '-') <==> sign == "-";
  }

  /** A zero-padded month such as "01" reads as 1. */
  lemma ParsePaddedMonth()
    ensures ParseNumber("01") == Some(Decimal(1, 0))
  {
    ParseIntegerValue("", "01");
    assert "" + "01" == "01";
  }

  lemma ScanPlainBody(n: Number)
    ensures Scan(PlainBody(n), 0, false, false, 0) == Some((Abs(n.mantissa), n.scale))
  {
    var digits := PadZeros(NatDigits(Abs(n.mantissa)), n.scale + 1);
    PaddedDigitsValue(n);
    var cut := |digits| - n.scale;
    if n.scale == 0 {
      ScanDigits(digits, [], 0, false, false, 0);
      assert digits + [] == digits;
    } else {
      var ip, fp := digits[..cut], digits[cut..];
      assert digits == ip + fp;
      assert AllDigits(ip) && AllDigits(fp);
      ScanFraction(ip, fp);
    }
  }

  /** Parsing the plain notation of a number gives the number back. */
  lemma ParseRender(n: Number)
    ensures ParseNumber(Render(n)) == Some(n)
  {
    RenderSplits(n);
    ScanPlainBody(n);
    NormaliseCanonical(n);
  }
}
