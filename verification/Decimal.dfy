/**
 Fixed-point decimals: the single-pass parser with rounding, on 64-bit machine words, and the
 printer. The parser is specified by the number that its text denotes, not by its loop.
 */
module Decimal {
  import opened Basics
  import opened Bits

  datatype DecimalError = EmptyDigits | MultiplePoints | UnexpectedCharacter | PrecisionExceeded

  // ---------------------------------------------------------------- text

  /** Unicode white space, as strings.TrimSpace has it. */
  predicate IsSpace(c: char) {
    || '\t' <= c <= '\r' || c == ' ' || c == '\U{0085}' || c == '\U{00A0}' || c == '\U{1680}'
    || '\U{2000}' <= c <= '\U{200A}' || c == '\U{2028}' || c == '\U{2029}' || c == '\U{202F}' || c == '\U{205F}'
    || c == '\U{3000}'
  }

  function TrimLeft(s: string): (t: string)
    ensures |t| <= |s|
  {
    if s != "" && IsSpace(s[0]) then TrimLeft(s[1..]) else s
  }

  function TrimRight(s: string): string {
    if s != "" && IsSpace(s[|s| - 1]) then TrimRight(s[..|s| - 1]) else s
  }

  function TrimSpace(s: string): string {
    TrimRight(TrimLeft(s))
  }

  predicate IsDigit(c: char) {
    '0' <= c <= '9'
  }

  predicate AllDigits(s: string) {
    forall i :: 0 <= i < |s| ==> IsDigit(s[i])
  }

  function DigitOf(c: char): (d: nat)
    requires IsDigit(c)
    ensures d <= 9
  {
    c as int - '0' as int
  }

  function NumberOf(s: string): nat
    requires AllDigits(s)
  {
    if s == "" then 0 else 10 * NumberOf(s[..|s| - 1]) + DigitOf(s[|s| - 1])
  }

  lemma NumberOfAppend(s: string, c: char)
    requires AllDigits(s) && IsDigit(c)
    ensures AllDigits(s + [c]) && NumberOf(s + [c]) == 10 * NumberOf(s) + DigitOf(c)
  {
    assert (s + [c])[..|s|] == s;
  }

  function Pow10(n: nat): (p: nat)
    ensures p >= 1
  {
    if n == 0 then 1 else 10 * Pow10(n - 1)
  }

  lemma TenTimes(x: nat, p: nat)
    ensures 10 * (x * p) == x * (10 * p)
  {
  }

  lemma LastDigit(b: string)
    requires b != "" && AllDigits(b)
    ensures AllDigits(b[..|b| - 1]) && IsDigit(b[|b| - 1])
    ensures NumberOf(b) == 10 * NumberOf(b[..|b| - 1]) + DigitOf(b[|b| - 1])
    ensures Pow10(|b|) == 10 * Pow10(|b| - 1)
  {
  }

  lemma {:induction false} NumberOfConcat(a: string, b: string)
    requires AllDigits(a) && AllDigits(b)
    ensures AllDigits(a + b) && NumberOf(a + b) == NumberOf(a) * Pow10(|b|) + NumberOf(b)
    ensures NumberOf(b) < Pow10(|b|)
  {
    if b == "" {
      assert a + b == a;
    } else {
      hide NumberOf, Pow10;
      var init, c := b[..|b| - 1], b[|b| - 1];
      LastDigit(b);
      NumberOfConcat(a, init);
      assert a + b == (a + init) + [c];
      NumberOfAppend(a + init, c);
      TenTimes(NumberOf(a), Pow10(|init|));
    }
  }

  // ---------------------------------------------------------------- what a text denotes

  predicate Negative(t: string) {
    t != "" && t[0] == '-'
  }

  /** The text after an optional sign. */
  function Body(t: string): string {
    if t != "" && (t[0] == '-' || t[0] == '+') then t[1..] else t
  }

  /** The position of the first point, or the length. */
  function PointAt(b: string): (p: nat)
    ensures p <= |b| && (p < |b| ==> b[p] == '.')
    ensures forall i :: 0 <= i < p ==> b[i] != '.'
  {
    if b == "" || b[0] == '.' then 0 else 1 + PointAt(b[1..])
  }

  function IntegerPart(b: string): string {
    b[..PointAt(b)]
  }

  function Fraction(b: string): string {
    if PointAt(b) < |b| then b[PointAt(b) + 1..] else ""
  }

  predicate WellFormed(b: string) {
    b != "" && AllDigits(IntegerPart(b)) && AllDigits(Fraction(b))
  }

  /** n / 10^f scaled by 10^scale, rounded half up: on magnitudes that is half away from zero. */
  function Rescaled(n: nat, f: nat, scale: nat): nat {
    if f <= scale then n * Pow10(scale - f) else NearestQuotient(n, Pow10(f - scale))
  }

  function NearestQuotient(n: nat, unit: nat): nat
    requires unit >= 1
  {
    (2 * n + unit) / (2 * unit)
  }

  /** Rescaling is to the nearest unit, and a tie goes up. */
  lemma RescaledIsNearest(n: nat, f: nat, scale: nat)
    requires f > scale
    ensures var unit, r := Pow10(f - scale), Rescaled(n, f, scale);
            2 * (r * unit) - unit <= 2 * n < 2 * (r * unit) + unit
  {
    var unit, r := Pow10(f - scale), Rescaled(n, f, scale);
    var x := 2 * n + unit;
    assert x == r * (2 * unit) + x % (2 * unit);
    assert r * (2 * unit) == 2 * (r * unit);
  }

  /** The magnitude in units of 10^-scale. A negative scale drops the fraction altogether. */
  function Magnitude(b: string, scale: int): nat
    requires WellFormed(b)
  {
    var whole, frac := IntegerPart(b), Fraction(b);
    if scale < 0 then NumberOf(whole)
    else
      NumberOfConcat(whole, frac);
      Rescaled(NumberOf(whole + frac), |frac|, scale)
  }

  function Denoted(t: string, scale: int): int
    requires WellFormed(Body(t))
  {
    var m: int := Magnitude(Body(t), scale);
    if Negative(t) then -m else m
  }

  /** What is wrong with the character at i, if anything. */
  function ErrorAt(b: string, i: nat, scale: int, mode: string): Option<DecimalError>
    requires i < |b|
  {
    if b[i] == '.' then if PointAt(b) < i then Some(MultiplePoints) else None
    else if !IsDigit(b[i]) then Some(UnexpectedCharacter)
    else if PointAt(b) < i && i - PointAt(b) - 1 == scale && mode == "fail" then Some(PrecisionExceeded)
    else None
  }

  predicate Clear(b: string, i: nat, scale: int, mode: string)
    requires i <= |b|
  {
    forall k :: 0 <= k < i ==> ErrorAt(b, k, scale, mode) == None
  }

  /** A text without errors is a well-formed one that, in "fail" mode, has at most `scale` fractional digits. */
  lemma ClearIff(b: string, scale: int, mode: string)
    requires b != ""
    ensures Clear(b, |b|, scale, mode) <==> WellFormed(b) && (mode == "fail" && scale >= 0 ==> |Fraction(b)| <= scale)
  {
    var p := PointAt(b);
    assert forall i :: 0 <= i < p ==> IntegerPart(b)[i] == b[i];
    assert forall i :: p < i < |b| ==> Fraction(b)[i - p - 1] == b[i];
    if Clear(b, |b|, scale, mode) {
      forall i | 0 <= i < p ensures IsDigit(IntegerPart(b)[i]) {
        assert ErrorAt(b, i, scale, mode) == None;
      }
      forall i | 0 <= i < |Fraction(b)| ensures IsDigit(Fraction(b)[i]) {
        assert ErrorAt(b, p + 1 + i, scale, mode) == None;
      }
      assert 0 <= scale && p + 1 + scale < |b| ==> ErrorAt(b, p + 1 + scale, scale, mode) == None;
    }
    if WellFormed(b) && (mode == "fail" && scale >= 0 ==> |Fraction(b)| <= scale) {
      forall k | 0 <= k < |b| ensures ErrorAt(b, k, scale, mode) == None {
        if k > p {
          assert IsDigit(Fraction(b)[k - p - 1]);
        }
      }
    }
  }

  // ---------------------------------------------------------------- rounding by one digit

  /** Rounding looks at the first dropped digit only. */
  lemma RoundByFirstDigit(whole: string, frac: string, scale: nat)
    requires AllDigits(whole) && AllDigits(frac) && scale < |frac|
    ensures AllDigits(whole + frac) && AllDigits(whole + frac[..scale])
    ensures Rescaled(NumberOf(whole + frac), |frac|, scale)
         == NumberOf(whole + frac[..scale]) + (if frac[scale] >= '5' then 1 else 0)
  {
    hide NumberOf, Pow10, NearestQuotient;
    var kept, c, rest := whole + frac[..scale], frac[scale], frac[scale + 1..];
    var k := |rest|;
    assert whole + frac == kept + ([c] + rest);
    NumberOfConcat([c], rest);
    NumberOfConcat(kept, [c] + rest);
    OneDigit(c, k);
    var t, d, p, r := NumberOf(kept), DigitOf(c), Pow10(k), NumberOf(rest);
    assert |frac| - scale == k + 1 && |[c] + rest| == k + 1;
    assert NumberOf(whole + frac) == t * (10 * p) + (d * p + r);
    HalfUp(t, d, p, r);
  }

  lemma OneDigit(c: char, k: nat)
    requires IsDigit(c)
    ensures NumberOf([c]) == DigitOf(c) && Pow10(k + 1) == 10 * Pow10(k)
  {
    assert [c][..0] == "";
  }

  lemma HalfUp(t: nat, d: nat, p: nat, r: nat)
    requires d <= 9 && r < p
    ensures NearestQuotient(t * (10 * p) + (d * p + r), 10 * p) == t + (if d >= 5 then 1 else 0)
  {
    var up := if d >= 5 then 1 else 0;
    var left := 2 * (d * p + r) + 10 * p - up * (20 * p);
    assert 0 <= left < 20 * p by {
      if d >= 5 {
        assert (d - 5) * p >= 0 && (9 - d) * p >= 0;
      } else {
        assert d * p >= 0 && (4 - d) * p >= 0;
      }
    }
    assert 2 * (t * (10 * p) + (d * p + r)) + 10 * p == (t + up) * (20 * p) + left;
    DivideExactly(t + up, 20 * p, left);
  }

  // ---------------------------------------------------------------- the parser

  /** The digits that the loop has folded into the mantissa before position i. */
  function Used(b: string, i: nat, scale: int): string
    requires i <= |b|
  {
    var p := PointAt(b);
    if i <= p then b[..i] else b[..p] + b[p + 1..p + 1 + UsedFraction(i - p - 1, scale)]
  }

  function UsedFraction(seen: nat, scale: int): (n: nat)
    ensures n <= seen
  {
    Min(seen, Max(scale, 0))
  }

  /** Machine words compute modulo 2^64. */
  lemma WordStep(x: nat, d: nat)
    ensures ToUint64(ToUint64(x) * 10 + d) == ToUint64(x * 10 + d)
  {
    var m := 0x1_0000_0000_0000_0000;
    var q, u := x / m, x % m;
    var y := u * 10 + d;
    assert x * 10 + d == (q * 10 + y / m) * m + y % m;
    DivideExactly(q * 10 + y / m, m, y % m);
  }

  /** The mantissa register holds, modulo 2^64, the number of the digits used so far. */
  ghost predicate Holds(mantissa: uint64, b: string, i: nat, scale: int)
    requires i <= |b|
  {
    AllDigits(Used(b, i, scale)) && mantissa == ToUint64(NumberOf(Used(b, i, scale)))
  }

  /** Whether the digit at i still goes into the mantissa. */
  predicate Kept(b: string, i: nat, scale: int)
    requires i < |b|
  {
    i < PointAt(b) || (PointAt(b) < i && i - PointAt(b) - 1 < scale)
  }

  lemma UsedGrows(b: string, i: nat, scale: int)
    requires i < |b|
    ensures Used(b, i + 1, scale) == if Kept(b, i, scale) then Used(b, i, scale) + [b[i]] else Used(b, i, scale)
  {
    hide PointAt;
    var p := PointAt(b);
    if i > p {
      var m, n := UsedFraction(i - p - 1, scale), UsedFraction(i - p, scale);
      assert n == if Kept(b, i, scale) then m + 1 else m;
    }
  }

  lemma FoldDigit(mantissa: uint64, b: string, i: nat, scale: int)
    requires i < |b| && Holds(mantissa, b, i, scale) && IsDigit(b[i])
    ensures Holds(if Kept(b, i, scale) then ToUint64(mantissa * 10 + DigitOf(b[i])) else mantissa, b, i + 1, scale)
  {
    hide ToUint64, Used, Kept;
    UsedGrows(b, i, scale);
    if Kept(b, i, scale) {
      NumberOfAppend(Used(b, i, scale), b[i]);
      WordStep(NumberOf(Used(b, i, scale)), DigitOf(b[i]));
    }
  }

  lemma UsedAtEnd(b: string, scale: int)
    ensures var whole, frac := IntegerPart(b), Fraction(b);
            Used(b, |b|, scale) ==
            if scale < 0 then whole else if |frac| <= scale then whole + frac else whole + frac[..scale]
  {
  }

  /** Multiplying by ten for every missing fractional digit, then rounding, gives the magnitude. */
  lemma PaddedMantissa(b: string, scale: int)
    requires WellFormed(b)
    ensures AllDigits(Used(b, |b|, scale))
    ensures var f := |Fraction(b)|;
            var up := if 0 <= scale < f && Fraction(b)[scale] >= '5' then 1 else 0;
            Magnitude(b, scale) == NumberOf(Used(b, |b|, scale)) * Pow10(if f < scale then scale - f else 0) + up
  {
    hide NumberOf, Used, PointAt;
    var whole, frac := IntegerPart(b), Fraction(b);
    UsedAtEnd(b, scale);
    assert Pow10(0) == 1;
    if scale >= 0 {
      NumberOfConcat(whole, frac);
      if scale < |frac| {
        hide Rescaled;
        RoundByFirstDigit(whole, frac, scale);
      }
    }
  }

  /** Everything the loop knows before position i. */
  ghost predicate Scanned(b: string, i: nat, scale: int32, mode: string,
                          mantissa: uint64, seenDot: bool, decDigits: int, roundUp: bool)
    requires i <= |b|
  {
    var p := PointAt(b);
    && Clear(b, i, scale, mode)
    && seenDot == (p < i)
    && decDigits == (if seenDot && scale >= 0 then Min(i - p - 1, scale + 1) else 0)
    && Holds(mantissa, b, i, scale)
    && roundUp == (scale >= 0 && p + 1 + scale < i && b[p + 1 + scale] >= '5')
  }

  lemma ScanPoint(b: string, i: nat, scale: int32, mode: string, mantissa: uint64, decDigits: int, roundUp: bool)
    requires i < |b| && b[i] == '.' && Scanned(b, i, scale, mode, mantissa, false, decDigits, roundUp)
    ensures Scanned(b, i + 1, scale, mode, mantissa, true, decDigits, roundUp)
  {
    assert PointAt(b) == i;
    UsedGrows(b, i, scale);
  }

  /** The scan over one digit: the whole of the loop body that follows the error checks. */
  lemma ScanDigit(b: string, i: nat, scale: int32, mode: string,
                  mantissa: uint64, seenDot: bool, decDigits: int, roundUp: bool)
    requires i < |b| && IsDigit(b[i]) && Scanned(b, i, scale, mode, mantissa, seenDot, decDigits, roundUp)
    requires !(seenDot && decDigits == scale && mode == "fail")
    ensures var keep := !seenDot || decDigits < scale;
            Scanned(b, i + 1, scale, mode,
                    if keep then ToUint64(mantissa * 10 + DigitOf(b[i])) else mantissa,
                    seenDot,
                    if seenDot && decDigits <= scale then decDigits + 1 else decDigits,
                    roundUp || (seenDot && decDigits == scale && DigitOf(b[i]) >= 5))
  {
    hide Holds, Used;
    FoldDigit(mantissa, b, i, scale);
  }

  lemma ScanError(b: string, i: nat, scale: int32, mode: string,
                  mantissa: uint64, seenDot: bool, decDigits: int, roundUp: bool)
    requires i < |b| && Scanned(b, i, scale, mode, mantissa, seenDot, decDigits, roundUp)
    ensures b[i] == '.' && seenDot ==> FirstError(b, scale, mode, MultiplePoints)
    ensures b[i] != '.' && !IsDigit(b[i]) ==> FirstError(b, scale, mode, UnexpectedCharacter)
    ensures IsDigit(b[i]) && seenDot && decDigits == scale && mode == "fail" ==>
              FirstError(b, scale, mode, PrecisionExceeded)
  {
    hide Holds;
    assert Clear(b, i, scale, mode);
  }

  lemma ScanStart(b: string, scale: int32, mode: string)
    ensures Scanned(b, 0, scale, mode, 0, false, 0, false)
  {
    assert Used(b, 0, scale) == "";
  }

  ghost predicate FirstError(b: string, scale: int, mode: string, e: DecimalError) {
    exists i :: 0 <= i < |b| && Clear(b, i, scale, mode) && ErrorAt(b, i, scale, mode) == Some(e)
  }

  /** The digits of b folded into a word, before padding, with the count of fractional digits seen. */
  method ScanDigits(b: string, targetScale: int32, onOverflow: string)
    returns (r: Result<(uint64, int, bool), DecimalError>)
    ensures r.Err? ==> FirstError(b, targetScale, onOverflow, r.error)
    ensures r.Ok? ==> exists seenDot ::
                        Scanned(b, |b|, targetScale, onOverflow, r.value.0, seenDot, r.value.1, r.value.2)
  {
    hide Scanned, Clear, ToUint64, FirstError, ErrorAt;
    var mantissa: uint64 := 0;
    var seenDot, roundUp := false, false;
    var decDigits: int := 0;
    var i := 0;
    ScanStart(b, targetScale, onOverflow);
    while i < |b|
      invariant 0 <= i <= |b|
      invariant Scanned(b, i, targetScale, onOverflow, mantissa, seenDot, decDigits, roundUp)
    {
      ScanError(b, i, targetScale, onOverflow, mantissa, seenDot, decDigits, roundUp);
      var c := b[i];
      if c == '.' {
        if seenDot {
          return Err(MultiplePoints);
        }
        ScanPoint(b, i, targetScale, onOverflow, mantissa, decDigits, roundUp);
        seenDot := true;
        i := i + 1;
        continue;
      }
      if c < '0' || c > '9' {
        return Err(UnexpectedCharacter);
      }
      var digit := DigitOf(c);
      if seenDot && decDigits == targetScale && onOverflow == "fail" {
        return Err(PrecisionExceeded);
      }
      ScanDigit(b, i, targetScale, onOverflow, mantissa, seenDot, decDigits, roundUp);
      if !seenDot {
        mantissa := ToUint64(mantissa * 10 + digit);
      } else if decDigits < targetScale {
        mantissa := ToUint64(mantissa * 10 + digit);
        decDigits := decDigits + 1;
      } else if decDigits == targetScale {
        if digit >= 5 {
          roundUp := true;
        }
        decDigits := decDigits + 1;
      }
      i := i + 1;
    }
    return Ok((mantissa, decDigits, roundUp));
  }

  lemma ScannedClear(b: string, i: nat, scale: int32, mode: string,
                     mantissa: uint64, seenDot: bool, decDigits: int, roundUp: bool)
    requires i <= |b| && Scanned(b, i, scale, mode, mantissa, seenDot, decDigits, roundUp)
    ensures Clear(b, i, scale, mode)
  {
  }

  /** Multiplies by ten until the mantissa has all fractional digits of the target scale. */
  method Pad(mantissa: uint64, decDigits: int, targetScale: int32, ghost n: nat) returns (m: uint64)
    requires mantissa == ToUint64(n)
    ensures m == ToUint64(n * Pow10(if decDigits < targetScale then targetScale - decDigits else 0))
  {
    hide ToUint64;
    m := mantissa;
    var d := decDigits;
    assert n * Pow10(0) == n;
    while d < targetScale
      invariant decDigits <= d && (d <= targetScale || d == decDigits)
      invariant m == ToUint64(n * Pow10(d - decDigits))
      decreases targetScale - d
    {
      WordStep(n * Pow10(d - decDigits), 0);
      assert n * Pow10(d - decDigits) * 10 == n * Pow10(d - decDigits + 1);
      m := ToUint64(m * 10);
      d := d + 1;
    }
  }

  lemma ScannedToEnd(b: string, scale: int32, mode: string,
                     mantissa: uint64, seenDot: bool, decDigits: int, roundUp: bool)
    requires b != "" && Scanned(b, |b|, scale, mode, mantissa, seenDot, decDigits, roundUp)
    ensures WellFormed(b) && AllDigits(Used(b, |b|, scale))
    ensures mantissa == ToUint64(NumberOf(Used(b, |b|, scale)))
    ensures (if decDigits < scale then scale - decDigits else 0)
         == (if |Fraction(b)| < scale then scale - |Fraction(b)| else 0)
    ensures roundUp == (0 <= scale < |Fraction(b)| && Fraction(b)[scale] >= '5')
  {
    hide NumberOf, ToUint64;
    ClearIff(b, scale, mode);
  }

  /** What is left to do after the scan: pad the mantissa with zeros and add the rounding. */
  lemma ScannedMagnitude(b: string, scale: int32, mode: string,
                         mantissa: uint64, seenDot: bool, decDigits: int, roundUp: bool) returns (n: nat)
    requires b != "" && Scanned(b, |b|, scale, mode, mantissa, seenDot, decDigits, roundUp)
    ensures WellFormed(b) && mantissa == ToUint64(n)
    ensures Magnitude(b, scale)
         == n * Pow10(if decDigits < scale then scale - decDigits else 0) + (if roundUp then 1 else 0)
  {
    hide Scanned, NumberOf, Used, Magnitude, WellFormed, Pow10, Fraction, ToUint64;
    ScannedToEnd(b, scale, mode, mantissa, seenDot, decDigits, roundUp);
    PaddedMantissa(b, scale);
    n := NumberOf(Used(b, |b|, scale));
  }

  lemma WordIncrement(x: nat)
    ensures ToUint64(ToUint64(x) + 1) == ToUint64(x + 1)
  {
  }

  method ParseDigits(b: string, targetScale: int32, onOverflow: string) returns (r: Result<uint64, DecimalError>)
    requires b != ""
    ensures r.Err? ==> FirstError(b, targetScale, onOverflow, r.error)
    ensures r.Ok? ==> Clear(b, |b|, targetScale, onOverflow) && WellFormed(b)
                      && r.value == ToUint64(Magnitude(b, targetScale))
  {
    hide Scanned, Magnitude, WellFormed, Pow10, FirstError, Clear, ToUint64;
    var scan := ScanDigits(b, targetScale, onOverflow);
    if scan.Err? {
      return Err(scan.error);
    }
    var (mantissa, decDigits, roundUp) := scan.value;
    ghost var seenDot :| Scanned(b, |b|, targetScale, onOverflow, mantissa, seenDot, decDigits, roundUp);
    ScannedClear(b, |b|, targetScale, onOverflow, mantissa, seenDot, decDigits, roundUp);
    ghost var n := ScannedMagnitude(b, targetScale, onOverflow, mantissa, seenDot, decDigits, roundUp);
    var padded := Pad(mantissa, decDigits, targetScale, n);
    if roundUp {
      WordIncrement(n * Pow10(if decDigits < targetScale then targetScale - decDigits else 0));
      padded := ToUint64((padded as int) + 1);
    }
    return Ok(padded);
  }

  /** The texts that the parser accepts. The empty text is the number zero. */
  predicate Accepted(s: string, scale: int32, mode: string) {
    var t := TrimSpace(s);
    t == "" || (WellFormed(Body(t)) && (mode == "fail" && scale >= 0 ==> |Fraction(Body(t))| <= scale))
  }

  function ValueOf(s: string, scale: int32, mode: string): int
    requires Accepted(s, scale, mode)
  {
    var t := TrimSpace(s);
    if t == "" then 0 else Denoted(t, scale)
  }

  /**
   The parser succeeds exactly on the accepted texts and returns the number denoted, in units
   of 10^-scale, rounded half away from zero, as a 64-bit word. On every other text it
   reports the first offending character.
   */
  method CoerceDecimalFast(s: string, targetScale: int32, onOverflow: string)
    returns (r: Result<(int64, int32), DecimalError>)
    ensures r.Ok? <==> Accepted(s, targetScale, onOverflow)
    ensures r.Ok? ==> r.value == (ToInt64(ValueOf(s, targetScale, onOverflow)), targetScale)
    ensures r.Err? ==>
              var b := Body(TrimSpace(s));
              (b == "" && r.error == EmptyDigits) || FirstError(b, targetScale, onOverflow, r.error)
  {
    hide FirstError, Clear, WellFormed, Magnitude, ToUint64, TrimSpace, Fraction;
    var mode := onOverflow;
    if mode == "" {
      mode := "round";
    }
    var t := TrimSpace(s);
    if |t| == 0 {
      ExactWhenItFits(0);
      return Ok((0, targetScale));
    }
    var neg, i := false, 0;
    if t[0] == '-' {
      neg := true;
      i := i + 1;
    } else if t[0] == '+' {
      i := i + 1;
    }
    if i >= |t| {
      EmptyIsIllFormed();
      assert Body(t) == "";
      return Err(EmptyDigits);
    }
    assert t[i..] == Body(t);
    var m := ParseDigits(t[i..], targetScale, mode);
    ModeIrrelevant(Body(t), targetScale, onOverflow, mode);
    ClearIff(Body(t), targetScale, onOverflow);
    if m.Err? {
      FirstErrorIsNotClear(Body(t), targetScale, onOverflow, m.error);
      return Err(m.error);
    }
    SignedWord(Magnitude(Body(t), targetScale));
    var res := ToInt64(m.value);
    if neg {
      res := ToInt64(-(res as int));
    }
    return Ok((res, targetScale));
  }

  lemma EmptyIsIllFormed()
    ensures !WellFormed("")
  {
  }

  lemma FirstErrorIsNotClear(b: string, scale: int, mode: string, e: DecimalError)
    requires FirstError(b, scale, mode, e)
    ensures !Clear(b, |b|, scale, mode)
  {
  }

  /** Converting to a signed word and negating there gives the word of the negated number. */
  lemma SignedWord(v: int)
    requires v >= 0
    ensures ToInt64(ToUint64(v)) == ToInt64(v)
    ensures ToInt64(-(ToInt64(v) as int)) == ToInt64(-v)
  {
    var m := 0x1_0000_0000_0000_0000;
    var k := if ToUint64(v) < 0x8000_0000_0000_0000 then v / m else v / m + 1;
    ShiftByWords(-v, k);
    assert -(ToInt64(v) as int) == -v + k * m;
  }

  lemma ShiftByWords(x: int, k: int)
    ensures ToInt64(x + k * 0x1_0000_0000_0000_0000) == ToInt64(x)
  {
    var m := 0x1_0000_0000_0000_0000;
    assert x + k * m == (x / m + k) * m + x % m;
    ModOfMultiple(x + k * m, x / m + k, x % m);
  }

  lemma ModOfMultiple(x: int, q: int, r: int)
    requires 0 <= r < 0x1_0000_0000_0000_0000
    ensures x == q * 0x1_0000_0000_0000_0000 + r ==> x % 0x1_0000_0000_0000_0000 == r
  {
    var m := 0x1_0000_0000_0000_0000;
    if x == q * m + r {
      QuotientUnique(q, x / m, m, r, x % m);
    }
  }

  /** Only "fail" is special; the default is "round". */
  lemma ModeIrrelevant(b: string, scale: int32, mode: string, mode': string)
    requires mode' == if mode == "" then "round" else mode
    ensures Clear(b, |b|, scale, mode) == Clear(b, |b|, scale, mode')
    ensures forall e :: FirstError(b, scale, mode', e) ==> FirstError(b, scale, mode, e)
  {
    assert forall k :: 0 <= k < |b| ==> ErrorAt(b, k, scale, mode) == ErrorAt(b, k, scale, mode');
    forall e | FirstError(b, scale, mode', e) ensures FirstError(b, scale, mode, e) {
      var i :| 0 <= i < |b| && Clear(b, i, scale, mode') && ErrorAt(b, i, scale, mode') == Some(e);
      assert Clear(b, i, scale, mode);
    }
  }

  /** The returned word is the number itself exactly when the number fits into it. */
  lemma ExactWhenItFits(v: int)
    ensures ToInt64(v) == v <==> -0x8000_0000_0000_0000 <= v < 0x8000_0000_0000_0000
  {
  }

  // ---------------------------------------------------------------- the printer

  function DigitChar(d: nat): (c: char)
    requires d <= 9
    ensures IsDigit(c) && DigitOf(c) == d
  {
    '0' + d as char
  }

  /** strconv.FormatUint in base ten. */
  function Digits(n: nat): (s: string)
    ensures s != "" && AllDigits(s)
  {
    if n < 10 then [DigitChar(n)] else Digits(n / 10) + [DigitChar(n % 10)]
  }

  lemma {:induction false} DigitsDenote(n: nat)
    ensures NumberOf(Digits(n)) == n
  {
    if n < 10 {
      assert Digits(n)[..0] == "";
    } else {
      DigitsDenote(n / 10);
      NumberOfAppend(Digits(n / 10), DigitChar(n % 10));
    }
  }

  function Zeros(n: nat): (z: string)
    ensures |z| == n && forall i :: 0 <= i < n ==> z[i] == '0'
  {
    seq(n, _ => '0')
  }

  lemma {:induction false} ZerosDenote(n: nat)
    ensures NumberOf(Zeros(n)) == 0
  {
    if n > 0 {
      ZerosDenote(n - 1);
      assert Zeros(n)[..n - 1] == Zeros(n - 1);
    }
  }

  /** The digits with the point placed before the last `scale` of them. */
  function Placed(str: string, scale: int): string {
    if scale <= 0 then str
    else if |str| <= scale then "0." + (Zeros(scale - |str|) + str)
    else str[..|str| - scale] + "." + str[|str| - scale..]
  }

  function Formatted(mantissa: int64, scale: int32): string {
    if mantissa < 0 then "-" + Placed(Digits(-(mantissa as int)), scale) else Placed(Digits(mantissa), scale)
  }

  /** Negating in 64-bit words gives the magnitude even of the most negative number. */
  lemma NegatedWord(m: int64)
    requires m < 0
    ensures ToUint64(ToInt64(0 - (m as int))) == -(m as int)
  {
  }

  method FormatDecimal(mantissa: int64, scale: int32) returns (s: string)
    ensures s == Formatted(mantissa, scale)
  {
    hide Digits, ToUint64, ToInt64;
    if scale <= 0 {
      return if mantissa < 0 then "-" + Digits(-(mantissa as int)) else Digits(mantissa);
    }
    var neg := false;
    var uval: nat;
    if mantissa < 0 {
      neg := true;
      NegatedWord(mantissa);
      uval := ToUint64(ToInt64(0 - (mantissa as int)));
    } else {
      uval := mantissa;
    }
    s := if neg then "-" else "";
    s := PlacePoint(s, Digits(uval), scale);
  }

  /** The rest of FormatDecimal, once the sign is written. */
  method PlacePoint(sign: string, str: string, scale: int) returns (s: string)
    requires scale > 0
    ensures s == sign + Placed(str, scale)
  {
    s := sign;
    if |str| <= scale {
      s := s + "0.";
      for i := 0 to scale - |str|
        invariant s == sign + "0." + Zeros(i)
      {
        s := s + "0";
      }
      s := s + str;
      assert s == sign + ("0." + (Zeros(scale - |str|) + str));
    } else {
      var dotPos := |str| - scale;
      s := s + str[..dotPos];
      s := s + ".";
      s := s + str[dotPos..];
      assert s == sign + (str[..dotPos] + "." + str[dotPos..]);
    }
  }

  // ---------------------------------------------------------------- round trip

  lemma {:induction false} NothingToTrim(s: string)
    requires s != "" && !IsSpace(s[0]) && !IsSpace(s[|s| - 1])
    ensures TrimSpace(s) == s
  {
  }

  lemma {:induction false} PointAfterDigits(a: string, b: string)
    requires AllDigits(a)
    ensures PointAt(a + "." + b) == |a|
  {
    if a != "" {
      PointAfterDigits(a[1..], b);
      assert (a + "." + b)[1..] == a[1..] + "." + b;
    }
  }

  lemma {:induction false} NoPoint(a: string)
    requires AllDigits(a)
    ensures PointAt(a) == |a|
  {
    if a != "" {
      NoPoint(a[1..]);
    }
  }

  /** A text with digits a before the point and exactly `scale` digits b after it denotes ab. */
  lemma PointedDenotes(a: string, b: string, scale: nat)
    requires a != "" && AllDigits(a) && AllDigits(b) && |b| == scale
    ensures WellFormed(a + "." + b) && |Fraction(a + "." + b)| == scale
    ensures AllDigits(a + b) && Magnitude(a + "." + b, scale) == NumberOf(a + b)
  {
    var t := a + "." + b;
    PointAfterDigits(a, b);
    assert IntegerPart(t) == a && Fraction(t) == b;
    assert Pow10(0) == 1;
  }

  lemma PowerOfZero()
    ensures Pow10(0) == 1
  {
  }

  /** What a printed magnitude is to the parser. */
  ghost predicate Reads(t: string, scale: int, n: nat) {
    && t != "" && IsDigit(t[0]) && IsDigit(t[|t| - 1])
    && WellFormed(t) && (scale >= 0 ==> |Fraction(t)| <= scale) && Magnitude(t, scale) == n
  }

  lemma WholeDenotes(str: string, scale: int)
    requires str != "" && AllDigits(str) && scale <= 0
    ensures Reads(str, scale, NumberOf(str))
  {
    hide NumberOf;
    PowerOfZero();
    NoPoint(str);
    assert IntegerPart(str) == str && Fraction(str) == "" && str + "" == str;
  }

  lemma PointReads(a: string, b: string)
    requires a != "" && AllDigits(a) && b != "" && AllDigits(b)
    ensures AllDigits(a + b) && Reads(a + "." + b, |b|, NumberOf(a + b))
  {
    hide NumberOf, Magnitude, Fraction, WellFormed;
    PointedDenotes(a, b, |b|);
    var t := a + "." + b;
    assert t[0] == a[0] && t[|t| - 1] == b[|b| - 1];
  }

  lemma ZerosBefore(str: string, k: nat)
    requires AllDigits(str)
    ensures AllDigits(Zeros(k) + str) && NumberOf(Zeros(k) + str) == NumberOf(str)
  {
    ZerosDenote(k);
    NumberOfConcat(Zeros(k), str);
  }

  lemma LeadingZero(str: string, k: nat)
    ensures "0" + (Zeros(k) + str) == Zeros(k + 1) + str
    ensures "0" + "." + (Zeros(k) + str) == "0." + (Zeros(k) + str)
  {
    assert "0" + Zeros(k) == Zeros(k + 1);
    assert "0" + "." == "0.";
  }

  lemma SmallDenotes(str: string, scale: nat)
    requires AllDigits(str) && 1 <= |str| <= scale
    ensures Reads("0." + (Zeros(scale - |str|) + str), scale, NumberOf(str))
  {
    hide NumberOf, Reads;
    var b := Zeros(scale - |str|) + str;
    ZerosBefore(str, scale - |str|);
    PointReads("0", b);
    LeadingZero(str, scale - |str|);
    ZerosBefore(str, scale - |str| + 1);
  }

  lemma SplitDenotes(str: string, scale: nat)
    requires AllDigits(str) && 1 <= scale < |str|
    ensures Reads(str[..|str| - scale] + "." + str[|str| - scale..], scale, NumberOf(str))
  {
    hide NumberOf, Reads;
    var a, b := str[..|str| - scale], str[|str| - scale..];
    PointReads(a, b);
    assert a + b == str;
  }

  /** The magnitude printed is the magnitude read. */
  lemma PlacedDenotes(n: nat, scale: int)
    ensures Reads(Placed(Digits(n), scale), scale, n)
  {
    hide Digits, NumberOf, Reads;
    var str := Digits(n);
    DigitsDenote(n);
    if scale <= 0 {
      WholeDenotes(str, scale);
    } else if |str| <= scale {
      SmallDenotes(str, scale);
    } else {
      SplitDenotes(str, scale);
    }
  }

  /**
   Round trip: parsing what was printed, at the same scale and in any overflow mode, gives
   back the mantissa, for every 64-bit mantissa, the most negative one included.
   */
  lemma PrintParseRoundTrip(mantissa: int64, scale: int32, mode: string)
    ensures Accepted(Formatted(mantissa, scale), scale, mode)
    ensures ToInt64(ValueOf(Formatted(mantissa, scale), scale, mode)) == mantissa
  {
    hide Placed, Magnitude, WellFormed, Fraction, TrimSpace, Digits;
    var n := if mantissa < 0 then -(mantissa as int) else mantissa;
    var t := Placed(Digits(n), scale);
    var s := Formatted(mantissa, scale);
    PlacedDenotes(n, scale);
    NothingToTrim(s);
    assert Body(s) == t by {
      assert mantissa < 0 ==> s[1..] == t;
    }
    ExactWhenItFits(mantissa);
  }

  /** Printing loses nothing: at one scale, different mantissas have different texts. */
  lemma PrintingIsInjective(a: int64, b: int64, scale: int32)
    requires Formatted(a, scale) == Formatted(b, scale)
    ensures a == b
  {
    PrintParseRoundTrip(a, scale, "fail");
    PrintParseRoundTrip(b, scale, "fail");
  }

  // ---------------------------------------------------------------- the printed text

  lemma {:induction false} NoLeadingZero(n: nat)
    ensures |Digits(n)| > 1 ==> Digits(n)[0] != '0'
  {
    if n >= 10 {
      NoLeadingZero(n / 10);
      if n / 10 < 10 {
        assert Digits(n / 10) == [DigitChar(n / 10)];
        assert DigitOf(DigitChar(n / 10)) > 0;
      }
    }
  }

  lemma LeadingZeros(str: string, k: nat)
    requires AllDigits(str)
    ensures AllDigits(Zeros(k) + str) && |Zeros(k) + str| == k + |str|
    ensures NumberOf("0" + (Zeros(k) + str)) == NumberOf(str)
  {
    LeadingZero(str, k);
    ZerosBefore(str, k + 1);
  }

  /**
   The shape of the printed text: a minus sign for negative numbers and no other sign, a whole
   part without leading zeros, and after the point exactly `scale` digits; without its point
   the text spells the magnitude.
   */
  lemma PrintedShape(mantissa: int64, scale: int32) returns (whole: string, frac: string)
    ensures AllDigits(whole) && AllDigits(frac) && whole != "" && (|whole| > 1 ==> whole[0] != '0')
    ensures |frac| == (if scale > 0 then scale else 0)
    ensures AllDigits(whole + frac)
    ensures NumberOf(whole + frac) == (if mantissa < 0 then -(mantissa as int) else mantissa)
    ensures Formatted(mantissa, scale)
         == (if mantissa < 0 then "-" else "") + (if scale > 0 then whole + "." + frac else whole)
  {
    hide NumberOf, Digits;
    var n := if mantissa < 0 then -(mantissa as int) else mantissa;
    var str := Digits(n);
    DigitsDenote(n);
    NoLeadingZero(n);
    if scale <= 0 {
      whole, frac := str, "";
      assert whole + frac == str;
    } else if |str| <= scale {
      whole, frac := "0", Zeros(scale - |str|) + str;
      LeadingZeros(str, scale - |str|);
      LeadingZero(str, scale - |str|);
    } else {
      whole, frac := str[..|str| - scale], str[|str| - scale..];
      assert whole + frac == str;
    }
    assert mantissa >= 0 ==> "" + Placed(str, scale) == Placed(str, scale);
  }

  lemma PointedText(whole: string, frac: string)
    requires AllDigits(whole) && AllDigits(frac) && whole != ""
    ensures var t := whole + "." + frac; WellFormed(t) && IntegerPart(t) == whole && Fraction(t) == frac
  {
    PointAfterDigits(whole, frac);
    var t := whole + "." + frac;
    assert t[..|whole|] == whole && t[|whole| + 1..] == frac;
  }

  /** In figures: 1.25 at one place is 1.3, and 0.5 at none is 1. */
  lemma Examples()
    ensures Accepted("1.25", 1, "round") && ValueOf("1.25", 1, "round") == 13
    ensures Accepted("-0.5", 0, "round") && ValueOf("-0.5", 0, "round") == -1
  {
    hide NumberOf, WellFormed, IntegerPart, Fraction, TrimSpace;
    NumbersAre();
    PointedText("1", "25");
    PointedText("0", "5");
    assert "1" + "." + "25" == "1.25" && "0" + "." + "5" == "0.5" && "1" + "25" == "125" && "0" + "5" == "05";
    NothingToTrim("1.25");
    NothingToTrim("-0.5");
    assert Body("1.25") == "1.25" && Body("-0.5") == "0.5";
    assert Pow10(1) == 10;
  }

  lemma NumbersAre()
    ensures NumberOf("125") == 125 && NumberOf("05") == 5
  {
    hide NumberOf;
    EmptyNumber();
    NumberOfAppend("", '1');
    assert "" + ['1'] == "1";
    NumberOfAppend("1", '2');
    assert "1" + ['2'] == "12";
    NumberOfAppend("12", '5');
    assert "12" + ['5'] == "125";
    NumberOfAppend("", '0');
    assert "" + ['0'] == "0";
    NumberOfAppend("0", '5');
    assert "0" + ['5'] == "05";
  }

  lemma EmptyNumber()
    ensures NumberOf("") == 0
  {
  }
}
