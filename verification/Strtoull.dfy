/** `simple_strtoull` of `src/lib/stdlib_stubs.c`, and that it inverts the printers. */
module StringToNumber {
  import opened NumberText

  /** The overflow test: exact, for every base and digit. */
  lemma CutoffIsExact(result: nat, base: int, digit: int)
    requires 2 <= base <= 16 && 0 <= digit < base
    ensures result > UINT64_MAX / base || (result == UINT64_MAX / base && digit > UINT64_MAX % base)
       <==> result * base + digit > UINT64_MAX
  {
    var q, r := UINT64_MAX / base, UINT64_MAX % base;
    Division(UINT64_MAX, base, q, r);
    if result > q {
      MulMono(q + 1, result, base);
    } else if result < q {
      MulMono(result + 1, q, base);
    }
  }

  lemma Division(n: nat, base: int, q: int, r: int)
    requires base > 0 && q == n / base && r == n % base
    ensures n == q * base + r && 0 <= r < base
  {
  }

  lemma MulMono(a: int, b: int, base: int)
    requires a <= b && base > 0
    ensures a * base <= b * base
  {
  }

  lemma GrowsByBase(v: nat, base: int)
    requires base > 0
    ensures v * base >= v
  {
  }

  lemma ValueGrows(s: seq<char>, i: nat, j: nat, base: int)
    requires i < j <= |s| && base > 0 && AllDigits(s[i..j], base)
    ensures AllDigits(s[i..j - 1], base)
    ensures Value(s[i..j], base) == Value(s[i..j - 1], base) * base + DigitOf(s[j - 1])
    ensures Value(s[i..j], base) >= Value(s[i..j - 1], base)
  {
    var t, u := s[i..j], s[i..j - 1];
    assert t[|t| - 1] == s[j - 1] && t[..|t| - 1] == u;
    forall k | 0 <= k < |u| ensures IsDigit(u[k], base) {
      assert IsDigit(t[k], base);
    }
    GrowsByBase(Value(s[i..j - 1], base), base);
  }

  lemma DigitsExtend(s: seq<char>, i: nat, j: nat, base: int)
    requires i <= j < |s| && AllDigits(s[i..j], base) && IsDigit(s[j], base)
    ensures AllDigits(s[i..j + 1], base)
  {
    assert s[i..j + 1] == s[i..j] + [s[j]];
  }

  /** The inner loop after an overflow: consumes the rest of the digit run. */
  method SkipDigits(s: seq<char>, from: nat, base: int, ghost start: nat) returns (i: nat)
    requires start <= from < |s| && 2 <= base <= 16 && AllDigits(s[start..from + 1], base)
    requires Value(s[start..from + 1], base) > UINT64_MAX
    requires RunEnd(s, start, base) == RunEnd(s, from, base) && IsDigit(s[from], base)
    ensures i == RunEnd(s, start, base) && AllDigits(s[start..i], base) && Value(s[start..i], base) > UINT64_MAX
  {
    i := from + 1;
    while i < |s| && IsDigit(s[i], base)
      invariant from < i <= |s| && AllDigits(s[start..i], base) && Value(s[start..i], base) > UINT64_MAX
      invariant RunEnd(s, start, base) == RunEnd(s, i, base)
    {
      DigitsExtend(s, start, i, base);
      ValueGrows(s, start, i + 1, base);
      i := i + 1;
    }
  }

  /** The main digit loop. */
  method ScanDigits(s: seq<char>, start: nat, base: int) returns (result: nat, i: nat)
    requires start <= |s| && 2 <= base <= 16
    ensures i == RunEnd(s, start, base) && result == Saturate(Value(s[start..i], base))
  {
    var cutoff, cutlim := UINT64_MAX / base, UINT64_MAX % base;
    result, i := 0, start;
    while i < |s| && IsDigit(s[i], base)
      invariant start <= i <= |s| && AllDigits(s[start..i], base)
      invariant result == Value(s[start..i], base) <= UINT64_MAX
      invariant RunEnd(s, start, base) == RunEnd(s, i, base)
    {
      var digit := DigitOf(s[i]);
      CutoffIsExact(result, base, digit);
      DigitsExtend(s, start, i, base);
      ValueGrows(s, start, i + 1, base);
      if result > cutoff || (result == cutoff && digit > cutlim) {
        i := SkipDigits(s, i, base, start);
        return UINT64_MAX, i;
      }
      result := result * base + digit;
      i := i + 1;
    }
  }

  /** Whitespace, sign and prefix. */
  method FindDigits(s: seq<char>, givenBase: int) returns (i: nat, base: int)
    ensures (i, base) == Head(s, givenBase)
  {
    i, base := 0, givenBase;
    while IsSpace(At(s, i))
      invariant i <= |s| && SkipSpace(s, 0) == SkipSpace(s, i)
      decreases |s| - i
    {
      i := i + 1;
    }
    if At(s, i) == '+' {
      i := i + 1;
    } else if At(s, i) == '-' {
      i := i + 1;
    }
    if HasPrefix(s, i, base) {
      base := 16;
      i := i + 2;
    } else if base == 0 {
      base := 10;
    }
  }

  /** For every string and base: the saturated value of the longest digit run, and where it ends. */
  method Strtoull(s: seq<char>, givenBase: int) returns (result: nat, end: nat)
    ensures (result, end) == Parse(s, givenBase)
  {
    var i, base := FindDigits(s, givenBase);
    if base < 2 || base > 16 {
      return 0, 0;
    }
    result, end := ScanDigits(s, i, base);
  }

  /** The reported run cannot be made longer at either end: it starts at the head and stops at a non-digit. */
  lemma ParseIsLongestRun(s: seq<char>, base: int)
    requires base == 0 || 2 <= base <= 16
    ensures var (i, b) := Head(s, base); var (v, e) := Parse(s, base);
      && i <= e <= |s| && AllDigits(s[i..e], b) && (e < |s| ==> !IsDigit(s[e], b))
      && v == (if Value(s[i..e], b) <= UINT64_MAX then Value(s[i..e], b) else UINT64_MAX)
  {
  }

  // ---------- printing and parsing back ----------

  lemma {:induction false} RunIsAll(s: seq<char>, i: nat, base: int)
    requires i <= |s| && AllDigits(s[i..], base)
    ensures RunEnd(s, i, base) == |s|
    decreases |s| - i
  {
    if i < |s| {
      assert s[i] == s[i..][0];
      var t := s[i + 1..];
      forall k | 0 <= k < |t| ensures IsDigit(t[k], base) {
        assert t[k] == s[i..][k + 1];
      }
      RunIsAll(s, i + 1, base);
    }
  }

  /** A digit string is read whole: no space, sign or prefix can be found in it. */
  lemma HeadOfDigits(s: seq<char>, base: int)
    requires s != [] && (if base == 0 then AllDigits(s, 10) else 2 <= base <= 16 && AllDigits(s, base))
    ensures Head(s, base) == (0, if base == 0 then 10 else base)
  {
    assert IsDigit(s[0], 16);
    if |s| > 1 { assert IsDigit(s[1], 16); }
  }

  lemma ParseDigits(s: seq<char>, base: int, b: int)
    requires s != [] && 2 <= b <= 16 && AllDigits(s, b) && (base == b || (base == 0 && b == 10))
    ensures Parse(s, base) == (Saturate(Value(s, b)), |s|)
  {
    HeadOfDigits(s, base);
    assert s[0..] == s && s[0..|s|] == s;
    RunIsAll(s, 0, b);
  }

  /** `%llu` text parsed in base 0 or 10 gives the value back, for every 64-bit value. */
  lemma DecimalRoundTrip(v: nat, base: int)
    requires v <= UINT64_MAX && (base == 0 || base == 10)
    ensures var t := Digits(v, 10, false); Parse(t, base) == (v, |t|)
  {
    ParseDigits(Digits(v, 10, false), base, 10);
    ValueOfDigits(v, 10, false);
  }

  /** `%llx` and `%llX` text parsed in base 16 gives the value back. */
  lemma HexRoundTrip(v: nat, upper: bool)
    requires v <= UINT64_MAX
    ensures var t := Digits(v, 16, upper); Parse(t, 16) == (v, |t|)
  {
    ParseDigits(Digits(v, 16, upper), 16, 16);
    ValueOfDigits(v, 16, upper);
  }

  /** Zero-padded digits add nothing to the value. */
  lemma {:induction false} ValueOfPadded(v: nat, n: nat)
    requires v < Pow(16, n)
    ensures Value(PaddedHex(v, n), 16) == v
    decreases n
  {
    if n > 0 {
      ValueOfPadded(v / 16, n - 1);
      ValueAppend(PaddedHex(v / 16, n - 1), DigitChar(v % 16, false), 16);
    }
  }

  /** `%p` text parsed in base 0 gives the pointer back. */
  lemma PointerRoundTrip(v: nat)
    requires v <= UINT64_MAX
    ensures Parse("0x" + PaddedHex(v, 16), 0) == (v, 18)
  {
    var d := PaddedHex(v, 16);
    var t := "0x" + d;
    assert t[0] == '0' && t[1] == 'x' && t[2..] == d && t[2..18] == d;
    assert Head(t, 0) == (2, 16);
    RunIsAll(t, 2, 16);
    HexFits(v);
    ValueOfPadded(v, 16);
  }
}
