/** Numbers as text: what a digit string is worth, and what a C string parser or printer should make of it. */
module NumberText {

  const UINT64_MAX: nat := 0xFFFF_FFFF_FFFF_FFFF

  // ---------- digits ----------

  /** The worth of a digit or letter, as both loops of `simple_strtoull` compute it; -1 for anything else. */
  function DigitOf(c: char): int {
    if '0' <= c <= '9' then c as int - '0' as int
    else if 'a' <= c <= 'z' then c as int - 'a' as int + 10
    else if 'A' <= c <= 'Z' then c as int - 'A' as int + 10
    else -1
  }

  predicate IsDigit(c: char, base: int) {
    0 <= DigitOf(c) < base
  }

  predicate AllDigits(s: seq<char>, base: int) {
    forall i :: 0 <= i < |s| ==> IsDigit(s[i], base)
  }

  /** The mathematical value of a digit string, most significant digit first. */
  function Value(s: seq<char>, base: int): (v: nat)
    requires base > 0 && AllDigits(s, base)
  {
    if s == [] then 0 else Value(s[..|s| - 1], base) * base + DigitOf(s[|s| - 1])
  }

  function DigitChar(d: nat, upper: bool): (c: char)
    requires d < 16
    ensures DigitOf(c) == d && c != '\0'
  {
    if d < 10 then (d + 48) as char else if upper then (d + 55) as char else (d + 87) as char
  }

  const LOWER := "0123456789abcdef"
  const UPPER := "0123456789ABCDEF"

  function Table(upper: bool): (t: seq<char>)
    ensures |t| == 16
  {
    if upper then UPPER else LOWER
  }

  /** The tables that `kprintf` indexes. */
  lemma DigitCharIsTable(d: nat)
    requires d < 16
    ensures DigitChar(d, false) == "0123456789abcdef"[d] && DigitChar(d, true) == "0123456789ABCDEF"[d]
  {
  }

  /** A digit of a base is a character from the front of either table, worth its place there. */
  lemma DigitMeaning(c: char, base: int)
    requires 2 <= base <= 16
    ensures IsDigit(c, base) <==> c in LOWER[..base] || c in UPPER[..base]
    ensures IsDigit(c, base) ==> c == LOWER[DigitOf(c)] || c == UPPER[DigitOf(c)]
  {
    var d := DigitOf(c);
    if IsDigit(c, base) {
      DigitCharIsTable(d);
      assert c == DigitChar(d, false) || c == DigitChar(d, true);
      assert LOWER[..base][d] == LOWER[d] && UPPER[..base][d] == UPPER[d];
    }
    if c in LOWER[..base] || c in UPPER[..base] {
      var k :| 0 <= k < base && (LOWER[k] == c || UPPER[k] == c);
      DigitCharIsTable(k);
    }
  }

  lemma TableDigit(c: char, k: nat, upper: bool)
    requires k < 16 && Table(upper)[k] == c
    ensures DigitOf(c) == k && DigitChar(k, upper) == c
  {
    DigitCharIsTable(k);
  }

  /** The two bases that `kprintf` prints in. */
  predicate PrintBase(base: int) {
    base == 10 || base == 16
  }

  function Quotient(v: nat, base: int): (q: nat)
    requires PrintBase(base)
    ensures q <= v && (v >= base ==> q < v)
  {
    if base == 10 then v / 10 else v / 16
  }

  function Remainder(v: nat, base: int): (d: nat)
    requires PrintBase(base)
    ensures d < base && v == Quotient(v, base) * base + d
  {
    if base == 10 then v % 10 else v % 16
  }

  /** The digits of `v` without leading zeros; "0" for zero. */
  function Digits(v: nat, base: int, upper: bool): (s: seq<char>)
    requires PrintBase(base)
    ensures s != [] && AllDigits(s, base)
    decreases v
  {
    var d := DigitChar(Remainder(v, base), upper);
    if Quotient(v, base) == 0 then [d] else Digits(Quotient(v, base), base, upper) + [d]
  }

  /** The last `n` hexadecimal digits of `v`, zero-padded. */
  function PaddedHex(v: nat, n: nat): (s: seq<char>)
    ensures |s| == n && AllDigits(s, 16)
    decreases n
  {
    if n == 0 then [] else PaddedHex(v / 16, n - 1) + [DigitChar(v % 16, false)]
  }

  lemma ValueAppend(s: seq<char>, c: char, base: int)
    requires base > 0 && AllDigits(s, base) && IsDigit(c, base)
    ensures AllDigits(s + [c], base) && Value(s + [c], base) == Value(s, base) * base + DigitOf(c)
  {
    assert (s + [c])[..|s|] == s;
  }

  /** The digits printed for `v` are worth `v`. */
  lemma {:induction false} ValueOfDigits(v: nat, base: int, upper: bool)
    requires PrintBase(base)
    ensures Value(Digits(v, base, upper), base) == v
    decreases v
  {
    var q, d := Quotient(v, base), DigitChar(Remainder(v, base), upper);
    if q == 0 {
      assert [] + [d] == [d];
      ValueAppend([], d, base);
    } else {
      ValueOfDigits(q, base, upper);
      ValueAppend(Digits(q, base, upper), d, base);
    }
  }

  // ---------- the text of a number ----------

  /** `t` is the text of `v` in `base`: characters of the table, no leading zero, worth `v`. */
  ghost predicate Writes(t: seq<char>, v: int, base: int, upper: bool)
    requires PrintBase(base)
  {
    && t != [] && (forall i :: 0 <= i < |t| ==> t[i] in Table(upper)[..base])
    && (|t| > 1 ==> t[0] != '0') && AllDigits(t, base) && Value(t, base) == v
  }

  lemma DigitsWrite(v: nat, base: int, upper: bool)
    requires PrintBase(base)
    ensures Writes(Digits(v, base, upper), v, base, upper)
  {
    ValueOfDigits(v, base, upper);
    DigitsFromTable(v, base, upper);
  }

  lemma {:induction false} DigitsFromTable(v: nat, base: int, upper: bool)
    requires PrintBase(base)
    ensures var t := Digits(v, base, upper);
      (forall i :: 0 <= i < |t| ==> t[i] in Table(upper)[..base]) && (|t| > 1 || v > 0 ==> t[0] != '0')
    decreases v
  {
    var q, r := Quotient(v, base), Remainder(v, base);
    DigitCharIsTable(r);
    assert Table(upper)[..base][r] == DigitChar(r, upper);
    if q > 0 { DigitsFromTable(q, base, upper); }
  }

  lemma {:induction false} LeadingDigitCounts(t: seq<char>, base: int, upper: bool)
    requires PrintBase(base) && t != [] && AllDigits(t, base)
    requires t[0] in Table(upper)[..base] && t[0] != '0'
    ensures Value(t, base) > 0
    decreases |t|
  {
    var s, d := t[..|t| - 1], t[|t| - 1];
    if s == [] {
      var k :| 0 <= k < base && Table(upper)[..base][k] == t[0];
      TableDigit(t[0], k, upper);
      assert Table(upper)[0] == '0';
    } else {
      LeadingDigitCounts(s, base, upper);
    }
  }

  /** There is one such text, and it is the one printed. */
  lemma WritesIff(t: seq<char>, v: nat, base: int, upper: bool)
    requires PrintBase(base)
    ensures Writes(t, v, base, upper) <==> t == Digits(v, base, upper)
  {
    DigitsWrite(v, base, upper);
    if Writes(t, v, base, upper) { WrittenOnce(t, v, base, upper); }
  }

  lemma {:induction false} WrittenOnce(t: seq<char>, v: nat, base: int, upper: bool)
    requires PrintBase(base) && Writes(t, v, base, upper)
    ensures t == Digits(v, base, upper)
    decreases |t|
  {
    var s, q := LastDigit(t, v, base, upper);
    if s != [] { WrittenOnce(s, q, base, upper); }
    Reassemble(s, q, t, v, base, upper);
  }

  lemma Reassemble(s: seq<char>, q: nat, t: seq<char>, v: nat, base: int, upper: bool)
    requires PrintBase(base) && q == Quotient(v, base) && t == s + [DigitChar(Remainder(v, base), upper)]
    requires if s == [] then q == 0 else q > 0 && s == Digits(q, base, upper)
    ensures t == Digits(v, base, upper)
  {
  }

  /** Taking the last character off leaves the text of the quotient, or nothing. */
  lemma LastDigit(t: seq<char>, v: nat, base: int, upper: bool) returns (s: seq<char>, q: nat)
    requires PrintBase(base) && Writes(t, v, base, upper)
    ensures |s| < |t| && q == Quotient(v, base) && t == s + [DigitChar(Remainder(v, base), upper)]
    ensures if s == [] then q == 0 else q > 0 && Writes(s, q, base, upper)
  {
    var d := t[|t| - 1];
    s := t[..|t| - 1];
    assert t == s + [d];
    FromTable(d, base, upper);
    ValueAppend(s, d, base);
    QuotientIs(v, base, Value(s, base), DigitOf(d));
    q := Quotient(v, base);
    if s != [] { LeadingDigitCounts(s, base, upper); }
  }

  lemma FromTable(c: char, base: int, upper: bool)
    requires PrintBase(base) && c in Table(upper)[..base]
    ensures IsDigit(c, base) && c == DigitChar(DigitOf(c), upper)
  {
    var k :| 0 <= k < base && Table(upper)[..base][k] == c;
    TableDigit(c, k, upper);
  }

  lemma QuotientIs(v: nat, base: int, q: nat, r: nat)
    requires PrintBase(base) && r < base && v == q * base + r
    ensures Quotient(v, base) == q && Remainder(v, base) == r
  {
  }

  function Pow(base: nat, k: nat): nat {
    if k == 0 then 1 else base * Pow(base, k - 1)
  }

  /** A number below `base` to the `k` has at most `k` digits. */
  lemma {:induction false} DigitsLength(v: nat, base: int, upper: bool, k: nat)
    requires PrintBase(base) && k > 0 && v < Pow(base, k)
    ensures |Digits(v, base, upper)| <= k
    decreases k
  {
    assert Pow(base, 0) == 1;
    if Quotient(v, base) > 0 && k > 1 {
      DigitsLength(Quotient(v, base), base, upper, k - 1);
    }
  }

  lemma {:induction false} PowAdd(base: nat, j: nat, k: nat)
    ensures Pow(base, j + k) == Pow(base, j) * Pow(base, k)
    decreases j
  {
    if j > 0 {
      PowAdd(base, j - 1, k);
      Associate(base, Pow(base, j - 1), Pow(base, k));
    }
  }

  lemma Associate(a: nat, b: nat, c: nat)
    ensures a * (b * c) == (a * b) * c
  {
  }

  /** Every 64-bit value has at most 20 decimal and 16 hexadecimal digits. */
  lemma DigitsFit(v: nat, base: int, upper: bool)
    requires v <= UINT64_MAX && PrintBase(base)
    ensures |Digits(v, base, upper)| <= if base == 10 then 20 else 16
  {
    if base == 10 {
      assert Pow(10, 5) == 100000;
      PowAdd(10, 5, 5);
      PowAdd(10, 10, 10);
      DigitsLength(v, 10, upper, 20);
    } else {
      assert Pow(16, 4) == 65536;
      PowAdd(16, 4, 4);
      PowAdd(16, 8, 8);
      DigitsLength(v, 16, upper, 16);
    }
  }

  lemma HexFits(v: nat)
    requires v <= UINT64_MAX
    ensures v < Pow(16, 16)
  {
    assert Pow(16, 4) == 65536;
    PowAdd(16, 4, 4);
    PowAdd(16, 8, 8);
  }

  // ---------- parsing ----------

  /** The character at `i`, with the terminating NUL past the end. */
  function At(s: seq<char>, i: nat): char {
    if i < |s| then s[i] else '\0'
  }

  predicate IsSpace(c: char) {
    c == ' ' || c == '\t' || c == '\n' || c == '\r' || c == 12 as char || c == 11 as char
  }

  function SkipSpace(s: seq<char>, i: nat): (r: nat)
    requires i <= |s|
    ensures i <= r <= |s| && (forall k :: i <= k < r ==> IsSpace(s[k])) && !IsSpace(At(s, r))
    decreases |s| - i
  {
    if IsSpace(At(s, i)) then SkipSpace(s, i + 1) else i
  }

  function SkipSign(s: seq<char>, i: nat): (r: nat)
    requires i <= |s|
    ensures i <= r <= |s|
  {
    if At(s, i) == '+' || At(s, i) == '-' then i + 1 else i
  }

  /** A hexadecimal prefix is consumed whether or not a digit follows it. */
  predicate HasPrefix(s: seq<char>, i: nat, base: int) {
    (base == 0 || base == 16) && At(s, i) == '0' && (At(s, i + 1) == 'x' || At(s, i + 1) == 'X')
  }

  /** Where the digits start and the base they are read in. */
  function Head(s: seq<char>, base: int): (r: (nat, int))
    ensures r.0 <= |s|
  {
    var i := SkipSign(s, SkipSpace(s, 0));
    if HasPrefix(s, i, base) then (i + 2, 16) else (i, if base == 0 then 10 else base)
  }

  function RunEnd(s: seq<char>, i: nat, base: int): (r: nat)
    requires i <= |s|
    ensures i <= r <= |s| && AllDigits(s[i..r], base) && !IsDigit(At(s, r), base)
    decreases |s| - i
  {
    if IsDigit(At(s, i), base) then
      var r := RunEnd(s, i + 1, base);
      assert forall k :: 0 < k < r - i ==> s[i..r][k] == s[i + 1..r][k - 1];
      r
    else i
  }

  function Saturate(v: nat): nat {
    if v > UINT64_MAX then UINT64_MAX else v
  }

  /** The value and end index that `simple_strtoull` reports: saturated, sign ignored, (0, 0) for a bad base. */
  function Parse(s: seq<char>, base: int): (nat, nat) {
    var (i, b) := Head(s, base);
    if b < 2 || b > 16 then (0, 0)
    else (Saturate(Value(s[i..RunEnd(s, i, b)], b)), RunEnd(s, i, b))
  }
}
