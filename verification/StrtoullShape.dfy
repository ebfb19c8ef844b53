/** What `simple_strtoull` makes of a string, in terms of the string's parts alone. */
module StrtoullShape {
  import opened NumberText

  /** The six characters skipped at the front: space, tab, newline, return, form feed and vertical tab. */
  const SPACES := [' ', '\t', '\n', '\r', 12 as char, 11 as char]

  /** A digit of base `b`, in either case. */
  predicate DigitIn(c: char, b: int)
    requires 2 <= b <= 16
  {
    c in LOWER[..b] || c in UPPER[..b]
  }

  /** A string in parts: space, sign, prefix, digits of base `b`, and the rest. */
  datatype Parts = Parts(space: seq<char>, sign: seq<char>, prefix: seq<char>, digits: seq<char>, tail: seq<char>)

  function FromDigits(p: Parts): seq<char> {
    p.digits + p.tail
  }

  function FromPrefix(p: Parts): seq<char> {
    p.prefix + FromDigits(p)
  }

  function FromSign(p: Parts): seq<char> {
    p.sign + FromPrefix(p)
  }

  function Whole(p: Parts): seq<char> {
    p.space + FromSign(p)
  }

  /** How many characters come before the digits. */
  function Before(p: Parts): nat {
    |p.space| + |p.sign| + |p.prefix|
  }

  /** The base the digits are read in. */
  function BaseOf(p: Parts, base: int): int {
    if p.prefix != "" then 16 else if base == 0 then 10 else base
  }

  predicate StartsWith(s: seq<char>, chars: seq<char>) {
    s != [] && s[0] in chars
  }

  predicate Sign(s: seq<char>) {
    s == "" || s == "+" || s == "-"
  }

  predicate Prefix(s: seq<char>) {
    s == "" || s == "0x" || s == "0X"
  }

  /** Each part has the right characters, and takes all that it could. */
  ghost predicate Proper(p: Parts, base: int) {
    var b := BaseOf(p, base);
    && 2 <= b <= 16
    && (forall i :: 0 <= i < |p.space| ==> p.space[i] in SPACES)
    && Sign(p.sign) && Prefix(p.prefix) && (p.prefix != "" ==> base == 0 || base == 16)
    && (forall i :: 0 <= i < |p.digits| ==> DigitIn(p.digits[i], b))
    && (p.tail != [] ==> !DigitIn(p.tail[0], b))
    && !StartsWith(FromSign(p), SPACES)
    && (p.sign == "" ==> !StartsWith(FromPrefix(p), "+-"))
    && (p.prefix == "" && (base == 0 || base == 16) ==> !Prefixed(FromDigits(p)))
  }

  predicate Prefixed(s: seq<char>) {
    |s| > 1 && s[0] == '0' && (s[1] == 'x' || s[1] == 'X')
  }

  // ---------- from the parts to the result ----------

  lemma SpaceMeaning(c: char)
    ensures IsSpace(c) <==> c in SPACES
  {
    assert SPACES[0] == ' ' && SPACES[1] == '\t' && SPACES[2] == '\n' && SPACES[3] == '\r';
    assert SPACES[4] == 12 as char && SPACES[5] == 11 as char;
  }

  lemma {:induction false} SkipSpaceIs(s: seq<char>, i: nat, n: nat)
    requires i <= n <= |s| && (forall k :: i <= k < n ==> IsSpace(s[k])) && !IsSpace(At(s, n))
    ensures SkipSpace(s, i) == n
    decreases n - i
  {
    if i < n { SkipSpaceIs(s, i + 1, n); }
  }

  lemma {:induction false} RunEndIs(s: seq<char>, i: nat, n: nat, b: int)
    requires i <= n <= |s| && (forall k :: i <= k < n ==> IsDigit(s[k], b)) && !IsDigit(At(s, n), b)
    ensures RunEnd(s, i, b) == n
    decreases n - i
  {
    if i < n { RunEndIs(s, i + 1, n, b); }
  }

  lemma AfterSpace(p: Parts, base: int)
    requires Proper(p, base)
    ensures SkipSpace(Whole(p), 0) == |p.space|
  {
    SpaceAt(p.space, FromSign(p));
  }

  lemma SpaceAt(sp: seq<char>, r: seq<char>)
    requires (forall i :: 0 <= i < |sp| ==> sp[i] in SPACES) && !StartsWith(r, SPACES)
    ensures SkipSpace(sp + r, 0) == |sp|
  {
    var s := sp + r;
    forall k | 0 <= k < |sp| ensures IsSpace(s[k]) {
      SpaceMeaning(sp[k]);
    }
    if r != [] { SpaceMeaning(r[0]); }
    SkipSpaceIs(s, 0, |sp|);
  }

  lemma AfterSign(p: Parts, base: int)
    requires Proper(p, base)
    ensures SkipSign(Whole(p), |p.space|) == |p.space| + |p.sign|
  {
    SignAt(p.space, p.sign, FromPrefix(p));
  }

  lemma SignAt(sp: seq<char>, sign: seq<char>, r: seq<char>)
    requires Sign(sign) && (sign == "" ==> !StartsWith(r, "+-"))
    ensures SkipSign(sp + (sign + r), |sp|) == |sp| + |sign|
  {
    var t := sp + (sign + r);
    if sign != "" {
      assert t[|sp|] == sign[0];
    } else if r != [] {
      assert t[|sp|] == r[0] && r[0] != "+-"[0] && r[0] != "+-"[1];
    }
  }

  lemma AfterPrefix(p: Parts, base: int)
    requires Proper(p, base)
    ensures HasPrefix(Whole(p), |p.space| + |p.sign|, base) <==> p.prefix != ""
  {
    Regroup(p.space, p.sign, FromPrefix(p));
    PrefixAt(p.space + p.sign, p.prefix, FromDigits(p), base);
  }

  lemma Regroup(a: seq<char>, b: seq<char>, r: seq<char>)
    ensures a + (b + r) == (a + b) + r
  {
  }

  lemma PrefixAt(f: seq<char>, prefix: seq<char>, r: seq<char>, base: int)
    requires Prefix(prefix) && (prefix != "" ==> base == 0 || base == 16)
    requires prefix == "" && (base == 0 || base == 16) ==> !Prefixed(r)
    ensures HasPrefix(f + (prefix + r), |f|, base) <==> prefix != ""
  {
    var t := f + (prefix + r);
    assert forall k: nat :: k < |prefix + r| ==> t[|f| + k] == (prefix + r)[k];
  }

  lemma DigitsEnd(p: Parts, base: int)
    requires Proper(p, base)
    ensures var s, h, b := Whole(p), Before(p), BaseOf(p, base);
      h + |p.digits| <= |s| && RunEnd(s, h, b) == h + |p.digits| && s[h..h + |p.digits|] == p.digits
  {
    DropThree(p.space, p.sign, p.prefix, FromDigits(p));
    DigitsAt(Whole(p), Before(p), p.digits, p.tail, BaseOf(p, base));
  }

  lemma DropOne(a: seq<char>, r: seq<char>, s: seq<char>, n: nat)
    requires n <= |s| && s[n..] == a + r
    ensures n + |a| <= |s| && s[n + |a|..] == r
  {
    assert s[n + |a|..] == s[n..][|a|..];
  }

  lemma DropThree(a: seq<char>, b: seq<char>, c: seq<char>, r: seq<char>)
    ensures var s, n := a + (b + (c + r)), |a| + |b| + |c|; n <= |s| && s[n..] == r
  {
    var s := a + (b + (c + r));
    DropOne(a, b + (c + r), s, 0);
    DropOne(b, c + r, s, |a|);
    DropOne(c, r, s, |a| + |b|);
  }

  lemma DigitsAt(s: seq<char>, h: nat, d: seq<char>, tail: seq<char>, b: int)
    requires h <= |s| && s[h..] == d + tail
    requires 2 <= b <= 16 && (forall i :: 0 <= i < |d| ==> DigitIn(d[i], b)) && (tail != [] ==> !DigitIn(tail[0], b))
    ensures h + |d| <= |s| && RunEnd(s, h, b) == h + |d| && s[h..h + |d|] == d
  {
    forall k | h <= k < h + |d| ensures IsDigit(s[k], b) {
      assert s[k] == s[h..][k - h] == d[k - h];
      DigitMeaning(s[k], b);
    }
    if tail != [] {
      assert s[h + |d|] == s[h..][|d|] == tail[0];
      DigitMeaning(tail[0], b);
    }
    RunEndIs(s, h, h + |d|, b);
    assert s[h..h + |d|] == s[h..][..|d|];
  }

  lemma HeadOfParts(p: Parts, base: int)
    requires Proper(p, base)
    ensures Head(Whole(p), base) == (Before(p), BaseOf(p, base))
  {
    AfterSpace(p, base);
    AfterSign(p, base);
    AfterPrefix(p, base);
  }

  /** The value reported is that of the digits `d`, or 2^64 - 1 if that is less, and the end reported is `end`. */
  ghost predicate Reports(r: (nat, nat), d: seq<char>, b: int, end: nat) {
    b > 0 && AllDigits(d, b) && r.1 == end
    && r.0 == if Value(d, b) <= 0xFFFF_FFFF_FFFF_FFFF then Value(d, b) else 0xFFFF_FFFF_FFFF_FFFF
  }

  lemma ParseFrom(s: seq<char>, base: int, h: nat, b: int, d: seq<char>)
    requires 2 <= b <= 16 && h + |d| <= |s| && Head(s, base) == (h, b) && RunEnd(s, h, b) == h + |d|
    requires s[h..h + |d|] == d
    ensures Reports(Parse(s, base), d, b, h + |d|)
  {
  }

  /**
    For every string in parts: the value of the digits, saturated, whatever
    the space, sign and prefix, and the index of the first character after them.
   */
  lemma ParseOfParts(p: Parts, base: int)
    requires Proper(p, base)
    ensures Reports(Parse(Whole(p), base), p.digits, BaseOf(p, base), Before(p) + |p.digits|)
  {
    HeadOfParts(p, base);
    DigitsEnd(p, base);
    ParseFrom(Whole(p), base, Before(p), BaseOf(p, base), p.digits);
  }

  /** A base that is not 0 and not from 2 to 16 gives 0 and the start of the string. */
  lemma BadBase(s: seq<char>, base: int)
    requires base != 0 && !(2 <= base <= 16)
    ensures Parse(s, base) == (0, 0)
  {
  }

  /** `%p` text: sixteen characters of the lower-case table, worth the pointer. */
  lemma {:induction false} PaddedFromTable(v: nat, n: nat)
    ensures |PaddedHex(v, n)| == n && forall i :: 0 <= i < n ==> PaddedHex(v, n)[i] in LOWER
    decreases n
  {
    if n > 0 {
      PaddedFromTable(v / 16, n - 1);
      DigitCharIsTable(v % 16);
    }
  }

  // ---------- every string has parts ----------

  lemma SpacesSkipped(s: seq<char>, i: nat)
    requires i == SkipSpace(s, 0)
    ensures (forall k :: 0 <= k < i ==> s[..i][k] in SPACES) && !StartsWith(s[i..], SPACES)
  {
    forall k | 0 <= k < i ensures s[..i][k] in SPACES {
      SpaceMeaning(s[k]);
    }
    if i < |s| { SpaceMeaning(s[i]); }
  }

  lemma SignSkipped(s: seq<char>, i: nat, j: nat)
    requires i <= |s| && j == SkipSign(s, i)
    ensures Sign(s[i..j]) && (s[i..j] == "" ==> !StartsWith(s[j..], "+-"))
  {
    if j == i {
      assert s[i..j] == "";
      if i < |s| { assert s[i..][0] == s[i]; }
    } else {
      assert s[i..j] == [s[i]];
    }
  }

  lemma PrefixSkipped(s: seq<char>, j: nat, h: nat, base: int)
    requires j <= |s| && h == if HasPrefix(s, j, base) then j + 2 else j
    ensures h <= |s| && Prefix(s[j..h]) && (s[j..h] != "" <==> HasPrefix(s, j, base))
    ensures s[j..h] == "" && (base == 0 || base == 16) ==> !Prefixed(s[h..])
  {
    if h == j {
      assert s[j..h] == "";
    } else {
      assert s[j..h] == [s[j], s[j + 1]];
    }
  }

  lemma DigitsTaken(s: seq<char>, h: nat, e: nat, b: int)
    requires h <= |s| && 2 <= b <= 16 && e == RunEnd(s, h, b)
    ensures (forall k :: 0 <= k < e - h ==> DigitIn(s[h..e][k], b)) && (s[e..] != [] ==> !DigitIn(s[e..][0], b))
  {
    forall k | 0 <= k < e - h ensures DigitIn(s[h..e][k], b) {
      DigitMeaning(s[h..e][k], b);
    }
    if e < |s| { DigitMeaning(s[e], b); }
  }

  /** So `ParseOfParts` speaks of every string. */
  lemma EveryStringHasParts(s: seq<char>, base: int)
    requires base == 0 || 2 <= base <= 16
    ensures exists p :: Whole(p) == s && Proper(p, base)
  {
    var p := CutUp(s, base);
  }

  lemma CutUp(s: seq<char>, base: int) returns (p: Parts)
    requires base == 0 || 2 <= base <= 16
    ensures Whole(p) == s && Proper(p, base)
  {
    var i := SkipSpace(s, 0);
    var j := SkipSign(s, i);
    var h := if HasPrefix(s, j, base) then j + 2 else j;
    SignSkipped(s, i, j);
    PrefixSkipped(s, j, h, base);
    var b := if h > j then 16 else if base == 0 then 10 else base;
    var e := RunEnd(s, h, b);
    p := Parts(s[..i], s[i..j], s[j..h], s[h..e], s[e..]);
    SpacesSkipped(s, i);
    DigitsTaken(s, h, e, b);
    SuffixesOf(s, i, j, h, e, p);
    ProperBy(s, i, j, h, e, p, base, b);
  }

  lemma Glue(s: seq<char>, i: nat, j: nat)
    requires i <= j <= |s|
    ensures s[i..j] + s[j..] == s[i..]
  {
  }

  lemma SuffixesOf(s: seq<char>, i: nat, j: nat, h: nat, e: nat, p: Parts)
    requires i <= j <= h <= e <= |s| && p == Parts(s[..i], s[i..j], s[j..h], s[h..e], s[e..])
    ensures FromDigits(p) == s[h..] && FromPrefix(p) == s[j..] && FromSign(p) == s[i..] && Whole(p) == s
  {
    Glue(s, h, e);
    Glue(s, j, h);
    Glue(s, i, j);
    assert s[..i] + s[i..] == s;
  }

  lemma ProperBy(s: seq<char>, i: nat, j: nat, h: nat, e: nat, p: Parts, base: int, b: int)
    requires i <= j <= h <= e <= |s| && FromDigits(p) == s[h..] && FromPrefix(p) == s[j..] && FromSign(p) == s[i..]
    requires !StartsWith(s[i..], SPACES) && (p.sign == "" ==> !StartsWith(s[j..], "+-"))
    requires p.prefix == "" && (base == 0 || base == 16) ==> !Prefixed(s[h..])
    requires b == BaseOf(p, base) && 2 <= b <= 16
    requires (forall i :: 0 <= i < |p.space| ==> p.space[i] in SPACES) && Sign(p.sign)
    requires Prefix(p.prefix) && (p.prefix != "" ==> base == 0 || base == 16)
    requires (forall i :: 0 <= i < |p.digits| ==> DigitIn(p.digits[i], b)) && (p.tail != [] ==> !DigitIn(p.tail[0], b))
    ensures Proper(p, base)
  {
  }
}
