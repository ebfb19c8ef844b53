/** The size text of `boot_debug_copy` in `src/boot/kernel.c`. */
module BootText {
  import opened NumberText

  /** The cast of a 64-bit size to a 32-bit `int`. */
  function ToInt(size: nat): int {
    var low := size % 0x1_0000_0000;
    if low < 0x8000_0000 then low else low - 0x1_0000_0000
  }

  /** What ends up in the buffer: nothing at all when the cast is negative. */
  function SizeText(size: nat): seq<char> {
    if ToInt(size) < 0 then [] else Digits(ToInt(size), 10, false)
  }

  /** The text is the decimal text of the size, the one `kprintf` gives for `%d`, exactly below 2^31. */
  lemma SizeTextRightIff(size: nat)
    ensures SizeText(size) == Digits(size, 10, false) <==> size < 0x8000_0000
  {
    if size < 0x8000_0000 {
      assert ToInt(size) == size;
    } else if ToInt(size) >= 0 {
      assert ToInt(size) < 0x8000_0000;
      ValueOfDigits(ToInt(size), 10, false);
      ValueOfDigits(size, 10, false);
    }
  }

  /** For every size: the one decimal text of its low 32 bits, or nothing if the highest of these is set. */
  lemma SizeTextIs(size: nat, t: seq<char>)
    ensures SizeText(size) == t <==>
      var low := size % 0x1_0000_0000;
      if low < 0x8000_0000 then Writes(t, low, 10, false) else t == []
  {
    if size % 0x1_0000_0000 < 0x8000_0000 { WritesIff(t, size % 0x1_0000_0000, 10, false); }
  }

  /** The digits of `v`, least significant first; none for zero. */
  function LowFirst(v: nat): seq<char> {
    if v == 0 then [] else [DigitChar(v % 10, false)] + LowFirst(v / 10)
  }

  function Reversed(s: seq<char>): seq<char> {
    seq(|s|, i requires 0 <= i < |s| => s[|s| - 1 - i])
  }

  /** The loop's digits, reversed, are the printer's digits. */
  lemma {:induction false} ReversedLowFirst(v: nat)
    requires v > 0
    ensures Reversed(LowFirst(v)) == Digits(v, 10, false)
  {
    var d, t := DigitChar(v % 10, false), LowFirst(v / 10);
    assert Reversed([d] + t) == Reversed(t) + [d];
    if v / 10 > 0 { ReversedLowFirst(v / 10); }
  }

  lemma {:induction false} LowFirstLength(v: nat, k: nat)
    requires v < Pow(10, k)
    ensures |LowFirst(v)| <= k
    decreases k
  {
    if v > 0 && k > 0 { LowFirstLength(v / 10, k - 1); }
  }

  lemma LowestFirst(done: seq<char>, v: nat)
    requires v > 0
    ensures done + LowFirst(v) == (done + [DigitChar(v % 10, false)]) + LowFirst(v / 10)
    ensures |done + LowFirst(v)| > |done|
  {
  }

  /** Writes the digits backwards from the front of the buffer. */
  method WriteLowFirst(buf: array<char>, size: nat) returns (i: nat)
    requires buf.Length == 16 && size < 0x8000_0000
    modifies buf
    ensures i <= 10 && buf[..i] == LowFirst(size)
  {
    assert Pow(10, 5) == 100000;
    PowAdd(10, 5, 5);
    LowFirstLength(size, 10);
    ghost var all := LowFirst(size);
    var tmp := size;
    i := 0;
    while tmp > 0
      invariant i <= 10 && all == buf[..i] + LowFirst(tmp)
      decreases tmp
    {
      ghost var done := buf[..i];
      LowestFirst(done, tmp);
      buf[i] := DigitChar(tmp % 10, false);
      assert buf[..i + 1] == done + [DigitChar(tmp % 10, false)];
      tmp := tmp / 10;
      i := i + 1;
    }
  }

  /** Swaps the first `n` characters end for end. */
  method ReverseInPlace(buf: array<char>, n: nat)
    requires n < buf.Length
    modifies buf
    ensures buf[..n] == Reversed(old(buf[..n])) && buf[n..] == old(buf[n..])
  {
    var j := 0;
    while j < n / 2
      invariant 0 <= j <= n / 2
      invariant forall k :: 0 <= k < j ==> buf[k] == old(buf[n - 1 - k]) && buf[n - 1 - k] == old(buf[k])
      invariant forall k :: j <= k < n - j ==> buf[k] == old(buf[k])
      invariant buf[n..] == old(buf[n..])
    {
      var c := buf[j];
      buf[j] := buf[n - j - 1];
      buf[n - j - 1] := c;
      j := j + 1;
    }
    assert buf[..n] == Reversed(old(buf[..n]));
  }

  method WriteSize(buf: array<char>, size: nat) returns (i: nat)
    requires buf.Length == 16
    modifies buf
    ensures i <= 10 && buf[..i] == SizeText(size) && buf[i] == '\0'
  {
    var tmp := ToInt(size);
    i := 0;
    if tmp == 0 {
      buf[0], buf[1] := '0', '\0';
      assert buf[..1] == Digits(0, 10, false);
      return 1;
    }
    if tmp > 0 {
      i := WriteLowFirst(buf, tmp);
      ReversedLowFirst(tmp);
    }
    ghost var digits := buf[..i];
    buf[i] := '\0';
    assert buf[..i] == digits;
    ReverseInPlace(buf, i);
  }
}
