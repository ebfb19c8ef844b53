/** The conversions of `kprintf` in `src/lib/stdio.c`, and its bounded buffer. */
module Printing {
  import opened NumberText

  /** What is still to be written of `v`; nothing once it is down to zero. */
  function Pending(v: nat, base: int, upper: bool): seq<char>
    requires PrintBase(base)
  {
    if v == 0 then [] else Digits(v, base, upper)
  }

  /** Writing one digit in front of those written keeps the whole text. */
  lemma OneDigit(v: nat, base: int, upper: bool, done: seq<char>)
    requires PrintBase(base)
    ensures Digits(v, base, upper) + done
      == Pending(Quotient(v, base), base, upper) + ([DigitChar(Remainder(v, base), upper)] + done)
  {
  }

  method WriteDigit(buf: array<char>, p: nat, v: nat, base: int, upper: bool) returns (q: nat, rest: nat)
    requires 0 < p <= 20 && buf.Length == 21 && buf[20] == '\0' && PrintBase(base)
    modifies buf
    ensures q == p - 1 && rest == Quotient(v, base) && buf[20] == '\0'
    ensures buf[q..20] == [DigitChar(Remainder(v, base), upper)] + old(buf[p..20])
  {
    q := p - 1;
    buf[q] := DigitChar(Remainder(v, base), upper);
    rest := Quotient(v, base);
  }

  /** The `%u`, `%x` and `%X` loops: fill a 21-byte buffer from the back and never leave it. */
  method FillNumber(buf: array<char>, value: nat, base: int, upper: bool) returns (p: nat)
    requires buf.Length == 21 && value <= UINT64_MAX && PrintBase(base)
    modifies buf
    ensures p < 20 && buf[p..20] == Digits(value, base, upper) && buf[20] == '\0'
  {
    DigitsFit(value, base, upper);
    ghost var all := Digits(value, base, upper);
    buf[20] := '\0';
    p := 20;
    assert buf[p..20] == [] && all + [] == all;
    OneDigit(value, base, upper, []);
    var v;
    p, v := WriteDigit(buf, p, value, base, upper);
    while v > 0
      invariant p <= 19 && buf[20] == '\0'
      invariant all == Pending(v, base, upper) + buf[p..20]
    {
      OneDigit(v, base, upper, buf[p..20]);
      p, v := WriteDigit(buf, p, v, base, upper);
    }
  }

  /** The text of a signed value: a minus sign before the digits of its magnitude. */
  function SignedText(v: int): seq<char> {
    if v < 0 then ['-'] + Digits(-v, 10, false) else Digits(v, 10, false)
  }

  const INT64_MAX: int := 0x7FFF_FFFF_FFFF_FFFF

  /** Magnitudes up to 2^63 - 1 have at most 19 digits, which leaves room for the sign. */
  lemma SignedFits(v: nat)
    requires v <= INT64_MAX
    ensures |Digits(v, 10, false)| <= 19
  {
    assert Pow(10, 5) == 100000 && Pow(10, 4) == 10000;
    PowAdd(10, 5, 5);
    PowAdd(10, 5, 4);
    PowAdd(10, 10, 9);
    DigitsLength(v, 10, false, 19);
  }

  /** The `%d` and `%i` loop. */
  method FillSigned(buf: array<char>, value: int) returns (p: nat)
    requires buf.Length == 21 && -INT64_MAX <= value <= INT64_MAX
    modifies buf
    ensures p < 20 && buf[p..20] == SignedText(value) && buf[20] == '\0'
  {
    var negative := value < 0;
    var magnitude := if negative then -value else value;
    SignedFits(magnitude);
    p := FillNumber(buf, magnitude, 10, false);
    if negative {
      ghost var done := buf[p..20];
      p := p - 1;
      buf[p] := '-';
      assert buf[p..20] == ['-'] + done;
    }
  }

  /** The `%p` loop: always sixteen digits for a 64-bit pointer. */
  method FillPointer(buf: array<char>, value: nat) returns (p: nat)
    requires buf.Length == 21 && value <= UINT64_MAX
    modifies buf
    ensures p == 4 && buf[p..20] == PaddedHex(value, 16) && buf[20] == '\0'
  {
    buf[20] := '\0';
    var v: nat, count: nat := value, 0;
    p := 20;
    HexFits(value);
    assert buf[p..20] == [];
    while v > 0 || count < 16
      invariant count <= 16 && p == 20 - count && buf[20] == '\0'
      invariant count == 16 ==> v == 0
      invariant PaddedHex(value, 16) == PaddedHex(v, 16 - count) + buf[p..20]
      invariant v < Pow(16, 16 - count)
      decreases 16 - count
    {
      PaddedBound(v, 16 - count);
      PaddedStep(v, 16 - count, buf[p..20]);
      p, v := WriteDigit(buf, p, v, 16, false);
      count := count + 1;
    }
  }

  lemma PaddedBound(v: nat, n: nat)
    requires n > 0 && v < Pow(16, n)
    ensures v / 16 < Pow(16, n - 1) && (n == 1 ==> v / 16 == 0)
  {
    assert Pow(16, 0) == 1;
  }

  lemma PaddedStep(v: nat, n: nat, done: seq<char>)
    requires n > 0
    ensures PaddedHex(v, n) + done == PaddedHex(v / 16, n - 1) + ([DigitChar(v % 16, false)] + done)
  {
  }

  /** `strlen` over memory that holds a NUL at or after `p`. */
  method Strlen(buf: array<char>, p: nat) returns (len: nat)
    requires exists z :: p <= z < buf.Length && buf[z] == '\0'
    ensures p + len < buf.Length && buf[p + len] == '\0' && '\0' !in buf[p..p + len]
  {
    len := 0;
    ghost var z :| p <= z < buf.Length && buf[z] == '\0';
    while buf[p + len] != '\0'
      invariant p + len <= z && '\0' !in buf[p..p + len]
      decreases z - len
    {
      assert buf[p..p + len + 1] == buf[p..p + len] + [buf[p + len]];
      len := len + 1;
    }
  }

  lemma NoNulInDigits(s: seq<char>, base: int)
    requires AllDigits(s, base)
    ensures '\0' !in s
  {
    forall i | 0 <= i < |s| ensures s[i] != '\0' {
      assert IsDigit(s[i], base);
    }
  }

  // ---------- formats ----------

  /** A variadic argument; `Text` is the contents of a NUL-terminated string. */
  datatype Arg = Char(c: char) | Text(s: seq<char>) | Null | Number(v: int)

  datatype Rendering = Malformed | Full(text: seq<char>)

  function Prepend(t: seq<char>, r: Rendering): Rendering {
    if r.Full? then Full(t + r.text) else Malformed
  }

  /** The number of `l` modifiers consumed, at most two. */
  function Longs(f: seq<char>): (k: nat)
    ensures k <= |f|
  {
    if |f| == 0 || f[0] != 'l' then 0 else if |f| == 1 || f[1] != 'l' then 1 else 2
  }

  predicate SignedArg(longs: nat, a: Arg) {
    a.Number? && if longs == 0 then -0x8000_0000 <= a.v <= 0x7FFF_FFFF else -INT64_MAX <= a.v <= INT64_MAX
  }

  predicate UnsignedArg(longs: nat, a: Arg) {
    a.Number? && 0 <= a.v <= if longs == 0 then 0xFFFF_FFFF else UINT64_MAX
  }

  /** The unbounded text of one conversion, for an argument of the type it takes. */
  function Convert(c: char, longs: nat, a: Arg): Rendering {
    if c == 'c' && a.Char? then Full([a.c])
    else if c == 's' && a.Null? then Full("(null)")
    else if c == 's' && a.Text? && '\0' !in a.s then Full(a.s)
    else if (c == 'd' || c == 'i') && SignedArg(longs, a) then Full(SignedText(a.v))
    else if c == 'u' && UnsignedArg(longs, a) then Full(Digits(a.v, 10, false))
    else if (c == 'x' || c == 'X') && UnsignedArg(longs, a) then Full(Digits(a.v, 16, c == 'X'))
    else Malformed
  }

  /** The unbounded rendering of a format, for formats of literals and the conversions above. */
  function Render(f: seq<char>, args: seq<Arg>): Rendering
    decreases |f|
  {
    if f == [] then Full([])
    else if f[0] != '%' then Prepend([f[0]], Render(f[1..], args))
    else
      var k := 1 + Longs(f[1..]);
      if k == |f| then Malformed
      else if f[k] == '%' then Prepend("%", Render(f[k + 1..], args))
      else if args == [] then Malformed
      else
        var t := Convert(f[k], k - 1, args[0]);
        if t.Full? then Prepend(t.text, Render(f[k + 1..], args[1..])) else Malformed
  }

  /** One conversion through its own 21-byte buffer. */
  method ConvertNumber(c: char, longs: nat, a: Arg) returns (text: seq<char>)
    requires c in {'d', 'i', 'u', 'x', 'X'} && Convert(c, longs, a).Full?
    ensures text == Convert(c, longs, a).text
  {
    var buf := new char[21];
    var p: nat;
    if c == 'd' || c == 'i' {
      p := FillSigned(buf, a.v);
      NoNulInDigits(Digits(if a.v < 0 then -a.v else a.v, 10, false), 10);
    } else {
      var base := if c == 'u' then 10 else 16;
      p := FillNumber(buf, a.v, base, c == 'X');
      NoNulInDigits(Digits(a.v, base, c == 'X'), base);
    }
    assert '\0' !in buf[p..20];
    var len := Strlen(buf, p);
    assert p + len == 20 by { StrlenUnique(buf[..], p, len); }
    text := buf[p..p + len];
  }

  lemma StrlenUnique(s: seq<char>, p: nat, len: nat)
    requires |s| == 21 && p < 20 && p + len < 21 && s[20] == '\0' && '\0' !in s[p..20]
    requires s[p + len] == '\0' && '\0' !in s[p..p + len]
    ensures p + len == 20
  {
    forall j | p <= j < 20 ensures s[j] != '\0' {
      assert s[j] == s[p..20][j - p];
    }
  }

  method ConvertArg(c: char, longs: nat, a: Arg) returns (text: seq<char>)
    requires Convert(c, longs, a).Full?
    ensures text == Convert(c, longs, a).text
  {
    if c == 'c' {
      text := [a.c];
    } else if c == 's' {
      text := if a.Null? then "(null)" else a.s;
    } else {
      text := ConvertNumber(c, longs, a);
    }
  }

  // ---------- the bounded buffer ----------

  function Min(a: nat, b: nat): nat {
    if a < b then a else b
  }

  /** The clamp and `memcpy` of each conversion: as much of the text as fits before byte 1023. */
  method Append(buffer: array<char>, n: nat, text: seq<char>) returns (m: nat)
    requires buffer.Length == 1024 && n <= 1023
    modifies buffer
    ensures m == Min(1023, n + |text|)
    ensures buffer[..m] == (old(buffer[..n]) + text)[..m]
  {
    var len := |text|;
    if len > 1023 - n { len := 1023 - n; }
    var i := 0;
    while i < len
      invariant 0 <= i <= len && buffer[..n + i] == old(buffer[..n]) + text[..i]
    {
      buffer[n + i] := text[i];
      i := i + 1;
    }
    m := n + len;
    assert (old(buffer[..n]) + text)[..m] == old(buffer[..n]) + text[..len];
  }

  /** One turn of the format loop: the text it emits, and what is left to render. */
  method NextPiece(format: seq<char>, f: nat, args: seq<Arg>, a: nat) returns (piece: seq<char>, g: nat, b: nat)
    requires f < |format| && a <= |args| && Render(format[f..], args[a..]).Full?
    ensures f < g <= |format| && a <= b <= |args|
    ensures Prepend(piece, Render(format[g..], args[b..])) == Render(format[f..], args[a..])
  {
    ghost var rest, more := format[f..], args[a..];
    b := a;
    if format[f] != '%' {
      piece, g := [format[f]], f + 1;
      assert rest[1..] == format[g..];
    } else {
      var k := 1 + Longs(format[f + 1..]);
      assert rest[1..] == format[f + 1..] && rest[k + 1..] == format[f + k + 1..] && rest[k] == format[f + k];
      g := f + k + 1;
      if format[f + k] == '%' {
        piece := "%";
      } else {
        assert more[1..] == args[a + 1..];
        piece := ConvertArg(format[f + k], k - 1, args[a]);
        b := a + 1;
      }
    }
  }

  /** Bytes written so far against the text rendered so far. */
  ghost predicate Holds(buffer: seq<char>, n: nat, done: seq<char>)
  {
    n == Min(1023, |done|) && n <= |buffer| && buffer[..n] == done[..n]
  }

  /** The first characters of the rendering, a NUL inside the buffer, and the count of them. */
  method Kprintf(buffer: array<char>, format: seq<char>, args: seq<Arg>) returns (n: nat)
    requires buffer.Length == 1024 && '\0' !in format && Render(format, args).Full?
    modifies buffer
    ensures var full := Render(format, args).text;
      n == Min(1023, |full|) && buffer[..n] == full[..n] && buffer[n] == '\0'
  {
    ghost var full, done := Render(format, args).text, [];
    var f, a := 0, 0;
    n := 0;
    assert format[0..] == format && args[0..] == args && done + full == full;
    while f < |format| && n < 1023
      invariant f <= |format| && a <= |args|
      invariant Prepend(done, Render(format[f..], args[a..])) == Full(full)
      invariant Holds(buffer[..], n, done)
      decreases |format| - f
    {
      var piece;
      ghost var was := buffer[..n];
      piece, f, a := NextPiece(format, f, args, a);
      n := Append(buffer, n, piece);
      HoldsMore(was, done, piece, buffer[..], n, Render(format[f..], args[a..]));
      done := done + piece;
    }
    assert n < 1023 ==> done == full;
    ghost var head := buffer[..n];
    assert head == full[..n];
    buffer[n] := '\0';
    assert buffer[..n] == head;
  }

  lemma HoldsMore(was: seq<char>, done: seq<char>, piece: seq<char>, buffer: seq<char>, n: nat, rest: Rendering)
    requires |done| < 1023 && was == done && n == Min(1023, |done| + |piece|) && n <= |buffer|
    requires buffer[..n] == (was + piece)[..n]
    ensures Holds(buffer, n, done + piece)
    ensures Prepend(done, Prepend(piece, rest)) == Prepend(done + piece, rest)
  {
    if rest.Full? { assert done + (piece + rest.text) == (done + piece) + rest.text; }
  }
}
