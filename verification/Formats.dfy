/** What `kprintf` renders, conversion by conversion and format by format. */
module Formats {
  import opened NumberText
  import opened Printing

  // ---------- formats without and with conversions ----------

  /** A format without a percent sign is printed as it stands. */
  lemma {:induction false} LiteralFormat(f: seq<char>, args: seq<Arg>)
    requires '%' !in f
    ensures Render(f, args) == Full(f)
    decreases |f|
  {
    if f != [] {
      assert f == [f[0]] + f[1..];
      LiteralFormat(f[1..], args);
    }
  }

  /** The format takes exactly these arguments: it renders with them, and not with one fewer. */
  predicate Takes(f: seq<char>, a: seq<Arg>) {
    Render(f, a).Full? && (a != [] ==> !Render(f, a[..|a| - 1]).Full?)
  }

  lemma LongsAppend(f: seq<char>, g: seq<char>)
    requires 1 + Longs(f) <= |f| && f[Longs(f)] != 'l'
    ensures Longs(f + g) == Longs(f)
  {
  }

  lemma PrependTwo(t: seq<char>, u: seq<char>, r: Rendering)
    requires r.Full?
    ensures Prepend(t, Full(u + r.text)) == Full((t + u) + r.text)
  {
    assert t + (u + r.text) == (t + u) + r.text;
  }

  /** Where the first piece of a format ends: a character or a conversion. */
  function PieceEnd(f: seq<char>): nat
    requires f != []
  {
    if f[0] != '%' then 1 else 2 + Longs(f[1..])
  }

  lemma NoThirdLong(f: seq<char>, a: seq<Arg>)
    requires f != [] && f[0] == '%' && Render(f, a).Full?
    ensures PieceEnd(f) <= |f| && f[PieceEnd(f) - 1] != 'l'
  {
  }

  lemma PieceAppend(f: seq<char>, g: seq<char>, a: seq<Arg>)
    requires f != [] && Render(f, a).Full?
    ensures PieceEnd(f) <= |f| && PieceEnd(f + g) == PieceEnd(f)
    ensures (f + g)[PieceEnd(f)..] == f[PieceEnd(f)..] + g && (f + g)[..PieceEnd(f)] == f[..PieceEnd(f)]
  {
    if f[0] == '%' {
      NoThirdLong(f, a);
      assert (f + g)[1..] == f[1..] + g;
      LongsAppend(f[1..], g);
    }
  }

  /** The arguments left after the first piece. */
  function Left(f: seq<char>, a: seq<Arg>): seq<Arg>
    requires f != [] && Render(f, a).Full?
  {
    if f[0] == '%' && f[PieceEnd(f) - 1] != '%' then a[1..] else a
  }

  /** The text of the first piece. */
  function FirstText(f: seq<char>, a: seq<Arg>): seq<char>
    requires f != [] && Render(f, a).Full?
  {
    if f[0] != '%' then [f[0]]
    else if f[PieceEnd(f) - 1] == '%' then "%"
    else Convert(f[PieceEnd(f) - 1], PieceEnd(f) - 2, a[0]).text
  }

  lemma RenderByPiece(f: seq<char>, a: seq<Arg>)
    requires f != [] && Render(f, a).Full?
    ensures PieceEnd(f) <= |f| && Render(f, a) == Prepend(FirstText(f, a), Render(f[PieceEnd(f)..], Left(f, a)))
  {
  }

  /** The same first piece and arguments ahead of another rest. */
  lemma RenderSamePiece(f: seq<char>, a: seq<Arg>, g: seq<char>, b: seq<Arg>)
    requires f != [] && Render(f, a).Full?
    ensures PieceEnd(f) <= |f|
    ensures Render(f + g, a + b) == Prepend(FirstText(f, a), Render(f[PieceEnd(f)..] + g, Left(f, a) + b))
  {
    PieceAppend(f, g, a);
    var k := PieceEnd(f);
    if f[0] == '%' {
      assert (f + g)[1..] == f[1..] + g && (f + g)[k - 1] == f[k - 1];
      if f[k - 1] != '%' { assert (a + b)[1..] == a[1..] + b && (a + b)[0] == a[0]; }
    }
  }

  lemma TakesRest(f: seq<char>, a: seq<Arg>)
    requires f != [] && Takes(f, a)
    ensures PieceEnd(f) <= |f| && Takes(f[PieceEnd(f)..], Left(f, a))
  {
    RenderByPiece(f, a);
    if Left(f, a) != [] { RenderFewer(f, a); }
  }

  /** If the rest renders with one argument fewer, so does the whole. */
  lemma RenderFewer(f: seq<char>, a: seq<Arg>)
    requires f != [] && Render(f, a).Full? && Left(f, a) != []
    ensures PieceEnd(f) <= |f| && a != []
    ensures var l := Left(f, a);
      Render(f[PieceEnd(f)..], l[..|l| - 1]).Full? ==> Render(f, a[..|a| - 1]).Full?
  {
    var l, c := Left(f, a), a[..|a| - 1];
    if f[0] == '%' && f[PieceEnd(f) - 1] != '%' { assert l[..|l| - 1] == c[1..] && a[0] == c[0]; }
  }

  /**
    Formats compose: when `f` takes exactly the arguments `a`, what follows is
    rendered with the arguments that follow.
   */
  lemma {:induction false} RenderConcat(f: seq<char>, a: seq<Arg>, g: seq<char>, b: seq<Arg>)
    requires Takes(f, a)
    ensures Render(f + g, a + b) == Prepend(Render(f, a).text, Render(g, b))
    decreases |f|
  {
    if f == [] {
      assert a == [] && f + g == g && a + b == b;
      assert Render(g, b).Full? ==> [] + Render(g, b).text == Render(g, b).text;
    } else {
      var t, l := f[PieceEnd(f)..], Left(f, a);
      RenderByPiece(f, a);
      RenderSamePiece(f, a, g, b);
      TakesRest(f, a);
      RenderConcat(t, l, g, b);
      if Render(g, b).Full? { PrependTwo(FirstText(f, a), Render(t, l).text, Render(g, b)); }
    }
  }

  // ---------- one conversion ----------

  /** A percent sign, up to two length modifiers, and the conversion character. */
  function Directive(longs: nat, c: char): seq<char>
    requires longs <= 2
  {
    "%" + (if longs == 0 then "" else if longs == 1 then "l" else "ll") + [c]
  }

  lemma RenderOne(f: seq<char>, longs: nat, c: char, a: Arg)
    requires longs <= 2 && f == Directive(longs, c) && c != 'l' && c != '%' && Convert(c, longs, a).Full?
    ensures Render(f, [a]) == Convert(c, longs, a) && Takes(f, [a])
  {
    assert Longs(f[1..]) == longs;
    assert f[longs + 2..] == [] && [a][1..] == [] && [a][..0] == [];
    var t := Convert(c, longs, a).text;
    assert t + [] == t;
  }

  lemma PercentSign(longs: nat)
    requires longs <= 2
    ensures Render(Directive(longs, '%'), []) == Full("%") && Takes(Directive(longs, '%'), [])
  {
    var f := Directive(longs, '%');
    assert Longs(f[1..]) == longs && f[longs + 2..] == [];
  }

  lemma CharacterPrinted(longs: nat, c: char)
    requires longs <= 2
    ensures Render(Directive(longs, 'c'), [Char(c)]) == Full([c]) && Takes(Directive(longs, 'c'), [Char(c)])
  {
    RenderOne(Directive(longs, 'c'), longs, 'c', Char(c));
  }

  lemma StringPrinted(longs: nat, s: seq<char>)
    requires longs <= 2 && '\0' !in s
    ensures Render(Directive(longs, 's'), [Text(s)]) == Full(s) && Takes(Directive(longs, 's'), [Text(s)])
    ensures Render(Directive(longs, 's'), [Null]) == Full("(null)") && Takes(Directive(longs, 's'), [Null])
  {
    RenderOne(Directive(longs, 's'), longs, 's', Text(s));
    RenderOne(Directive(longs, 's'), longs, 's', Null);
  }

  /** Of a signed value: a minus sign if it is negative, then the one decimal text of its magnitude. */
  lemma SignedPrinted(longs: nat, c: char, v: int, t: seq<char>)
    requires longs <= 2 && (c == 'd' || c == 'i')
    requires if longs == 0 then -0x8000_0000 <= v < 0x8000_0000 else -0x8000_0000_0000_0000 < v < 0x8000_0000_0000_0000
    ensures Takes(Directive(longs, c), [Number(v)])
    ensures Render(Directive(longs, c), [Number(v)]) == Full(t) <==>
      if v < 0 then t != [] && t[0] == '-' && Writes(t[1..], -v, 10, false) else Writes(t, v, 10, false)
  {
    RenderOne(Directive(longs, c), longs, c, Number(v));
    if v < 0 {
      if t != [] { WritesIff(t[1..], -v, 10, false); }
      assert t != [] && t[0] == '-' ==> t == ['-'] + t[1..];
    } else {
      WritesIff(t, v, 10, false);
    }
  }

  /** Of an unsigned value: the one decimal text, or the one text in the hexadecimal table of that case. */
  lemma UnsignedPrinted(longs: nat, c: char, v: nat, t: seq<char>)
    requires longs <= 2 && (c == 'u' || c == 'x' || c == 'X')
    requires v < if longs == 0 then 0x1_0000_0000 else 0x1_0000_0000_0000_0000
    ensures Takes(Directive(longs, c), [Number(v)])
    ensures Render(Directive(longs, c), [Number(v)]) == Full(t) <==> Writes(t, v, if c == 'u' then 10 else 16, c == 'X')
  {
    RenderOne(Directive(longs, c), longs, c, Number(v));
    WritesIff(t, v, if c == 'u' then 10 else 16, c == 'X');
  }
}
