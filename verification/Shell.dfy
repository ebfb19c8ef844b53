/** The line editor and argument vector of `shell_loop` in `src/shell/shell.c`. */
module Shell {
  import opened Tokens

  const SPACE := " "

  predicate Printable(c: char) {
    32 as char <= c <= 126 as char
  }

  /** The line as a stack: printable keys push, backspace pops, Enter or 127 characters end it. */
  function Typed(keys: seq<char>, line: seq<char>): seq<char>
    decreases |keys|
  {
    if keys == [] || |line| >= 127 || keys[0] == '\r' || keys[0] == '\n' then line
    else Typed(keys[1..], Press(line, keys[0]))
  }

  /** What one key that is not Enter does. */
  function Press(line: seq<char>, key: char): seq<char> {
    if key == 8 as char || key == 127 as char then (if line == [] then [] else line[..|line| - 1])
    else if Printable(key) then line + [key]
    else line
  }

  /** Whatever is typed, the line is printable and fits the buffer with its NUL. */
  lemma {:induction false} TypedFits(keys: seq<char>, line: seq<char>)
    requires |line| <= 127 && forall i :: 0 <= i < |line| ==> Printable(line[i])
    ensures var t := Typed(keys, line); |t| <= 127 && '\0' !in t && forall i :: 0 <= i < |t| ==> Printable(t[i])
    decreases |keys|
  {
    if !(keys == [] || |line| >= 127 || keys[0] == '\r' || keys[0] == '\n') {
      TypedFits(keys[1..], Press(line, keys[0]));
    }
  }

  /** Whether these keys end the line, by Enter or by filling the buffer; if not, the loop waits for more. */
  predicate Ends(keys: seq<char>, line: seq<char>)
    decreases |keys|
  {
    || |line| >= 127
    || (keys != [] && (keys[0] == '\r' || keys[0] == '\n' || Ends(keys[1..], Press(line, keys[0]))))
  }

  /** Keys that arrive later are ignored once the line has ended, and otherwise continue it where it stood. */
  lemma {:induction false} TypedResumes(keys: seq<char>, more: seq<char>, line: seq<char>)
    ensures Typed(keys + more, line) == if Ends(keys, line) then Typed(keys, line) else Typed(more, Typed(keys, line))
    decreases |keys|
  {
    if keys == [] {
      assert keys + more == more;
    } else if !(|line| >= 127 || keys[0] == '\r' || keys[0] == '\n') {
      assert (keys + more)[1..] == keys[1..] + more;
      TypedResumes(keys[1..], more, Press(line, keys[0]));
    }
  }

  // ---------- what typing does, key by key ----------

  /** The line is ended by Enter or by its 127th character, and by nothing else. */
  lemma {:induction false} EndsIff(keys: seq<char>, line: seq<char>)
    requires |line| <= 127
    ensures Ends(keys, line) <==> |Typed(keys, line)| == 127 || '\r' in keys || '\n' in keys
    decreases |keys|
  {
    if keys != [] && |line| < 127 && keys[0] != '\r' && keys[0] != '\n' {
      assert keys == [keys[0]] + keys[1..];
      EndsIff(keys[1..], Press(line, keys[0]));
    }
  }

  /** `keys` hold no Enter and leave the line open for another character. */
  predicate Open(keys: seq<char>) {
    '\r' !in keys && '\n' !in keys && |Typed(keys, [])| < 127
  }

  /** Keys from 32 to 126 give themselves, in order. */
  lemma {:induction false} PrintableTyped(keys: seq<char>, line: seq<char>)
    requires |line| + |keys| <= 127 && forall i :: 0 <= i < |keys| ==> 32 <= keys[i] as int <= 126
    ensures Typed(keys, line) == line + keys
    decreases |keys|
  {
    if keys == [] {
      assert line + keys == line;
    } else {
      PrintableTyped(keys[1..], line + [keys[0]]);
      assert (line + [keys[0]]) + keys[1..] == line + keys;
    }
  }

  /** Keys after the 127th character are lost. */
  lemma FullLineEnds(keys: seq<char>, more: seq<char>)
    requires |keys| == 127 && forall i :: 0 <= i < 127 ==> 32 <= keys[i] as int <= 126
    ensures Typed(keys + more, []) == keys
  {
    PrintableTyped(keys, []);
    assert [] + keys == keys;
    EndsIff(keys, []);
    TypedResumes(keys, more, []);
  }

  /** Enter ends the line as it stands. */
  lemma EnterEnds(a: seq<char>, c: char, b: seq<char>)
    requires c == '\r' || c == '\n'
    ensures Typed(a + [c] + b, []) == Typed(a, [])
  {
    assert a + [c] + b == a + ([c] + b);
    TypedResumes(a, [c] + b, []);
  }

  /** What keys in the middle do to the line typed so far decides what they do to the whole. */
  lemma InContext(a: seq<char>, m: seq<char>, b: seq<char>)
    requires Open(a) && !Ends(m, Typed(a, [])) && Typed(m, Typed(a, [])) == Typed(a, [])
    ensures Typed(a + m + b, []) == Typed(a + b, [])
  {
    assert a + m + b == a + (m + b);
    OpenResumes(a, m + b);
    OpenResumes(a, b);
    TypedResumes(m, b, Typed(a, []));
  }

  lemma OpenResumes(a: seq<char>, more: seq<char>)
    requires Open(a)
    ensures Typed(a + more, []) == Typed(more, Typed(a, []))
  {
    EndsIff(a, []);
    TypedResumes(a, more, []);
  }

  lemma OneKey(line: seq<char>, k: char, rest: seq<char>)
    requires |line| < 127 && k != '\r' && k != '\n'
    ensures Typed([k] + rest, line) == Typed(rest, Press(line, k))
    ensures Ends([k] + rest, line) == Ends(rest, Press(line, k))
  {
    assert ([k] + rest)[1..] == rest;
  }

  /** A character and the backspace or delete after it cancel. */
  lemma BackspaceCancels(a: seq<char>, k: char, e: char, b: seq<char>)
    requires Open(a) && |Typed(a, [])| < 126
    requires 32 <= k as int <= 126 && (e as int == 8 || e as int == 127)
    ensures Typed(a + [k, e] + b, []) == Typed(a + b, [])
  {
    var line := Typed(a, []);
    assert Press(line, k) == line + [k] && Press(line + [k], e) == line;
    OneKey(line + [k], e, []);
    OneKey(line, k, [e]);
    assert [k] + [e] == [k, e] && [e] + [] == [e];
    InContext(a, [k, e], b);
  }

  /** Any other control key, and backspace or delete on an empty line, changes nothing. */
  lemma ControlIgnored(a: seq<char>, c: char, b: seq<char>)
    requires Open(a) && !(32 <= c as int <= 126) && c != '\r' && c != '\n'
    requires (c as int == 8 || c as int == 127) ==> Typed(a, []) == []
    ensures Typed(a + [c] + b, []) == Typed(a + b, [])
  {
    OneKey(Typed(a, []), c, []);
    assert [c] + [] == [c];
    InContext(a, [c], b);
  }

  /** The read loop: an index into the buffer in place of a stack. */
  method ReadLine(buf: array<char>, keys: seq<char>) returns (i: nat)
    requires buf.Length == 128
    modifies buf
    ensures i == |Typed(keys, [])| && Reads(buf[..], 0, Typed(keys, []))
  {
    TypedFits(keys, []);
    i := 0;
    var k := 0;
    assert keys[0..] == keys;
    while i < 127 && k < |keys|
      invariant 0 <= k <= |keys| && i <= 127
      invariant Typed(keys, []) == Typed(keys[k..], buf[..i])
      decreases |keys| - k
    {
      var c := keys[k];
      ghost var line := buf[..i];
      assert keys[k..][0] == c && keys[k..][1..] == keys[k + 1..];
      if c == '\r' || c == '\n' { break; }
      if c == 8 as char || c == 127 as char {
        if i > 0 { i := i - 1; }
      } else if 32 as char <= c <= 126 as char {
        buf[i] := c;
        i := i + 1;
      }
      assert buf[..i] == Press(line, c);
      k := k + 1;
    }
    ghost var line := buf[..i];
    assert line == Typed(keys, []);
    buf[i] := '\0';
    assert buf[0..i] == line;
  }

  // ---------- argv ----------

  /** The first `n` words can be read back whole. */
  ghost predicate Kept(mem: seq<char>, line: seq<char>, ws: seq<Span>, n: nat) {
    forall j :: 0 <= j < n && j < |ws| ==> WordReads(mem, line, ws[j])
  }

  ghost predicate WordReads(mem: seq<char>, line: seq<char>, w: Span) {
    w.start <= w.end <= |line| && Reads(mem, w.start, line[w.start..w.end])
  }

  /** Cutting a later word leaves an earlier one intact. */
  lemma EarlierWordStays(mem: seq<char>, line: seq<char>, w: Span, e: nat)
    requires WordReads(mem, line, w) && w.end < e < |mem|
    ensures WordReads(mem[e := '\0'], line, w)
  {
    assert mem[e := '\0'][w.start..w.end] == mem[w.start..w.end];
  }

  /** Words still to come once the tokeniser has stopped at `last`. */
  function Remaining(line: seq<char>, last: int, d: set<char>): seq<Span> {
    if 0 <= last <= |line| then Words(line, last, d) else []
  }

  /** The tokeniser stands at `p` with `n` of the words found and the rest still to come. */
  ghost predicate Midway(mem: seq<char>, p: int, line: seq<char>, ws: seq<Span>, n: nat) {
    && -1 <= p <= |line| < |mem| && (p != -1 ==> Reads(mem, p, line[p..]))
    && WordList(line, ws, 0, {' '}) && n <= |ws| && ws[n..] == Remaining(line, p, {' '}) && Kept(mem, line, ws, n)
  }

  /** `n` words are kept, and `token` is the start of the next one, or -1 if there is none. */
  ghost predicate Standing(mem: seq<char>, last: int, line: seq<char>, ws: seq<Span>, n: nat, token: int) {
    if n < |ws| then token == ws[n].start && Midway(mem, last, line, ws, n + 1)
    else token == -1 && Kept(mem, line, ws, n)
  }

  lemma StandingKept(mem: seq<char>, last: int, line: seq<char>, ws: seq<Span>, n: nat, token: int)
    requires Standing(mem, last, line, ws, n, token)
    ensures Kept(mem, line, ws, n) && (token == -1 <==> n >= |ws|)
  {
  }

  /** One `strtok` call moves one word from those remaining to those kept. */
  lemma OneToken(line: seq<char>, ws: seq<Span>, n: nat, mem: seq<char>, p: int, after: seq<char>, last: int,
                 token: int)
    requires Midway(mem, p, line, ws, n) && NextToken(mem, p, line, {' '}, after, last, token)
    ensures n == |ws| ==> token == -1 && Kept(after, line, ws, n)
    ensures n < |ws| ==> token == ws[n].start && Midway(after, last, line, ws, n + 1)
  {
    var d := {' '};
    if p >= 0 && WordStart(line, p, d) < |line| {
      WordsSplit(line, p, d);
      var b := WordStart(line, p, d);
      var e := WordEnd(line, b, d);
      assert ws[n] == ws[n..][0] == Span(b, e) && ws[n + 1..] == ws[n..][1..];
      forall j | 0 <= j < n ensures WordReads(after, line, ws[j]) {
        WordListOrder(line, ws, 0, d, j, n);
        if e < |line| { EarlierWordStays(mem, line, ws[j], e); }
      }
    }
  }

  method NextWord(t: Tokeniser, str: int, ghost line: seq<char>, ghost ws: seq<Span>, ghost n: nat) returns (token: int)
    requires -1 <= str <= 0 && -1 <= t.last && Midway(t.buf[..], if str == -1 then t.last else str, line, ws, n)
    modifies t, t.buf
    ensures -1 <= t.last && Standing(t.buf[..], t.last, line, ws, n, token)
  {
    ghost var mem, p := t.buf[..], if str == -1 then t.last else str;
    assert CharSet(SPACE) == {' '} by { assert forall c :: c in SPACE <==> c == ' '; }
    token := t.Strtok(str, SPACE, line);
    OneToken(line, ws, n, mem, p, t.buf[..], t.last, token);
  }

  /** The arguments so far are the starts of the first words. */
  predicate Firsts(argv: seq<nat>, ws: seq<Span>) {
    |argv| <= |ws| && forall j :: 0 <= j < |argv| ==> argv[j] == ws[j].start
  }

  lemma StandingNext(mem: seq<char>, last: int, line: seq<char>, ws: seq<Span>, argv: seq<nat>, token: int)
    requires Standing(mem, last, line, ws, |argv|, token) && Firsts(argv, ws) && token != -1
    ensures token >= 0 && Midway(mem, last, line, ws, |argv| + 1) && Firsts(argv + [token], ws)
  {
  }

  /** The argument loop, for a tokeniser standing at the start of a line with words `ws`. */
  method CollectArgs(t: Tokeniser, ghost line: seq<char>, ghost ws: seq<Span>) returns (argv: seq<nat>)
    requires -1 <= t.last && Midway(t.buf[..], 0, line, ws, 0)
    modifies t, t.buf
    ensures |argv| == (if |ws| < 10 then |ws| else 10) && Kept(t.buf[..], line, ws, |argv|)
    ensures forall j :: 0 <= j < |argv| ==> argv[j] == ws[j].start
  {
    argv := [];
    var token := NextWord(t, 0, line, ws, 0);
    ghost var mem := t.buf[..];
    while token != -1 && |argv| < 10
      invariant |argv| <= 10 && |argv| <= |ws| && -1 <= t.last
      invariant mem == t.buf[..] && Standing(mem, t.last, line, ws, |argv|, token)
      invariant Firsts(argv, ws)
      decreases 10 - |argv|
    {
      StandingNext(mem, t.last, line, ws, argv, token);
      argv := argv + [token];
      token := NextWord(t, -1, line, ws, |argv|);
      mem := t.buf[..];
    }
    StandingKept(mem, t.last, line, ws, |argv|, token);
  }

  /** At most ten arguments: the first words of the line, each still readable when all have been found. */
  method ParseArgs(t: Tokeniser, ghost line: seq<char>) returns (argv: seq<nat>)
    requires |line| < t.buf.Length && -1 <= t.last && Reads(t.buf[..], 0, line)
    modifies t, t.buf
    ensures var ws := Words(line, 0, {' '});
      && |argv| == (if |ws| < 10 then |ws| else 10)
      && forall j :: 0 <= j < |argv| ==> argv[j] == ws[j].start && WordReads(t.buf[..], line, ws[j])
  {
    ghost var ws := Words(line, 0, {' '});
    assert line[0..] == line && ws[0..] == ws;
    WordsAreWords(line, 0, {' '});
    argv := CollectArgs(t, line, ws);
  }

  /** From keystrokes to arguments: the first ten space-free words of the line typed, in order, each intact. */
  method ReadCommand(t: Tokeniser, keys: seq<char>) returns (argv: seq<nat>)
    requires t.buf.Length == 128 && -1 <= t.last
    modifies t, t.buf
    ensures var line := Typed(keys, []); var ws := Words(line, 0, {' '});
      && |argv| == (if |ws| < 10 then |ws| else 10)
      && forall j :: 0 <= j < |argv| ==> argv[j] == ws[j].start && WordReads(t.buf[..], line, ws[j])
  {
    TypedFits(keys, []);
    var i := ReadLine(t.buf, keys);
    if i == 0 { return []; }
    argv := ParseArgs(t, Typed(keys, []));
  }
}
