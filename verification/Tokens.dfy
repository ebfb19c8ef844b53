/** `strtok` with `strspn` and `strpbrk` (`src/lib/string.c`), and the words it finds. */
module Tokens {

  function CharSet(s: seq<char>): (r: set<char>)
    ensures forall c :: c in r <==> c in s
  {
    set c | c in s
  }

  /** First index at or after `i` that holds no delimiter. */
  function WordStart(s: seq<char>, i: nat, delims: set<char>): (r: nat)
    requires i <= |s|
    ensures i <= r <= |s|
    decreases |s| - i
  {
    if i < |s| && s[i] in delims then WordStart(s, i + 1, delims) else i
  }

  /** First index at or after `i` that holds a delimiter, or the end. */
  function WordEnd(s: seq<char>, i: nat, delims: set<char>): (r: nat)
    requires i <= |s|
    ensures i <= r <= |s|
    decreases |s| - i
  {
    if i < |s| && s[i] !in delims then WordEnd(s, i + 1, delims) else i
  }

  lemma {:induction false} StartMeaning(s: seq<char>, i: nat, delims: set<char>)
    requires i <= |s|
    ensures var r := WordStart(s, i, delims);
      (forall k :: i <= k < r ==> s[k] in delims) && (r < |s| ==> s[r] !in delims)
    decreases |s| - i
  {
    if i < |s| && s[i] in delims { StartMeaning(s, i + 1, delims); }
  }

  lemma {:induction false} EndMeaning(s: seq<char>, i: nat, delims: set<char>)
    requires i <= |s|
    ensures var r := WordEnd(s, i, delims);
      (forall k :: i <= k < r ==> s[k] !in delims) && (r < |s| ==> s[r] in delims)
    decreases |s| - i
  {
    if i < |s| && s[i] !in delims { EndMeaning(s, i + 1, delims); }
  }

  datatype Span = Span(start: nat, end: nat)

  /** The delimiter-free words of `s` from `i` on, as spans, in order. */
  function Words(s: seq<char>, i: nat, delims: set<char>): seq<Span>
    requires i <= |s|
    decreases |s| - i
  {
    var b := WordStart(s, i, delims);
    if b == |s| then []
    else
      var e := WordEnd(s, b, delims);
      [Span(b, e)] + if e == |s| then [] else Words(s, e + 1, delims)
  }

  /** A maximal delimiter-free stretch of `s`. */
  ghost predicate IsWord(s: seq<char>, w: Span, delims: set<char>) {
    && w.start < w.end <= |s|
    && (forall k :: w.start <= k < w.end ==> s[k] !in delims)
    && (w.start > 0 ==> s[w.start - 1] in delims)
    && (w.end < |s| ==> s[w.end] in delims)
  }

  ghost predicate Covered(ws: seq<Span>, k: int) {
    exists j :: 0 <= j < |ws| && ws[j].start <= k < ws[j].end
  }

  /** The first word, and the words after the delimiter that ends it. */
  lemma WordsSplit(s: seq<char>, i: nat, delims: set<char>)
    requires i <= |s| && WordStart(s, i, delims) < |s|
    ensures var b, ws := WordStart(s, i, delims), Words(s, i, delims); var e := WordEnd(s, b, delims);
      && b < e && ws != [] && ws[0] == Span(b, e)
      && ws[1..] == if e == |s| then [] else Words(s, e + 1, delims)
  {
    StartMeaning(s, i, delims);
    EndMeaning(s, WordStart(s, i, delims), delims);
  }

  /** Maximal stretches, each beginning after the one before it has ended, none before `lo`. */
  ghost predicate WordList(s: seq<char>, ws: seq<Span>, lo: int, delims: set<char>) {
    ws == [] || (IsWord(s, ws[0], delims) && lo <= ws[0].start && WordList(s, ws[1..], ws[0].end + 1, delims))
  }

  lemma {:induction false} WordListAt(s: seq<char>, ws: seq<Span>, lo: int, delims: set<char>, j: nat)
    requires WordList(s, ws, lo, delims) && j < |ws|
    ensures IsWord(s, ws[j], delims) && lo <= ws[j].start
  {
    if j > 0 { WordListAt(s, ws[1..], ws[0].end + 1, delims, j - 1); }
  }

  lemma {:induction false} WordListOrder(s: seq<char>, ws: seq<Span>, lo: int, delims: set<char>, j: nat, k: nat)
    requires WordList(s, ws, lo, delims) && j < k < |ws|
    ensures ws[j].end < ws[k].start
  {
    if j > 0 {
      WordListOrder(s, ws[1..], ws[0].end + 1, delims, j - 1, k - 1);
    } else {
      WordListAt(s, ws[1..], ws[0].end + 1, delims, k - 1);
    }
  }

  lemma FirstWord(s: seq<char>, i: nat, delims: set<char>)
    requires i <= |s| && (i > 0 ==> s[i - 1] in delims) && WordStart(s, i, delims) < |s|
    ensures var b := WordStart(s, i, delims);
      i <= b && IsWord(s, Span(b, WordEnd(s, b, delims)), delims)
        && (WordEnd(s, b, delims) < |s| ==> s[WordEnd(s, b, delims)] in delims)
  {
    StartMeaning(s, i, delims);
    EndMeaning(s, WordStart(s, i, delims), delims);
  }

  lemma {:induction false} WordsAreWords(s: seq<char>, i: nat, delims: set<char>)
    requires i <= |s| && (i > 0 ==> s[i - 1] in delims)
    ensures WordList(s, Words(s, i, delims), i, delims)
    decreases |s| - i
  {
    var b := WordStart(s, i, delims);
    if b < |s| {
      WordsSplit(s, i, delims);
      FirstWord(s, i, delims);
      var e := WordEnd(s, b, delims);
      if e < |s| { WordsAreWords(s, e + 1, delims); }
    }
  }

  lemma CoveredSomewhere(ws: seq<Span>, k: nat)
    requires ws != [] && (ws[0].start <= k < ws[0].end || Covered(ws[1..], k))
    ensures Covered(ws, k)
  {
    if Covered(ws[1..], k) {
      var j :| 0 <= j < |ws[1..]| && ws[1..][j].start <= k < ws[1..][j].end;
      assert ws[j + 1] == ws[1..][j];
    }
  }

  lemma {:induction false} WordsCover(s: seq<char>, i: nat, delims: set<char>, k: nat)
    requires i <= k < |s| && s[k] !in delims
    ensures Covered(Words(s, i, delims), k)
    decreases |s| - i
  {
    var ws, b := Words(s, i, delims), WordStart(s, i, delims);
    StartMeaning(s, i, delims);
    EndMeaning(s, b, delims);
    WordsSplit(s, i, delims);
    var e := WordEnd(s, b, delims);
    if k >= e { WordsCover(s, e + 1, delims, k); }
    CoveredSomewhere(ws, k);
  }

  /** The words are exactly the maximal delimiter-free stretches: each one is, they ascend, and none is missed. */
  lemma WordsAreMaximal(s: seq<char>, delims: set<char>)
    ensures var ws := Words(s, 0, delims);
      && (forall j :: 0 <= j < |ws| ==> IsWord(s, ws[j], delims))
      && (forall j, k :: 0 <= j < k < |ws| ==> ws[j].end < ws[k].start)
      && (forall k :: 0 <= k < |s| && s[k] !in delims ==> Covered(ws, k))
  {
    var ws := Words(s, 0, delims);
    WordsAreWords(s, 0, delims);
    forall j | 0 <= j < |ws| ensures IsWord(s, ws[j], delims) {
      WordListAt(s, ws, 0, delims, j);
    }
    forall j, k | 0 <= j < k < |ws| ensures ws[j].end < ws[k].start {
      WordListOrder(s, ws, 0, delims, j, k);
    }
    forall k: nat | k < |s| && s[k] !in delims ensures Covered(Words(s, 0, delims), k) {
      WordsCover(s, 0, delims, k);
    }
  }

  // ---------- strtok ----------

  /** The buffer from `p` on reads as the string `text`. */
  predicate Reads(mem: seq<char>, p: nat, text: seq<char>) {
    p + |text| < |mem| && mem[p..p + |text|] == text && '\0' !in text && mem[p + |text|] == '\0'
  }

  /** One call of `strtok` reading on from `p`: memory, saved position and result afterwards. */
  ghost predicate NextToken(mem: seq<char>, p: int, line: seq<char>, d: set<char>, after: seq<char>, last: int,
                            token: int)
    requires p <= |line| < |mem|
  {
    if p < 0 || WordStart(line, p, d) == |line| then token == -1 && last == -1 && after == mem
    else
      var b := WordStart(line, p, d);
      var e := WordEnd(line, b, d);
      && token == b && Reads(after, b, line[b..e])
      && after == (if e < |line| then mem[e := '\0'] else mem)
      && last == (if e < |line| then e + 1 else -1)
      && (e < |line| ==> Reads(after, e + 1, line[e + 1..]))
  }

  class Tokeniser {
    const buf: array<char>
    /** `strtok_last`, as an index into the buffer; -1 is NULL. */
    var last: int

    constructor (b: array<char>)
      ensures buf == b && last == -1
    {
      buf := b;
      last := -1;
    }

    /** The inner loop of `strspn` and `strpbrk`. */
    static method Found(c: char, accept: seq<char>) returns (found: bool)
      ensures found <==> c in accept
    {
      var a := 0;
      while a < |accept|
        invariant 0 <= a <= |accept| && c !in accept[..a]
      {
        if c == accept[a] { return true; }
        a := a + 1;
      }
      assert accept[..a] == accept;
      return false;
    }

    /** `strspn`: how many leading characters are accepted. */
    method Strspn(p: nat, accept: seq<char>, ghost line: seq<char>) returns (count: nat)
      requires |line| < buf.Length && p <= |line| && Reads(buf[..], p, line[p..])
      ensures p + count == WordStart(line, p, CharSet(accept))
    {
      count := 0;
      ghost var d := CharSet(accept);
      AtIndex(buf[..], p, line, p);
      while buf[p + count] != '\0'
        invariant p + count <= |line| && WordStart(line, p, d) == WordStart(line, p + count, d)
        invariant p + count < |line| ==> buf[p + count] == line[p + count]
        invariant p + count == |line| <==> buf[p + count] == '\0'
        decreases |line| - count
      {
        var found := Found(buf[p + count], accept);
        if !found { break; }
        count := count + 1;
        AtIndex(buf[..], p, line, p + count);
      }
    }

    /** `strpbrk`: the first rejected character, or -1 for NULL. */
    method Strpbrk(p: nat, reject: seq<char>, ghost line: seq<char>) returns (q: int)
      requires |line| < buf.Length && p <= |line| && Reads(buf[..], p, line[p..])
      ensures var e := WordEnd(line, p, CharSet(reject)); q == if e < |line| then e else -1
    {
      var i := p;
      ghost var d := CharSet(reject);
      AtIndex(buf[..], p, line, p);
      while buf[i] != '\0'
        invariant p <= i <= |line| && WordEnd(line, p, d) == WordEnd(line, i, d)
        invariant i < |line| ==> buf[i] == line[i]
        invariant i == |line| <==> buf[i] == '\0'
        decreases |line| - i
      {
        var found := Found(buf[i], reject);
        if found { return i; }
        i := i + 1;
        AtIndex(buf[..], p, line, i);
      }
      return -1;
    }

    /**
      `strtok`: the next word, terminated in place.  Only the delimiter after it
      is overwritten, and the rest of the line can still be read from `last`.
     */
    method Strtok(str: int, delims: seq<char>, ghost line: seq<char>) returns (token: int)
      requires |line| < buf.Length && -1 <= str && -1 <= last
      requires var p := if str == -1 then last else str; p == -1 || (p <= |line| && Reads(buf[..], p, line[p..]))
      modifies this, buf
      ensures -1 <= last
      ensures NextToken(old(buf[..]), old(if str == -1 then last else str), line, CharSet(delims), buf[..], last, token)
    {
      var p := str;
      if p == -1 { p := last; }
      if p == -1 { return -1; }
      var skip := Strspn(p, delims, line);
      var b := p + skip;
      AtIndex(buf[..], p, line, b);
      if buf[b] == '\0' {
        last := -1;
        return -1;
      }
      ReadsFrom(buf[..], p, line, b);
      CutWord(b, delims, line);
      token := b;
    }

    /** The second half of `strtok`: finds the end of the word at `b` and cuts it off there. */
    method CutWord(b: nat, delims: seq<char>, ghost line: seq<char>)
      requires |line| < buf.Length && b <= |line| && Reads(buf[..], b, line[b..])
      modifies this, buf
      ensures var e := WordEnd(line, b, CharSet(delims));
        && buf[..] == (if e < |line| then old(buf[..])[e := '\0'] else old(buf[..]))
        && last == (if e < |line| then e + 1 else -1)
        && Reads(buf[..], b, line[b..e]) && (e < |line| ==> Reads(buf[..], e + 1, line[e + 1..]))
    {
      ghost var mem := buf[..];
      var q := Strpbrk(b, delims, line);
      TokenReads(mem, b, line, WordEnd(line, b, CharSet(delims)));
      if q == -1 {
        last := -1;
      } else {
        buf[q] := '\0';
        assert buf[..] == mem[q := '\0'];
        last := q + 1;
      }
    }
  }

  /** Inside the text memory holds the line, and the NUL comes right after it. */
  lemma AtIndex(mem: seq<char>, p: nat, line: seq<char>, i: nat)
    requires p <= i <= |line| < |mem| && Reads(mem, p, line[p..])
    ensures i < |line| ==> mem[i] == line[i] && mem[i] != '\0'
    ensures i == |line| ==> mem[i] == '\0'
  {
    if i < |line| {
      assert mem[i] == mem[p..|line|][i - p] == line[p..][i - p];
      assert line[p..][i - p] in line[p..];
    }
  }

  lemma ReadsFrom(mem: seq<char>, p: nat, line: seq<char>, b: nat)
    requires p <= b <= |line| < |mem| && Reads(mem, p, line[p..])
    ensures Reads(mem, b, line[b..])
  {
    assert mem[b..|line|] == mem[p..|line|][b - p..] && line[b..] == line[p..][b - p..];
  }

  /** A NUL written at the end of a word terminates it and leaves the rest of the line readable. */
  lemma TokenReads(mem: seq<char>, b: nat, line: seq<char>, e: nat)
    requires b <= e <= |line| < |mem| && Reads(mem, b, line[b..])
    ensures e == |line| ==> Reads(mem, b, line[b..e])
    ensures e < |line| ==> Reads(mem[e := '\0'], b, line[b..e]) && Reads(mem[e := '\0'], e + 1, line[e + 1..])
  {
    assert line[b..e] == line[b..][..e - b];
    if e == |line| {
      assert line[b..e] == line[b..];
    } else {
      var n := mem[e := '\0'];
      assert n[b..e] == mem[b..|line|][..e - b];
      assert n[e + 1..|line|] == mem[b..|line|][e + 1 - b..] && line[e + 1..] == line[b..][e + 1 - b..];
    }
  }
}
