/**
  The callback of guest.c that combines chunks of output to a string and cuts it
  at newlines, on a growing NUL-terminated buffer.
 */
module LineSplitter {
  import opened Sequences

  // ---------- what splitting means ----------

  /** The position of the first c, or the length if there is none. */
  function Find(s: string, c: char): (i: nat)
    ensures i <= |s| && (i < |s| ==> s[i] == c)
    ensures forall k :: 0 <= k < i ==> s[k] != c
  {
    if s == [] || s[0] == c then 0 else 1 + Find(s[1..], c)
  }

  lemma FindIs(s: string, c: char, i: nat)
    requires i <= |s| && (i < |s| ==> s[i] == c) && forall k :: 0 <= k < i ==> s[k] != c
    ensures Find(s, c) == i
  {
  }

  /** The C string that starts with the given characters: they count up to the first NUL. */
  function CString(s: string): string {
    s[..Find(s, '\0')]
  }

  function Newline(s: string): nat {
    Find(s, '\n')
  }

  /** The complete lines of a text, without their newlines. */
  function Lines(s: string): seq<string>
    decreases |s|
  {
    var i := Newline(s);
    if i == |s| then [] else [s[..i]] + Lines(s[i + 1..])
  }

  /** What follows the last newline. */
  function Rest(s: string): string
    decreases |s|
  {
    var i := Newline(s);
    if i == |s| then s else Rest(s[i + 1..])
  }

  function Unlines(lines: seq<string>): string {
    if lines == [] then [] else lines[0] + "\n" + Unlines(lines[1..])
  }

  lemma CutAt(s: string, i: nat)
    requires i < |s| && s[i] == '\n'
    ensures s == s[..i] + "\n" + s[i + 1..]
  {
  }

  lemma UnlinesCons(line: string, lines: seq<string>, rest: string)
    ensures Unlines([line] + lines) + rest == line + "\n" + (Unlines(lines) + rest)
  {
    assert ([line] + lines)[1..] == lines;
    Associative(line + "\n", Unlines(lines), rest);
  }

  /** Lines and rest are the text cut at its newlines: nothing is lost. */
  lemma {:induction false} CutAtNewlines(s: string)
    ensures Unlines(Lines(s)) + Rest(s) == s
    decreases |s|
  {
    var i := Newline(s);
    if i < |s| {
      CutAtNewlines(s[i + 1..]);
      UnlinesCons(s[..i], Lines(s[i + 1..]), Rest(s));
      CutAt(s, i);
    } else {
      assert Unlines([]) + s == s;
    }
  }

  /** No newline is left in a line or in the rest. */
  lemma {:induction false} NoNewlineLeft(s: string)
    ensures '\n' !in Rest(s) && forall i :: 0 <= i < |Lines(s)| ==> '\n' !in Lines(s)[i]
    decreases |s|
  {
    if Newline(s) < |s| {
      NoNewlineLeft(s[Newline(s) + 1..]);
    }
  }

  /** Text that arrives later only continues the rest: it does not matter where the text is cut into chunks. */
  lemma {:induction false} LinesOfConcat(a: string, b: string)
    ensures Lines(a + b) == Lines(a) + Lines(Rest(a) + b)
    ensures Rest(a + b) == Rest(Rest(a) + b)
    decreases |a|
  {
    var i := Newline(a);
    if i < |a| {
      FindIs(a + b, '\n', i);
      assert (a + b)[..i] == a[..i] && (a + b)[i + 1..] == a[i + 1..] + b;
      LinesOfConcat(a[i + 1..], b);
      assert Lines(a + b) == [a[..i]] + Lines(a[i + 1..] + b) && Rest(a + b) == Rest(a[i + 1..] + b);
      assert Lines(a) == [a[..i]] + Lines(a[i + 1..]) && Rest(a) == Rest(a[i + 1..]);
      Associative([a[..i]], Lines(a[i + 1..]), Lines(Rest(a) + b));
    } else {
      assert Lines(a) == [] && Rest(a) == a && [] + Lines(a + b) == Lines(a + b);
    }
  }

  function Concat(chunks: seq<string>): string {
    if chunks == [] then [] else Concat(chunks[..|chunks| - 1]) + CString(chunks[|chunks| - 1])
  }

  lemma {:induction false} ConcatWithoutNul(chunks: seq<string>)
    requires forall i :: 0 <= i < |chunks| ==> '\0' !in chunks[i]
    ensures Concat(chunks) == Joined(chunks)
  {
    if chunks != [] {
      var last := chunks[|chunks| - 1];
      ConcatWithoutNul(chunks[..|chunks| - 1]);
      assert CString(last) == last;
    }
  }

  function Joined(chunks: seq<string>): string {
    if chunks == [] then [] else Joined(chunks[..|chunks| - 1]) + chunks[|chunks| - 1]
  }

  /** The strings passed to the callback for the whole output of a command. */
  function Expected(chunks: seq<string>, lines: bool): seq<string> {
    var text := Concat(chunks);
    if chunks == [] then []
    else if !lines then [text]
    else Lines(text) + if Rest(text) == [] then [] else [Rest(text)]
  }

  /** For NUL-free output that arrived at all, only the concatenation matters, not the chunks. */
  lemma ChunkingDoesNotMatter(a: seq<string>, b: seq<string>, lines: bool)
    requires a != [] && b != [] && Joined(a) == Joined(b)
    requires forall i :: 0 <= i < |a| ==> '\0' !in a[i]
    requires forall i :: 0 <= i < |b| ==> '\0' !in b[i]
    ensures Expected(a, lines) == Expected(b, lines)
  {
    ConcatWithoutNul(a);
    ConcatWithoutNul(b);
  }

  /** The last character of a text decides whether anything is left behind the last newline. */
  lemma {:induction false} RestEmptyIff(s: string)
    ensures Rest(s) == [] <==> s == [] || s[|s| - 1] == '\n'
    decreases |s|
  {
    var i := Newline(s);
    if i < |s| {
      RestEmptyIff(s[i + 1..]);
    }
  }

  lemma {:induction false} UnlinesAppend(lines: seq<string>, line: string)
    ensures Unlines(lines + [line]) == Unlines(lines) + line + "\n"
  {
    if lines != [] {
      assert (lines + [line])[1..] == lines[1..] + [line];
      UnlinesAppend(lines[1..], line);
      Associative(lines[0] + "\n", Unlines(lines[1..]), line);
      Associative(lines[0] + "\n", Unlines(lines[1..]) + line, "\n");
    } else {
      assert [line][1..] == [] && line + "\n" + [] == line + "\n";
    }
  }

  /**
    For NUL-free output: without line mode the whole text is delivered, if any
    chunk arrived. In line mode the strings delivered hold no newline, and with a
    newline behind each they are the text, completed by one at its end.
   */
  lemma DeliveredIsText(chunks: seq<string>, lines: bool)
    requires forall i :: 0 <= i < |chunks| ==> '\0' !in chunks[i]
    ensures var text, d := Joined(chunks), Expected(chunks, lines);
      && (!lines ==> d == if chunks == [] then [] else [text])
      && (lines ==>
            && (forall i :: 0 <= i < |d| ==> '\n' !in d[i])
            && Unlines(d) == if text == [] || text[|text| - 1] == '\n' then text else text + "\n")
  {
    var text := Joined(chunks);
    ConcatWithoutNul(chunks);
    NoNewlineLeft(text);
    CutAtNewlines(text);
    RestEmptyIff(text);
    UnlinesAppend(Lines(text), Rest(text));
    assert Unlines(Lines(text)) + [] == Unlines(Lines(text)) && Lines(text) + [] == Lines(text);
  }

  // ---------- the buffer ----------

  method StrLen(buf: array<char>, from: nat) returns (n: nat)
    requires from <= buf.Length && Find(buf[from..], '\0') < buf.Length - from
    ensures n == Find(buf[from..], '\0')
  {
    n := 0;
    ghost var s := buf[from..];
    while buf[from + n] != '\0'
      invariant n <= Find(s, '\0')
      decreases Find(s, '\0') - n
    {
      assert s[n] == buf[from + n];
      n := n + 1;
    }
    assert s[n] == buf[from + n];
  }

  /** strchr for a newline within the string in the buffer */
  method FindNewline(buf: array<char>) returns (nl: nat, found: bool)
    requires Find(buf[..], '\0') < buf.Length
    ensures nl == Newline(CString(buf[..]))
    ensures found <==> nl < |CString(buf[..])|
  {
    ghost var text := CString(buf[..]);
    nl := 0;
    while buf[nl] != '\0' && buf[nl] != '\n'
      invariant nl <= |text| && forall k :: 0 <= k < nl ==> text[k] != '\n'
      decreases |text| - nl
    {
      nl := nl + 1;
    }
    found := buf[nl] == '\n';
    FindIs(text, '\n', nl);
  }

  /** memmove of n characters from position `from` to the front */
  method MoveToFront(buf: array<char>, from: nat, n: nat)
    requires from + n <= buf.Length
    modifies buf
    ensures buf[..n] == old(buf[from..from + n])
  {
    for i := 0 to n
      invariant forall k :: 0 <= k < i ==> buf[k] == old(buf[from + k])
      invariant forall k :: i <= k < buf.Length ==> buf[k] == old(buf[k])
    {
      buf[i] := buf[from + i];
    }
  }

  /** strncat of a chunk behind the text in the buffer, which has room for it */
  method StrNCat(buf: array<char>, len: nat, chunk: string)
    requires len == Find(buf[..], '\0') && len + |chunk| < buf.Length
    modifies buf
    ensures Find(buf[..], '\0') < buf.Length
    ensures CString(buf[..]) == old(CString(buf[..])) + CString(chunk)
  {
    var n := 0;
    ghost var was, text := buf[..], CString(buf[..]);
    assert text == buf[..len] == was[..len];
    while n < |chunk| && chunk[n] != '\0'
      invariant n <= Find(chunk, '\0')
      invariant buf[..len + n] == text + chunk[..n]
    {
      ghost var before := buf[..len + n];
      buf[len + n] := chunk[n];
      assert buf[..len + n + 1] == before + [chunk[n]];
      Associative(text, chunk[..n], [chunk[n]]);
      assert chunk[..n + 1] == chunk[..n] + [chunk[n]];
      n := n + 1;
    }
    buf[len + n] := '\0';
    assert buf[..len + n] == text + chunk[..n];
    ghost var s := buf[..];
    forall k | 0 <= k < len + n ensures s[k] != '\0' {
      assert s[k] == buf[..len + n][k] == if k < len then was[k] else chunk[k - len];
    }
    FindIs(s, '\0', len + n);
  }

  class ExecStr {
    /** Null until the first chunk arrives. */
    var buf: array?<char>
    /** Whether the text is split into lines. */
    const lines: bool
    /** The strings the callback was called with. */
    var delivered: seq<string>

    /** The buffer always has room for its text and the terminator. */
    ghost predicate Valid()
      reads this, buf
    {
      buf != null ==> Find(buf[..], '\0') < buf.Length
    }

    ghost function Text(): string
      reads this, buf
    {
      if buf == null then [] else CString(buf[..])
    }

    constructor (lines: bool)
      ensures Valid() && buf == null && delivered == [] && this.lines == lines
    {
      buf, delivered := null, [];
      this.lines := lines;
    }

    /** Copy the chunk into a new buffer with a terminator behind it. */
    method Start(chunk: string)
      requires buf == null
      modifies this`buf
      ensures Valid() && buf != null && fresh(buf) && Text() == CString(chunk)
    {
      var b := new char[|chunk| + 1](i requires 0 <= i < |chunk| + 1 => if i < |chunk| then chunk[i] else '\0');
      assert b[..|chunk|] == chunk;
      FindIs(b[..], '\0', Find(chunk, '\0'));
      buf := b;
    }

    /** The text moved to a buffer with room for the given number of characters, if there is not enough. */
    method Grow(size: nat)
      requires Valid() && buf != null
      modifies this`buf
      ensures Valid() && buf != null && buf.Length >= size && (buf == old(buf) || fresh(buf))
      ensures Text() == old(Text())
    {
      if size > buf.Length {
        var b, len := buf, buf.Length;
        var grown := new char[size](i requires 0 <= i < size => '\0');
        for i := 0 to len
          invariant forall k :: 0 <= k < i ==> grown[k] == b[k]
        {
          grown[i] := b[i];
        }
        FindIs(grown[..], '\0', Find(b[..], '\0'));
        buf := grown;
      }
    }

    /** Grow the buffer if necessary and append the chunk up to its first NUL. */
    method Append(chunk: string)
      requires Valid() && buf != null
      modifies this`buf, buf
      ensures Valid() && buf != null && (buf == old(buf) || fresh(buf))
      ensures Text() == old(Text()) + CString(chunk)
    {
      assert buf[0..] == buf[..];
      var len := StrLen(buf, 0);
      Grow(len + |chunk| + 1);
      StrNCat(buf, len, chunk);
    }

    /** Deliver line by line as long as there is a newline. */
    method CutLines()
      requires Valid() && buf != null
      modifies this`delivered, buf
      ensures Valid()
      ensures delivered == old(delivered) + Lines(old(Text())) && Text() == Rest(old(Text()))
    {
      ghost var text, left := Text(), Text();
      var nl, found := FindNewline(buf);
      while found
        invariant Valid() && left == Text()
        invariant nl == Newline(left) && (found <==> nl < |left|)
        invariant delivered + Lines(left) == old(delivered) + Lines(text)
        invariant Rest(left) == Rest(text)
        decreases |left|
      {
        LineCut(left, delivered);
        assert buf[..nl] == left[..nl];
        delivered := delivered + [buf[..nl]];
        CutLine(buf, nl);
        left := left[nl + 1..];
        nl, found := FindNewline(buf);
      }
      assert Lines(left) == [] && delivered + [] == delivered;
    }

    /** exec_str_cb */
    method Chunk(chunk: string)
      requires Valid()
      modifies this, buf
      ensures Valid() && buf != null && (buf == old(buf) || fresh(buf))
      ensures lines ==>
        && delivered == old(delivered) + Lines(old(Text()) + CString(chunk))
        && Text() == Rest(old(Text()) + CString(chunk))
      ensures !lines ==> delivered == old(delivered) && Text() == old(Text()) + CString(chunk)
    {
      if buf == null {
        Start(chunk);
        assert old(Text()) + CString(chunk) == CString(chunk);
      } else {
        Append(chunk);
      }
      if lines {
        CutLines();
      }
    }

    /** The end of exec_str: whatever remains in the buffer is delivered. */
    method Finish()
      requires Valid()
      modifies this`delivered
      ensures delivered == old(delivered) +
        if buf != null && (!lines || Text() != []) then [Text()] else []
    {
      if buf != null {
        assert buf[0..] == buf[..];
        var n := StrLen(buf, 0);
        assert buf[..n] == Text();
        if !lines || n > 0 {
          delivered := delivered + [buf[..n]];
        }
      }
    }
  }

  /** Delivering the first line of a text leaves the lines of what follows it. */
  lemma LineCut(text: string, delivered: seq<string>)
    requires Newline(text) < |text|
    ensures var nl := Newline(text);
      && delivered + Lines(text) == delivered + [text[..nl]] + Lines(text[nl + 1..])
      && Rest(text) == Rest(text[nl + 1..])
  {
    var nl := Newline(text);
    assert Lines(text) == [text[..nl]] + Lines(text[nl + 1..]);
    Associative(delivered, [text[..nl]], Lines(text[nl + 1..]));
  }

  /** What a buffer holds once the rest of its text with the terminator has been moved to the front. */
  lemma TextMoved(before: string, after: string, from: nat)
    requires Find(before, '\0') < |before| == |after| && from <= Find(before, '\0')
    requires after[..Find(before, '\0') - from + 1] == before[from..Find(before, '\0') + 1]
    ensures Find(after, '\0') == Find(before, '\0') - from
    ensures CString(after) == CString(before)[from..]
  {
    var n := Find(before, '\0') - from;
    assert forall k :: 0 <= k <= n ==> after[k] == after[..n + 1][k] == before[from + k];
    FindIs(after, '\0', n);
  }

  lemma RestOfText(s: string, from: nat)
    requires from <= Find(s, '\0') < |s|
    ensures Find(s[from..], '\0') == Find(s, '\0') - from
  {
    FindIs(s[from..], '\0', Find(s, '\0') - from);
  }

  /** Move what follows the first newline to the front of the buffer. */
  method CutLine(buf: array<char>, nl: nat)
    requires Find(buf[..], '\0') < buf.Length && nl == Newline(CString(buf[..])) && nl < |CString(buf[..])|
    modifies buf
    ensures Find(buf[..], '\0') < buf.Length
    ensures CString(buf[..]) == old(CString(buf[..]))[nl + 1..]
  {
    ghost var before := buf[..];
    RestOfText(before, nl + 1);
    assert before[nl + 1..] == buf[nl + 1..];
    var n := StrLen(buf, nl + 1);
    MoveToFront(buf, nl + 1, n + 1);
    assert buf[..][..n + 1] == buf[..n + 1] && before[nl + 1..nl + 1 + n + 1] == old(buf[nl + 1..nl + 1 + n + 1]);
    TextMoved(before, buf[..], nl + 1);
  }

  /** The callback receives exactly the expected strings for any sequence of chunks. */
  method ExecAll(chunks: seq<string>, lines: bool) returns (delivered: seq<string>)
    ensures delivered == Expected(chunks, lines)
  {
    var e := new ExecStr(lines);
    for i := 0 to |chunks|
      invariant e.Valid() && fresh(e) && (e.buf != null ==> fresh(e.buf))
      invariant i > 0 <==> e.buf != null
      invariant if lines then e.delivered == Lines(Concat(chunks[..i])) && e.Text() == Rest(Concat(chunks[..i]))
                else e.delivered == [] && e.Text() == Concat(chunks[..i])
    {
      assert chunks[..i + 1][..i] == chunks[..i];
      LinesOfConcat(Concat(chunks[..i]), CString(chunks[i]));
      e.Chunk(chunks[i]);
    }
    assert chunks[..|chunks|] == chunks;
    e.Finish();
    delivered := e.delivered;
  }
}
