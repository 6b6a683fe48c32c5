/**
  The streaming line reader: it shows characters on the console as they arrive
  and hides control lines, deciding chunk by chunk. Chunks are character
  sequences, so a read never splits a character.
 */
module LineFilter {
  import opened Sequences

  /** What the console receives: the guest prefix, a character of a line, a carriage return. */
  datatype Output = Prefix | Ch(c: char) | Return

  const TAG: string := "<anylinuxfs-"

  function Chars(s: string): (r: seq<Output>)
    ensures |r| == |s| && forall i :: 0 <= i < |s| ==> r[i] == Ch(s[i])
  {
    seq(|s|, i requires 0 <= i < |s| => Ch(s[i]))
  }

  /** The first line with its newline, or everything when there is no newline. */
  function FirstLine(s: string): (r: string)
    ensures r <= s && (s != [] ==> r != [])
  {
    if s == [] then []
    else if s[0] == '\n' then [s[0]]
    else [s[0]] + FirstLine(s[1..])
  }

  function Shown(line: string): seq<Output> {
    if line == [] || TAG <= line then [] else [Prefix] + Chars(line)
  }

  ghost predicate NoNewline(s: string) { forall i :: 0 <= i < |s| ==> s[i] != '\n' }

  predicate Complete(line: string) { line != [] && line[|line| - 1] == '\n' }

  function RenderLine(line: string): seq<Output> {
    Shown(line) + if Complete(line) then [Return] else []
  }

  // ----- facts about lines

  lemma {:induction false} FirstLineUpTo(s: string, k: nat)
    requires k < |s| && s[k] == '\n' && forall i :: 0 <= i < k ==> s[i] != '\n'
    ensures FirstLine(s) == s[..k + 1]
  {
    if k > 0 {
      FirstLineUpTo(s[1..], k - 1);
    }
  }

  lemma {:induction false} FirstLineWhole(s: string)
    requires NoNewline(s)
    ensures FirstLine(s) == s
    ensures RenderLine(s) == Shown(s) && !Complete(s)
  {
    if s != [] {
      FirstLineWhole(s[1..]);
    }
  }

  lemma LineOf(stream: string, before: string, chunk: string, rest: string)
    requires stream == before + chunk + rest && NoNewline(before) && chunk != []
    requires NoNewline(chunk[..|chunk| - 1])
    ensures chunk[|chunk| - 1] == '\n' ==> Complete(before + chunk) && FirstLine(stream) == before + chunk
    ensures chunk[|chunk| - 1] != '\n' ==> NoNewline(before + chunk)
  {
    assert forall i :: 0 <= i < |chunk| - 1 ==> chunk[i] == chunk[..|chunk| - 1][i];
    if chunk[|chunk| - 1] == '\n' {
      FirstLineUpTo(stream, |before + chunk| - 1);
    }
  }

  lemma CharsConcat(a: string, b: string)
    ensures Chars(a + b) == Chars(a) + Chars(b)
  {}

  /** Whether a line starts with the tag is settled by its first characters. */
  lemma PrefixSettled(tag: string, before: string, chunk: string)
    ensures tag <= before ==> tag <= before + chunk
    ensures before + chunk <= tag ==> before <= tag
    ensures !(tag <= before) && !(before <= tag) ==> !(tag <= before + chunk) && !(before + chunk <= tag)
  {
    if !(tag <= before) && !(before <= tag) {
      var i :| 0 <= i < |tag| && i < |before| && tag[i] != before[i];
      assert (before + chunk)[i] == before[i];
    }
    if before + chunk <= tag {
      assert forall i :: 0 <= i < |before| ==> before[i] == (before + chunk)[i] == tag[i];
    }
  }

  lemma NewlineSettles(line: string)
    requires '\n' in line
    ensures !(line <= TAG)
  {
    assert forall i :: 0 <= i < |TAG| ==> TAG[i] != '\n';
  }

  lemma ShownGrows(start: seq<Output>, before: string, chunk: string)
    ensures start + [Prefix] + Chars(before) + Chars(chunk) == start + [Prefix] + Chars(before + chunk)
    ensures before == [] ==> start + [Prefix] + Chars(chunk) == start + [Prefix] + Chars(before + chunk)
  {
    CharsConcat(before, chunk);
    if before == [] {
      assert before + chunk == chunk;
    }
  }

  class LineReader {
    var input: seq<string>        // chunks the inner reader will still deliver
    const buffer: array<char>
    var pos: nat
    var cap: nat
    var suppressCurrentLine: bool
    var pendingOutput: string
    var firstChunk: bool
    var console: seq<Output>

    /** Characters not yet consumed, in stream order. */
    ghost function Rest(): string
      requires pos <= cap <= buffer.Length
      reads this`pos, this`cap, this`input, buffer
    {
      buffer[pos..cap] + Concat(input)
    }

    /** Ready for a new line. */
    ghost predicate Fresh()
      reads this
    {
      !suppressCurrentLine && pendingOutput == [] && firstChunk
    }

    ghost predicate Bounded()
      reads this
    {
      && pos <= cap <= buffer.Length
      && forall chunk :: chunk in input ==> 1 <= |chunk| <= buffer.Length
    }

    ghost predicate Valid()
      reads this, buffer
    {
      Bounded() && pendingOutput == [] && (Fresh() || Rest() == [])
    }

    constructor (chunks: seq<string>)
      requires forall chunk :: chunk in chunks ==> 1 <= |chunk| <= 8192
      ensures Valid() && Fresh() && fresh(buffer)
      ensures Rest() == Concat(chunks) && console == []
    {
      input, buffer := chunks, new char[8192](_ => ' ');
      pos, cap, console := 0, 0, [];
      suppressCurrentLine, pendingOutput, firstChunk := false, [], true;
    }

    /** One read of the inner reader into the buffer; cap 0 is the end of the stream. */
    method Refill()
      requires Bounded() && pos == cap
      modifies this`pos, this`cap, this`input, buffer
      ensures Bounded() && pos == 0 && Rest() == old(Rest())
      ensures cap == 0 <==> Rest() == []
    {
      ghost var was := Rest();
      pos := 0;
      if input == [] {
        cap := 0;
      } else {
        var chunk := input[0];
        forall i | 0 <= i < |chunk| {
          buffer[i] := chunk[i];
        }
        cap := |chunk|;
        input := input[1..];
        assert buffer[0..cap] == chunk;
        assert Rest() == was;
      }
    }

    /** Where the next newline of the buffered part is, or its end. */
    method LineEnd() returns (found: bool, end: nat)
      requires Bounded() && pos < cap
      ensures pos < end <= cap
      ensures forall i :: pos <= i < end - 1 ==> buffer[i] != '\n'
      ensures found <==> buffer[end - 1] == '\n'
      ensures !found ==> end == cap
    {
      for i := pos to cap
        invariant forall j :: pos <= j < i ==> buffer[j] != '\n'
      {
        if buffer[i] == '\n' {
          return true, i + 1;
        }
      }
      return false, cap;
    }

    method Print(text: string)
      modifies this`console
      ensures console == if firstChunk then old(console) + [Prefix] + Chars(text) else old(console) + Chars(text)
    {
      console := if firstChunk then console + [Prefix] + Chars(text) else console + Chars(text);
    }

    /** The decision state agrees with the part of the line seen so far, and with what was shown since `start`. */
    ghost predicate Decided(line: string, start: seq<Output>)
      reads this`suppressCurrentLine, this`pendingOutput, this`firstChunk, this`console
    {
      if TAG <= line then suppressCurrentLine && pendingOutput == [] && console == start
      else if line <= TAG then !suppressCurrentLine && pendingOutput == line && firstChunk && console == start
      else !suppressCurrentLine && pendingOutput == [] && !firstChunk && console == start + [Prefix] + Chars(line)
    }

    /** Show, hold back or suppress one more chunk of the current line. */
    method Accept(line: string, ghost before: string, chunk: string, ghost start: seq<Output>)
      requires chunk != [] && line == before + chunk && Decided(before, start)
      modifies this`suppressCurrentLine, this`pendingOutput, this`firstChunk, this`console
      ensures Decided(line, start)
    {
      assert TAG != [];
      hide TAG, Chars;
      PrefixSettled(TAG, before, chunk);
      if !suppressCurrentLine {
        if TAG <= line {
          suppressCurrentLine := true;
          pendingOutput := [];
        } else if line <= TAG {
          pendingOutput := pendingOutput + chunk;
        } else {
          ShownGrows(start, before, chunk);
          if pendingOutput != [] {
            Print(pendingOutput);
            firstChunk := false;
            pendingOutput := [];
          }
          Print(chunk);
          firstChunk := false;
        }
      }
    }

    /** Take the buffered part of the line, newline included. */
    method NextChunk() returns (chunk: string, found: bool)
      requires Bounded() && pos < cap
      modifies this`pos
      ensures Bounded() && chunk != [] && old(Rest()) == chunk + Rest()
      ensures NoNewline(chunk[..|chunk| - 1])
      ensures found <==> chunk[|chunk| - 1] == '\n'
    {
      var f, endPos := LineEnd();
      chunk, found := buffer[pos..endPos], f;
      assert forall i :: 0 <= i < |chunk| ==> chunk[i] == buffer[pos + i];
      assert buffer[pos..cap] == chunk + buffer[endPos..cap];
      pos := endPos;
    }

    /** A newline: show what is left, reset for the next line, return the carriage. */
    method EndLine(ghost line: string, ghost start: seq<Output>)
      requires Complete(line) && Decided(line, start)
      modifies this`suppressCurrentLine, this`pendingOutput, this`firstChunk, this`console
      ensures Fresh() && console == start + RenderLine(line)
    {
      NewlineSettles(line);
      if !suppressCurrentLine && pendingOutput != [] {
        assert false;  // a start of the tag holds no newline
      }
      suppressCurrentLine := false;
      pendingOutput := [];
      firstChunk := true;
      console := console + [Return];
    }

    /** End of the stream: show a held-back start of a line. */
    method FlushPending(ghost line: string, ghost start: seq<Output>)
      requires Decided(line, start) || (line == [] && pendingOutput == [] && console == start)
      modifies this`pendingOutput, this`firstChunk, this`console
      ensures console == start + Shown(line) && pendingOutput == []
    {
      if pendingOutput != [] {
        Print(pendingOutput);
        firstChunk := false;
        pendingOutput := [];
      }
    }

    /** The part of the line read so far, and what is known while the line goes on. */
    ghost predicate InLine(line: string, stream: string, start: seq<Output>)
      reads this, buffer
    {
      && Bounded() && stream == line + Rest() && NoNewline(line)
      && if stream == [] then pendingOutput == [] && console == start else Decided(line, start)
    }

    /** The line is over: shown in full, and the reader is ready for another call. */
    ghost predicate LineDone(line: string, stream: string, start: seq<Output>)
      reads this, buffer
    {
      && Valid() && stream == line + Rest() && line == FirstLine(stream)
      && console == start + RenderLine(line)
      && (Complete(line) ==> Fresh())
    }

    /** One turn of the loop: get more characters if needed, then take the next chunk. */
    method ReadMore(before: string, ghost stream: string, ghost start: seq<Output>) returns (line: string, done: bool)
      requires InLine(before, stream, start)
      modifies this, buffer
      ensures if done then LineDone(line, stream, start) else InLine(line, stream, start) && |line| > |before|
    {
      hide TAG, Chars, FirstLine, Shown, RenderLine, Decided, Concat, NoNewline, Complete, Rest;
      if pos >= cap {
        Refill();
        if cap == 0 {
          FirstLineWhole(before);
          FlushPending(before, start);
          assert stream == before;
          return before, true;
        }
      }
      var chunk, found := NextChunk();
      assert before + (chunk + Rest()) == before + chunk + Rest();
      LineOf(stream, before, chunk, Rest());
      line, done := before + chunk, found;
      Accept(line, before, chunk, start);
      if found {
        EndLine(line, start);
      }
    }

    /**
      Reads one line. What it returns and what it shows depend only on the
      characters still to come, never on how the reads split them.
     */
    method ReadLine() returns (line: string, totalRead: nat)
      requires Valid()
      modifies this, buffer
      ensures Valid() && totalRead == |line|
      ensures line == FirstLine(old(Rest())) && old(Rest()) == line + Rest()
      ensures console == old(console) + RenderLine(line)
      ensures Complete(line) ==> Fresh()
    {
      line, totalRead := [], 0;
      ghost var start, stream := console, Rest();
      var done := false;
      while !done
        invariant totalRead == |line| <= |stream|
        invariant if done then LineDone(line, stream, start) else InLine(line, stream, start)
        decreases !done, |stream| - |line|
      {
        line, done := ReadMore(line, stream, start);
        totalRead := |line|;
      }
    }
  }

  function Concat(chunks: seq<string>): string {
    if chunks == [] then [] else chunks[0] + Concat(chunks[1..])
  }

  // ----- whole streams

  function SplitLines(s: string): seq<string>
    decreases |s|
  {
    if s == [] then [] else [FirstLine(s)] + SplitLines(s[|FirstLine(s)|..])
  }

  function Render(lines: seq<string>): seq<Output> {
    if lines == [] then [] else RenderLine(lines[0]) + Render(lines[1..])
  }

  lemma {:induction false} RenderAppend(lines: seq<string>, line: string)
    ensures Render(lines + [line]) == Render(lines) + RenderLine(line)
  {
    if lines != [] {
      assert (lines + [line])[1..] == lines[1..] + [line];
      RenderAppend(lines[1..], line);
    }
  }

  /** Reading until nothing is returned: the lines and the console for any chunking of the stream. */
  method ReadAll(reader: LineReader) returns (lines: seq<string>)
    requires reader.Valid()
    modifies reader, reader.buffer
    ensures reader.Valid() && reader.Rest() == []
    ensures lines == SplitLines(old(reader.Rest()))
    ensures reader.console == old(reader.console) + Render(lines)
  {
    lines := [];
    ghost var start, stream := reader.console, reader.Rest();
    assert Render(lines) == [];
    hide RenderLine, Render, FirstLine, LineReader.Rest, SplitLines, Complete, LineReader.Fresh;
    while true
      invariant reader.Valid() && reader.console == start + Render(lines)
      invariant SplitLines(stream) == lines + SplitLines(reader.Rest())
      decreases |reader.Rest()|
    {
      ghost var before := reader.Rest();
      var line, n := reader.ReadLine();
      assert line == FirstLine(before) && reader.Rest() == before[|line|..];
      SplitStep(before);
      if n == 0 {
        NothingShown();
        return;
      }
      RenderAppend(lines, line);
      Associative(start, Render(lines), RenderLine(line));
      Associative(lines, [line], SplitLines(reader.Rest()));
      lines := lines + [line];
    }
  }

  lemma SplitStep(s: string)
    ensures s != [] ==> SplitLines(s) == [FirstLine(s)] + SplitLines(s[|FirstLine(s)|..])
    ensures SplitLines([]) == []
  {}

  lemma NothingShown()
    ensures RenderLine([]) == []
  {}

  /** A non-empty line with no newline before its last character. */
  ghost predicate IsLine(line: string) { line != [] && NoNewline(line[..|line| - 1]) }

  lemma {:induction false} FirstLineShape(s: string)
    requires s != []
    ensures IsLine(FirstLine(s))
    ensures Complete(FirstLine(s)) || FirstLine(s) == s
  {
    if s[0] != '\n' && |s| > 1 {
      FirstLineShape(s[1..]);
      ConsIsLine(s[0], FirstLine(s[1..]));
      assert s == [s[0]] + s[1..];
    }
  }

  lemma ConsIsLine(c: char, rest: string)
    requires c != '\n' && IsLine(rest)
    ensures IsLine([c] + rest) && (Complete([c] + rest) <==> Complete(rest))
  {
    assert ([c] + rest)[..|rest|] == [c] + rest[..|rest| - 1];
  }

  /** The lines are the newline-terminated pieces of the stream, in order; only the last may lack its newline. */
  lemma {:induction false} LinesPartition(s: string)
    ensures Concat(SplitLines(s)) == s
    ensures forall i :: 0 <= i < |SplitLines(s)| ==> IsLine(SplitLines(s)[i])
    ensures forall i :: 0 <= i < |SplitLines(s)| - 1 ==> Complete(SplitLines(s)[i])
    decreases |s|
  {
    if s != [] {
      FirstLineShape(s);
      var line := FirstLine(s);
      hide FirstLine, IsLine, Complete, NoNewline;
      var rest := s[|line|..];
      LinesPartition(rest);
      var lines := SplitLines(s);
      assert lines == [line] + SplitLines(rest);
      assert s == line + rest;
      assert lines[1..] == SplitLines(rest);
      if rest == [] {
        assert lines == [line];
      }
      forall i | 0 <= i < |lines| ensures IsLine(lines[i]) && (i < |lines| - 1 ==> Complete(lines[i])) {
        if i > 0 {
          assert lines[i] == SplitLines(rest)[i - 1];
        }
      }
    }
  }

  /** In plain characters: a newline stands at the end of a line and nowhere else in it. */
  lemma NewlinesEndLines(s: string, i: nat, k: nat)
    requires i < |SplitLines(s)| && k < |SplitLines(s)[i]|
    ensures SplitLines(s)[i][k] == '\n' ==> k == |SplitLines(s)[i]| - 1
    ensures k == |SplitLines(s)[i]| - 1 && i < |SplitLines(s)| - 1 ==> SplitLines(s)[i][k] == '\n'
  {
    LinesPartition(s);
    var line := SplitLines(s)[i];
    assert IsLine(line);
    hide SplitLines;
    if k < |line| - 1 { assert line[..|line| - 1][k] == line[k]; }
  }

  function VisibleLines(lines: seq<string>): seq<string> {
    if lines == [] then []
    else (if TAG <= lines[0] then [] else [lines[0]]) + VisibleLines(lines[1..])
  }

  /** The characters of a console, without prefixes and carriage returns. */
  function Text(out: seq<Output>): string {
    if out == [] then []
    else (match out[0] case Ch(c) => [c] case _ => []) + Text(out[1..])
  }

  lemma {:induction false} TextConcat(a: seq<Output>, b: seq<Output>)
    ensures Text(a + b) == Text(a) + Text(b)
  {
    if a == [] {
      assert a + b == b;
    } else {
      assert (a + b)[1..] == a[1..] + b;
      TextConcat(a[1..], b);
    }
  }

  lemma {:induction false} TextOfChars(s: string)
    ensures Text(Chars(s)) == s
    ensures multiset(Chars(s))[Prefix] == 0 && multiset(Chars(s))[Return] == 0
  {
    if s != [] {
      assert Chars(s)[1..] == Chars(s[1..]);
      assert Chars(s) == [Ch(s[0])] + Chars(s[1..]);
      TextOfChars(s[1..]);
    }
  }

  lemma ShownMeaning(line: string)
    requires line != []
    ensures Text(Shown(line)) == if TAG <= line then [] else line
    ensures multiset(Shown(line))[Prefix] == if TAG <= line then 0 else 1
    ensures multiset(Shown(line))[Return] == 0
  {
    hide TAG, Chars;
    TextOfChars(line);
    TextConcat([Prefix], Chars(line));
  }

  lemma RenderLineMeaning(line: string)
    requires line != []
    ensures Text(RenderLine(line)) == if TAG <= line then [] else line
    ensures multiset(RenderLine(line))[Prefix] == if TAG <= line then 0 else 1
    ensures multiset(RenderLine(line))[Return] == if Complete(line) then 1 else 0
  {
    hide TAG, Shown, Complete;
    ShownMeaning(line);
    TextConcat(Shown(line), if Complete(line) then [Return] else []);
  }

  /**
    Where everything stands: a tagged line leaves only its carriage return, any
    other one has the prefix first, then its characters, then a carriage return
    if the line is complete.
   */
  lemma RenderLinePlaces(line: string)
    requires line != []
    ensures var out, ends := RenderLine(line), if line[|line| - 1] == '\n' then 1 else 0;
      && |out| == (if "<anylinuxfs-" <= line then 0 else 1 + |line|) + ends
      && (ends == 1 ==> out[|out| - 1] == Return)
      && (!("<anylinuxfs-" <= line) ==> out[0] == Prefix && forall i :: 0 <= i < |line| ==> out[1 + i] == Ch(line[i]))
  {}

  /** The output of a list of lines is theirs, one after the other. */
  lemma {:induction false} RenderConcat(lines: seq<string>, more: seq<string>)
    ensures Render(lines + more) == Render(lines) + Render(more)
    ensures lines != [] ==> Render(lines) == RenderLine(lines[0]) + Render(lines[1..])
  {
    hide RenderLine;
    if lines == [] {
      assert lines + more == more;
    } else {
      assert (lines + more)[1..] == lines[1..] + more;
      RenderConcat(lines[1..], more);
      Associative(RenderLine(lines[0]), Render(lines[1..]), Render(more));
    }
  }

  lemma {:induction false} NewlineFree(s: string)
    requires NoNewline(s)
    ensures multiset(s)['\n'] == 0
  {
    assert '\n' !in s;
  }

  lemma VisibleStep(lines: seq<string>)
    requires lines != []
    ensures Concat(VisibleLines(lines)) == (if TAG <= lines[0] then [] else lines[0]) + Concat(VisibleLines(lines[1..]))
    ensures |VisibleLines(lines)| == (if TAG <= lines[0] then 0 else 1) + |VisibleLines(lines[1..])|
  {
    var rest := VisibleLines(lines[1..]);
    hide TAG;
    if TAG <= lines[0] {
      assert VisibleLines(lines) == rest;
    } else {
      assert VisibleLines(lines) == [lines[0]] + rest;
      assert ([lines[0]] + rest)[1..] == rest;
    }
  }

  lemma {:induction false} RenderMeaning(lines: seq<string>)
    requires forall i :: 0 <= i < |lines| ==> IsLine(lines[i])
    ensures Text(Render(lines)) == Concat(VisibleLines(lines))
    ensures multiset(Render(lines))[Prefix] == |VisibleLines(lines)|
    ensures multiset(Render(lines))[Return] == multiset(Concat(lines))['\n']
  {
    if lines != [] {
      var line, rest := lines[0], lines[1..];
      assert IsLine(line);
      RenderMeaning(rest);
      RenderLineMeaning(line);
      NewlinesOf(line);
      VisibleStep(lines);
      hide TAG, RenderLine, Complete, NoNewline, VisibleLines, Text, IsLine;
      TextConcat(RenderLine(line), Render(rest));
      assert multiset(Render(lines)) == multiset(RenderLine(line)) + multiset(Render(rest));
      assert multiset(Concat(lines)) == multiset(line) + multiset(Concat(rest));
    }
  }

  /**
    What a console fed from a whole stream holds: exactly the characters of the
    lines that are no control lines, in order; one prefix for each such line;
    one carriage return for each newline of the stream.
   */
  lemma ConsoleMeaning(s: string)
    ensures var lines := SplitLines(s);
      && Text(Render(lines)) == Concat(VisibleLines(lines))
      && multiset(Render(lines))[Prefix] == |VisibleLines(lines)|
      && multiset(Render(lines))[Return] == multiset(s)['\n']
  {
    hide TAG, RenderLine, Complete, NoNewline, SplitLines;
    LinesPartition(s);
    RenderMeaning(SplitLines(s));
  }

  lemma NewlinesOf(line: string)
    requires IsLine(line)
    ensures multiset(line)['\n'] == if Complete(line) then 1 else 0
  {
    NewlineFree(line[..|line| - 1]);
    assert line == line[..|line| - 1] + [line[|line| - 1]];
  }
}
