/**
  The line reader of the AT channel: a fixed buffer, a moving cursor, compaction of a partial
  line, and a read() that may return the modem's bytes in any pieces.

  `Next` says what one call of readline computes from the unread bytes and the arrivals to come;
  `Reader.ReadLine` is the imperative reader, proved to compute `Next`.  `Segments` is the
  reference splitter, which knows nothing of buffers and pieces; `ChunkIndependence` connects
  the two.
 */
module LineReader {
  import opened Wrappers
  import opened AtStrings
  import opened Sequences

  const MAX_AT_RESPONSE: nat := 8 * 1024

  // ---------- what the modem delivers ----------

  /** One return of read(): some bytes, EINTR, or end of file / an error. */
  datatype Arrival = Data(bytes: string) | Interrupted | Ended

  /** All bytes that read() can still deliver before the channel ends. */
  function Stream(arrivals: seq<Arrival>): string
  {
    if arrivals == [] then ""
    else match arrivals[0]
      case Interrupted => Stream(arrivals[1..])
      case Ended => ""
      case Data(bytes) => if bytes == "" then "" else bytes + Stream(arrivals[1..])
  }

  /** An upper bound on the number of further read() calls. */
  function Work(arrivals: seq<Arrival>): nat
  {
    if arrivals == [] then 0
    else 1 + (if arrivals[0].Data? then |arrivals[0].bytes| else 0) + Work(arrivals[1..])
  }

  /** read() with room for `max` bytes, retried while it is interrupted; got == "" is a count <= 0. */
  function Read(arrivals: seq<Arrival>, max: nat): (r: (string, seq<Arrival>))
    requires 0 < max
    ensures |r.0| <= max
    ensures |r.0| + Work(r.1) <= Work(arrivals)
  {
    if arrivals == [] then ("", [])
    else match arrivals[0]
      case Interrupted => Read(arrivals[1..], max)
      case Ended => ("", arrivals)
      case Data(bytes) =>
        if bytes == "" then ("", arrivals)
        else if |bytes| <= max then (bytes, arrivals[1..])
        else (bytes[..max], [Data(bytes[max..])] + arrivals[1..])
  }

  /** read() takes from the front of the stream, and returns nothing only when it has ended. */
  lemma {:induction false} ReadTakes(arrivals: seq<Arrival>, max: nat)
    requires 0 < max
    ensures var r := Read(arrivals, max);
      r.0 + Stream(r.1) == Stream(arrivals) && (r.0 == "" ==> Stream(arrivals) == "")
  {
    if arrivals != [] {
      match arrivals[0]
      case Interrupted => ReadTakes(arrivals[1..], max);
      case Ended =>
      case Data(bytes) =>
        if |bytes| > max {
          assert bytes == bytes[..max] + bytes[max..];
        }
    }
  }

  // ---------- scanning ----------

  predicate IsEol(c: char) { c == '\r' || c == '\n' }

  function SkipNewlines(s: string): (r: string)
    ensures |r| <= |s|
  {
    if s != "" && IsEol(s[0]) then SkipNewlines(s[1..]) else s
  }

  lemma {:induction false} SkipNewlinesFacts(s: string)
    ensures var r := SkipNewlines(s);
      && r == s[|s| - |r|..]
      && (forall i :: 0 <= i < |s| - |r| ==> IsEol(s[i]))
      && (r != "" ==> !IsEol(r[0]))
  {
    if s != "" && IsEol(s[0]) {
      SkipNewlinesFacts(s[1..]);
    }
  }

  function EolIndex(s: string): (i: nat)
    ensures i <= |s|
  {
    if s == "" || IsEol(s[0]) then 0 else 1 + EolIndex(s[1..])
  }

  lemma {:induction false} EolIndexFacts(s: string)
    ensures forall k :: 0 <= k < EolIndex(s) ==> !IsEol(s[k])
    ensures EolIndex(s) < |s| ==> IsEol(s[EolIndex(s)])
  {
    if s != "" && !IsEol(s[0]) {
      EolIndexFacts(s[1..]);
    }
  }

  /** findNextEOL on the NUL-terminated text s: the position where the line ends.  For the SMS
      prompt that position is |s|, the terminating NUL itself. */
  function FindNextEol(s: string): (i: Option<nat>)
    ensures i.Some? ==> i.value <= |s|
    ensures i.Some? && i.value == |s| ==> s == "> "
  {
    if s == "> " then Some(2)
    else
      var i := EolIndex(s);
      if i == |s| then None else Some(i)
  }

  // ---------- one call of readline ----------

  /** What a call of readline returns and leaves behind.  After a prompt the cursor is one past
      the NUL that ends the buffered text, so the unread text depends on bytes of older reads. */
  datatype Outcome =
    | Line(text: string, unread: string, arrivals: seq<Arrival>)
    | Prompt(arrivals: seq<Arrival>)
    | Closed(unread: string, arrivals: seq<Arrival>)

  function Cut(s: string, eol: nat, arrivals: seq<Arrival>): Outcome
    requires eol <= |s|
  {
    if eol == |s| then Prompt(arrivals) else Line(s[..eol], s[eol + 1..], arrivals)
  }

  /** The while loop of readline, with the partial line `held` at offset `off` of the buffer. */
  function Fill(off: nat, held: string, arrivals: seq<Arrival>): (r: Outcome)
    requires off + |held| <= MAX_AT_RESPONSE
    ensures r.Line? ==> |r.unread| + Work(r.arrivals) < |held| + Work(arrivals)
    decreases Work(arrivals), off + |held|
  {
    if off + |held| == MAX_AT_RESPONSE then
      // the buffer is full and holds no line end: it is dropped
      Fill(0, "", arrivals)
    else
      var got := Read(arrivals, MAX_AT_RESPONSE - off - |held|);
      if got.0 == "" then Closed(held, got.1)
      else
        var line := SkipNewlines(held + got.0);
        var eol := FindNextEol(line);
        if eol.Some? then Cut(line, eol.value, got.1)
        else Fill(off + |held + got.0| - |line|, line, got.1)
  }

  // the equations of Fill, one for each way through its loop

  lemma FillDitches(off: nat, held: string, arrivals: seq<Arrival>)
    requires off + |held| == MAX_AT_RESPONSE
    ensures Fill(off, held, arrivals) == Fill(0, "", arrivals)
  {
  }

  lemma FillCloses(off: nat, held: string, arrivals: seq<Arrival>)
    requires off + |held| < MAX_AT_RESPONSE
    requires Read(arrivals, MAX_AT_RESPONSE - off - |held|).0 == ""
    ensures Fill(off, held, arrivals) == Closed(held, Read(arrivals, MAX_AT_RESPONSE - off - |held|).1)
  {
  }

  lemma FillCuts(off: nat, held: string, arrivals: seq<Arrival>)
    requires off + |held| < MAX_AT_RESPONSE
    requires var got := Read(arrivals, MAX_AT_RESPONSE - off - |held|);
      got.0 != "" && FindNextEol(SkipNewlines(held + got.0)).Some?
    ensures var got := Read(arrivals, MAX_AT_RESPONSE - off - |held|);
      var line := SkipNewlines(held + got.0);
      Fill(off, held, arrivals) == Cut(line, FindNextEol(line).value, got.1)
  {
  }

  lemma FillReadsOn(off: nat, held: string, arrivals: seq<Arrival>)
    requires off + |held| < MAX_AT_RESPONSE
    requires var got := Read(arrivals, MAX_AT_RESPONSE - off - |held|);
      got.0 != "" && FindNextEol(SkipNewlines(held + got.0)).None?
    ensures var got := Read(arrivals, MAX_AT_RESPONSE - off - |held|);
      var line := SkipNewlines(held + got.0);
      Fill(off, held, arrivals) == Fill(off + |held + got.0| - |line|, line, got.1)
  {
  }

  /** One call of readline with `unread` buffered. */
  function Next(unread: string, arrivals: seq<Arrival>): (r: Outcome)
    requires |unread| <= MAX_AT_RESPONSE
    ensures r.Line? ==> |r.unread| + Work(r.arrivals) < |unread| + Work(arrivals)
    ensures r.Line? ==> |r.unread| <= MAX_AT_RESPONSE
  {
    FillBounded(0, SkipNewlines(unread), arrivals);
    var line := SkipNewlines(unread);
    match FindNextEol(line)
    case Some(eol) => Cut(line, eol, arrivals)
    case None => Fill(0, line, arrivals)
  }

  lemma FillBounded(off: nat, held: string, arrivals: seq<Arrival>)
    requires off + |held| <= MAX_AT_RESPONSE
    ensures Fill(off, held, arrivals).Line? ==> |Fill(off, held, arrivals).unread| <= MAX_AT_RESPONSE
    decreases Work(arrivals), off + |held|
  {
  }

  /** The lines a session delivers, up to the end of the channel or the first prompt. */
  function Session(unread: string, arrivals: seq<Arrival>): seq<string>
    requires |unread| <= MAX_AT_RESPONSE
    decreases |unread| + Work(arrivals)
  {
    match Next(unread, arrivals)
    case Line(text, u, a) => [text] + Session(u, a)
    case Prompt(_) => ["> "]
    case Closed(_, _) => []
  }

  // ---------- the reference splitter ----------

  /** The non-empty segments of s that are closed by a CR or LF, in order; acc is an open segment. */
  function Segments(s: string, acc: string): seq<string>
  {
    if s == "" then []
    else if IsEol(s[0]) then (if acc == "" then [] else [acc]) + Segments(s[1..], "")
    else Segments(s[1..], acc + [s[0]])
  }

  predicate LineStart(s: string, i: int)
  {
    i == 0 || (0 < i <= |s| && IsEol(s[i - 1]))
  }

  /** No line of s begins with the SMS prompt. */
  ghost predicate NoPromptLine(s: string)
  {
    forall i {:trigger LineStart(s, i)} ::
      0 <= i && i + 1 < |s| && LineStart(s, i) ==> s[i] != '>' || s[i + 1] != ' '
  }

  /** s[i..k] is a run of newlines and s[k..j] holds none. */
  ghost predicate RunThenText(s: string, i: int, k: int, j: int)
  {
    && 0 <= i <= k <= j <= |s|
    && (forall x :: i <= x < k ==> IsEol(s[x]))
    && (forall x :: k <= x < j ==> !IsEol(s[x]))
  }

  /** The text starts with a line, newlines before it skipped, that is closed. */
  predicate HasLine(s: string)
  {
    EolIndex(SkipNewlines(s)) < |SkipNewlines(s)|
  }

  /** What the first line takes of the buffer, with the newlines before it. */
  function Span(s: string): nat
  {
    |s| - |SkipNewlines(s)| + EolIndex(SkipNewlines(s))
  }

  function FirstLine(s: string): string
    requires HasLine(s)
  {
    SkipNewlines(s)[..EolIndex(SkipNewlines(s))]
  }

  /** What stands behind the first line and the one character that closes it. */
  function AfterLine(s: string): (r: string)
    requires HasLine(s)
    ensures |r| < |s|
  {
    SkipNewlines(s)[EolIndex(SkipNewlines(s)) + 1..]
  }

  /** Every closed line is shorter than the buffer, counted with the newlines between it and the
      character that closes the line before. */
  predicate LinesFit(s: string)
    decreases |s|
  {
    HasLine(s) ==> Span(s) < MAX_AT_RESPONSE && LinesFit(AfterLine(s))
  }

  predicate PromptAt(s: string, p: nat)
  {
    p + 1 < |s| && s[p] == '>' && s[p + 1] == ' '
  }

  ghost predicate NoPromptIn(s: string)
  {
    forall i: nat :: !PromptAt(s, i)
  }

  /** What stands behind the last line that is closed fits the buffer, or could not be taken for a
      prompt wherever the buffer is dropped. */
  ghost predicate TailQuiet(s: string)
    decreases |s|
  {
    if HasLine(s) then TailQuiet(AfterLine(s)) else |s| < MAX_AT_RESPONSE || NoPromptIn(SkipNewlines(s))
  }

  lemma NoPromptSuffix(s: string, p: nat)
    requires p <= |s| && LineStart(s, p) && NoPromptLine(s)
    ensures NoPromptLine(s[p..])
  {
    var t := s[p..];
    forall i | 0 <= i && i + 1 < |t| && LineStart(t, i)
      ensures t[i] != '>' || t[i + 1] != ' '
    {
      assert LineStart(s, p + i);
    }
  }

  lemma {:induction false} SkipPrefix(s: string, n: nat)
    requires n <= |s| && forall x :: 0 <= x < n ==> IsEol(s[x])
    ensures SkipNewlines(s[n..]) == SkipNewlines(s)
  {
    if n > 0 {
      SkipPrefix(s[1..], n - 1);
      DropDrop(s, 1, n - 1);
    } else {
      assert s[0..] == s;
    }
  }

  /** The end of a line is found at the same place whatever follows it. */
  lemma {:induction false} EolIndexIn(line: string, tail: string)
    ensures EolIndex(line) < |line| ==> EolIndex(line + tail) == EolIndex(line)
    ensures EolIndex(line + tail) >= EolIndex(line)
  {
    if line != "" && !IsEol(line[0]) {
      TailOfSum(line, tail);
      EolIndexIn(line[1..], tail);
    }
  }

  /** A text that starts with a line. */
  lemma LineFirst(s: string)
    requires s != "" && !IsEol(s[0])
    ensures SkipNewlines(s) == s && Span(s) == EolIndex(s) && (HasLine(s) <==> EolIndex(s) < |s|)
    ensures HasLine(s) ==> FirstLine(s) == s[..EolIndex(s)] && AfterLine(s) == s[EolIndex(s) + 1..]
  {
  }

  lemma {:induction false} SegmentsSkipRun(s: string, n: nat)
    requires n <= |s| && forall x :: 0 <= x < n ==> IsEol(s[x])
    ensures Segments(s, "") == Segments(s[n..], "")
  {
    if n > 0 {
      SegmentsSkipRun(s[1..], n - 1);
      assert s[1..][n - 1..] == s[n..];
    } else {
      assert s[n..] == s;
    }
  }

  lemma {:induction false} SegmentsText(s: string, n: nat, acc: string)
    requires n <= |s| && forall x :: 0 <= x < n ==> !IsEol(s[x])
    ensures Segments(s, acc) == Segments(s[n..], acc + s[..n])
  {
    if n > 0 {
      SegmentsText(s[1..], n - 1, acc + [s[0]]);
      assert s[1..][n - 1..] == s[n..];
      assert acc + [s[0]] + s[1..][..n - 1] == acc + s[..n];
    } else {
      assert s[n..] == s && acc + s[..n] == acc;
    }
  }

  // ---------- refinement ----------

  /** The streams on which the reader is right however they are cut. */
  ghost predicate Regular(s: string)
  {
    NoPromptLine(s) && LinesFit(s) && TailQuiet(s)
  }

  /** r is what the reference splitter says about the remaining bytes s. */
  ghost predicate Agrees(r: Outcome, s: string)
  {
    match r
    case Prompt(_) => false
    case Closed(u, a) => Segments(s, "") == [] && Regular(u + Stream(a))
    case Line(text, u, a) =>
      && HasLine(s) && text == FirstLine(s) && u + Stream(a) == AfterLine(s)
      && Segments(s, "") == [text] + Segments(u + Stream(a), "")
      && Regular(u + Stream(a))
  }

  /** Texts that begin with the same line, and have the same segments. */
  ghost predicate Alike(s: string, t: string)
  {
    && Segments(s, "") == Segments(t, "") && (HasLine(s) <==> HasLine(t))
    && (HasLine(s) ==> FirstLine(s) == FirstLine(t) && AfterLine(s) == AfterLine(t))
  }

  /** Dropping a newline run changes neither the segments nor the regularity. */
  lemma SkipRun(s: string, n: nat)
    requires n <= |s| && forall x :: 0 <= x < n ==> IsEol(s[x])
    requires Regular(s)
    ensures Regular(s[n..]) && Segments(s, "") == Segments(s[n..], "")
  {
    SegmentsSkipRun(s, n);
    SkipPrefix(s, n);
    assert LineStart(s, n) by { if n > 0 { assert IsEol(s[n - 1]); } }
    NoPromptSuffix(s, n);
    assert HasLine(s) ==> Span(s[n..]) == Span(s) - n && AfterLine(s[n..]) == AfterLine(s);
    hide NoPromptLine, SkipNewlines, EolIndex, Segments;
  }

  lemma NotAPrompt(line: string, tail: string)
    requires Regular(line + tail)
    ensures line != "> "
  {
    var s := line + tail;
    if line == "> " {
      assert s[0] == line[0] && s[1] == line[1];
      assert LineStart(s, 0);
    }
  }

  lemma CutAgrees(line: string, eol: nat, a: seq<Arrival>)
    requires line != "" && !IsEol(line[0])
    requires FindNextEol(line) == Some(eol)
    requires Regular(line + Stream(a))
    ensures Agrees(Cut(line, eol, a), line + Stream(a))
  {
    NotAPrompt(line, Stream(a));
    EolIs(line, eol);
    FirstLineOf(line, eol, Stream(a));
    RegularBehind(line + Stream(a), eol);
    SplitLine(line, eol, Stream(a));
    hide NoPromptLine, SkipNewlines, EolIndex, Segments, Stream, LinesFit, TailQuiet, HasLine, FirstLine, AfterLine;
  }

  lemma EolIs(line: string, eol: nat)
    requires FindNextEol(line) == Some(eol) && line != "> "
    ensures eol == EolIndex(line) < |line| && IsEol(line[eol]) && forall k :: 0 <= k < eol ==> !IsEol(line[k])
  {
    EolIndexFacts(line);
    hide EolIndex;
  }

  lemma FirstLineOf(line: string, eol: nat, tail: string)
    requires line != "" && !IsEol(line[0]) && eol == EolIndex(line) < |line| && IsEol(line[eol])
    requires forall k :: 0 <= k < eol ==> !IsEol(line[k])
    ensures var s := line + tail;
      && HasLine(s) && FirstLine(s) == line[..eol] && AfterLine(s) == line[eol + 1..] + tail
      && Segments(s, "") == [line[..eol]] + Segments(line[eol + 1..] + tail, "")
  {
    var s := line + tail;
    EolIndexIn(line, tail);
    assert s[0] == line[0];
    LineFirst(s);
    hide SkipNewlines, EolIndex, Segments, IsEol, HasLine, FirstLine, AfterLine;
    SplitLine(line, eol, tail);
    assert forall k :: 0 <= k < eol ==> s[k] == line[k];
    FirstText(s, eol);
    CloseSegment(s[eol..], s[..eol]);
    SkipEmpty(line);
  }

  lemma RegularBehind(s: string, eol: nat)
    requires Regular(s) && eol < |s| && IsEol(s[eol]) && HasLine(s) && AfterLine(s) == s[eol + 1..]
    ensures Regular(s[eol + 1..])
  {
    hide NoPromptLine, HasLine, AfterLine, Span;
    NoPromptSuffix(s, eol + 1);
  }

  lemma SplitLine(line: string, eol: nat, tail: string)
    requires eol < |line|
    ensures var s := line + tail;
      && s[..eol] == line[..eol] && s[eol..] != "" && s[eol..][0] == line[eol]
      && s[eol..][1..] == s[eol + 1..] == line[eol + 1..] + tail
  {
  }

  /** s starts with `off` newlines, then come the partial line `held` and the bytes to be read. */
  ghost predicate Laid(s: string, off: nat, held: string, arrivals: seq<Arrival>)
  {
    && off <= |s|
    && (forall x :: 0 <= x < off ==> IsEol(s[x]))
    && s[off..] == held + Stream(arrivals)
  }

  /** The text holds no line end and nothing that could be taken for a prompt. */
  ghost predicate QuietText(t: string)
  {
    EolIndex(t) == |t| && NoPromptIn(t)
  }

  /** With a regular stream the buffer fills up with part of a line only behind the last closed one. */
  lemma FullMeansTail(s: string, off: nat, held: string, arrivals: seq<Arrival>)
    requires Regular(s) && Laid(s, off, held, arrivals)
    requires held != "" && forall x :: 0 <= x < |held| ==> !IsEol(held[x])
    requires off + |held| == MAX_AT_RESPONSE
    ensures QuietText(held + Stream(arrivals))
  {
    var t := held + Stream(arrivals);
    SkipPrefix(s, off);
    assert t[0] == held[0];
    LineFirst(t);
    EolIndexOfText(held);
    EolIndexIn(held, Stream(arrivals));
    hide SkipNewlines, EolIndex, NoPromptLine, Stream;
    assert Span(s) == off + EolIndex(t);
  }

  lemma {:induction false} EolIndexOfText(t: string)
    requires forall x :: 0 <= x < |t| ==> !IsEol(t[x])
    ensures EolIndex(t) == |t|
  {
    if t != "" {
      EolIndexOfText(t[1..]);
    }
  }

  lemma QuietSuffix(t: string, n: nat)
    requires n <= |t| && QuietText(t)
    ensures QuietText(t[n..])
  {
    EolIndexFacts(t);
    EolIndexOfText(t[n..]);
    forall i: nat ensures !PromptAt(t[n..], i) {
      assert !PromptAt(t, n + i);
    }
  }

  lemma QuietIsRegular(t: string)
    requires QuietText(t)
    ensures Regular(t) && Segments(t, "") == [] && !HasLine(t)
  {
    EolIndexFacts(t);
    if t != "" { LineFirst(t); }
    SegmentsText(t, |t|, "");
    assert t[|t|..] == "";
    forall i | 0 <= i && i + 1 < |t| && LineStart(t, i) ensures t[i] != '>' || t[i + 1] != ' ' {
      assert !PromptAt(t, i);
    }
  }

  lemma QuietAlike(s: string, t: string)
    requires QuietText(s) && QuietText(t)
    ensures Alike(s, t)
  {
    QuietIsRegular(s);
    QuietIsRegular(t);
    hide HasLine, Segments;
  }

  lemma QuietLine(t: string)
    requires QuietText(t)
    ensures SkipNewlines(t) == t && FindNextEol(t) == None
  {
    EolIndexFacts(t);
    assert !PromptAt(t, 0);
  }

  /** Behind the last closed line the reader delivers nothing, however often it drops its buffer. */
  lemma {:induction false} TailFill(off: nat, held: string, arrivals: seq<Arrival>)
    requires off + |held| <= MAX_AT_RESPONSE && QuietText(held + Stream(arrivals))
    ensures Agrees(Fill(off, held, arrivals), held + Stream(arrivals))
    decreases Work(arrivals), off + |held|
  {
    assert MAX_AT_RESPONSE > 0;
    hide *;
    QuietIsRegular(held + Stream(arrivals));
    if off + |held| == MAX_AT_RESPONSE {
      SplitAgain(held, Stream(arrivals));
      QuietSuffix(held + Stream(arrivals), |held|);
      AppendNothing(Stream(arrivals));
      QuietIsRegular(Stream(arrivals));
      TailFill(0, "", arrivals);
      FillDitches(off, held, arrivals);
      QuietAlike(held + Stream(arrivals), Stream(arrivals));
      AgreesAlike(Fill(0, "", arrivals), held + Stream(arrivals), Stream(arrivals));
    } else {
      var got := Read(arrivals, MAX_AT_RESPONSE - off - |held|);
      ReadTakes(arrivals, MAX_AT_RESPONSE - off - |held|);
      Assoc(held, got.0, Stream(got.1));
      if got.0 == "" {
        FillCloses(off, held, arrivals);
        AppendNothing(Stream(got.1));
        ClosedAgrees(held, got.1);
      } else {
        QuietPrefix(held + got.0, Stream(got.1));
        QuietLine(held + got.0);
        FillReadsOn(off, held, arrivals);
        TailFill(off, held + got.0, got.1);
      }
    }
  }

  lemma QuietPrefix(t: string, more: string)
    requires QuietText(t + more)
    ensures QuietText(t)
  {
    EolIndexFacts(t + more);
    assert forall x :: 0 <= x < |t| ==> t[x] == (t + more)[x];
    EolIndexOfText(t);
    forall i: nat ensures !PromptAt(t, i) {
      assert !PromptAt(t + more, i);
    }
  }

  lemma ClosedAgrees(held: string, a: seq<Arrival>)
    requires Regular(held + Stream(a)) && Segments(held + Stream(a), "") == []
    ensures Agrees(Closed(held, a), held + Stream(a))
  {
  }

  /** A read appends to the partial line and takes from the stream; then newlines are skipped. */
  lemma LaidAfterRead(s: string, off: nat, held: string, arrivals: seq<Arrival>, max: nat)
    requires Laid(s, off, held, arrivals) && 0 < max
    ensures var got := Read(arrivals, max);
      var line := SkipNewlines(held + got.0);
      && Laid(s, off, held + got.0, got.1)
      && Laid(s, off + |held + got.0| - |line|, line, got.1)
  {
    var got := Read(arrivals, max);
    ReadTakes(arrivals, max);
    Assoc(held, got.0, Stream(got.1));
    LaidAfterSkip(s, off, held + got.0, got.1);
    hide Read, Stream, SkipNewlines;
  }

  lemma LaidAfterSkip(s: string, off: nat, text: string, arrivals: seq<Arrival>)
    requires Laid(s, off, text, arrivals)
    ensures Laid(s, off + |text| - |SkipNewlines(text)|, SkipNewlines(text), arrivals)
  {
    var line := SkipNewlines(text);
    var n := |text| - |line|;
    SkipNewlinesFacts(text);
    hide SkipNewlines, Stream, IsEol;
    EolsMove(s, off, text, Stream(arrivals), n);
    DropDrop(s, off, n);
    TakeDrop(text, n);
    Assoc(text[..n], line, Stream(arrivals));
    SplitAgain(text[..n], line + Stream(arrivals));
  }

  lemma EolsMove(s: string, off: nat, text: string, tail: string, n: nat)
    requires off <= |s| && s[off..] == text + tail && n <= |text|
    requires forall i :: 0 <= i < n ==> IsEol(text[i])
    requires forall x :: 0 <= x < off ==> IsEol(s[x])
    ensures off + n <= |s| && forall x :: 0 <= x < off + n ==> IsEol(s[x])
  {
    forall x | off <= x < off + n ensures IsEol(s[x]) { assert s[x] == s[off..][x - off] == text[x - off]; }
  }

  lemma {:induction false} FillAgrees(s: string, off: nat, held: string, arrivals: seq<Arrival>)
    requires off + |held| <= MAX_AT_RESPONSE
    requires forall x :: 0 <= x < |held| ==> !IsEol(held[x])
    requires Regular(s) && Laid(s, off, held, arrivals)
    ensures Agrees(Fill(off, held, arrivals), held + Stream(arrivals))
    decreases Work(arrivals), off + |held|, 1
  {
    if off + |held| == MAX_AT_RESPONSE {
      if held != "" {
        FullMeansTail(s, off, held, arrivals);
        TailFill(off, held, arrivals);
      } else {
        SkipRun(s, off);
        FillAgrees(s[off..], 0, "", arrivals);
        assert Fill(off, held, arrivals) == Fill(0, "", arrivals);
      }
    } else {
      var max := MAX_AT_RESPONSE - off - |held|;
      var got := Read(arrivals, max);
      ReadTakes(arrivals, max);
      if got.0 == "" {
        SegmentsText(held + Stream(arrivals), |held|, "");
        SkipRun(s, off);
        assert held + Stream(got.1) == s[off..];
        FillCloses(off, held, arrivals);
      } else {
        LaidAfterRead(s, off, held, arrivals, max);
        assert held + Stream(arrivals) == held + got.0 + Stream(got.1);
        FillStep(s, off, held, arrivals);
      }
    }
  }

  lemma {:induction false} FillStep(s: string, off: nat, held: string, arrivals: seq<Arrival>)
    requires off + |held| < MAX_AT_RESPONSE
    requires var got := Read(arrivals, MAX_AT_RESPONSE - off - |held|);
      got.0 != "" && Laid(s, off, held + got.0, got.1)
    requires Regular(s)
    ensures var got := Read(arrivals, MAX_AT_RESPONSE - off - |held|);
      Agrees(Fill(off, held, arrivals), held + got.0 + Stream(got.1))
    decreases Work(arrivals), off + |held|, 0
  {
    hide Fill, Regular, Read;
    var got := Read(arrivals, MAX_AT_RESPONSE - off - |held|);
    var text := held + got.0;
    var line := SkipNewlines(text);
    LineAgrees(s, off, text, got.1);
    if FindNextEol(line).Some? {
      FillCuts(off, held, arrivals);
    } else {
      FillReadsOn(off, held, arrivals);
      EolIndexFacts(line);
      var off' := off + |text| - |line|;
      LaidAfterSkip(s, off, text, got.1);
      FillAgrees(s, off', line, got.1);
    }
  }

  lemma AlikeAfterSkip(text: string, tail: string)
    ensures Alike(text + tail, SkipNewlines(text) + tail)
  {
    var line := SkipNewlines(text);
    var n := |text| - |line|;
    SkipNewlinesFacts(text);
    hide *;
    SplitAgain(text[..n], line + tail);
    TakeDrop(text, n);
    Assoc(text[..n], line, tail);
    SkipAlike(text + tail, n);
  }

  lemma SkipAlike(s: string, n: nat)
    requires n <= |s| && forall x :: 0 <= x < n ==> IsEol(s[x])
    ensures Alike(s, s[n..])
  {
    hide SkipNewlines, Segments, EolIndex, IsEol;
    SegmentsSkipRun(s, n);
    SkipPrefix(s, n);
  }

  /** What the scan of the buffered text says. */
  lemma LineAgrees(s: string, off: nat, text: string, arrivals: seq<Arrival>)
    requires Regular(s) && Laid(s, off, text, arrivals)
    ensures var line := SkipNewlines(text);
      && Alike(text + Stream(arrivals), line + Stream(arrivals))
      && (FindNextEol(line).Some? ==>
            Agrees(Cut(line, FindNextEol(line).value, arrivals), text + Stream(arrivals)))
  {
    hide *;
    var line := SkipNewlines(text);
    AlikeAfterSkip(text, Stream(arrivals));
    if FindNextEol(line).Some? {
      var eol := FindNextEol(line).value;
      StartsWithText(text);
      LaidAfterSkip(s, off, text, arrivals);
      LaidIsRegular(s, off + |text| - |line|, line, arrivals);
      CutAgrees(line, eol, arrivals);
      AgreesAlike(Cut(line, eol, arrivals), text + Stream(arrivals), line + Stream(arrivals));
    }
  }

  lemma StartsWithText(text: string)
    ensures var line := SkipNewlines(text);
      && (FindNextEol(line).Some? ==> line != "")
      && (line != "" ==> !IsEol(line[0]))
  {
    SkipNewlinesFacts(text);
    hide SkipNewlines;
  }

  lemma LaidIsRegular(s: string, off: nat, held: string, arrivals: seq<Arrival>)
    requires Regular(s) && Laid(s, off, held, arrivals)
    ensures Regular(held + Stream(arrivals))
  {
    SkipRun(s, off);
  }

  lemma AgreesAlike(r: Outcome, s: string, t: string)
    requires Alike(s, t) && Agrees(r, t)
    ensures Agrees(r, s)
  {
    hide Segments, Regular, HasLine, FirstLine, AfterLine;
  }

  /** One call of readline against the reference splitter, however the bytes arrive. */
  lemma NextAgrees(unread: string, arrivals: seq<Arrival>)
    requires |unread| <= MAX_AT_RESPONSE
    requires Regular(unread + Stream(arrivals))
    ensures Agrees(Next(unread, arrivals), unread + Stream(arrivals))
  {
    hide *;
    var s := unread + Stream(arrivals);
    var line := SkipNewlines(unread);
    LaidAtStart(unread, arrivals);
    LineAgrees(s, 0, unread, arrivals);
    NextIs(unread, arrivals);
    if FindNextEol(line).None? {
      NoEolMeansText(line);
      LaidAfterSkip(s, 0, unread, arrivals);
      LaidIsRegular(s, |unread| - |line|, line, arrivals);
      LaidAtStart(line, arrivals);
      FillAgrees(line + Stream(arrivals), 0, line, arrivals);
      AgreesAlike(Fill(0, line, arrivals), s, line + Stream(arrivals));
    }
  }

  lemma LaidAtStart(text: string, arrivals: seq<Arrival>)
    ensures Laid(text + Stream(arrivals), 0, text, arrivals)
  {
    hide Stream;
  }

  lemma NextIs(unread: string, arrivals: seq<Arrival>)
    requires |unread| <= MAX_AT_RESPONSE
    ensures var line := SkipNewlines(unread);
      var eol := FindNextEol(line);
      Next(unread, arrivals) == if eol.Some? then Cut(line, eol.value, arrivals) else Fill(0, line, arrivals)
  {
    hide SkipNewlines, FindNextEol, Cut, Fill;
  }

  lemma NoEolMeansText(line: string)
    requires FindNextEol(line).None?
    ensures forall x :: 0 <= x < |line| ==> !IsEol(line[x])
  {
    EolIndexFacts(line);
    hide EolIndex, IsEol;
  }

  lemma {:induction false} SessionAgrees(unread: string, arrivals: seq<Arrival>)
    requires |unread| <= MAX_AT_RESPONSE
    requires Regular(unread + Stream(arrivals))
    ensures Session(unread, arrivals) == Segments(unread + Stream(arrivals), "")
    decreases |unread| + Work(arrivals)
  {
    NextAgrees(unread, arrivals);
    match Next(unread, arrivals)
    case Line(text, u, a) => SessionAgrees(u, a);
    case Prompt(_) =>
    case Closed(_, _) =>
  }

  lemma SessionIs(unread: string, arrivals: seq<Arrival>)
    requires |unread| <= MAX_AT_RESPONSE
    ensures var r := Next(unread, arrivals);
      && (r.Line? ==> |r.unread| <= MAX_AT_RESPONSE && Session(unread, arrivals) == [r.text] + Session(r.unread, r.arrivals))
      && (r.Prompt? ==> Session(unread, arrivals) == ["> "])
      && (r.Closed? ==> Session(unread, arrivals) == [])
  {
    hide Next;
  }

  /** The main result: from an empty buffer, the lines delivered are exactly the non-empty
      newline-terminated segments of the stream, in order, for every way the stream is cut. */
  lemma ChunkIndependence(arrivals: seq<Arrival>)
    requires NoPromptLine(Stream(arrivals)) && LinesFit(Stream(arrivals)) && TailQuiet(Stream(arrivals))
    ensures Session("", arrivals) == Segments(Stream(arrivals), "")
  {
    AppendNothing(Stream(arrivals));
    SessionAgrees("", arrivals);
  }

  /** Every newline run plus its following line is shorter than the buffer. */
  ghost predicate Fits(s: string)
  {
    forall i, k, j :: k < j && RunThenText(s, i, k, j) ==> j - i < MAX_AT_RESPONSE
  }

  /** It is enough that every newline run, the closing character of the line before included, is
      shorter than the buffer with the text that follows it. */
  lemma {:induction false} FitsIsEnough(s: string)
    requires Fits(s)
    ensures LinesFit(s) && TailQuiet(s)
    decreases |s|
  {
    FirstFits(s);
    NothingQuiet(s);
    hide Fits, HasLine, Span, AfterLine, SkipNewlines, NoPromptIn;
    if HasLine(s) {
      AfterLineIs(s);
      FitsSuffix(s, Span(s) + 1);
      FitsIsEnough(AfterLine(s));
    }
  }

  /** Without a closed line there is only the text behind the newlines, if any. */
  lemma NothingQuiet(s: string)
    ensures !HasLine(s) ==> Span(s) == |s|
    ensures SkipNewlines(s) == "" ==> !HasLine(s) && NoPromptIn(SkipNewlines(s))
  {
  }

  lemma FirstFits(s: string)
    requires Fits(s)
    ensures Span(s) < MAX_AT_RESPONSE || SkipNewlines(s) == ""
  {
    var r := SkipNewlines(s);
    var run, e := |s| - |r|, EolIndex(r);
    SkipNewlinesFacts(s);
    EolIndexFacts(r);
    if r != "" {
      SkipEmpty(r);
      assert forall x :: run <= x < run + e ==> s[x] == r[x - run];
      hide SkipNewlines, EolIndex;
      assert RunThenText(s, 0, run, run + e);
    }
  }

  lemma AfterLineIs(s: string)
    requires HasLine(s)
    ensures SkipNewlines(s) != "" && Span(s) < |s| && AfterLine(s) == s[Span(s) + 1..]
  {
    hide *;
    BodyIs(s);
    LineParts(s);
    BehindBody(s, SkipNewlines(s), EolIndex(SkipNewlines(s)));
  }

  lemma LineParts(s: string)
    requires HasLine(s)
    ensures var r := SkipNewlines(s); var e := EolIndex(r);
      e < |r| && Span(s) == |s| - |r| + e && AfterLine(s) == r[e + 1..]
  {
    hide SkipNewlines, EolIndex;
  }

  lemma BehindBody(s: string, r: string, e: nat)
    requires e < |r| <= |s| && s[|s| - |r|..] == r
    ensures r[e + 1..] == s[|s| - |r| + e + 1..]
  {
    DropDrop(s, |s| - |r|, e + 1);
  }

  lemma BodyIs(s: string)
    ensures s[|s| - |SkipNewlines(s)|..] == SkipNewlines(s)
  {
    SkipNewlinesFacts(s);
    hide SkipNewlines;
  }

  lemma SkipEmpty(r: string)
    requires r != "" && !IsEol(r[0])
    ensures EolIndex(r) > 0
  {
  }

  lemma FitsSuffix(s: string, p: nat)
    requires p <= |s| && Fits(s)
    ensures Fits(s[p..])
  {
    var t := s[p..];
    forall i, k, j | k < j && RunThenText(t, i, k, j)
      ensures j - i < MAX_AT_RESPONSE
    {
      forall x | p + i <= x < p + k ensures IsEol(s[x]) { assert IsEol(t[x - p]); }
      forall x | p + k <= x < p + j ensures !IsEol(s[x]) { assert !IsEol(t[x - p]); }
      assert RunThenText(s, p + i, p + k, p + j);
    }
  }

  /** The first segment is the first line. */
  lemma SegmentsByLine(s: string)
    ensures Segments(s, "") == if HasLine(s) then [FirstLine(s)] + Segments(AfterLine(s), "") else []
  {
    var r := SkipNewlines(s);
    var e := EolIndex(r);
    SkipNewlinesFacts(s);
    EolIndexFacts(r);
    hide SkipNewlines, EolIndex, Segments, IsEol;
    SegmentsSkipRun(s, |s| - |r|);
    FirstText(r, e);
    NoSegments(r[e..], r[..e]);
    if HasLine(s) {
      SkipEmpty(r);
      CloseSegment(r[e..], r[..e]);
      DropDrop(r, e, 1);
    }
  }

  lemma NoSegments(s: string, acc: string)
    ensures s == "" ==> Segments(s, acc) == []
  {
  }

  // ---------- a line that does not fit ----------

  /** While the first line does not fit, the whole first buffer is read and then dropped. */
  lemma {:induction false} FillDrops(s: string, p: nat, off: nat, held: string, arrivals: seq<Arrival>)
    returns (a: seq<Arrival>)
    requires off + |held| <= MAX_AT_RESPONSE <= |s| && off <= p < MAX_AT_RESPONSE
    requires RunThenText(s, 0, p, MAX_AT_RESPONSE) && !PromptAt(s, p)
    requires Laid(s, off, held, arrivals)
    ensures Stream(a) == s[MAX_AT_RESPONSE..]
    ensures Fill(off, held, arrivals) == Fill(0, "", a)
    decreases Work(arrivals)
  {
    hide Fill, Stream, Read, SkipNewlines, FindNextEol;
    if off + |held| == MAX_AT_RESPONSE {
      FillDitches(off, held, arrivals);
      assert s[MAX_AT_RESPONSE..] == s[off..][|held|..] == Stream(arrivals);
      a := arrivals;
    } else {
      var max := MAX_AT_RESPONSE - off - |held|;
      assert |Stream(arrivals)| == |s[off..]| - |held|;
      var got := Read(arrivals, max);
      ReadTakes(arrivals, max);
      var line := SkipNewlines(held + got.0);
      var off' := off + |held + got.0| - |line|;
      LaidAfterRead(s, off, held, arrivals, max);
      SkipNewlinesFacts(held + got.0);
      NoEolInFirstBuffer(s, p, off', line, got.1);
      FillReadsOn(off, held, arrivals);
      a := FillDrops(s, p, off', line, got.1);
    }
  }

  lemma NoEolInFirstBuffer(s: string, p: nat, off: nat, line: string, arrivals: seq<Arrival>)
    requires off + |line| <= MAX_AT_RESPONSE <= |s| && p < MAX_AT_RESPONSE
    requires RunThenText(s, 0, p, MAX_AT_RESPONSE) && !PromptAt(s, p)
    requires Laid(s, off, line, arrivals) && (line != "" ==> !IsEol(line[0]))
    ensures off <= p && (line != "" ==> off == p)
    ensures FindNextEol(line) == None
  {
    LaidChars(s, off, line, Stream(arrivals));
    hide Stream;
    assert !IsEol(s[p]);
    assert line != "" ==> off == p;
    EolIndexFacts(line);
  }

  lemma LaidChars(s: string, off: nat, line: string, tail: string)
    requires off <= |s| && s[off..] == line + tail
    ensures off + |line| <= |s| && forall x :: 0 <= x < |line| ==> line[x] == s[off + x]
  {
    forall x | 0 <= x < |line| ensures line[x] == s[off + x] { assert s[off..][x] == line[x]; }
  }

  /** The capacity condition is exact for the first line: when the leading newlines and the line
      together fill the buffer, every way of cutting the stream loses exactly the first
      MAX_AT_RESPONSE bytes, and the result is not the lines of the stream. */
  lemma OverlongFirstLine(arrivals: seq<Arrival>, p: nat, j: nat)
    requires p < MAX_AT_RESPONSE <= j < |Stream(arrivals)|
    requires RunThenText(Stream(arrivals), 0, p, j) && IsEol(Stream(arrivals)[j])
    requires !PromptAt(Stream(arrivals), p)
    requires Regular(Stream(arrivals)[MAX_AT_RESPONSE..])
    ensures Session("", arrivals) == Segments(Stream(arrivals)[MAX_AT_RESPONSE..], "")
    ensures Session("", arrivals) != Segments(Stream(arrivals), "")
  {
    var s := Stream(arrivals);
    ShorterRun(s, p, MAX_AT_RESPONSE, j);
    hide *;
    AppendNothing(s);
    LaidAtStart("", arrivals);
    var a := FillDrops(s, p, 0, "", arrivals);
    AppendNothing(Stream(a));
    LaidAtStart("", a);
    FillAgrees(Stream(a), 0, "", a);
    NothingBuffered();
    NextIs("", arrivals);
    SessionOfNext("", arrivals, Stream(a));
    DroppingChangesSegments(s, p, MAX_AT_RESPONSE, j);
  }

  lemma ShorterRun(s: string, p: nat, m: nat, j: nat)
    requires p <= m <= j && RunThenText(s, 0, p, j)
    ensures RunThenText(s, 0, p, m)
  {
  }

  lemma NothingBuffered()
    ensures SkipNewlines("") == "" && FindNextEol("") == None
  {
  }

  lemma SessionOfNext(unread: string, arrivals: seq<Arrival>, s: string)
    requires |unread| <= MAX_AT_RESPONSE && Agrees(Next(unread, arrivals), s)
    ensures Session(unread, arrivals) == Segments(s, "")
  {
    match Next(unread, arrivals)
    case Line(_, u, a) => SessionAgrees(u, a);
    case Closed(_, _) =>
  }

  /** Dropping the first m bytes, all newlines but the last ones, changes the segments. */
  lemma DroppingChangesSegments(s: string, p: nat, m: nat, j: nat)
    requires p < m <= j < |s| && RunThenText(s, 0, p, j) && IsEol(s[j])
    ensures Segments(s, "") != Segments(s[m..], "")
  {
    SegmentsSkipRun(s, p);
    OpenSegmentAt(s, p, j);
    OpenSegmentAt(s, m, j);
    hide Segments, RunThenText;
    assert s[p..j] != [];
    if m < j {
      assert |s[m..j]| < |s[p..j]|;
      assert Segments(s, "")[0] == s[p..j] && Segments(s[m..], "")[0] == s[m..j];
    } else {
      assert |Segments(s, "")| == 1 + |Segments(s[m..], "")|;
    }
  }

  /** The segment that starts at i, within a text that ends at j. */
  lemma OpenSegmentAt(s: string, i: nat, j: nat)
    requires i <= j < |s| && IsEol(s[j]) && forall x :: i <= x < j ==> !IsEol(s[x])
    ensures Segments(s[i..], "") == (if i == j then [] else [s[i..j]]) + Segments(s[j + 1..], "")
  {
    OpenSegment(s[i..], j - i);
    DropTake(s, i, j - i);
    DropDrop(s, i, j - i + 1);
  }

  lemma OpenSegment(s: string, n: nat)
    requires n < |s| && IsEol(s[n]) && forall x :: 0 <= x < n ==> !IsEol(s[x])
    ensures Segments(s, "") == (if n == 0 then [] else [s[..n]]) + Segments(s[n + 1..], "")
  {
    hide *;
    FirstText(s, n);
    DropDrop(s, n, 1);
    CloseSegment(s[n..], s[..n]);
  }

  lemma FirstText(s: string, n: nat)
    requires n <= |s| && forall x :: 0 <= x < n ==> !IsEol(s[x])
    ensures Segments(s, "") == Segments(s[n..], s[..n])
  {
    hide *;
    SegmentsText(s, n, "");
    AppendNothing(s[..n]);
  }

  lemma CloseSegment(s: string, acc: string)
    requires s != "" && IsEol(s[0])
    ensures Segments(s, acc) == (if |acc| == 0 then [] else [acc]) + Segments(s[1..], "")
  {
  }

  // ---------- what the reader thread does with the lines ----------

  /** A call of processLine, or of the unsolicited handler with an SMS PDU. */
  datatype Delivery = Single(line: string) | WithPdu(line: string, pdu: string)

  /** readerLoop on a sequence of lines: an SMS header without a following line is dropped. */
  function Deliveries(lines: seq<string>): seq<Delivery>
  {
    if lines == [] then []
    else if !StartsWithAny(lines[0], SMS_UNSOLICITEDS) then [Single(lines[0])] + Deliveries(lines[1..])
    else if |lines| == 1 then []
    else [WithPdu(lines[0], lines[1])] + Deliveries(lines[2..])
  }

  /** The lines that a delivery hands over. */
  function LinesOf(d: Delivery): seq<string>
  {
    match d
    case Single(line) => [line]
    case WithPdu(line, pdu) => [line, pdu]
  }

  function AllLinesOf(ds: seq<Delivery>): seq<string>
  {
    if ds == [] then [] else LinesOf(ds[0]) + AllLinesOf(ds[1..])
  }

  /** All the lines, or all but an SMS header at the very end. */
  predicate ButForHeader(all: seq<string>, lines: seq<string>)
  {
    all == lines || (lines != [] && all == lines[..|lines| - 1] && StartsWithAny(lines[|lines| - 1], SMS_UNSOLICITEDS))
  }

  /** Every line is handed over once and in order, but for an SMS header at the very end; a header goes
      with the line behind it, and no other line does. */
  lemma {:induction false} DeliveriesExactly(lines: seq<string>)
    ensures ButForHeader(AllLinesOf(Deliveries(lines)), lines)
    ensures forall d <- Deliveries(lines) :: d.WithPdu? <==> StartsWithAny(d.line, SMS_UNSOLICITEDS)
    decreases |lines|
  {
    hide StartsWithAny, Deliveries, ButForHeader, AllLinesOf, LinesOf;
    if lines == [] {
      NoDeliveries();
    } else {
      var first, rest := lines[0], lines[1..];
      DeliveriesStep(first, rest);
      Cons(lines);
      if !StartsWithAny(first, SMS_UNSOLICITEDS) {
        DeliveriesExactly(rest);
        HandsOver(Single(first), Deliveries(rest), rest);
      } else if rest == [] {
        HeaderDropped(first);
        AppendNothing([first]);
      } else {
        DeliveriesExactly(rest[1..]);
        HandsOver(WithPdu(first, rest[0]), Deliveries(rest[1..]), rest[1..]);
        Cons(rest);
        Assoc([first], [rest[0]], rest[1..]);
      }
    }
  }

  lemma NoDeliveries()
    ensures Deliveries([]) == [] && ButForHeader(AllLinesOf([]), [])
  {
  }

  lemma HeaderDropped(line: string)
    requires StartsWithAny(line, SMS_UNSOLICITEDS)
    ensures ButForHeader(AllLinesOf([]), [line])
  {
    hide StartsWithAny;
    assert [line][..0] == [];
  }

  lemma HandsOver(d: Delivery, ds: seq<Delivery>, rest: seq<string>)
    requires ButForHeader(AllLinesOf(ds), rest)
    ensures ButForHeader(AllLinesOf([d] + ds), (if d.Single? then [d.line] else [d.line] + [d.pdu]) + rest)
  {
    hide StartsWithAny, AllLinesOf;
    AllLinesMore(d, ds);
    var lines := LinesOf(d) + rest;
    assert rest != [] ==> lines[..|lines| - 1] == LinesOf(d) + rest[..|rest| - 1] && lines[|lines| - 1] == rest[|rest| - 1];
  }

  lemma AllLinesMore(d: Delivery, ds: seq<Delivery>)
    ensures AllLinesOf([d] + ds) == LinesOf(d) + AllLinesOf(ds)
  {
    hide LinesOf;
    assert ([d] + ds)[1..] == ds;
  }

  lemma DeliveriesNone()
    ensures Deliveries([]) == []
  {
  }

  lemma DeliveriesStep(line: string, rest: seq<string>)
    ensures Deliveries([line] + rest) ==
      if !StartsWithAny(line, SMS_UNSOLICITEDS) then [Single(line)] + Deliveries(rest)
      else if rest == [] then []
      else [WithPdu(line, rest[0])] + Deliveries(rest[1..])
  {
    assert ([line] + rest)[1..] == rest;
    assert rest != [] ==> ([line] + rest)[2..] == rest[1..];
  }

  /** What has been delivered, and what the lines to come will be delivered as, make up goal. */
  ghost predicate ToDeliver(goal: seq<Delivery>, delivered: seq<Delivery>, rest: seq<string>)
  {
    goal == delivered + Deliveries(rest)
  }

  lemma ToDeliverStart(lines: seq<string>)
    ensures ToDeliver(Deliveries(lines), [], lines)
  {
    hide Deliveries;
  }

  lemma ToDeliverEnd(goal: seq<Delivery>, delivered: seq<Delivery>)
    requires ToDeliver(goal, delivered, [])
    ensures goal == delivered
  {
    DeliveriesNone();
    hide Deliveries;
  }

  lemma ToDeliverSingle(goal: seq<Delivery>, delivered: seq<Delivery>, line: string, rest: seq<string>)
    requires ToDeliver(goal, delivered, [line] + rest) && !StartsWithAny(line, SMS_UNSOLICITEDS)
    ensures ToDeliver(goal, delivered + [Single(line)], rest)
  {
    DeliveriesStep(line, rest);
    hide Deliveries, StartsWithAny;
    Assoc(delivered, [Single(line)], Deliveries(rest));
  }

  lemma ToDeliverPair(goal: seq<Delivery>, delivered: seq<Delivery>, line: string, pdu: string, rest: seq<string>)
    requires ToDeliver(goal, delivered, [line] + ([pdu] + rest)) && StartsWithAny(line, SMS_UNSOLICITEDS)
    ensures ToDeliver(goal, delivered + [WithPdu(line, pdu)], rest)
  {
    DeliveriesStep(line, [pdu] + rest);
    TailOfSum([pdu], rest);
    AppendNothing(rest);
    hide Deliveries, StartsWithAny;
    assert [pdu][1..] == [];
    Assoc(delivered, [WithPdu(line, pdu)], Deliveries(rest));
  }

  lemma ToDeliverDangling(goal: seq<Delivery>, delivered: seq<Delivery>, line: string)
    requires ToDeliver(goal, delivered, [line] + []) && StartsWithAny(line, SMS_UNSOLICITEDS)
    ensures goal == delivered
  {
    DeliveriesStep(line, []);
    hide Deliveries, StartsWithAny;
  }

  // ---------- the imperative reader ----------

  predicate NulFree(s: string) { forall i :: 0 <= i < |s| ==> s[i] != '\0' }

  predicate NulFreeArrivals(arrivals: seq<Arrival>)
  {
    forall i :: 0 <= i < |arrivals| && arrivals[i].Data? ==> NulFree(arrivals[i].bytes)
  }

  lemma ReadNulFree(arrivals: seq<Arrival>, max: nat)
    requires 0 < max && NulFreeArrivals(arrivals)
    ensures NulFree(Read(arrivals, max).0) && NulFreeArrivals(Read(arrivals, max).1)
  {
    if arrivals != [] {
      match arrivals[0]
      case Interrupted => ReadNulFree(arrivals[1..], max);
      case Ended =>
      case Data(bytes) =>
    }
  }

  lemma {:induction false} SkipNewlinesIs(s: string, n: nat)
    requires n <= |s| && forall i :: 0 <= i < n ==> IsEol(s[i])
    requires n < |s| ==> !IsEol(s[n])
    ensures SkipNewlines(s) == s[n..]
  {
    if n > 0 {
      SkipNewlinesIs(s[1..], n - 1);
      assert s[1..][n - 1..] == s[n..];
    }
  }

  lemma {:induction false} EolIndexIs(s: string, n: nat)
    requires n <= |s| && forall i :: 0 <= i < n ==> !IsEol(s[i])
    requires n < |s| ==> IsEol(s[n])
    ensures EolIndex(s) == n
  {
    if n > 0 {
      EolIndexIs(s[1..], n - 1);
    }
  }

  class Reader {
    const buffer: array<char>     // s_ATBuffer
    var cur: nat                  // s_ATBufferCur, as an index
    var arrivals: seq<Arrival>    // what read(s_fd, ...) has still to return
    ghost var end: nat            // index of the first NUL at or after cur

    ghost predicate Valid()
      reads this, buffer
    {
      && buffer.Length == MAX_AT_RESPONSE + 1
      && cur <= end <= MAX_AT_RESPONSE
      && buffer[end] == '\0' && (forall i :: cur <= i < end ==> buffer[i] != '\0')
      && NulFreeArrivals(arrivals)
    }

    ghost function Unread(): (s: string)
      reads this, buffer
      requires Valid()
      ensures |s| <= MAX_AT_RESPONSE
    {
      buffer[cur..end]
    }

    /** All bytes still to be delivered. */
    ghost function Pending(): string
      reads this, buffer
      requires Valid()
    {
      Unread() + Stream(arrivals)
    }

    ghost function Rank(): nat
      reads this, buffer
      requires Valid()
    {
      |Unread()| + Work(arrivals)
    }

    constructor (arrivals: seq<Arrival>)
      requires NulFreeArrivals(arrivals)
      ensures Valid() && Unread() == "" && this.arrivals == arrivals && fresh(buffer)
    {
      buffer := new char[MAX_AT_RESPONSE + 1](_ => '\0');
      this.arrivals := arrivals;
      cur, end := 0, 0;
    }

    /** read(), retried on EINTR, into the buffer at index `at`; a count <= 0 is returned as 0. */
    method ReadInto(at: nat, max: nat) returns (count: nat)
      requires 0 < max && at + max < buffer.Length
      modifies this`arrivals, buffer
      ensures count <= max
      ensures Read(old(arrivals), max) == (buffer[at..at + count], arrivals)
      ensures forall i :: 0 <= i < buffer.Length && !(at <= i < at + count) ==> buffer[i] == old(buffer[i])
    {
      while arrivals != [] && arrivals[0].Interrupted?
        invariant Read(arrivals, max) == Read(old(arrivals), max)
        decreases |arrivals|
        modifies this`arrivals
      {
        arrivals := arrivals[1..];
      }
      if arrivals == [] || arrivals[0].Ended? || arrivals[0].bytes == "" {
        assert buffer[at..at] == "";
        return 0;
      }
      var bytes := arrivals[0].bytes;
      count := if |bytes| <= max then |bytes| else max;
      CopyIn(at, bytes[..count]);
      if count == |bytes| {
        assert bytes[..count] == bytes;
        arrivals := arrivals[1..];
      } else {
        arrivals := [Data(bytes[count..])] + arrivals[1..];
      }
    }

    /** Bytes into the buffer at index `at`. */
    method CopyIn(at: nat, bytes: string)
      requires at + |bytes| <= buffer.Length
      modifies buffer
      ensures buffer[at..at + |bytes|] == bytes
      ensures forall i :: 0 <= i < buffer.Length && !(at <= i < at + |bytes|) ==> buffer[i] == old(buffer[i])
    {
      forall i | 0 <= i < |bytes| {
        buffer[at + i] := bytes[i];
      }
    }

    /** The cursor moves behind the newlines it stands on. */
    method SkipLeadingNewlines()
      requires Valid()
      modifies this`cur
      ensures Valid() && Unread() == SkipNewlines(old(Unread()))
      ensures old(cur) <= cur
    {
      hide SkipNewlines;
      ghost var start := cur;
      while IsEol(buffer[cur])
        invariant start <= cur <= end
        invariant forall i :: start <= i < cur ==> IsEol(buffer[i])
        decreases end - cur
        modifies this`cur
      {
        cur := cur + 1;
      }
      SkipNewlinesIs(buffer[start..end], cur - start);
      assert buffer[start..end][cur - start..] == buffer[cur..end];
    }

    /** findNextEOL at the cursor: None is NULL, otherwise an index into the buffer. */
    method FindEol() returns (eol: Option<nat>)
      requires Valid()
      ensures eol.Some? <==> FindNextEol(Unread()).Some?
      ensures eol.Some? ==> eol.value == cur + FindNextEol(Unread()).value
    {
      if buffer[cur] == '>' && buffer[cur + 1] == ' ' && buffer[cur + 2] == '\0' {
        assert Unread() == "> ";
        return Some(cur + 2);
      }
      assert cur + 2 == end ==> Unread() == [buffer[cur], buffer[cur + 1]];
      var p := cur;
      while buffer[p] != '\0' && !IsEol(buffer[p])
        invariant cur <= p <= end
        invariant forall i :: cur <= i < p ==> !IsEol(buffer[i])
        decreases end - p
      {
        p := p + 1;
      }
      EolIndexIs(Unread(), p - cur);
      eol := if buffer[p] == '\0' then None else Some(p);
    }

    /** The reader's state and the text returned are those of outcome r. */
    ghost predicate Returned(r: Outcome, line: Option<string>)
      reads this, buffer
    {
      match r
      case Line(text, u, a) => line == Some(text) && Valid() && Unread() == u && arrivals == a
      case Closed(u, a) => line == None && Valid() && Unread() == u && arrivals == a
      case Prompt(a) =>
        && line == Some("> ") && arrivals == a
        && 0 < cur <= buffer.Length == MAX_AT_RESPONSE + 1 && buffer[cur - 1] == '\0'
        && (cur < buffer.Length && buffer[cur] == '\0' ==> Valid() && Unread() == "")
    }

    lemma ReturnsClosed(u: string, a: seq<Arrival>)
      requires Valid() && Unread() == u && arrivals == a
      ensures Returned(Closed(u, a), None)
    {
    }

    /** readline.  When the text returned is the prompt, the cursor is left one past the NUL that
        ends it, which is a valid state only if that byte happens to be NUL too. */
    method ReadLine() returns (line: Option<string>)
      requires Valid()
      modifies this, buffer
      ensures Returned(Next(old(Unread()), old(arrivals)), line)
    {
      hide Fill, Cut, SkipNewlines, FindNextEol, Returned;
      ghost var goal := Next(Unread(), arrivals);
      var pRead := 0;
      var pEol: Option<nat> := None;
      if buffer[cur] == '\0' {
        Restart();
      } else {
        SkipLeadingNewlines();
        pEol := FindEol();
        if pEol == None {
          pRead := MoveUp();
        }
      }
      while pEol == None
        invariant Valid()
        invariant pEol == None ==> end == pRead && goal == Fill(cur, Unread(), arrivals)
        invariant pEol.Some? ==> cur <= pEol.value <= end && goal == Cut(Unread(), pEol.value - cur, arrivals)
        invariant pEol.Some? && pEol.value == end ==> Unread() == "> "
        decreases pEol.None?, Work(arrivals)
      {
        if MAX_AT_RESPONSE - pRead == 0 {
          // the line exceeds the buffer: ditch it and start over again
          FillDitches(cur, Unread(), arrivals);
          Restart();
          pRead := 0;
        }
        ghost var held := Unread();
        var count;
        count, pEol := ReadAndScan(pRead);
        if count == 0 {
          ReturnsClosed(held, arrivals);
          return None;
        }
        pRead := pRead + count;
      }
      line := TakeLine(pEol.value);
    }

    /** The rest of the loop body of readline: one read() and one scan. */
    method ReadAndScan(pRead: nat) returns (count: nat, pEol: Option<nat>)
      requires Valid() && end == pRead < MAX_AT_RESPONSE
      modifies this`cur, this`end, this`arrivals, buffer
      ensures Valid() && end == pRead + count
      ensures var goal := Fill(old(cur), old(Unread()), old(arrivals));
        && (count == 0 ==> goal == Closed(Unread(), arrivals) && Unread() == old(Unread()))
        && (count > 0 && pEol.None? ==> goal == Fill(cur, Unread(), arrivals))
        && (count > 0 && pEol.Some? ==>
              cur <= pEol.value <= end && goal == Cut(Unread(), pEol.value - cur, arrivals))
      ensures pEol.Some? && pEol.value == end ==> Unread() == "> "
      ensures count > 0 ==> Work(arrivals) < Work(old(arrivals))
    {
      hide Fill, Cut, SkipNewlines, FindNextEol, Read;
      ghost var held, off, before := Unread(), cur, arrivals;
      assert off + |held| == pRead;
      pEol := None;
      count := ReadMore(pRead);
      if count == 0 {
        FillCloses(off, held, before);
      } else {
        pEol := FindEol();
        if pEol == None {
          FillReadsOn(off, held, before);
        } else {
          FillCuts(off, held, before);
        }
      }
    }

    /** The cursor goes back to the start of the buffer, which then holds an empty string. */
    method Restart()
      requires Valid()
      modifies this`cur, this`end, buffer
      ensures Valid() && cur == end == 0
    {
      cur, end := 0, 0;
      buffer[0] := '\0';
    }

    /** memmove of the partial line to the start of the buffer; returns its length. */
    method MoveUp() returns (len: nat)
      requires Valid()
      modifies this`cur, this`end, buffer
      ensures Valid() && cur == 0 && end == len && Unread() == old(Unread())
    {
      hide NulFreeArrivals;
      len := Strlen();
      ghost var text := Unread();
      assert NulFree(text) && buffer[cur..cur + len + 1] == text + ['\0'];
      MemMove(cur, len + 1);
      cur, end := 0, len;
      TerminatedIsUnread(text);
    }

    /** A terminated text at the start of the buffer is the unread text. */
    lemma TerminatedIsUnread(text: string)
      requires buffer.Length == MAX_AT_RESPONSE + 1 && NulFreeArrivals(arrivals) && NulFree(text)
      requires cur == 0 && end == |text| <= MAX_AT_RESPONSE && buffer[..end + 1] == text + ['\0']
      ensures Valid() && Unread() == text
    {
      hide NulFreeArrivals;
      assert buffer[..end + 1][end] == '\0';
      assert forall i :: 0 <= i < end ==> buffer[i] == buffer[..end + 1][i] == text[i];
    }

    /** memmove() to the start of the buffer. */
    method MemMove(from: nat, n: nat)
      requires from + n <= buffer.Length
      modifies buffer
      ensures buffer[..n] == old(buffer[from..from + n])
    {
      forall i | 0 <= i < n {
        buffer[i] := buffer[from + i];
      }
    }

    /** One read() behind the partial line, terminated and with leading newlines skipped. */
    method ReadMore(pRead: nat) returns (count: nat)
      requires Valid() && end == pRead < MAX_AT_RESPONSE
      modifies this`cur, this`end, this`arrivals, buffer
      ensures Valid()
      ensures var got := Read(old(arrivals), MAX_AT_RESPONSE - pRead);
        && count == |got.0| && arrivals == got.1 && end == pRead + count
        && Unread() == (if count == 0 then old(Unread()) else SkipNewlines(old(Unread()) + got.0))
    {
      hide Read, SkipNewlines, Stream, Work;
      ghost var held, got := Unread(), Read(arrivals, MAX_AT_RESPONSE - pRead).0;
      ReadNulFree(arrivals, MAX_AT_RESPONSE - pRead);
      count := ReadInto(pRead, MAX_AT_RESPONSE - pRead);
      assert buffer[cur..pRead] == held;
      if count > 0 {
        Terminate(pRead, count, held, got);
        SkipLeadingNewlines();
      }
    }

    /** A NUL is put behind the bytes got, which stand behind the partial line held. */
    method Terminate(pRead: nat, count: nat, ghost held: string, ghost got: string)
      requires buffer.Length == MAX_AT_RESPONSE + 1 && NulFreeArrivals(arrivals)
      requires cur <= pRead && pRead + count <= MAX_AT_RESPONSE && |got| == count
      requires buffer[cur..pRead] == held && buffer[pRead..pRead + count] == got && NulFree(held) && NulFree(got)
      modifies this`end, buffer
      ensures Valid() && end == pRead + count && Unread() == held + got
    {
      hide NulFreeArrivals;
      buffer[pRead + count] := '\0';
      end := pRead + count;
      assert buffer[cur..pRead] == held && buffer[pRead..end] == got;
      assert buffer[cur..end] == buffer[cur..pRead] + buffer[pRead..end];
      assert NulFree(held + got);
      assert forall i :: cur <= i < end ==> buffer[i] == buffer[cur..end][i - cur];
    }

    /** Puts a NUL over the line end, returns the line and steps over it. */
    method TakeLine(pEol: nat) returns (line: Option<string>)
      requires Valid() && cur <= pEol <= end && (pEol == end ==> Unread() == "> ")
      modifies this`cur, this`end, buffer
      ensures Returned(Cut(old(Unread()), pEol - old(cur), arrivals), line)
    {
      ghost var text := Unread();
      assert buffer[cur..pEol] == text[..pEol - cur];
      assert pEol < end ==> buffer[pEol + 1..end] == text[pEol - cur + 1..];
      line := Some(buffer[cur..pEol]);
      buffer[pEol] := '\0';
      cur := pEol + 1;
      if pEol == end && cur < buffer.Length && buffer[cur] == '\0' {
        end := cur;
      }
    }

    /** The length of the unread text. */
    method Strlen() returns (len: nat)
      requires Valid()
      ensures len == |Unread()|
    {
      len := 0;
      while buffer[cur + len] != '\0'
        invariant cur + len <= end
        decreases end - cur - len
      {
        len := len + 1;
      }
    }

    /** ReadLine on a regular stream: the next segment, or None when there is none left. */
    method NextSegment() returns (line: Option<string>)
      requires Valid() && Regular(Pending())
      modifies this, buffer
      ensures Valid() && Regular(Pending())
      ensures line.None? ==> Segments(old(Pending()), "") == []
      ensures line.Some? ==> Segments(old(Pending()), "") == [line.value] + Segments(Pending(), "")
      ensures line.Some? ==> Rank() < old(Rank())
    {
      hide Next, Regular, Segments, Fill, Cut;
      NextAgrees(Unread(), arrivals);
      line := ReadLine();
    }

    /** readerLoop: for every way the stream is cut, the deliveries are those of its lines. */
    method ReaderLoop() returns (delivered: seq<Delivery>)
      requires Valid() && Regular(Pending())
      modifies this, buffer
      ensures delivered == Deliveries(Segments(old(Pending()), ""))
    {
      hide *;
      delivered := [];
      ghost var goal := Deliveries(Segments(Pending(), ""));
      ToDeliverStart(Segments(Pending(), ""));
      while true
        invariant Valid() && Regular(Pending()) && ToDeliver(goal, delivered, Segments(Pending(), ""))
        decreases Rank()
      {
        var line := NextSegment();
        if line == None {
          ToDeliverEnd(goal, delivered);
          break;
        }
        var isSms := MatchesTable(line.value, SMS_UNSOLICITEDS);
        if isSms {
          var line2 := NextSegment();
          if line2 == None {
            ToDeliverDangling(goal, delivered, line.value);
            break;
          }
          ToDeliverPair(goal, delivered, line.value, line2.value, Segments(Pending(), ""));
          delivered := delivered + [WithPdu(line.value, line2.value)];
        } else {
          ToDeliverSingle(goal, delivered, line.value, Segments(Pending(), ""));
          delivered := delivered + [Single(line.value)];
        }
      }
    }
  }
}
