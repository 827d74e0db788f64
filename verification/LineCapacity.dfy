/**
  The capacity condition of the line reader is exact: when some closed line does not fit, there is a
  way of cutting the stream by which the reader loses it.

  What the reader delivers can never weigh more, in characters, than the closed lines of the stream;
  a buffer that is dropped with part of a closed line in it is therefore a loss.
 */
module LineCapacity {
  import opened LineReader
  import opened Sequences
  import opened Wrappers

  function Weight(lines: seq<string>): nat
  {
    if lines == [] then 0 else |lines[0]| + Weight(lines[1..])
  }

  lemma WeightCons(line: string, lines: seq<string>)
    ensures Weight([line] + lines) == |line| + Weight(lines)
  {
    TailOfSum([line], lines);
    AppendNothing(lines);
    assert [line][1..] == [];
  }

  /** How many characters of s are in closed lines. */
  function ClosedChars(s: string): nat
  {
    if EolIndex(s) == |s| then 0 else (if IsEol(s[0]) then 0 else 1) + ClosedChars(s[1..])
  }

  lemma {:induction false} SegmentsWeigh(s: string, acc: string)
    ensures Weight(Segments(s, acc)) == ClosedChars(s) + (if EolIndex(s) < |s| then |acc| else 0)
    decreases |s|
  {
    if s != "" {
      if IsEol(s[0]) {
        SegmentsWeigh(s[1..], "");
        WeightCons(acc, Segments(s[1..], ""));
        AppendNothing(Segments(s[1..], ""));
      } else {
        SegmentsWeigh(s[1..], acc + [s[0]]);
      }
    }
  }

  /** Dropping the front of a text gains nothing. */
  lemma {:induction false} DropsWeigh(s: string, n: nat)
    requires n <= |s|
    ensures ClosedChars(s[n..]) <= ClosedChars(s)
  {
    if n > 0 {
      DropsWeigh(s[1..], n - 1);
      DropDrop(s, 1, n - 1);
      FirstWeighs(s);
      hide ClosedChars;
    } else {
      assert s[0..] == s;
    }
  }

  lemma FirstWeighs(s: string)
    requires s != ""
    ensures ClosedChars(s[1..]) <= ClosedChars(s)
    ensures !IsEol(s[0]) && EolIndex(s) < |s| ==> ClosedChars(s[1..]) < ClosedChars(s)
  {
    if EolIndex(s) == |s| {
      assert EolIndex(s[1..]) == |s[1..]|;
    }
  }

  /** Dropping a character of a closed line is a loss. */
  lemma {:induction false} LossWeighs(s: string, i: nat, n: nat)
    requires i < n <= |s| && !IsEol(s[i]) && EolIndex(s[i..]) < |s| - i
    ensures ClosedChars(s[n..]) < ClosedChars(s)
  {
    FirstWeighs(s);
    DropDrop(s, 1, n - 1);
    if i == 0 {
      assert s[0..] == s;
      DropsWeigh(s[1..], n - 1);
    } else {
      DropDrop(s, 1, i - 1);
      LossWeighs(s[1..], i - 1, n - 1);
    }
    hide ClosedChars, EolIndex;
  }

  /** Text of a closed line, and what follows it. */
  lemma {:induction false} LineWeighs(s: string, eol: nat)
    requires eol < |s| && EolIndex(s) == eol
    ensures eol + ClosedChars(s[eol + 1..]) == ClosedChars(s)
  {
    if eol > 0 {
      LineWeighs(s[1..], eol - 1);
      DropDrop(s, 1, eol);
    }
  }

  /** A line cut off the front of what is buffered and still to come. */
  lemma CutWeighs(line: string, eol: nat, tail: string)
    requires FindNextEol(line) == Some(eol) && eol < |line|
    ensures |line[..eol]| + ClosedChars(line[eol + 1..] + tail) == ClosedChars(line + tail)
  {
    EolIndexIn(line, tail);
    LineWeighs(line + tail, eol);
    SplitLine(line, eol, tail);
    hide ClosedChars, EolIndex;
  }

  /** Newlines in front weigh nothing. */
  lemma SkipWeighs(text: string, tail: string)
    ensures ClosedChars(SkipNewlines(text) + tail) <= ClosedChars(text + tail)
  {
    var n := |text| - |SkipNewlines(text)|;
    BodyIs(text);
    DropsWeigh(text + tail, n);
    assert (text + tail)[n..] == text[n..] + tail;
    hide ClosedChars, SkipNewlines;
  }

  /** A line that is delivered, with all that can be delivered behind it, weighs no more than s. */
  ghost predicate NoGain(r: Outcome, s: string)
  {
    r.Line? ==> |r.text| + ClosedChars(r.unread + Stream(r.arrivals)) <= ClosedChars(s)
  }

  lemma {:induction false} FillGainsNothing(off: nat, held: string, arrivals: seq<Arrival>)
    requires off + |held| <= MAX_AT_RESPONSE
    ensures NoGain(Fill(off, held, arrivals), held + Stream(arrivals))
    decreases Work(arrivals), off + |held|
  {
    assert MAX_AT_RESPONSE > 0;
    hide *;
    if off + |held| == MAX_AT_RESPONSE {
      FillDitches(off, held, arrivals);
      FillGainsNothing(0, "", arrivals);
      AppendNothing(Stream(arrivals));
      SplitAgain(held, Stream(arrivals));
      DropsWeigh(held + Stream(arrivals), |held|);
      LessIsNoGain(Fill(0, "", arrivals), Stream(arrivals), held + Stream(arrivals));
    } else {
      var got := Read(arrivals, MAX_AT_RESPONSE - off - |held|);
      ReadTakes(arrivals, MAX_AT_RESPONSE - off - |held|);
      Assoc(held, got.0, Stream(got.1));
      var line := SkipNewlines(held + got.0);
      SkipWeighs(held + got.0, Stream(got.1));
      if got.0 == "" {
        FillCloses(off, held, arrivals);
        NoLineNoGain(Fill(off, held, arrivals), held + Stream(arrivals));
      } else if FindNextEol(line).Some? {
        FillCuts(off, held, arrivals);
        CutGainsNothing(line, got.1);
        LessIsNoGain(Fill(off, held, arrivals), line + Stream(got.1), held + Stream(arrivals));
      } else {
        FillReadsOn(off, held, arrivals);
        FillGainsNothing(off + |held + got.0| - |line|, line, got.1);
        LessIsNoGain(Fill(off, held, arrivals), line + Stream(got.1), held + Stream(arrivals));
      }
    }
  }

  lemma NoLineNoGain(r: Outcome, s: string)
    requires !r.Line?
    ensures NoGain(r, s)
  {
  }

  lemma LessIsNoGain(r: Outcome, t: string, s: string)
    requires NoGain(r, t) && ClosedChars(t) <= ClosedChars(s)
    ensures NoGain(r, s)
  {
  }

  lemma CutGainsNothing(line: string, a: seq<Arrival>)
    requires FindNextEol(line).Some?
    ensures NoGain(Cut(line, FindNextEol(line).value, a), line + Stream(a))
  {
    var eol := FindNextEol(line).value;
    if eol < |line| {
      CutWeighs(line, eol, Stream(a));
    }
    hide ClosedChars, Stream, FindNextEol;
  }

  lemma NextGainsNothing(unread: string, arrivals: seq<Arrival>)
    requires |unread| <= MAX_AT_RESPONSE
    ensures NoGain(Next(unread, arrivals), unread + Stream(arrivals))
  {
    hide *;
    var line := SkipNewlines(unread);
    NextIs(unread, arrivals);
    SkipWeighs(unread, Stream(arrivals));
    if FindNextEol(line).Some? {
      CutGainsNothing(line, arrivals);
    } else {
      FillGainsNothing(0, line, arrivals);
    }
    LessIsNoGain(Next(unread, arrivals), line + Stream(arrivals), unread + Stream(arrivals));
  }

  /** A session either ends with a prompt or delivers no more than the closed lines of its stream. */
  lemma {:induction false} SessionGainsNothing(unread: string, arrivals: seq<Arrival>)
    requires |unread| <= MAX_AT_RESPONSE
    ensures "> " in Session(unread, arrivals)
      || Weight(Session(unread, arrivals)) <= ClosedChars(unread + Stream(arrivals))
    decreases |unread| + Work(arrivals)
  {
    NextGainsNothing(unread, arrivals);
    var r := Next(unread, arrivals);
    SessionIs(unread, arrivals);
    hide Next, Session, ClosedChars, Stream;
    if r.Line? {
      SessionGainsNothing(r.unread, r.arrivals);
      WeightCons(r.text, Session(r.unread, r.arrivals));
      hide Weight;
    }
  }

  // ---------- the losing cut ----------

  /** Every newline run is shorter than the buffer. */
  ghost predicate ShortRuns(s: string)
  {
    forall i, k :: RunThenText(s, i, k, k) ==> k - i < MAX_AT_RESPONSE
  }

  lemma ShortRunsSuffix(s: string, p: nat)
    requires p <= |s| && ShortRuns(s)
    ensures ShortRuns(s[p..])
  {
    var t := s[p..];
    forall i, k | RunThenText(t, i, k, k) ensures k - i < MAX_AT_RESPONSE {
      forall x | p + i <= x < p + k ensures IsEol(s[x]) { assert IsEol(t[x - p]); }
      assert RunThenText(s, p + i, p + k, p + k);
    }
  }

  /** No segment is a prompt when no line begins with one. */
  lemma {:induction false} NoPromptSegment(s: string)
    requires NoPromptLine(s)
    ensures "> " !in Segments(s, "")
    decreases |s|
  {
    SegmentsByLine(s);
    if HasLine(s) {
      NextLine(s);
      NoPromptSegment(AfterLine(s));
      hide Segments, NoPromptLine, HasLine, FirstLine, AfterLine;
    }
  }

  /** Where the first line stands in s. */
  lemma FirstLineAt(s: string)
    requires HasLine(s)
    ensures var run := |s| - |SkipNewlines(s)|;
      && run < Span(s) < |s| && FirstLine(s) == s[run..Span(s)]
      && (forall i :: 0 <= i < run ==> IsEol(s[i]))
      && (forall i :: run <= i < Span(s) ==> !IsEol(s[i]))
      && IsEol(s[Span(s)])
  {
    var r := SkipNewlines(s);
    SkipNewlinesFacts(s);
    EolIndexFacts(r);
    SkipEmpty(r);
    DropTake(s, |s| - |r|, EolIndex(r));
    hide SkipNewlines, EolIndex, IsEol;
    TextAt(s, |s| - |r|, EolIndex(r));
    assert s[|s| - |r| + EolIndex(r)] == r[EolIndex(r)];
  }

  lemma TextAt(s: string, run: nat, n: nat)
    requires run + n <= |s| && forall k :: 0 <= k < n ==> !IsEol(s[run..][k])
    ensures forall i :: run <= i < run + n ==> !IsEol(s[i])
  {
    forall i | run <= i < run + n ensures !IsEol(s[i]) { assert s[i] == s[run..][i - run]; }
  }

  /** The first line does not begin with a prompt, and the text behind it is as good as s. */
  lemma NextLine(s: string)
    requires HasLine(s) && NoPromptLine(s)
    ensures !PromptAt(s, |s| - |SkipNewlines(s)|) && FirstLine(s) != "> " && NoPromptLine(AfterLine(s))
  {
    var run := |s| - |SkipNewlines(s)|;
    FirstLineAt(s);
    AfterLineIs(s);
    hide HasLine, FirstLine, AfterLine, Span, SkipNewlines, IsEol;
    NoPromptHere(s, run);
    NoPromptSuffix(s, Span(s) + 1);
    hide NoPromptLine;
    assert FirstLine(s)[0] == s[run];
    if |FirstLine(s)| == 2 {
      assert FirstLine(s)[1] == s[run + 1];
    }
  }

  lemma NoPromptHere(s: string, p: nat)
    requires p <= |s| && NoPromptLine(s) && forall i :: 0 <= i < p ==> IsEol(s[i])
    ensures !PromptAt(s, p)
  {
    hide IsEol;
    assert LineStart(s, p);
  }

  /** When the first line does not fit and all comes in one piece, it is lost. */
  lemma WholeStreamLoses(s: string)
    requires NoPromptLine(s) && HasLine(s) && |s| - |SkipNewlines(s)| < MAX_AT_RESPONSE <= Span(s)
    ensures Stream([Data(s)]) == s && Session("", [Data(s)]) != Segments(s, "")
  {
    var arrivals := [Data(s)];
    var p := |s| - |SkipNewlines(s)|;
    StreamOfOne(s);
    FirstLineLaid(s);
    NextLine(s);
    NoPromptSegment(s);
    SegmentsWeigh(s, "");
    hide *;
    LaidAtStart("", arrivals);
    AppendNothing(s);
    var a := FillDrops(s, p, 0, "", arrivals);
    SameSession(arrivals, a);
    LossWeighs(s, p, MAX_AT_RESPONSE);
    AppendNothing(Stream(a));
    SessionGainsNothing("", a);
  }

  lemma StreamOfOne(s: string)
    ensures s != "" ==> Stream([Data(s)]) == s
  {
    assert [Data(s)][1..] == [];
    assert Stream([]) == "";
    AppendNothing(s);
  }

  lemma FirstLineLaid(s: string)
    requires HasLine(s) && MAX_AT_RESPONSE <= Span(s)
    ensures var p := |s| - |SkipNewlines(s)|;
      && s != "" && MAX_AT_RESPONSE <= |s|
      && (p < MAX_AT_RESPONSE ==> RunThenText(s, 0, p, MAX_AT_RESPONSE) && !IsEol(s[p]) && EolIndex(s[p..]) < |s| - p)
  {
    var r := SkipNewlines(s);
    SkipNewlinesFacts(s);
    EolIndexFacts(r);
    var p := |s| - |r|;
    assert forall x :: p <= x < p + EolIndex(r) ==> s[x] == r[x - p];
    hide SkipNewlines, EolIndex;
  }

  /** Readers that fill their empty buffers alike go on alike. */
  lemma SameSession(arrivals: seq<Arrival>, a: seq<Arrival>)
    requires Fill(0, "", arrivals) == Fill(0, "", a)
    ensures Session("", arrivals) == Session("", a)
  {
    SessionIs("", arrivals);
    SessionIs("", a);
    NextIs("", arrivals);
    NextIs("", a);
    hide Session, Next, Fill;
  }

  /** A read that returns the whole of a piece. */
  lemma PieceRead(piece: string, a: seq<Arrival>)
    requires 0 < |piece| <= MAX_AT_RESPONSE
    ensures Read([Data(piece)] + a, MAX_AT_RESPONSE) == (piece, a)
    ensures Stream([Data(piece)] + a) == piece + Stream(a)
  {
    TailOfSum([Data(piece)], a);
    AppendNothing(a);
    assert [Data(piece)][1..] == [];
  }

  /** The first line with the newlines before it and the character that closes it. */
  lemma FirstPiece(s: string)
    requires HasLine(s)
    ensures Span(s) < |s| && s[..Span(s) + 1] + AfterLine(s) == s
    ensures var line := SkipNewlines(s[..Span(s) + 1]);
      && FindNextEol(line) == Some(|FirstLine(s)|)
      && |line| == |FirstLine(s)| + 1 && line[..|FirstLine(s)|] == FirstLine(s)
  {
    var run, n := |s| - |SkipNewlines(s)|, Span(s);
    FirstLineAt(s);
    AfterLineIs(s);
    hide HasLine, FirstLine, AfterLine, Span, SkipNewlines, EolIndex, IsEol;
    TakeDrop(s, n + 1);
    LineInPiece(s, run, n);
  }

  lemma LineInPiece(s: string, run: nat, n: nat)
    requires run < n < |s| && IsEol(s[n])
    requires forall i :: 0 <= i < run ==> IsEol(s[i])
    requires forall i :: run <= i < n ==> !IsEol(s[i])
    ensures var line := SkipNewlines(s[..n + 1]);
      FindNextEol(line) == Some(n - run) && |line| == n - run + 1 && line[..n - run] == s[run..n]
  {
    var line := s[run..n + 1];
    SkipNewlinesIs(s[..n + 1], run);
    EolIndexIs(line, n - run);
    assert line[n - run] == s[n];
    hide SkipNewlines, EolIndex;
    assert line[..n - run] == s[run..n];
  }

  /** When the first line comes in a piece of its own, it is delivered. */
  lemma FirstPieceNext(s: string, a: seq<Arrival>)
    requires HasLine(s) && Span(s) < MAX_AT_RESPONSE && Span(s) < |s|
    ensures Next("", [Data(s[..Span(s) + 1])] + a) == Line(FirstLine(s), "", a)
  {
    var piece := s[..Span(s) + 1];
    var arrivals := [Data(piece)] + a;
    var line := SkipNewlines(piece);
    FirstPiece(s);
    PieceRead(piece, a);
    NothingBuffered();
    AppendNothing(piece);
    hide *;
    NextIs("", arrivals);
    FillCuts(0, "", arrivals);
    CutBefore(line, |FirstLine(s)|, a);
  }

  lemma CutBefore(line: string, eol: nat, a: seq<Arrival>)
    requires |line| == eol + 1
    ensures Cut(line, eol, a) == Line(line[..eol], "", a)
  {
  }

  /** When some closed line does not fit, there is a way of cutting the stream that loses it: every
      line before it comes in a piece of its own, the rest in one. */
  lemma {:induction false} LosesLine(s: string) returns (arrivals: seq<Arrival>)
    requires NoPromptLine(s) && ShortRuns(s) && !LinesFit(s)
    ensures Stream(arrivals) == s && Session("", arrivals) != Segments(s, "")
    decreases |s|
  {
    hide NoPromptLine, ShortRuns, HasLine, Span, FirstLine, AfterLine, Stream, Session, Segments, SkipNewlines;
    if Span(s) >= MAX_AT_RESPONSE {
      FirstRunIsShort(s);
      WholeStreamLoses(s);
      arrivals := [Data(s)];
    } else {
      NextLine(s);
      AfterLineIs(s);
      ShortRunsSuffix(s, Span(s) + 1);
      var a := LosesLine(AfterLine(s));
      arrivals := [Data(s[..Span(s) + 1])] + a;
      FirstPiece(s);
      PieceRead(s[..Span(s) + 1], a);
      FirstPieceNext(s, a);
      SessionIs("", arrivals);
      SegmentsByLine(s);
      SplitAgain([FirstLine(s)], Session("", a));
      SplitAgain([FirstLine(s)], Segments(AfterLine(s), ""));
    }
  }

  lemma FirstRunIsShort(s: string)
    requires HasLine(s) && ShortRuns(s)
    ensures |s| - |SkipNewlines(s)| < MAX_AT_RESPONSE
  {
    SkipNewlinesFacts(s);
    assert RunThenText(s, 0, |s| - |SkipNewlines(s)|, |s| - |SkipNewlines(s)|);
  }

  /** The capacity condition is exact: every way of cutting the stream yields its lines if and only
      if every closed line fits the buffer. */
  lemma CapacityExactly(s: string)
    requires NoPromptLine(s) && TailQuiet(s) && ShortRuns(s)
    ensures (forall arrivals: seq<Arrival> :: Stream(arrivals) == s ==> Session("", arrivals) == Segments(s, ""))
      <==> LinesFit(s)
  {
    hide *;
    if LinesFit(s) {
      forall arrivals: seq<Arrival> | Stream(arrivals) == s
        ensures Session("", arrivals) == Segments(s, "")
      {
        ChunkIndependence(arrivals);
      }
    } else {
      var arrivals := LosesLine(s);
      assert Stream(arrivals) == s && Session("", arrivals) != Segments(s, "");
    }
  }
}
