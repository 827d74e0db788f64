/**
  The SMS prompt, which no newline closes: readline returns it exactly when some scan of the buffer
  sees the prompt and nothing else, and a prompt that comes by itself is delivered.
 */
module LinePrompt {
  import opened AtStrings
  import opened LineReader
  import opened Sequences
  import opened Wrappers

  // ---------- what a call of readline returns, by the texts it scans ----------

  /** The texts that the loop of readline scans, read by read, as long as none ends a line: each is
      what the last one and the read make together, without the newlines in front. */
  function Scans(off: nat, held: string, arrivals: seq<Arrival>): seq<string>
    requires off + |held| <= MAX_AT_RESPONSE
    decreases Work(arrivals), off + |held|
  {
    if off + |held| == MAX_AT_RESPONSE then Scans(0, "", arrivals)
    else
      var got := Read(arrivals, MAX_AT_RESPONSE - off - |held|);
      if got.0 == "" then []
      else
        var text := SkipNewlines(held + got.0);
        [text] + Scans(off + |held + got.0| - |text|, text, got.1)
  }

  /** The texts that a call scans: first the one that is buffered already. */
  function Scanned(unread: string, arrivals: seq<Arrival>): seq<string>
    requires |unread| <= MAX_AT_RESPONSE
  {
    [SkipNewlines(unread)] + Scans(0, SkipNewlines(unread), arrivals)
  }

  /** The text is open: it holds no CR or LF, and is not the prompt. */
  ghost predicate OpenText(text: string)
  {
    text != "> " && forall c <- text :: c != '\r' && c != '\n'
  }

  /** The scan number k is the first one whose text is not open. */
  ghost predicate Decides(texts: seq<string>, k: nat)
  {
    k < |texts| && !OpenText(texts[k]) && forall j :: 0 <= j < k ==> OpenText(texts[j])
  }

  /** The result of a call, by its scans. */
  ghost predicate ByScans(r: Outcome, texts: seq<string>)
  {
    match r
    case Closed(_, _) => forall text <- texts :: OpenText(text)
    case Prompt(_) => exists k: nat :: Decides(texts, k) && texts[k] == "> "
    case Line(line, _, _) => exists k: nat :: Decides(texts, k) && LineOf(line, texts[k])
  }

  /** The line is what stands before the first CR or LF of the text. */
  ghost predicate LineOf(line: string, text: string)
  {
    && |line| < |text| && line == text[..|line|] && IsEol(text[|line|])
    && forall i :: 0 <= i < |line| ==> !IsEol(text[i])
  }

  lemma OpenExactly(text: string)
    ensures OpenText(text) <==> FindNextEol(text) == None
    ensures var e := FindNextEol(text); e.Some? && e.value == |text| ==> text == "> "
    ensures var e := FindNextEol(text);
      e.Some? && e.value < |text| ==> IsEol(text[e.value]) && forall i :: 0 <= i < e.value ==> !IsEol(text[i])
    ensures text == "> " ==> FindNextEol(text) == Some(2)
  {
    EolIndexFacts(text);
    var e := EolIndex(text);
    if e < |text| {
      assert text[e] in text;
    }
  }

  /** The first scan decides, or the others do. */
  lemma LaterScan(r: Outcome, text: string, rest: seq<string>)
    requires OpenText(text) && ByScans(r, rest)
    ensures ByScans(r, [text] + rest)
  {
    var texts := [text] + rest;
    hide OpenText;
    match r
    case Closed(_, _) =>
    case Prompt(_) =>
      var k: nat :| Decides(rest, k) && rest[k] == "> ";
      LaterDecides(text, rest, k);
    case Line(line, _, _) =>
      hide LineOf;
      var k: nat :| Decides(rest, k) && LineOf(line, rest[k]);
      LaterDecides(text, rest, k);
  }

  lemma LaterDecides(text: string, rest: seq<string>, k: nat)
    requires OpenText(text) && Decides(rest, k)
    ensures Decides([text] + rest, k + 1) && ([text] + rest)[k + 1] == rest[k]
  {
    hide OpenText;
  }

  lemma FirstScan(text: string, rest: seq<string>, a: seq<Arrival>)
    requires FindNextEol(text).Some?
    ensures ByScans(Cut(text, FindNextEol(text).value, a), [text] + rest)
  {
    OpenExactly(text);
    hide OpenText, FindNextEol, IsEol;
    assert Decides([text] + rest, 0);
  }

  lemma {:induction false} FillByScans(off: nat, held: string, arrivals: seq<Arrival>)
    requires off + |held| <= MAX_AT_RESPONSE
    ensures ByScans(Fill(off, held, arrivals), Scans(off, held, arrivals))
    decreases Work(arrivals), off + |held|
  {
    hide ByScans, SkipNewlines, FindNextEol, OpenText, Fill;
    if off + |held| == MAX_AT_RESPONSE {
      FillDitches(off, held, arrivals);
      FillByScans(0, "", arrivals);
    } else {
      var got := Read(arrivals, MAX_AT_RESPONSE - off - |held|);
      var text := SkipNewlines(held + got.0);
      if got.0 == "" {
        FillCloses(off, held, arrivals);
        NoScans(held, got.1);
      } else if FindNextEol(text).Some? {
        FillCuts(off, held, arrivals);
        FirstScan(text, Scans(off + |held + got.0| - |text|, text, got.1), got.1);
      } else {
        FillReadsOn(off, held, arrivals);
        FillByScans(off + |held + got.0| - |text|, text, got.1);
        OpenExactly(text);
        LaterScan(Fill(off, held, arrivals), text, Scans(off + |held + got.0| - |text|, text, got.1));
      }
    }
  }

  lemma NoScans(held: string, a: seq<Arrival>)
    ensures ByScans(Closed(held, a), [])
  {
  }

  /** What a call of readline returns, from any buffered text and for any arrivals: the first scan that
      does not see an open text decides.  It is the prompt if that scan sees "> " and nothing else,
      else the line up to the first CR or LF; with no such scan the channel has ended. */
  lemma NextByScans(unread: string, arrivals: seq<Arrival>)
    requires |unread| <= MAX_AT_RESPONSE
    ensures ByScans(Next(unread, arrivals), Scanned(unread, arrivals))
  {
    hide ByScans, SkipNewlines, FindNextEol, OpenText, Fill, Next, Scans;
    var text := SkipNewlines(unread);
    NextIs(unread, arrivals);
    if FindNextEol(text).Some? {
      FirstScan(text, Scans(0, text, arrivals), arrivals);
    } else {
      OpenExactly(text);
      FillByScans(0, text, arrivals);
      LaterScan(Next(unread, arrivals), text, Scans(0, text, arrivals));
    }
  }

  /** The prompt is returned if and only if the first scan that does not see an open text sees "> ". */
  lemma PromptExactly(unread: string, arrivals: seq<Arrival>)
    requires |unread| <= MAX_AT_RESPONSE
    ensures
      var texts := Scanned(unread, arrivals);
      Next(unread, arrivals).Prompt? <==> exists k: nat :: Decides(texts, k) && texts[k] == "> "
  {
    hide Next, Scanned;
    NextByScans(unread, arrivals);
    var texts := Scanned(unread, arrivals);
    if k: nat :| Decides(texts, k) && texts[k] == "> " {
      OnePrompt(Next(unread, arrivals), texts, k);
    }
  }

  lemma OnePrompt(r: Outcome, texts: seq<string>, k: nat)
    requires ByScans(r, texts) && Decides(texts, k) && texts[k] == "> "
    ensures r.Prompt?
  {
    hide OpenText;
    forall l: nat | Decides(texts, l) ensures l == k {
      OneDecides(texts, k, l);
    }
  }

  lemma OneDecides(texts: seq<string>, k: nat, l: nat)
    requires Decides(texts, k) && Decides(texts, l)
    ensures k == l
  {
    hide OpenText;
  }

  // ---------- a prompt that comes by itself ----------

  /** None of these ends the stream. */
  predicate Alive(arrivals: seq<Arrival>)
  {
    forall a <- arrivals :: a.Interrupted? || (a.Data? && a.bytes != "")
  }

  /** Closed lines, and behind them only newlines that leave room for the prompt. */
  predicate ClosedWithRoom(s: string)
    decreases |s|
  {
    if HasLine(s) then ClosedWithRoom(AfterLine(s)) else SkipNewlines(s) == "" && |s| + 2 <= MAX_AT_RESPONSE
  }

  lemma {:induction false} RoomIsQuiet(s: string)
    requires ClosedWithRoom(s)
    ensures TailQuiet(s)
    decreases |s|
  {
    hide HasLine, AfterLine;
    if HasLine(s) { RoomIsQuiet(AfterLine(s)); }
  }

  /** Reading does not look at what comes behind. */
  lemma {:induction false} ReadLocal(arrivals: seq<Arrival>, max: nat, x: seq<Arrival>)
    requires 0 < max && Read(arrivals, max).0 != ""
    ensures Read(arrivals + x, max) == (Read(arrivals, max).0, Read(arrivals, max).1 + x)
  {
    TailOfSum(arrivals, x);
    if arrivals[0].Interrupted? {
      ReadLocal(arrivals[1..], max, x);
    } else if |arrivals[0].bytes| > max {
      Assoc([Data(arrivals[0].bytes[max..])], arrivals[1..], x);
    }
  }

  lemma {:induction false} ReadAlive(arrivals: seq<Arrival>, max: nat)
    requires 0 < max && Alive(arrivals)
    ensures Alive(Read(arrivals, max).1)
  {
    if arrivals != [] && arrivals[0].Interrupted? {
      ReadAlive(arrivals[1..], max);
    }
  }

  /** A line that is returned from the front part of the arrivals is returned from all of them. */
  ghost predicate SameLine(r: Outcome, whole: Outcome, x: seq<Arrival>)
  {
    r.Line? ==> whole == Line(r.text, r.unread, r.arrivals + x) && Alive(r.arrivals)
  }

  lemma CutSame(text: string, eol: nat, a: seq<Arrival>, x: seq<Arrival>)
    requires eol <= |text| && Alive(a)
    ensures SameLine(Cut(text, eol, a), Cut(text, eol, a + x), x)
  {
  }

  lemma {:induction false} FillLocal(off: nat, held: string, arrivals: seq<Arrival>, x: seq<Arrival>)
    requires off + |held| <= MAX_AT_RESPONSE && Alive(arrivals)
    ensures SameLine(Fill(off, held, arrivals), Fill(off, held, arrivals + x), x)
    decreases Work(arrivals), off + |held|
  {
    hide Fill, FindNextEol, SkipNewlines, Read, SameLine, Alive;
    if off + |held| == MAX_AT_RESPONSE {
      FillDitches(off, held, arrivals);
      FillDitches(off, held, arrivals + x);
      FillLocal(0, "", arrivals, x);
    } else {
      var got := Read(arrivals, MAX_AT_RESPONSE - off - |held|);
      ReadAlive(arrivals, MAX_AT_RESPONSE - off - |held|);
      if got.0 == "" {
        FillCloses(off, held, arrivals);
        ClosedSame(held, got.1, Fill(off, held, arrivals + x), x);
      } else {
        ReadLocal(arrivals, MAX_AT_RESPONSE - off - |held|, x);
        var text := SkipNewlines(held + got.0);
        if FindNextEol(text).Some? {
          FillCuts(off, held, arrivals);
          FillCuts(off, held, arrivals + x);
          CutSame(text, FindNextEol(text).value, got.1, x);
        } else {
          FillReadsOn(off, held, arrivals);
          FillReadsOn(off, held, arrivals + x);
          FillLocal(off + |held + got.0| - |text|, text, got.1, x);
        }
      }
    }
  }

  lemma ClosedSame(held: string, a: seq<Arrival>, whole: Outcome, x: seq<Arrival>)
    ensures SameLine(Closed(held, a), whole, x)
  {
  }

  lemma NextLocal(unread: string, arrivals: seq<Arrival>, x: seq<Arrival>)
    requires |unread| <= MAX_AT_RESPONSE && Alive(arrivals)
    ensures SameLine(Next(unread, arrivals), Next(unread, arrivals + x), x)
  {
    hide *;
    var text := SkipNewlines(unread);
    NextIs(unread, arrivals);
    NextIs(unread, arrivals + x);
    if FindNextEol(text).Some? {
      CutSame(text, FindNextEol(text).value, arrivals, x);
    } else {
      FillLocal(0, text, arrivals, x);
    }
  }

  /** Live arrivals with bytes left return some of them; with room for all, all of the next piece. */
  lemma {:induction false} ReadPart(arrivals: seq<Arrival>, max: nat)
    requires Alive(arrivals) && 0 < |Stream(arrivals)| <= max
    ensures Read(arrivals, max).0 != ""
  {
    if arrivals[0].Interrupted? {
      ReadPart(arrivals[1..], max);
    }
  }

  /** The prompt, or what is left of it behind held, comes after n newlines. */
  ghost predicate PromptToCome(held: string, s: string, n: nat)
  {
    && (held == "" || (held == ">" && n == 0)) && n <= |s| && held + s[n..] == "> "
    && forall i :: 0 <= i < n ==> IsEol(s[i])
  }

  lemma {:induction false} FillPrompt(off: nat, held: string, arrivals: seq<Arrival>, x: seq<Arrival>, n: nat)
    requires Alive(arrivals) && PromptToCome(held, Stream(arrivals), n)
    requires off + |held| + |Stream(arrivals)| <= MAX_AT_RESPONSE
    ensures Fill(off, held, arrivals + x).Prompt?
    decreases Work(arrivals)
  {
    hide *;
    var off', held', rest, n' := PromptStep(off, held, arrivals, x, n);
    if !Fill(off, held, arrivals + x).Prompt? {
      FillPrompt(off', held', rest, x, n');
    }
  }

  /** One turn of the loop: the prompt is there, or it is still to come. */
  lemma PromptStep(off: nat, held: string, arrivals: seq<Arrival>, x: seq<Arrival>, n: nat)
    returns (off': nat, held': string, rest: seq<Arrival>, n': nat)
    requires Alive(arrivals) && PromptToCome(held, Stream(arrivals), n)
    requires off + |held| + |Stream(arrivals)| <= MAX_AT_RESPONSE
    ensures Alive(rest) && Work(rest) < Work(arrivals) && off' + |held'| + |Stream(rest)| <= MAX_AT_RESPONSE
    ensures !Fill(off, held, arrivals + x).Prompt? ==>
      PromptToCome(held', Stream(rest), n') && Fill(off, held, arrivals + x) == Fill(off', held', rest + x)
  {
    hide *;
    var got;
    got, rest := NextPiece(off, held, arrivals, x, n);
    var more := Stream(rest);
    PieceStep(held, got, more, n);
    PromptTexts();
    if |got| <= n {
      off', held', n' := off + |got|, "", n - |got|;
      ReadsOn(off, held, arrivals + x, got, rest + x, "");
    } else if more == "" {
      off', held', n' := off, "", 0;
      SeesPrompt(off, held, arrivals + x, got, rest + x);
    } else {
      off', held', n' := off + n, ">", 0;
      ReadsOn(off, held, arrivals + x, got, rest + x, ">");
    }
  }

  /** With room for all that is to come, the next read returns some of it. */
  lemma NextPiece(off: nat, held: string, arrivals: seq<Arrival>, x: seq<Arrival>, n: nat)
    returns (got: string, rest: seq<Arrival>)
    requires Alive(arrivals) && PromptToCome(held, Stream(arrivals), n)
    requires off + |held| + |Stream(arrivals)| <= MAX_AT_RESPONSE
    ensures off + |held| < MAX_AT_RESPONSE && Read(arrivals + x, MAX_AT_RESPONSE - off - |held|) == (got, rest + x)
    ensures got != "" && Alive(rest) && Work(rest) < Work(arrivals) && PromptToCome(held, got + Stream(rest), n)
    ensures |Stream(arrivals)| == |got| + |Stream(rest)|
  {
    StillToCome(held, Stream(arrivals), n);
    hide *;
    var max := MAX_AT_RESPONSE - off - |held|;
    var taken := Read(arrivals, max);
    ReadPart(arrivals, max);
    ReadLocal(arrivals, max, x);
    ReadTakes(arrivals, max);
    ReadAlive(arrivals, max);
    got, rest := taken.0, taken.1;
  }

  lemma ReadsOn(off: nat, held: string, a: seq<Arrival>, got: string, rest: seq<Arrival>, text: string)
    requires off + |held| < MAX_AT_RESPONSE && Read(a, MAX_AT_RESPONSE - off - |held|) == (got, rest) && got != ""
    requires SkipNewlines(held + got) == text && FindNextEol(text) == None
    ensures |text| <= |held| + |got| && off + |held| + |got| <= MAX_AT_RESPONSE
    ensures Fill(off, held, a) == Fill(off + |held| + |got| - |text|, text, rest)
  {
    hide *;
    FillReadsOn(off, held, a);
    assert |held + got| == |held| + |got|;
  }

  lemma SeesPrompt(off: nat, held: string, a: seq<Arrival>, got: string, rest: seq<Arrival>)
    requires off + |held| < MAX_AT_RESPONSE && Read(a, MAX_AT_RESPONSE - off - |held|) == (got, rest) && got != ""
    requires SkipNewlines(held + got) == "> "
    ensures Fill(off, held, a) == Prompt(rest)
  {
    hide *;
    PromptTexts();
    FillCuts(off, held, a);
    CutPrompt(rest);
  }

  lemma StillToCome(held: string, s: string, n: nat)
    requires PromptToCome(held, s, n)
    ensures s != "" && |held| <= 1
  {
  }

  lemma CutPrompt(a: seq<Arrival>)
    ensures Cut("> ", 2, a) == Prompt(a)
  {
  }

  lemma PromptTexts()
    ensures FindNextEol("") == None && FindNextEol(">") == None && FindNextEol("> ") == Some(2)
  {
    EolIndexIs(">", 1);
  }

  lemma {:induction false} SkipAll(s: string)
    requires forall i :: 0 <= i < |s| ==> IsEol(s[i])
    ensures SkipNewlines(s) == ""
  {
    if s != "" { SkipAll(s[1..]); }
  }

  /** A read that brings some of the newlines, or the prompt, or its first character. */
  lemma PieceStep(held: string, got: string, rest: string, n: nat)
    requires got != "" && PromptToCome(held, got + rest, n)
    ensures
      if |got| <= n then held == "" && SkipNewlines(held + got) == "" && PromptToCome("", rest, n - |got|)
      else if rest == "" then SkipNewlines(held + got) == "> "
      else |held| + |got| == n + 1 && SkipNewlines(held + got) == ">" && PromptToCome(">", rest, 0)
  {
    hide SkipNewlines, IsEol;
    if |got| <= n {
      NewlinesFirst(got, rest, n);
      AppendNothing(got);
      SkipAll(got);
    } else {
      PromptFirst(held, got, rest, n);
      SkipNewlinesIs(held + got, n);
    }
  }

  lemma NewlinesFirst(got: string, rest: string, n: nat)
    requires |got| <= n && PromptToCome("", got + rest, n)
    ensures PromptToCome("", rest, n - |got|) && forall i :: 0 <= i < |got| ==> IsEol(got[i])
  {
    var s := got + rest;
    hide IsEol;
    assert s[n..] == rest[n - |got|..];
    assert forall i :: 0 <= i < |got| ==> got[i] == s[i];
    assert forall i :: 0 <= i < n - |got| ==> rest[i] == s[|got| + i];
  }

  lemma PromptFirst(held: string, got: string, rest: string, n: nat)
    requires n < |got| && PromptToCome(held, got + rest, n)
    ensures forall i :: 0 <= i < n ==> IsEol((held + got)[i])
    ensures (held + got)[n..] == (if rest == "" then "> " else ">") && !IsEol((held + got)[n])
    ensures rest != "" ==> |held| + |got| == n + 1 && PromptToCome(">", rest, 0)
  {
    var tail := (held + got)[n..];
    assert (got + rest)[n..] == got[n..] + rest;
    assert tail == held + got[n..];
    assert forall i :: 0 <= i < n ==> (held + got)[i] == (got + rest)[i];
    assert tail + rest == "> ";
    assert tail[0] == "> "[0];
    if rest != "" {
      assert rest[|rest| - 1] == "> "[1];
      assert rest[0..] == rest;
    } else {
      AppendNothing(tail);
    }
  }

  /** Behind the last closed line the next call returns the prompt. */
  lemma NextPrompt(unread: string, arrivals: seq<Arrival>, mid: seq<Arrival>, after: seq<Arrival>)
    requires |unread| <= MAX_AT_RESPONSE && Alive(arrivals) && Alive(mid) && Stream(mid) == "> "
    requires SkipNewlines(unread + Stream(arrivals)) == "" && |unread + Stream(arrivals)| + 2 <= MAX_AT_RESPONSE
    ensures Next(unread, arrivals + mid + after).Prompt?
  {
    AllNewlines(unread, Stream(arrivals));
    SkipAll(unread);
    StreamJoins(arrivals, mid);
    hide *;
    NextIs(unread, arrivals + mid + after);
    PromptTexts();
    FillPrompt(0, "", arrivals + mid, after, |Stream(arrivals)|);
  }

  lemma AllNewlines(unread: string, s: string)
    requires SkipNewlines(unread + s) == ""
    ensures forall i :: 0 <= i < |unread| ==> IsEol(unread[i])
    ensures PromptToCome("", s + "> ", |s|)
  {
    var all, tail := unread + s, s + "> ";
    SkipNewlinesFacts(all);
    hide SkipNewlines, IsEol;
    assert forall i :: 0 <= i < |unread| ==> unread[i] == all[i];
    assert forall i :: 0 <= i < |s| ==> tail[i] == all[|unread| + i];
    SplitAgain(s, "> ");
  }

  lemma {:induction false} StreamJoins(a: seq<Arrival>, b: seq<Arrival>)
    requires Alive(a)
    ensures Stream(a + b) == Stream(a) + Stream(b)
    ensures Alive(b) ==> Alive(a + b)
  {
    if a == [] {
      AppendNothing(b);
      AppendNothing(Stream(b));
    } else {
      TailOfSum(a, b);
      StreamJoins(a[1..], b);
    }
  }

  lemma {:induction false} SessionPrompt(unread: string, before: seq<Arrival>, mid: seq<Arrival>, after: seq<Arrival>)
    requires |unread| <= MAX_AT_RESPONSE && Alive(before) && Alive(mid) && Stream(mid) == "> "
    requires var s := unread + Stream(before); NoPromptLine(s) && LinesFit(s) && ClosedWithRoom(s)
    ensures Session(unread, before + mid + after) == Segments(unread + Stream(before), "") + ["> "]
    decreases |unread| + Work(before)
  {
    var s, all := unread + Stream(before), before + mid + after;
    hide Session, Next, Segments, Stream, Alive, HasLine, AfterLine, FirstLine, Work, NoPromptLine, SkipNewlines, SameLine;
    RoomIsQuiet(s);
    NextAgrees(unread, before);
    if HasLine(s) {
      var r := Next(unread, before);
      HasSegment(r, s);
      NextLocal(unread, before, mid + after);
      Assoc(before, mid, after);
      SameLineIs(r, Next(unread, all), mid + after);
      LinesFitBehind(s);
      SessionPrompt(r.unread, r.arrivals, mid, after);
      Assoc(r.arrivals, mid, after);
      SessionIs(unread, all);
      Assoc([r.text], Segments(AfterLine(s), ""), ["> "]);
    } else {
      NextPrompt(unread, before, mid, after);
      SessionIs(unread, all);
      NoSegment(s);
    }
  }

  lemma SameLineIs(r: Outcome, whole: Outcome, x: seq<Arrival>)
    requires r.Line? && SameLine(r, whole, x)
    ensures whole == Line(r.text, r.unread, r.arrivals + x) && Alive(r.arrivals)
  {
    hide Alive;
  }

  lemma HasSegment(r: Outcome, s: string)
    requires Agrees(r, s) && HasLine(s)
    ensures r.Line? && r.text == FirstLine(s) && r.unread + Stream(r.arrivals) == AfterLine(s)
    ensures Segments(s, "") == [r.text] + Segments(AfterLine(s), "") && NoPromptLine(AfterLine(s))
  {
    SegmentsByLine(s);
  }

  lemma NoSegment(s: string)
    requires !HasLine(s)
    ensures Segments(s, "") == []
  {
    SegmentsByLine(s);
  }

  lemma LinesFitBehind(s: string)
    requires HasLine(s) && LinesFit(s) && ClosedWithRoom(s)
    ensures LinesFit(AfterLine(s)) && ClosedWithRoom(AfterLine(s))
  {
  }

  /** Closed lines and then a prompt that comes by itself, in one read or in two: the session delivers
      the lines in order and then the prompt, whatever comes afterwards. */
  lemma PromptIsDelivered(before: seq<Arrival>, mid: seq<Arrival>, after: seq<Arrival>)
    requires Alive(before) && Alive(mid) && Stream(mid) == "> "
    requires NoPromptLine(Stream(before)) && LinesFit(Stream(before)) && ClosedWithRoom(Stream(before))
    ensures Session("", before + mid + after) == Segments(Stream(before), "") + ["> "]
  {
    hide *;
    AppendNothing(Stream(before));
    SessionPrompt("", before, mid, after);
  }
}
