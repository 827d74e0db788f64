/**
  The destructive tokenizer of AT response lines: it walks a cursor through the caller's buffer and
  overwrites delimiters with NUL, so that the tokens it hands out are strings inside that buffer.

  `Token` and `Rest` say what one call reads from the text at the cursor; `Buffer` does it in place.
 */
module AtTokenizer {
  import opened Sequences
  import opened Wrappers

  const NUL: char := '\0'

  /** isspace() in the C locale. */
  predicate IsSpace(c: char)
  {
    c == ' ' || '\t' <= c <= '\r'
  }

  /** The white space of the C locale, by its codes. */
  lemma SpacesAre(c: char)
    ensures IsSpace(c) <==> c as int in {9, 10, 11, 12, 13, 32}
  {
    assert '\t' as int == 9 && '\r' as int == 13 && ' ' as int == 32;
  }

  // ---------- what a call reads ----------

  /** The cursor: NULL, or the text from it up to the terminator. */
  datatype Cursor = Null | At(text: string)

  function Until(s: string, delim: char): (r: string)
    ensures |r| <= |s|
  {
    if s == "" || s[0] == delim then "" else [s[0]] + Until(s[1..], delim)
  }

  /** What strsep() leaves: the text behind the first delimiter, or NULL if there is none. */
  function Behind(s: string, delim: char): (r: Cursor)
    ensures r.At? ==> |r.text| < |s|
  {
    if s == "" then Null else if s[0] == delim then At(s[1..]) else Behind(s[1..], delim)
  }

  function SkipSpace(s: string): (r: string)
    ensures |r| <= |s|
  {
    if s != "" && IsSpace(s[0]) then SkipSpace(s[1..]) else s
  }

  function SkipComma(c: Cursor): Cursor
  {
    if c.Null? then Null
    else if Behind(c.text, ',').Null? then At("")
    else Behind(c.text, ',')
  }

  predicate Quotes(s: string)
  {
    s != "" && s[0] == '"'
  }

  function Token(text: string): string
  {
    var s := SkipSpace(text);
    if Quotes(s) then Until(s[1..], '"') else Until(s, ',')
  }

  function Rest(text: string): Cursor
  {
    var s := SkipSpace(text);
    if Quotes(s) then SkipComma(Behind(s[1..], '"')) else Behind(s, ',')
  }

  /** The tokens of n calls of at_tok_nextstr; a call on a NULL cursor fails. */
  function Tokens(c: Cursor, n: nat): seq<string>
    decreases n
  {
    if n == 0 || c.Null? then [] else [Token(c.text)] + Tokens(Rest(c.text), n - 1)
  }

  function CursorAfter(c: Cursor, n: nat): Cursor
    decreases n
  {
    if n == 0 || c.Null? then c else CursorAfter(Rest(c.text), n - 1)
  }

  predicate HasMore(c: Cursor)
  {
    c.At? && c.text != ""
  }

  lemma {:induction false} RestShortens(text: string)
    ensures Rest(text).At? ==> |Rest(text).text| < |text|
  {
    var s := SkipSpace(text);
    assert |s| <= |text|;
  }

  /** The tokens that a caller collects while at_tok_hasmore holds. */
  function AllTokens(c: Cursor): seq<string>
    decreases if c.At? then |c.text| + 1 else 0
  {
    if !HasMore(c) then []
    else
      RestShortens(c.text);
      [Token(c.text)] + AllTokens(Rest(c.text))
  }

  /** at_tok_start: behind the first colon. */
  function Start(line: string): Cursor { Behind(line, ':') }

  // ---------- what a modem writes ----------

  /** One field as a modem may lay it out; what stands behind a closing quote is skipped. */
  datatype Field =
    | Bare(lead: string, text: string)
    | Quoted(lead: string, text: string, trail: string)
  {
    predicate Layout()
    {
      && (forall c <- lead :: IsSpace(c))
      && (Quoted? ==> ',' !in trail)
    }

    function Print(): string
    {
      if Bare? then lead + text else lead + "\"" + text + "\"" + trail
    }

    /** A field that the syntax can carry. */
    predicate Clean()
    {
      if Quoted? then '"' !in text
      else ',' !in text && (text != "" ==> !IsSpace(text[0]) && text[0] != '"')
    }
  }

  function Texts(fields: seq<Field>): seq<string>
  {
    if fields == [] then [] else [fields[0].text] + Texts(fields[1..])
  }

  function PrintFields(fields: seq<Field>): string
  {
    if fields == [] then ""
    else if |fields| == 1 then fields[0].Print()
    else fields[0].Print() + "," + PrintFields(fields[1..])
  }

  function PrintLine(prefix: string, fields: seq<Field>): string
  {
    prefix + ":" + PrintFields(fields)
  }

  // ---------- facts about the scanners ----------

  lemma {:induction false} UntilFacts(s: string, delim: char)
    ensures delim !in Until(s, delim)
    ensures |Until(s, delim)| < |s| ==> s[|Until(s, delim)|] == delim
    ensures delim !in s ==> Until(s, delim) == s
  {
    if s != "" && s[0] != delim {
      UntilFacts(s[1..], delim);
    }
  }

  lemma {:induction false} ScanOver(a: string, delim: char, b: string)
    requires delim !in a
    ensures Until(a + b, delim) == a + Until(b, delim) && Behind(a + b, delim) == Behind(b, delim)
  {
    if a == "" {
      assert a + b == b;
    } else {
      assert (a + b)[1..] == a[1..] + b;
      ScanOver(a[1..], delim, b);
    }
  }

  lemma {:induction false} SkipLead(lead: string, s: string)
    requires forall c <- lead :: IsSpace(c)
    ensures SkipSpace(lead + s) == SkipSpace(s)
  {
    if lead == "" {
      assert lead + s == s;
    } else {
      assert (lead + s)[1..] == lead[1..] + s;
      SkipLead(lead[1..], s);
    }
  }

  lemma {:induction false} SkipSpaceFacts(s: string)
    ensures SkipSpace(s) != "" ==> !IsSpace(SkipSpace(s)[0])
  {
    if s != "" && IsSpace(s[0]) {
      SkipSpaceFacts(s[1..]);
    }
  }

  // ---------- one field ----------

  /** What may follow a printed field: the end of the line, or a comma and the next fields. */
  predicate FieldEnd(tail: string)
  {
    tail == "" || tail[0] == ','
  }

  function Continue(tail: string): Cursor
    requires FieldEnd(tail)
  {
    if tail == "" then Null else At(tail[1..])
  }

  lemma BareField(f: Field, tail: string)
    requires f.Bare? && f.Layout() && f.Clean() && FieldEnd(tail)
    ensures Token(f.Print() + tail) == f.text && Rest(f.Print() + tail) == Continue(tail)
  {
    assert f.Print() + tail == f.lead + (f.text + tail);
    SkipLead(f.lead, f.text + tail);
    ScanOver(f.text, ',', tail);
    assert f.text + "" == f.text;
    assert !Quotes(f.text + tail) && SkipSpace(f.text + tail) == f.text + tail;
  }

  lemma QuotedField(f: Field, tail: string)
    requires f.Quoted? && f.Layout() && FieldEnd(tail)
    ensures f.Clean() ==> Token(f.Print() + tail) == f.text
    ensures f.Clean() ==> Rest(f.Print() + tail) == if tail == "" then At("") else Continue(tail)
    ensures Token(f.Print() + tail) == Until(f.text + "\"" + (f.trail + tail), '"')
  {
    var behind := f.trail + tail;
    QuotedText(f, tail);
    if f.Clean() {
      ClosingQuote(f.text, behind);
      ScanOver(f.trail, ',', tail);
      hide SkipSpace, Until;
    }
  }

  /** What the tokenizer sees behind the opening quote. */
  lemma QuotedText(f: Field, tail: string)
    requires f.Quoted? && f.Layout()
    ensures var text := f.text + "\"" + (f.trail + tail);
      Quotes(SkipSpace(f.Print() + tail)) && SkipSpace(f.Print() + tail)[1..] == text
  {
    var s := "\"" + (f.text + "\"" + (f.trail + tail));
    assert f.Print() + tail == f.lead + s;
    SkipLead(f.lead, s);
  }

  lemma ClosingQuote(text: string, behind: string)
    requires '"' !in text
    ensures Until(text + "\"" + behind, '"') == text && Behind(text + "\"" + behind, '"') == At(behind)
  {
    Assoc(text, "\"", behind);
    ScanOver(text, '"', "\"" + behind);
    SplitAgain("\"", behind);
    AppendNothing(text);
  }

  /** One call reads the text of a field back if and only if the syntax can carry it. */
  lemma FieldRoundTrip(f: Field, tail: string)
    requires f.Layout() && FieldEnd(tail)
    ensures Token(f.Print() + tail) == f.text <==> f.Clean()
  {
    if f.Quoted? {
      QuotedField(f, tail);
      UntilFacts(f.text + "\"" + (f.trail + tail), '"');
    } else if f.Clean() {
      BareField(f, tail);
    } else {
      DirtyBare(f, tail);
    }
  }

  lemma DirtyBare(f: Field, tail: string)
    requires f.Bare? && f.Layout() && !f.Clean() && FieldEnd(tail)
    ensures Token(f.Print() + tail) != f.text
  {
    var all := f.text + tail;
    assert f.Print() + tail == f.lead + all;
    SkipLead(f.lead, all);
    var s := SkipSpace(all);
    SkipSpaceFacts(all);
    if Quotes(s) {
      UntilFacts(s[1..], '"');
      QuoteIsInText(f.text, tail);
    } else {
      UntilFacts(s, ',');
      if ',' !in f.text {
        assert all[0] == f.text[0] && (IsSpace(all[0]) || s == all);
      }
    }
  }

  lemma {:induction false} QuoteIsInText(text: string, tail: string)
    requires FieldEnd(tail)
    ensures Quotes(SkipSpace(text + tail)) ==> '"' in text
  {
    if text == "" {
      assert text + tail == tail;
    } else {
      assert (text + tail)[1..] == text[1..] + tail;
      if IsSpace(text[0]) {
        QuoteIsInText(text[1..], tail);
      }
    }
  }

  // ---------- the whole line ----------

  function TailOf(fields: seq<Field>): string
    requires fields != []
  {
    if |fields| == 1 then "" else "," + PrintFields(fields[1..])
  }

  lemma PrintTail(fields: seq<Field>)
    requires fields != []
    ensures PrintFields(fields) == fields[0].Print() + TailOf(fields) && FieldEnd(TailOf(fields))
    ensures |fields| > 1 ==> TailOf(fields)[1..] == PrintFields(fields[1..])
  {
  }

  lemma CleanCons(fields: seq<Field>)
    requires fields != []
    ensures (forall f <- fields :: f.Clean()) <==> fields[0].Clean() && forall f <- fields[1..] :: f.Clean()
  {
    assert fields == [fields[0]] + fields[1..];
  }

  lemma {:induction false} FieldsRoundTrip(fields: seq<Field>)
    requires fields != [] && forall f <- fields :: f.Layout()
    ensures Tokens(At(PrintFields(fields)), |fields|) == Texts(fields) <==> forall f <- fields :: f.Clean()
    ensures (forall f <- fields :: f.Clean()) ==> !HasMore(CursorAfter(At(PrintFields(fields)), |fields|))
  {
    var f, tail := fields[0], TailOf(fields);
    var line := PrintFields(fields);
    PrintTail(fields);
    FieldRoundTrip(f, tail);
    var next := Rest(line);
    CleanCons(fields);
    assert Texts(fields) == [f.text] + Texts(fields[1..]);
    ConsEqual(Token(line), Tokens(next, |fields| - 1), f.text, Texts(fields[1..]));
    assert Tokens(At(line), |fields|) == [Token(line)] + Tokens(next, |fields| - 1);
    if f.Clean() {
      if f.Quoted? { QuotedField(f, tail); } else { BareField(f, tail); }
      if |fields| > 1 {
        FieldsRoundTrip(fields[1..]);
        assert next == At(PrintFields(fields[1..]));
        assert fields == [f] + fields[1..];
      }
    }
  }

  /** Round trip, exactly: at_tok_start and one at_tok_nextstr for each field read the fields of a
      line back if and only if every field is one the syntax can carry, and then nothing is left. */
  lemma RoundTrip(prefix: string, fields: seq<Field>)
    requires ':' !in prefix && fields != [] && forall f <- fields :: f.Layout()
    ensures Tokens(Start(PrintLine(prefix, fields)), |fields|) == Texts(fields) <==> forall f <- fields :: f.Clean()
    ensures (forall f <- fields :: f.Clean()) ==> !HasMore(CursorAfter(Start(PrintLine(prefix, fields)), |fields|))
  {
    StartOfLine(prefix, fields);
    FieldsRoundTrip(fields);
  }

  lemma StartOfLine(prefix: string, fields: seq<Field>)
    requires ':' !in prefix
    ensures Start(PrintLine(prefix, fields)) == At(PrintFields(fields))
  {
    var rest := ":" + PrintFields(fields);
    assert PrintLine(prefix, fields) == prefix + rest;
    ScanOver(prefix, ':', rest);
  }

  /** A caller that goes by at_tok_hasmore gets every field of a clean line if and only if the last
      one is not written as nothing at all. */
  lemma HasMoreRoundTrip(prefix: string, fields: seq<Field>)
    requires ':' !in prefix && forall f <- fields :: f.Layout() && f.Clean()
    ensures AllTokens(Start(PrintLine(prefix, fields))) == Texts(fields)
      <==> fields == [] || fields[|fields| - 1].Print() != ""
  {
    StartOfLine(prefix, fields);
    if fields != [] {
      HasMoreFields(fields);
    }
  }

  lemma {:induction false} HasMoreFields(fields: seq<Field>)
    requires fields != [] && forall f <- fields :: f.Layout() && f.Clean()
    ensures AllTokens(At(PrintFields(fields))) == Texts(fields) <==> fields[|fields| - 1].Print() != ""
  {
    FirstOfFields(fields);
    hide *;
    if |fields| > 1 {
      HasMoreFields(fields[1..]);
    }
  }

  /** The first field of a clean line, and the tokens behind it. */
  lemma FirstOfFields(fields: seq<Field>)
    requires fields != [] && forall f <- fields :: f.Layout() && f.Clean()
    ensures |fields| == 1 ==> (AllTokens(At(PrintFields(fields))) == Texts(fields) <==> fields[0].Print() != "")
    ensures |fields| > 1 ==> fields[|fields| - 1] == fields[1..][|fields| - 2]
    ensures |fields| > 1 ==>
      (AllTokens(At(PrintFields(fields))) == Texts(fields) <==> AllTokens(At(PrintFields(fields[1..]))) == Texts(fields[1..]))
  {
    var f, tail := fields[0], TailOf(fields);
    PrintTail(fields);
    if f.Quoted? { QuotedField(f, tail); } else { BareField(f, tail); }
    var line := PrintFields(fields);
    AllTokensOf(line);
    ConsEqual(f.text, AllTokens(Rest(line)), f.text, Texts(fields[1..]));
    assert Texts(fields) == [f.text] + Texts(fields[1..]);
    if |fields| == 1 {
      AppendNothing(f.Print());
      NoTokens(Rest(line));
    } else {
      assert line != "" && Rest(line) == At(PrintFields(fields[1..]));
    }
    hide Token, Rest, AllTokens, Field.Layout, Field.Clean, Field.Print;
  }

  lemma AllTokensOf(text: string)
    ensures AllTokens(At(text)) == if text == "" then [] else [Token(text)] + AllTokens(Rest(text))
  {
    hide Token, Rest;
    RestShortens(text);
  }

  lemma NoTokens(c: Cursor)
    ensures !HasMore(c) ==> AllTokens(c) == []
  {
  }

  // ---------- the tokenizer in place ----------

  /** The C string that starts at position i of a terminated buffer. */
  function CString(b: seq<char>, i: nat): string
  {
    if i < |b| then Until(b[i..], NUL) else ""
  }

  function Strings(b: seq<char>, tokens: seq<nat>): seq<string>
  {
    if tokens == [] then [] else Strings(b, tokens[..|tokens| - 1]) + [CString(b, tokens[|tokens| - 1])]
  }

  /** A scan through a string stops within the buffer, at the terminator of the string at the latest. */
  lemma {:induction false} CStringStep(b: seq<char>, i: nat)
    requires i < |b| && b[|b| - 1] == NUL
    ensures b[i] == NUL ==> CString(b, i) == ""
    ensures b[i] != NUL ==> i + 1 < |b| && CString(b, i) == [b[i]] + CString(b, i + 1)
  {
    assert b[i..][1..] == b[i + 1..];
  }

  /** Cutting a string short. */
  lemma {:induction false} CStringCut(b: seq<char>, i: nat, end: nat)
    requires i <= end < |b| && NUL !in b[i..end] && b[end] == NUL
    ensures CString(b, i) == b[i..end]
  {
    assert b[i..] == b[i..end] + b[end..];
    ScanOver(b[i..end], NUL, b[end..]);
  }

  lemma CStringLocal(a: seq<char>, b: seq<char>, i: nat)
    requires i < |a| == |b| && a[i..] == b[i..]
    ensures CString(a, i) == CString(b, i)
  {
  }

  /** No delimiter and no terminator from start to i. */
  ghost predicate NoneBefore(b: seq<char>, start: nat, i: nat, delim: char)
  {
    start <= i < |b| && forall k :: start <= k < i ==> b[k] != NUL && b[k] != delim
  }

  lemma StringParts(b: seq<char>, start: nat, i: nat, delim: char)
    requires NoneBefore(b, start, i, delim)
    ensures CString(b, start) == b[start..i] + CString(b, i) && delim !in b[start..i]
  {
    var before := b[start..i];
    assert b[start..] == before + b[i..];
    assert NUL !in before && delim !in before;
    ScanOver(before, NUL, b[i..]);
  }

  /** Where the first delimiter is: at i, or nowhere if the string ends there. */
  lemma FindFirst(b: seq<char>, start: nat, i: nat, delim: char)
    requires NoneBefore(b, start, i, delim) && b[|b| - 1] == NUL != delim && (b[i] == NUL || b[i] == delim)
    ensures Until(CString(b, start), delim) == b[start..i]
    ensures b[i] == delim ==> i + 1 < |b| && Behind(CString(b, start), delim) == At(CString(b, i + 1))
    ensures b[i] == NUL ==> Behind(CString(b, start), delim) == Null
    ensures delim in CString(b, start) <==> b[i] == delim
  {
    StringParts(b, start, i, delim);
    CStringStep(b, i);
    ScanOver(b[start..i], delim, CString(b, i));
    AppendNothing(b[start..i]);
    if b[i] == delim { SplitAgain([b[i]], CString(b, i + 1)); }
    hide CString, NoneBefore;
  }

  /** Overwriting the delimiter at i parts the string at start in two. */
  lemma Separate(b: seq<char>, start: nat, i: nat, delim: char)
    requires NoneBefore(b, start, i, delim) && b[|b| - 1] == NUL != delim && (b[i] == NUL || b[i] == delim)
    ensures CString(b[i := NUL], start) == Until(CString(b, start), delim) == b[start..i]
    ensures b[i] == delim ==> i + 1 < |b| && Behind(CString(b, start), delim) == At(CString(b[i := NUL], i + 1))
    ensures b[i] == NUL ==> Behind(CString(b, start), delim) == Null
  {
    FindFirst(b, start, i, delim);
    var cut := b[i := NUL];
    assert cut[start..i] == b[start..i];
    CStringCut(cut, start, i);
    if b[i] == delim {
      CStringLocal(b, cut, i + 1);
    }
    hide CString, Until, Behind;
  }

  /** Skipping one space, or stopping. */
  lemma SpaceStep(b: seq<char>, i: nat)
    requires i < |b| && b[|b| - 1] == NUL
    ensures b[i] != NUL && IsSpace(b[i]) ==>
      i + 1 < |b| && SkipSpace(CString(b, i)) == SkipSpace(CString(b, i + 1))
    ensures b[i] == NUL || !IsSpace(b[i]) ==> SkipSpace(CString(b, i)) == CString(b, i)
  {
    CStringStep(b, i);
    hide CString;
    if b[i] != NUL { SplitAgain([b[i]], CString(b, i + 1)); }
  }

  class Tokenizer {
    const buf: array<char>
    var cur: Option<nat>

    ghost predicate Valid()
      reads this, buf
    {
      && buf.Length > 0 && buf[buf.Length - 1] == NUL
      && (cur.Some? ==> cur.value < buf.Length)
    }

    /** The text at the cursor. */
    ghost function Cur(): Cursor
      requires Valid()
      reads this, buf
    {
      if cur.None? then Null else At(CString(buf[..], cur.value))
    }

    constructor (line: array<char>)
      requires line.Length > 0 && line[line.Length - 1] == NUL
      ensures Valid() && buf == line && Cur() == At(CString(line[..], 0))
    {
      buf := line;
      cur := Some(0);
    }

    /** at_tok_start; strchr() is the loop. */
    method AtTokStart() returns (ok: bool)
      requires Valid()
      modifies this`cur
      ensures Valid()
      ensures ok <==> old(Cur()).At? && ':' in old(Cur()).text
      ensures Cur() == if old(Cur()).Null? then Null else Start(old(Cur()).text)
    {
      if cur.None? {
        return false;
      }
      hide CString;
      var start, i := cur.value, cur.value;
      while buf[i] != NUL && buf[i] != ':'
        invariant cur == old(cur) && NoneBefore(buf[..], start, i, ':')
        decreases buf.Length - i
      {
        i := i + 1;
      }
      FindFirst(buf[..], start, i, ':');
      hide NoneBefore, Until, Behind;
      cur := if buf[i] == ':' then Some(i + 1) else None;
      ok := cur.Some?;
    }

    /** skipWhiteSpace */
    method SkipWhiteSpace()
      requires Valid()
      modifies this`cur
      ensures Valid() && Later(old(cur))
      ensures Cur() == if old(Cur()).Null? then Null else At(SkipSpace(old(Cur()).text))
    {
      if cur.None? {
        return;
      }
      hide CString, SkipSpace, IsSpace;
      ghost var b, start := buf[..], cur.value;
      while buf[cur.value] != NUL && IsSpace(buf[cur.value])
        invariant buf[..] == b && cur.Some? && start <= cur.value < |b|
        invariant SkipSpace(CString(b, cur.value)) == SkipSpace(CString(b, start))
        decreases |b| - cur.value
      {
        SpaceStep(b, cur.value);
        cur := Some(cur.value + 1);
      }
      SpaceStep(b, cur.value);
    }

    /** skipNextComma */
    method SkipNextComma()
      requires Valid()
      modifies this`cur
      ensures Valid() && Later(old(cur))
      ensures Cur() == SkipComma(old(Cur()))
    {
      if cur.None? {
        return;
      }
      hide CString;
      ghost var start := cur.value;
      while buf[cur.value] != NUL && buf[cur.value] != ','
        invariant Later(old(cur)) && cur.Some? && NoneBefore(buf[..], start, cur.value, ',')
        decreases buf.Length - cur.value
      {
        cur := Some(cur.value + 1);
      }
      FindFirst(buf[..], start, cur.value, ',');
      CStringStep(buf[..], cur.value);
      hide NoneBefore, Until, Behind;
      if buf[cur.value] == ',' {
        cur := Some(cur.value + 1);
      }
    }

    /** The cursor has not moved back. */
    ghost predicate Later(before: Option<nat>)
      reads this
    {
      cur.Some? ==> before.Some? && before.value <= cur.value
    }

    /** strsep() on a one-character set: the token is what stands before the delimiter, which is
        overwritten, so that the token is closed and lies before the cursor. */
    method StrSep(delim: char) returns (token: Option<nat>)
      requires Valid() && delim != NUL
      modifies this`cur, buf
      ensures Valid() && token == old(cur)
      ensures token.Some? ==> token.value < buf.Length && Sealed(token.value) && CString(buf[..], token.value) == Until(old(Cur()).text, delim)
      ensures Cur() == if token.None? then Null else Behind(old(Cur()).text, delim)
      ensures Later(old(cur))
      ensures forall i :: 0 <= i < buf.Length && (token.Some? ==> i < token.value) ==> buf[i] == old(buf[i])
    {
      token := cur;
      if cur.None? {
        return;
      }
      hide CString, Until, Behind, Closed;
      ghost var b := buf[..];
      var start, i := cur.value, cur.value;
      while buf[i] != NUL && buf[i] != delim
        invariant cur == token && buf[..] == b && NoneBefore(b, start, i, delim)
        decreases buf.Length - i
      {
        i := i + 1;
      }
      Separate(b, start, i, delim);
      hide NoneBefore;
      if buf[i] == delim {
        buf[i] := NUL;
        cur := Some(i + 1);
      } else {
        cur := None;
      }
      assert buf[..] == b[i := NUL];
      ClosedOne(buf[..], start, End());
    }

    /** A token that no later call touches: its terminator lies before the cursor. */
    ghost predicate Sealed(token: nat)
      reads this, buf
    {
      Closed(buf[..], [token], End())
    }

    /** nextTok */
    method NextTok() returns (token: Option<nat>)
      requires Valid()
      modifies this`cur, buf
      ensures Valid() && token.Some? == old(cur).Some?
      ensures token.Some? ==> token.value < buf.Length && Sealed(token.value) && CString(buf[..], token.value) == Token(old(Cur()).text)
      ensures Cur() == if token.None? then Null else Rest(old(Cur()).text)
      ensures forall i :: 0 <= i < buf.Length && (old(cur).Some? ==> i < old(cur.value)) ==> buf[i] == old(buf[i])
      ensures Later(old(cur))
    {
      hide CString, Until, Behind, SkipComma, SkipSpace, Closed;
      SkipWhiteSpace();
      if cur.None? {
        token := None;
      } else if buf[cur.value] == '"' {
        CStringStep(buf[..], cur.value);
        SplitAgain([buf[cur.value]], CString(buf[..], cur.value + 1));
        cur := Some(cur.value + 1);
        token := StrSep('"');
        ghost var end := End();
        SkipNextComma();
        ClosedLater(buf[..], [token.value], end, End());
      } else {
        CStringStep(buf[..], cur.value);
        token := StrSep(',');
      }
    }

    /** at_tok_nextstr */
    method AtTokNextStr() returns (ok: bool, token: nat)
      requires Valid()
      modifies this`cur, buf
      ensures Valid() && ok == old(cur).Some?
      ensures ok ==> token < buf.Length && Sealed(token) && CString(buf[..], token) == Token(old(Cur()).text)
      ensures Cur() == if ok then Rest(old(Cur()).text) else Null
      ensures forall i :: 0 <= i < buf.Length && (ok ==> i < old(cur.value)) ==> buf[i] == old(buf[i])
      ensures Later(old(cur))
    {
      if cur.None? {
        return false, 0;
      }
      var t := NextTok();
      ok, token := true, t.value;
    }

    /** at_tok_hasmore */
    method AtTokHasMore() returns (more: bool)
      requires Valid()
      ensures more == HasMore(Cur())
    {
      more := !(cur.None? || buf[cur.value] == NUL);
      if cur.Some? {
        CStringStep(buf[..], cur.value);
      }
    }

    /** A caller that asks for n fields and keeps the tokens: every token still reads, at the end,
        as it did when it was handed out. */
    method Take(n: nat) returns (tokens: seq<nat>)
      requires Valid()
      modifies this`cur, buf
      ensures Valid() && forall k :: 0 <= k < |tokens| ==> tokens[k] < buf.Length
      ensures Strings(buf[..], tokens) == Tokens(old(Cur()), n) && Cur() == CursorAfter(old(Cur()), n)
    {
      hide CString, Closed, Token, Rest, Strings;
      tokens := [];
      ghost var start := Cur();
      var k, ok := 0, true;
      NoneClosed(buf[..], End());
      while k < n && ok
        invariant k <= n && Valid() && Closed(buf[..], tokens, End())
        invariant ok ==> Strings(buf[..], tokens) + Tokens(Cur(), n - k) == Tokens(start, n)
        invariant ok ==> CursorAfter(Cur(), n - k) == CursorAfter(start, n)
        invariant !ok ==> Strings(buf[..], tokens) == Tokens(start, n) && Cur() == CursorAfter(start, n) == Null
        decreases n - k, ok
      {
        var token;
        ghost var b, end, c := buf[..], End(), Cur();
        ok, token := AtTokNextStr();
        if ok {
          OneMoreClosed(b, buf[..], tokens, end, token, End());
          ghost var more := Tokens(Rest(c.text), n - k - 1);
          assert Strings(b, tokens) + ([Token(c.text)] + more) == Strings(b, tokens) + [Token(c.text)] + more;
          tokens := tokens + [token];
          k := k + 1;
        } else {
          assert buf[..] == b;
        }
      }
      ClosedBounds(buf[..], tokens, End());
    }

    /** Where later calls may write from. */
    ghost function End(): nat
      reads this
    {
      if cur.Some? then cur.value else buf.Length + 1
    }
  }

  /** The terminators of the tokens lie before position end. */
  ghost predicate Closed(b: seq<char>, tokens: seq<nat>, end: nat)
  {
    forall k :: 0 <= k < |tokens| ==> tokens[k] < |b| && tokens[k] + |CString(b, tokens[k])| < end
  }

  lemma NoneClosed(b: seq<char>, end: nat)
    ensures Closed(b, [], end) && Strings(b, []) == []
  {
  }

  lemma ClosedOne(b: seq<char>, token: nat, end: nat)
    requires token < |b| && token + |CString(b, token)| < end
    ensures Closed(b, [token], end)
  {
    hide CString;
  }

  /** Moving the cursor on. */
  lemma ClosedLater(b: seq<char>, tokens: seq<nat>, end: nat, later: nat)
    requires Closed(b, tokens, end) && end <= later
    ensures Closed(b, tokens, later)
  {
    hide CString;
  }

  lemma ClosedBounds(b: seq<char>, tokens: seq<nat>, end: nat)
    requires Closed(b, tokens, end)
    ensures forall k :: 0 <= k < |tokens| ==> tokens[k] < |b|
  {
  }

  /** Closed tokens keep their strings when the buffer changes behind them. */
  lemma {:induction false} OneMoreClosed(a: seq<char>, b: seq<char>, tokens: seq<nat>, end: nat, token: nat, later: nat)
    requires |a| == |b| && end <= |a| && a[..end] == b[..end] && Closed(a, tokens, end)
    requires end <= later && Closed(b, [token], later)
    ensures Closed(b, tokens + [token], later)
    ensures Strings(b, tokens + [token]) == Strings(a, tokens) + [CString(b, token)]
  {
    hide CString;
    StringsKeep(a, b, tokens, end);
    assert (tokens + [token])[..|tokens|] == tokens;
    assert [token][0] == token;
  }

  /** Strings that end before position end do not change when the buffer changes from there on. */
  lemma StringsKeep(a: seq<char>, b: seq<char>, tokens: seq<nat>, end: nat)
    requires |a| == |b| && end <= |a| && a[..end] == b[..end] && Closed(a, tokens, end)
    ensures Strings(a, tokens) == Strings(b, tokens) && Closed(b, tokens, end)
  {
    hide CString;
    forall k | 0 <= k < |tokens| ensures CString(b, tokens[k]) == CString(a, tokens[k]) {
      CStringKeeps(a, b, tokens[k], end);
    }
    SameStrings(a, b, tokens);
  }

  lemma {:induction false} SameStrings(a: seq<char>, b: seq<char>, tokens: seq<nat>)
    requires forall k :: 0 <= k < |tokens| ==> CString(b, tokens[k]) == CString(a, tokens[k])
    ensures Strings(a, tokens) == Strings(b, tokens)
  {
    hide CString;
    if tokens != [] {
      SameStrings(a, b, tokens[..|tokens| - 1]);
    }
  }

  lemma {:induction false} UntilPrefix(s: string, delim: char)
    ensures Until(s, delim) == s[..|Until(s, delim)|]
  {
    if s != "" && s[0] != delim {
      UntilPrefix(s[1..], delim);
    }
  }

  lemma CStringKeeps(a: seq<char>, b: seq<char>, i: nat, end: nat)
    requires |a| == |b| && end <= |a| && a[..end] == b[..end]
    requires i < |a| && i + |CString(a, i)| < end
    ensures CString(b, i) == CString(a, i)
  {
    hide *;
    var n := |CString(a, i)|;
    CStringAt(a, i);
    SamePrefix(a, b, i, i + n, end);
    CStringCut(b, i, i + n);
  }

  /** A string that ends within the buffer is what stands there up to the terminator. */
  lemma CStringAt(b: seq<char>, i: nat)
    requires i < |b| && i + |CString(b, i)| < |b|
    ensures var n := |CString(b, i)|;
      CString(b, i) == b[i..i + n] && NUL !in b[i..i + n] && b[i + n] == NUL
  {
    var n := |CString(b, i)|;
    UntilFacts(b[i..], NUL);
    UntilPrefix(b[i..], NUL);
    DropTake(b, i, n);
    hide Until;
    assert b[i + n] == b[i..][n];
  }

  lemma SamePrefix(a: seq<char>, b: seq<char>, i: nat, j: nat, end: nat)
    requires i <= j < end <= |a| == |b| && a[..end] == b[..end]
    ensures a[i..j] == b[i..j] && a[j] == b[j]
  {
    SliceOfPrefix(a, i, j, end);
    SliceOfPrefix(b, i, j, end);
  }

  lemma SliceOfPrefix(s: seq<char>, i: nat, j: nat, end: nat)
    requires i <= j < end <= |s|
    ensures s[..end][i..j] == s[i..j] && s[..end][j] == s[j]
  {
  }
}
