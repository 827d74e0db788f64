/**
  The line router of the AT channel: what processLine does with each line while a command is
  pending, the intermediate list it builds back to front, and the in-place reversal that
  the command's caller sees.

  `Classify` and `Apply` say what one line does; `AtChannel` is the imperative router over a
  linked list.  The theorems say where every line of any sequence ends up, in terms of the
  lines alone.
 */
module LineRouter {
  import opened Wrappers
  import opened AtStrings

  datatype CommandType = NoResult | Numeric | SingleLine | MultiLine

  /** Which of the two atchannel.c files: only the reference one has the "+CMGR:" rule. */
  datatype Dialect = Altair | Reference

  /** ATResponse; inter is the intermediate list from its head, so the newest line is first. */
  datatype Response = Response(success: bool, final: Option<string>, inter: seq<string>)

  /** The pending command: s_type, s_responsePrefix, s_smsPDU and sp_response. */
  datatype Pending = Pending(kind: CommandType, prefix: string, pdu: Option<string>, response: Response)

  /** The router's state, with everything given to the unsolicited handler and every PDU written. */
  datatype Channel = Channel(pending: Option<Pending>, unsol: seq<string>, written: seq<string>)

  const EMPTY_RESPONSE := Response(false, None, [])

  function Issued(kind: CommandType, prefix: string, pdu: Option<string>): Pending
  {
    Pending(kind, prefix, pdu, EMPTY_RESPONSE)
  }

  // ---------- one line ----------

  datatype Verdict = Final(ok: bool) | Prompt | Intermediate | Unsolicited

  predicate IsFinal(line: string)
  {
    StartsWithAny(line, FINAL_SUCCESSES) || StartsWithAny(line, FINAL_ERRORS)
  }

  predicate StartsWithDigit(line: string)
  {
    line != "" && '0' <= line[0] <= '9'
  }

  const STORED_SMS := "+CMGR:"

  function Classify(d: Dialect, p: Pending, line: string): Verdict
  {
    if StartsWithAny(line, FINAL_SUCCESSES) then Final(true)
    else if StartsWithAny(line, FINAL_ERRORS) then Final(false)
    else if p.pdu.Some? && line == "> " then Prompt
    else match p.kind
      case NoResult => Unsolicited
      case Numeric =>
        if p.response.inter == [] && StartsWithDigit(line) then Intermediate else Unsolicited
      case SingleLine =>
        if p.response.inter == [] && p.prefix <= line then Intermediate else Unsolicited
      case MultiLine =>
        if p.prefix <= line then Intermediate
        else if d == Reference && p.prefix == STORED_SMS && p.response.inter != [] then Intermediate
        else Unsolicited
  }

  function Apply(d: Dialect, c: Channel, line: string): Channel
  {
    match c.pending
    case None => c.(unsol := c.unsol + [line])
    case Some(p) =>
      match Classify(d, p, line)
      case Final(ok) => c.(pending := Some(p.(response := p.response.(success := ok, final := Some(line)))))
      case Prompt => c.(pending := Some(p.(pdu := None)), written := c.written + [p.pdu.value])
      case Intermediate => c.(pending := Some(p.(response := p.response.(inter := [line] + p.response.inter))))
      case Unsolicited => c.(unsol := c.unsol + [line])
  }

  /** The lines of a run, in the order processed. */
  function ApplyAll(d: Dialect, c: Channel, lines: seq<string>): (r: Channel)
    ensures c.pending.Some? ==> r.pending.Some?
    ensures c.pending.Some? ==> r.pending.value.kind == c.pending.value.kind
    ensures c.pending.Some? ==> r.pending.value.prefix == c.pending.value.prefix
  {
    if lines == [] then c
    else Apply(d, ApplyAll(d, c, lines[..|lines| - 1]), lines[|lines| - 1])
  }

  /** The channel after a run of lines processed while command p is pending. */
  function After(d: Dialect, p: Pending, lines: seq<string>): (c: Channel)
    ensures c.pending.Some?
  {
    ApplyAll(d, Channel(Some(p), [], []), lines)
  }

  /** What line i of the run is treated as, given the lines before it. */
  function VerdictAt(d: Dialect, p: Pending, lines: seq<string>, i: nat): Verdict
    requires i < |lines|
  {
    Classify(d, After(d, p, lines[..i]).pending.value, lines[i])
  }

  // ---------- conservation and order ----------

  /** The lines with a given verdict, in arrival order. */
  function Select(d: Dialect, p: Pending, lines: seq<string>, wanted: set<Verdict>): seq<string>
  {
    if lines == [] then []
    else
      var n := |lines| - 1;
      Select(d, p, lines[..n], wanted) + (if VerdictAt(d, p, lines, n) in wanted then [lines[n]] else [])
  }

  const FINALS := {Final(true), Final(false)}

  function Reverse<T>(s: seq<T>): (r: seq<T>)
    ensures |r| == |s| && forall i :: 0 <= i < |s| ==> r[i] == s[|s| - 1 - i]
  {
    seq(|s|, i requires 0 <= i < |s| => s[|s| - 1 - i])
  }

  lemma {:induction false} IntermediatesInOrder(d: Dialect, p: Pending, lines: seq<string>)
    requires p.response.inter == []
    ensures Reverse(After(d, p, lines).pending.value.response.inter) == Select(d, p, lines, {Intermediate})
  {
    hide StartsWithAny;
    if lines != [] {
      var n := |lines| - 1;
      IntermediatesInOrder(d, p, lines[..n]);
      var inter := After(d, p, lines[..n]).pending.value.response.inter;
      assert Reverse([lines[n]] + inter) == Reverse(inter) + [lines[n]];
    }
  }

  lemma {:induction false} UnsolicitedInOrder(d: Dialect, p: Pending, lines: seq<string>)
    ensures After(d, p, lines).unsol == Select(d, p, lines, {Unsolicited})
  {
    hide StartsWithAny;
    if lines != [] {
      UnsolicitedInOrder(d, p, lines[..|lines| - 1]);
    }
  }

  lemma {:induction false} LastFinalStands(d: Dialect, p: Pending, lines: seq<string>)
    requires p.response == EMPTY_RESPONSE
    ensures
      var finals := Select(d, p, lines, FINALS);
      var r := After(d, p, lines).pending.value.response;
      if finals == [] then r.final == None && !r.success
      else
        var last := finals[|finals| - 1];
        r.final == Some(last) && (r.success <==> StartsWithAny(last, FINAL_SUCCESSES))
  {
    hide StartsWithAny;
    if lines != [] {
      LastFinalStands(d, p, lines[..|lines| - 1]);
    }
  }

  lemma {:induction false} PduWrittenOnce(d: Dialect, p: Pending, lines: seq<string>)
    ensures
      var prompts := Select(d, p, lines, {Prompt});
      var c := After(d, p, lines);
      if prompts == [] then c.written == [] && c.pending.value.pdu == p.pdu
      else prompts == ["> "] && p.pdu.Some? && c.written == [p.pdu.value] && c.pending.value.pdu == None
  {
    hide StartsWithAny;
    if lines != [] {
      PduWrittenOnce(d, p, lines[..|lines| - 1]);
    }
  }

  lemma SelectStep(d: Dialect, p: Pending, lines: seq<string>, wanted: set<Verdict>)
    requires lines != []
    ensures
      var n := |lines| - 1;
      multiset(Select(d, p, lines, wanted)) == multiset(Select(d, p, lines[..n], wanted))
        + (if VerdictAt(d, p, lines, n) in wanted then multiset{lines[n]} else multiset{})
  {
    hide VerdictAt;
  }

  lemma {:induction false} LinesConserved(d: Dialect, p: Pending, lines: seq<string>)
    ensures multiset(lines) == multiset(Select(d, p, lines, FINALS))
                             + multiset(Select(d, p, lines, {Prompt}))
                             + multiset(Select(d, p, lines, {Intermediate}))
                             + multiset(Select(d, p, lines, {Unsolicited}))
  {
    hide VerdictAt, Select;
    if lines == [] {
      SelectNone(d, p, FINALS);
      SelectNone(d, p, {Prompt});
      SelectNone(d, p, {Intermediate});
      SelectNone(d, p, {Unsolicited});
    } else {
      var n := |lines| - 1;
      LinesConserved(d, p, lines[..n]);
      SelectStep(d, p, lines, FINALS);
      SelectStep(d, p, lines, {Prompt});
      SelectStep(d, p, lines, {Intermediate});
      SelectStep(d, p, lines, {Unsolicited});
      assert lines == lines[..n] + [lines[n]];
      assert VerdictAt(d, p, lines, n) in FINALS <==> VerdictAt(d, p, lines, n).Final?;
    }
  }

  lemma SelectNone(d: Dialect, p: Pending, wanted: set<Verdict>)
    ensures Select(d, p, [], wanted) == []
  {
  }

  // ---------- the verdict in terms of the lines alone ----------

  /** Line i is the SMS prompt that makes the PDU go out. */
  predicate TakenAsPrompt(p: Pending, lines: seq<string>, i: nat)
    requires i < |lines|
  {
    p.pdu.Some? && lines[i] == "> " && forall j :: 0 <= j < i ==> lines[j] != "> "
  }

  /** Line i is a result line, that is neither final nor a prompt that is taken. */
  predicate Plain(p: Pending, lines: seq<string>, i: nat)
    requires i < |lines|
  {
    !IsFinal(lines[i]) && !TakenAsPrompt(p, lines, i)
  }

  /** Line i has the form the command asked for. */
  predicate Eligible(p: Pending, lines: seq<string>, i: nat)
    requires i < |lines|
  {
    && Plain(p, lines, i)
    && match p.kind
       case NoResult => false
       case Numeric => StartsWithDigit(lines[i])
       case SingleLine => p.prefix <= lines[i]
       case MultiLine => p.prefix <= lines[i]
  }

  predicate AnyEligible(p: Pending, lines: seq<string>, n: nat)
    requires n <= |lines|
  {
    exists j :: 0 <= j < n && Eligible(p, lines, j)
  }

  /** Whether line i is kept as an intermediate of the command. */
  predicate Kept(d: Dialect, p: Pending, lines: seq<string>, i: nat)
    requires i < |lines|
  {
    if p.kind == NoResult then false
    else if p.kind == MultiLine then
      if d == Reference && p.prefix == STORED_SMS then Plain(p, lines, i) && AnyEligible(p, lines, i + 1)
      else Eligible(p, lines, i)
    else Eligible(p, lines, i) && !AnyEligible(p, lines, i)
  }

  /** The state of the router before line n, from the lines alone. */
  lemma {:induction false} StateBefore(d: Dialect, p: Pending, lines: seq<string>, n: nat)
    requires p.response == EMPTY_RESPONSE && n <= |lines|
    ensures
      var q := After(d, p, lines[..n]).pending.value;
      && (q.pdu.Some? <==> p.pdu.Some? && "> " !in lines[..n])
      && (q.response.inter != [] <==> AnyEligible(p, lines, n))
  {
    hide StartsWithAny;
    if n > 0 {
      var m := n - 1;
      StateBefore(d, p, lines, m);
      assert lines[..n][..m] == lines[..m];
      assert lines[..n] == lines[..m] + [lines[m]];
      PromptIsNotFinal();
      assert AnyEligible(p, lines, n) <==> AnyEligible(p, lines, m) || Eligible(p, lines, m);
    }
  }

  lemma PromptIsNotFinal()
    ensures !IsFinal("> ")
  {
    forall i | 0 <= i < |FINAL_SUCCESSES| ensures !(FINAL_SUCCESSES[i] <= "> ") {
      assert FINAL_SUCCESSES[i][0] != '>';
    }
    forall i | 0 <= i < |FINAL_ERRORS| ensures !(FINAL_ERRORS[i] <= "> ") {
      assert FINAL_ERRORS[i][0] != '>';
    }
  }

  /** isdigit() in the C locale. */
  lemma DigitsAre(line: string)
    ensures StartsWithDigit(line) <==> line != "" && line[0] in "0123456789"
  {
    if line != "" && '0' <= line[0] <= '9' {
      var k := line[0] as int - '0' as int;
      assert "0123456789"[k] == line[0];
    }
  }

  /** Every line is exactly one of final, prompt, intermediate and unsolicited, and which one it
      is can be read off the lines. */
  lemma VerdictCharacterised(d: Dialect, p: Pending, lines: seq<string>, i: nat)
    requires p.response == EMPTY_RESPONSE && i < |lines|
    ensures
      match VerdictAt(d, p, lines, i)
      case Final(ok) => IsFinal(lines[i]) && (ok <==> StartsWithAny(lines[i], FINAL_SUCCESSES))
      case Prompt => TakenAsPrompt(p, lines, i)
      case Intermediate => Plain(p, lines, i) && Kept(d, p, lines, i)
      case Unsolicited => Plain(p, lines, i) && !Kept(d, p, lines, i)
  {
    StateBefore(d, p, lines, i);
    PromptIsNotFinal();
    assert AnyEligible(p, lines, i + 1) <==> AnyEligible(p, lines, i) || Eligible(p, lines, i);
  }

  // ---------- what the senders return ----------

  /** The lines of lines[from..] that are neither final nor a taken prompt. */
  function PlainLines(p: Pending, lines: seq<string>, from: nat, n: nat): seq<string>
    requires from <= n <= |lines|
    decreases n
  {
    if n == from then []
    else PlainLines(p, lines, from, n - 1) + (if Plain(p, lines, n - 1) then [lines[n - 1]] else [])
  }

  lemma StoredVerdict(p: Pending, lines: seq<string>, n: nat, i: nat)
    requires p == Issued(MultiLine, STORED_SMS, p.pdu) && i < n <= |lines|
    ensures VerdictAt(Reference, p, lines[..n], i) == Intermediate <==> Plain(p, lines, i) && AnyEligible(p, lines, i + 1)
    ensures VerdictAt(Reference, p, lines[..n], i) == Unsolicited <==> Plain(p, lines, i) && !AnyEligible(p, lines, i + 1)
  {
    hide VerdictAt, Eligible, AnyEligible, StartsWithAny;
    VerdictOfPrefix(Reference, p, lines, n, i);
    VerdictCharacterised(Reference, p, lines, i);
  }

  lemma {:induction false} SelectStored(p: Pending, lines: seq<string>, k: nat, n: nat)
    requires p == Issued(MultiLine, STORED_SMS, p.pdu)
    requires k <= n <= |lines| && !AnyEligible(p, lines, k) && (k < n ==> Eligible(p, lines, k))
    ensures Select(Reference, p, lines[..n], {Intermediate}) == PlainLines(p, lines, k, n)
    ensures Select(Reference, p, lines[..n], {Unsolicited}) == PlainLines(p, lines, 0, k)
    decreases n
  {
    hide VerdictAt, Plain, Eligible;
    if n > 0 {
      var m := n - 1;
      assert lines[..n][..m] == lines[..m];
      StoredVerdict(p, lines, n, m);
      if n > k {
        SelectStored(p, lines, k, m);
      } else {
        SelectStored(p, lines, m, m);
      }
    }
  }

  lemma VerdictOfPrefix(d: Dialect, p: Pending, lines: seq<string>, n: nat, i: nat)
    requires i < n <= |lines|
    ensures VerdictAt(d, p, lines[..n], i) == VerdictAt(d, p, lines, i)
  {
    assert lines[..n][..i] == lines[..i];
  }

  /** Reading a stored SMS with the reference channel: from the first line with the prefix on,
      every plain line belongs to the response, in order; all earlier ones are unsolicited. */
  lemma StoredSmsRead(p: Pending, lines: seq<string>, k: nat)
    requires p == Issued(MultiLine, "+CMGR:", p.pdu)
    requires k <= |lines| && !AnyEligible(p, lines, k) && (k < |lines| ==> Eligible(p, lines, k))
    ensures
      var c := After(Reference, p, lines);
      && Reverse(c.pending.value.response.inter) == PlainLines(p, lines, k, |lines|)
      && c.unsol == PlainLines(p, lines, 0, k)
  {
    IntermediatesInOrder(Reference, p, lines);
    UnsolicitedInOrder(Reference, p, lines);
    SelectStored(p, lines, k, |lines|);
    assert lines[..|lines|] == lines;
  }

  /** at_send_command_singleline, _numeric and _sms after at_send_command_full returned 0. */
  datatype SendResult = Ok(out: Response) | InvalidResponse

  function CheckOneIntermediate(r: Response): SendResult
  {
    if r.success && r.inter == [] then InvalidResponse else Ok(r)
  }

  /** What the senders of one-line commands are after: a line with the prefix, or with a number. */
  predicate Wanted(p: Pending, line: string)
  {
    if p.kind == Numeric then StartsWithDigit(line) else p.prefix <= line
  }

  /** The single-line, SMS and numeric senders, in both dialects: a successful result that the sender
      passes on has a final line and exactly one intermediate, which is of the form asked for, and
      those refused are exactly the successes without an eligible line. */
  lemma OneLineResult(d: Dialect, p: Pending, lines: seq<string>)
    requires p.response == EMPTY_RESPONSE && p.kind in {SingleLine, Numeric}
    ensures
      var r := After(d, p, lines).pending.value.response;
      && (r.success ==> r.final.Some?)
      && (CheckOneIntermediate(r).Ok? && r.success ==> |r.inter| == 1 && Wanted(p, r.inter[0]))
      && (CheckOneIntermediate(r) == InvalidResponse <==>
            r.success && !AnyEligible(p, lines, |lines|))
  {
    AtMostOne(d, p, lines);
    StateBefore(d, p, lines, |lines|);
    assert lines[..|lines|] == lines;
  }

  lemma {:induction false} AtMostOne(d: Dialect, p: Pending, lines: seq<string>)
    requires p.response == EMPTY_RESPONSE && p.kind in {SingleLine, Numeric}
    ensures
      var r := After(d, p, lines).pending.value.response;
      && (r.success ==> r.final.Some?)
      && (|r.inter| > 0 ==> |r.inter| == 1 && Wanted(p, r.inter[0]))
  {
    hide StartsWithAny;
    if lines != [] {
      AtMostOne(d, p, lines[..|lines| - 1]);
    }
  }

  // ---------- the imperative router ----------

  /** ATLine */
  class Line {
    const text: string
    var next: Line?

    constructor (text: string, next: Line?)
      ensures this.text == text && this.next == next
    {
      this.text := text;
      this.next := next;
    }
  }

  function CellAt(nodes: seq<Line>, i: int): Line?
  {
    if 0 <= i < |nodes| then nodes[i] else null
  }

  /** nodes are the cells of the list at head, in order. */
  ghost predicate IsList(head: Line?, nodes: seq<Line>)
    reads nodes
  {
    && head == CellAt(nodes, 0)
    && (forall i {:trigger nodes[i]} :: 0 <= i < |nodes| ==> nodes[i].next == CellAt(nodes, i + 1))
    && (forall i, j :: 0 <= i < j < |nodes| ==> nodes[i] != nodes[j])
  }

  ghost function Texts(nodes: seq<Line>): (r: seq<string>)
    ensures |r| == |nodes| && forall i :: 0 <= i < |nodes| ==> r[i] == nodes[i].text
  {
    seq(|nodes|, i requires 0 <= i < |nodes| => nodes[i].text)
  }

  lemma ReversedLinks(head: Line?, cells: seq<Line>)
    requires head == CellAt(cells, |cells| - 1)
    requires forall i {:trigger cells[i]} :: 0 <= i < |cells| ==> cells[i].next == CellAt(cells, i - 1)
    requires forall i, j :: 0 <= i < j < |cells| ==> cells[i] != cells[j]
    ensures IsList(head, Reverse(cells)) && Texts(Reverse(cells)) == Reverse(Texts(cells))
  {
    hide Reverse, CellAt;
    ReversedTexts(cells);
    ReversedDistinct(cells);
    var n, nodes := |cells|, Reverse(cells);
    ReversedCellAt(cells, 0);
    forall i | 0 <= i < n ensures nodes[i].next == CellAt(nodes, i + 1) {
      assert nodes[i] == cells[n - 1 - i];
      ReversedCellAt(cells, i + 1);
    }
  }

  lemma ReversedCellAt(cells: seq<Line>, i: int)
    ensures CellAt(Reverse(cells), i) == CellAt(cells, |cells| - 1 - i)
  {
  }

  lemma CellAtInside(cells: seq<Line>, i: int)
    ensures 0 <= i < |cells| <==> CellAt(cells, i) != null
    ensures 0 <= i < |cells| ==> CellAt(cells, i) == cells[i]
  {
  }

  lemma ReversedTexts(cells: seq<Line>)
    ensures Texts(Reverse(cells)) == Reverse(Texts(cells))
  {
    hide Reverse, Texts;
  }

  lemma ReversedDistinct(cells: seq<Line>)
    requires forall i, j :: 0 <= i < j < |cells| ==> cells[i] != cells[j]
    ensures forall i, j :: 0 <= i < j < |cells| ==> Reverse(cells)[i] != Reverse(cells)[j]
  {
    hide Reverse;
    var n := |cells|;
    forall i, j | 0 <= i < j < n ensures Reverse(cells)[i] != Reverse(cells)[j] {
      assert cells[n - 1 - j] != cells[n - 1 - i];
    }
  }

  /** ATResponse */
  class ATResponse {
    var success: bool
    var finalResponse: Option<string>
    var intermediates: Line?
    ghost var nodes: seq<Line>

    ghost predicate Valid()
      reads this, nodes
    {
      IsList(intermediates, nodes)
    }

    ghost function Value(): Response
      reads this
    {
      Response(success, finalResponse, Texts(nodes))
    }

    /** calloc */
    constructor ()
      ensures Valid() && Value() == EMPTY_RESPONSE && nodes == []
    {
      success, finalResponse, intermediates, nodes := false, None, null, [];
    }

    /** addIntermediate */
    method AddIntermediate(line: string)
      requires Valid()
      modifies this`intermediates, this`nodes
      ensures Valid() && Texts(nodes) == [line] + old(Texts(nodes))
      ensures fresh(set n | n in nodes && n !in old(nodes))
    {
      var p := new Line(line, intermediates);
      intermediates := p;
      nodes := [p] + nodes;
    }

    /** reverseIntermediates */
    method ReverseIntermediates()
      requires Valid()
      modifies this`intermediates, this`nodes, nodes
      ensures Valid() && nodes == Reverse(old(nodes))
      ensures Texts(nodes) == Reverse(old(Texts(nodes)))
    {
      hide Reverse, Texts, CellAt;
      ghost var cells := nodes;
      ghost var n := |cells|;
      ghost var k := 0;
      CellAtInside(cells, 0);
      CellAtInside(cells, -1);
      var pcur := intermediates;
      intermediates := null;
      while pcur != null
        invariant 0 <= k <= n && (pcur == null <==> k == n)
        invariant k < n ==> pcur == cells[k]
        invariant pcur == CellAt(cells, k) && intermediates == CellAt(cells, k - 1)
        invariant forall i {:trigger cells[i]} :: 0 <= i < k ==> cells[i].next == CellAt(cells, i - 1)
        invariant forall i {:trigger cells[i]} :: k <= i < n ==> cells[i].next == CellAt(cells, i + 1)
        decreases n - k
      {
        var pnext := pcur.next;
        pcur.next := intermediates;
        intermediates := pcur;
        pcur := pnext;
        k := k + 1;
        CellAtInside(cells, k);
        CellAtInside(cells, k - 1);
      }
      ReversedLinks(intermediates, cells);
      nodes := Reverse(cells);
    }
  }

  class AtChannel {
    const dialect: Dialect
    var kind: CommandType           // s_type
    var prefix: string              // s_responsePrefix
    var pdu: Option<string>         // s_smsPDU
    var response: ATResponse?       // sp_response
    var unsol: seq<string>          // what the unsolicited handler was given
    var written: seq<string>        // the PDUs written to the modem

    ghost predicate Valid()
      reads this, response, if response == null then [] else response.nodes
    {
      response != null ==> response.Valid()
    }

    ghost function State(): Channel
      reads this, response
    {
      Channel(if response == null then None else Some(Pending(kind, prefix, pdu, response.Value())),
              unsol, written)
    }

    constructor (dialect: Dialect)
      ensures Valid() && State() == Channel(None, [], []) && this.dialect == dialect
    {
      this.dialect := dialect;
      kind, prefix, pdu, response, unsol, written := NoResult, "", None, null, [], [];
    }

    method HandleUnsolicited(line: string)
      modifies this`unsol
      ensures unsol == old(unsol) + [line]
    {
      unsol := unsol + [line];
    }

    method HandleFinalResponse(line: string)
      requires response != null
      modifies response`finalResponse
      ensures response.finalResponse == Some(line)
    {
      response.finalResponse := Some(line);
    }

    /** processLine */
    method ProcessLine(line: string)
      requires Valid()
      modifies this, response
      ensures Valid() && State() == Apply(dialect, old(State()), line)
      ensures response == old(response)
    {
      hide StartsWithAny, IsList;
      if response == null {
        HandleUnsolicited(line);
        return;
      }
      var ok := MatchesTable(line, FINAL_SUCCESSES);
      if ok {
        response.success := true;
        HandleFinalResponse(line);
        return;
      }
      var error := MatchesTable(line, FINAL_ERRORS);
      if error {
        response.success := false;
        HandleFinalResponse(line);
        return;
      }
      if pdu.Some? && line == "> " {
        written := written + [pdu.value];
        pdu := None;
        return;
      }
      var accept := Accepts(line);
      if accept {
        response.AddIntermediate(line);
      } else {
        HandleUnsolicited(line);
      }
    }

    /** The switch on s_type: whether the line becomes an intermediate of the pending command. */
    method Accepts(line: string) returns (accept: bool)
      requires Valid() && response != null
      requires !IsFinal(line) && !(pdu.Some? && line == "> ")
      ensures accept <==> Classify(dialect, State().pending.value, line) == Intermediate
    {
      hide StartsWithAny;
      match kind
      case NoResult =>
        accept := false;
      case Numeric =>
        accept := response.intermediates == null && StartsWithDigit(line);
      case SingleLine =>
        var starts := StrStartsWith(line, prefix);
        accept := response.intermediates == null && starts;
      case MultiLine =>
        accept := StrStartsWith(line, prefix);
        if !accept {
          accept := dialect == Reference && prefix == STORED_SMS && response.intermediates != null;
        }
    }

    /** at_send_command_full_nolock after a successful writeline: the command becomes pending. */
    method Issue(kind: CommandType, prefix: string, pdu: Option<string>)
      requires Valid() && response == null
      modifies this
      ensures Valid() && response != null && fresh(response)
      ensures State() == old(State()).(pending := Some(Issued(kind, prefix, pdu)))
    {
      this.kind, this.prefix, this.pdu := kind, prefix, pdu;
      response := new ATResponse();
    }

    /** The end of at_send_command_full_nolock after its wait loop: with a non-NULL out pointer the
        response is put in arrival order and handed over; the channel is cleared either way. */
    method TakeResponse(wantsOut: bool) returns (out: ATResponse?)
      requires Valid() && response != null
      modifies this, response, response.nodes
      ensures out == if wantsOut then old(response) else null
      ensures out != null ==> out.Valid() && var r := old(response.Value()); out.Value() == r.(inter := Reverse(r.inter))
      ensures Valid() && State() == old(State()).(pending := None)
    {
      hide IsList, Reverse, Texts;
      out := null;
      if wantsOut {
        response.ReverseIntermediates();
        out := response;
      }
      response := null;
      prefix, pdu := "", None;    // clearPendingCommand
    }
  }
}
