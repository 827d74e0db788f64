/**
  Where every line from the modem goes, and every PDU to it, over whole runs of the command
  protocol: the log of lines is cut into the stretches of the calls and what lies between them, and
  the router's channel is accounted for stretch by stretch.
 */
module CommandLines {
  import opened Wrappers
  import opened AtStrings
  import opened LineRouter
  import opened CommandProtocol
  import opened Sequences

  /** The stretch of the log between the issue of a call and the taking of its response. */
  datatype Span = Span(cmd: Command, from: nat, to: nat)

  function Finished(history: seq<Return>): (r: seq<Span>)
    ensures |r| == |history|
  {
    seq(|history|, i requires 0 <= i < |history| => Span(history[i].cmd, history[i].from, history[i].to))
  }

  /** The stretch of the call in progress, which grows while its thread is in the wait loop. */
  function Current(s: State): seq<Span>
  {
    if s.g.None? then [] else At(PcOf(s, s.g.value), |s.log|)
  }

  function At(pc: Pc, now: nat): seq<Span>
  {
    match pc
    case Looping(cmd, from) => [Span(cmd, from, now)]
    case Waiting(cmd, from, _) => [Span(cmd, from, now)]
    case AtError(ret) => [Span(ret.cmd, ret.from, ret.to)]
    case UnlockC(ret) => [Span(ret.cmd, ret.from, ret.to)]
    case UnlockG(ret) => [Span(ret.cmd, ret.from, ret.to)]
    case _ => []
  }

  /** The stretches of all calls that have been issued, in order. */
  function Spans(s: State): seq<Span>
  {
    Finished(s.history) + Current(s)
  }

  function Slice(log: seq<string>, i: nat, j: nat): seq<string>
  {
    if i <= j <= |log| then log[i..j] else []
  }

  function Stretch(sp: Span, log: seq<string>): seq<string>
  {
    Slice(log, sp.from, sp.to)
  }

  function WrittenFor(sp: Span, log: seq<string>): seq<string>
  {
    After(Altair, IssuedBy(sp.cmd), Stretch(sp, log)).written
  }

  /** The lines of a stretch that the call has no use for. */
  function Unwanted(sp: Span, log: seq<string>): seq<string>
  {
    Select(Altair, IssuedBy(sp.cmd), Stretch(sp, log), {Unsolicited})
  }

  function WrittenIn(spans: seq<Span>, log: seq<string>): seq<string>
  {
    if spans == [] then []
    else
      var n := |spans| - 1;
      WrittenIn(spans[..n], log) + WrittenFor(spans[n], log)
  }

  function EndOf(spans: seq<Span>): nat
  {
    if spans == [] then 0 else spans[|spans| - 1].to
  }

  /** Up to the end of the last stretch: every line between stretches, and the unwanted ones of each. */
  function UnsolIn(spans: seq<Span>, log: seq<string>): seq<string>
  {
    if spans == [] then []
    else
      var n := |spans| - 1;
      UnsolIn(spans[..n], log) + Slice(log, EndOf(spans[..n]), spans[n].from) + Unwanted(spans[n], log)
  }

  ghost predicate Accounted(s: State)
  {
    && s.chan.written == WrittenIn(Spans(s), s.log)
    && s.chan.unsol == UnsolIn(Spans(s), s.log) + Slice(s.log, EndOf(Spans(s)), |s.log|)
  }

  /** The stretches lie in the log up to n one behind the other. */
  predicate Ordered(spans: seq<Span>, n: nat)
  {
    spans != [] ==>
      var m := |spans| - 1;
      spans[m].from <= spans[m].to <= n && EndOf(spans[..m]) <= spans[m].from && Ordered(spans[..m], spans[m].from)
  }

  lemma OrderedLater(spans: seq<Span>, n: nat, m: nat)
    requires Ordered(spans, n) && n <= m
    ensures Ordered(spans, m)
  {
  }

  lemma {:induction false} FinishedOrdered(history: seq<Return>, n: nat)
    requires forall k :: 0 <= k < |history| ==> history[k].from <= history[k].to
    requires forall k, l :: 0 <= k < l < |history| ==> history[k].to <= history[l].from
    requires LastTo(history) <= n
    ensures Ordered(Finished(history), n) && EndOf(Finished(history)) == LastTo(history)
  {
    if history != [] {
      var m := |history| - 1;
      FinishedOrdered(history[..m], history[m].from);
      assert Finished(history)[..m] == Finished(history[..m]);
    }
  }

  lemma SpansOrdered(s: State)
    requires Inv(s)
    ensures Ordered(Spans(s), |s.log|)
  {
    hide After;
    FinishedOrdered(s.history, |s.log|);
    var f := Finished(s.history);
    if Current(s) != [] {
      assert Spans(s)[..|f|] == f;
      FinishedOrdered(s.history, Current(s)[0].from);
    } else {
      AppendNothing(f);
    }
  }

  // ---------- the steps that process no line ----------

  lemma FinishedMore(history: seq<Return>, r: Return)
    ensures Finished(history + [r]) == Finished(history) + [Span(r.cmd, r.from, r.to)]
  {
  }

  /** The thread that holds the outer mutex moves on within its call. */
  lemma OwnerSpans(s: State, t: Tid, step: Step)
    requires Inv(s) && Enabled(s, step)
    requires step == LockC(t) || step == Test(t) || (step.Wake? && step.t == t) || step == Clear(t) || step == ReleaseC(t)
    ensures Spans(Exec(s, step)) == Spans(s)
  {
    hide HistoryOk, ResponseOk, Finished;
    assert HoldsG(PcOf(s, t));
  }

  lemma EndSpans(s: State, t: Tid)
    requires Inv(s) && Enabled(s, ReleaseG(t))
    ensures Spans(Exec(s, ReleaseG(t))) == Spans(s)
  {
    hide HistoryOk, ResponseOk, Finished;
    assert HoldsG(PcOf(s, t));
    FinishedMore(s.history, PcOf(s, t).ret);
    AppendNothing(Finished(s.history + [PcOf(s, t).ret]));
  }

  lemma IssueSpans(s: State, t: Tid, result: Err)
    requires Inv(s) && Enabled(s, Write(t, result))
    ensures Spans(Exec(s, Write(t, result))) == Spans(s) + [Span(PcOf(s, t).cmd, |s.log|, |s.log|)]
  {
    hide HistoryOk, ResponseOk, Finished;
    assert HoldsG(PcOf(s, t));
    AppendNothing(Finished(s.history));
  }

  /** A thread that does not hold the outer mutex moves, or the reader without processing a line. */
  lemma OthersSpans(s: State, step: Step)
    requires Inv(s) && Enabled(s, step)
    requires step.Call? || step.LockG? || step.Close? || step.CloseLock? || step.CloseRelease? || step.Receive?
      || step.ReaderLock? || step.ReaderRelease? || step.EndOfStream?
    ensures Spans(Exec(s, step)) == Spans(s)
  {
    hide HistoryOk, ResponseOk, Finished;
    var t := match step
      case Call(t, _) => t case LockG(t) => t case Close(t) => t case CloseLock(t) => t case CloseRelease(t) => t
      case _ => 0;
    assert HoldsG(PcOf(s, t)) <==> s.g == Some(t);
  }

  /** The channel is closed and the condition signaled. */
  lemma SignalSpans(s: State, step: Step)
    requires Inv(s) && Enabled(s, step) && (step.CloseDo? || (step.Process? && s.reader.EndSet?))
    ensures Spans(Exec(s, step)) == Spans(s)
  {
    hide HistoryOk, ResponseOk, Finished;
    if s.g.Some? {
      PcAfterSignal(s, step.woken, s.g.value);
      if step.CloseDo? { assert HoldsG(PcOf(s, step.t)) <==> s.g == Some(step.t); }
    }
  }

  lemma SameSpans(s: State, s': State)
    requires Accounted(s) && Spans(s') == Spans(s) && s'.log == s.log
    requires s'.chan.written == s.chan.written && s'.chan.unsol == s.chan.unsol
    ensures Accounted(s')
  {
    hide Spans, WrittenIn, UnsolIn;
  }

  /** A call is issued, or fails to be: its stretch is empty. */
  lemma NewSpan(s: State, cmd: Command, s': State)
    requires Accounted(s) && Spans(s') == Spans(s) + [Span(cmd, |s.log|, |s.log|)] && s'.log == s.log
    requires s'.chan.written == s.chan.written && s'.chan.unsol == s.chan.unsol
    ensures Accounted(s')
  {
    var sp := Span(cmd, |s.log|, |s.log|);
    EmptyStretch(sp, s.log);
    MoreSpans(Spans(s), sp, s.log);
    hide Spans, WrittenIn, UnsolIn, WrittenFor, Unwanted;
    assert Slice(s.log, |s.log|, |s.log|) == [];
  }

  lemma MoreSpans(spans: seq<Span>, sp: Span, log: seq<string>)
    ensures WrittenIn(spans + [sp], log) == WrittenIn(spans, log) + WrittenFor(sp, log)
    ensures UnsolIn(spans + [sp], log) == UnsolIn(spans, log) + Slice(log, EndOf(spans), sp.from) + Unwanted(sp, log)
    ensures EndOf(spans + [sp]) == sp.to
  {
    hide WrittenFor, Unwanted, Slice;
    assert (spans + [sp])[..|spans|] == spans;
  }

  lemma EmptyStretch(sp: Span, log: seq<string>)
    requires sp.from == sp.to
    ensures WrittenFor(sp, log) == [] && Unwanted(sp, log) == []
  {
    assert Stretch(sp, log) == [];
  }

  // ---------- a line is processed ----------

  lemma SliceGrows(log: seq<string>, i: nat, j: nat, line: string)
    requires j <= |log|
    ensures Slice(log + [line], i, j) == Slice(log, i, j)
  {
  }

  lemma {:induction false} SpansGrow(spans: seq<Span>, log: seq<string>, line: string)
    requires Ordered(spans, |log|)
    ensures WrittenIn(spans, log + [line]) == WrittenIn(spans, log)
    ensures UnsolIn(spans, log + [line]) == UnsolIn(spans, log)
    ensures EndOf(spans) <= |log|
  {
    if spans != [] {
      var m := |spans| - 1;
      OrderedLater(spans[..m], spans[m].from, |log|);
      SpansGrow(spans[..m], log, line);
      SliceGrows(log, EndOf(spans[..m]), spans[m].from, line);
      SliceGrows(log, spans[m].from, spans[m].to, line);
      hide Slice, Ordered, Select, After;
    }
  }

  /** With no command pending the line is for the unsolicited handler. */
  lemma IdleLine(s: State, s': State, line: string)
    requires Accounted(s) && Ordered(Spans(s), |s.log|) && s.chan.pending.None?
    requires s'.log == s.log + [line] && Spans(s') == Spans(s)
    requires s'.chan == Apply(Altair, s.chan, line)
    ensures Accounted(s')
  {
    hide Spans, WrittenIn, UnsolIn, Ordered, Slice, EndOf;
    SpansGrow(Spans(s), s.log, line);
    SliceTo(s.log, EndOf(Spans(s)), line);
    Assoc(UnsolIn(Spans(s), s.log), Slice(s.log, EndOf(Spans(s)), |s.log|), [line]);
  }

  lemma SliceTo(log: seq<string>, i: nat, line: string)
    requires i <= |log|
    ensures Slice(log + [line], i, |log + [line]|) == Slice(log, i, |log|) + [line]
  {
  }

  /** While a command waits, its stretch grows by the line. */
  lemma WaitingLine(s: State, s': State, spans: seq<Span>, cmd: Command, from: nat, line: string)
    requires Accounted(s) && Ordered(Spans(s), |s.log|)
    requires Spans(s) == spans + [Span(cmd, from, |s.log|)]
    requires Spans(s') == spans + [Span(cmd, from, |s.log| + 1)] && s'.log == s.log + [line]
    requires from <= |s.log| && s.chan.pending == After(Altair, IssuedBy(cmd), s.log[from..]).pending
    requires s'.chan == Apply(Altair, s.chan, line)
    ensures Accounted(s')
  {
    hide *;
    var log := s.log;
    var sp, sp' := Span(cmd, from, |log|), Span(cmd, from, |log| + 1);
    OrderedBefore(s, spans, sp);
    SpansGrow(spans, log, line);
    SliceGrows(log, EndOf(spans), from, line);
    StretchesOf(cmd, from, log, line);
    var written, unsol := LineOfStretch(s.chan, cmd, log[from..], line);
    AccountsUpTo(s, spans, sp);
    WrittenForIs(sp, log, sp', s'.log);
    Assoc(WrittenIn(spans, log), WrittenFor(sp, log), written);
    Assoc(UnsolIn(spans, log) + Slice(log, EndOf(spans), from), Unwanted(sp, log), unsol);
    AccountsAre(s', spans, sp');
  }

  lemma OrderedBefore(s: State, spans: seq<Span>, sp: Span)
    requires Ordered(Spans(s), |s.log|) && Spans(s) == spans + [sp]
    ensures Ordered(spans, |s.log|) && sp.from <= sp.to <= |s.log|
  {
    hide Spans;
    assert Spans(s)[..|spans|] == spans;
    OrderedLater(spans, sp.from, |s.log|);
  }

  lemma StretchesOf(cmd: Command, from: nat, log: seq<string>, line: string)
    requires from <= |log|
    ensures Stretch(Span(cmd, from, |log|), log) == log[from..]
    ensures Stretch(Span(cmd, from, |log| + 1), log + [line]) == log[from..] + [line]
  {
  }

  lemma WrittenForIs(sp: Span, log: seq<string>, sp': Span, log': seq<string>)
    ensures WrittenFor(sp, log) == After(Altair, IssuedBy(sp.cmd), Stretch(sp, log)).written
    ensures Unwanted(sp, log) == Select(Altair, IssuedBy(sp.cmd), Stretch(sp, log), {Unsolicited})
    ensures WrittenFor(sp', log') == After(Altair, IssuedBy(sp'.cmd), Stretch(sp', log')).written
    ensures Unwanted(sp', log') == Select(Altair, IssuedBy(sp'.cmd), Stretch(sp', log'), {Unsolicited})
  {
    hide After, Select, Stretch;
  }

  /** The accounts when the last stretch ends with the log. */
  lemma AccountsUpTo(s: State, spans: seq<Span>, sp: Span)
    requires Accounted(s) && Spans(s) == spans + [sp] && sp.to == |s.log|
    ensures s.chan.written == WrittenIn(spans, s.log) + WrittenFor(sp, s.log)
    ensures s.chan.unsol == UnsolIn(spans, s.log) + Slice(s.log, EndOf(spans), sp.from) + Unwanted(sp, s.log)
  {
    MoreSpans(spans, sp, s.log);
    hide Spans, WrittenIn, UnsolIn, WrittenFor, Unwanted;
    assert Slice(s.log, |s.log|, |s.log|) == [];
    AppendNothing(s.chan.unsol);
    AppendNothing(UnsolIn(spans + [sp], s.log));
  }

  lemma AccountsAre(s: State, spans: seq<Span>, sp: Span)
    requires Spans(s) == spans + [sp] && sp.to == |s.log|
    requires s.chan.written == WrittenIn(spans, s.log) + WrittenFor(sp, s.log)
    requires s.chan.unsol == UnsolIn(spans, s.log) + Slice(s.log, EndOf(spans), sp.from) + Unwanted(sp, s.log)
    ensures Accounted(s)
  {
    MoreSpans(spans, sp, s.log);
    hide Spans, WrittenIn, UnsolIn, WrittenFor, Unwanted;
    assert Slice(s.log, |s.log|, |s.log|) == [];
    AppendNothing(s.chan.unsol);
  }

  /** One more line makes of any channel with the same pending command what it makes of the call's own. */
  lemma LineOfStretch(c: Channel, cmd: Command, lines: seq<string>, line: string)
    returns (written: seq<string>, unsol: seq<string>)
    requires c.pending == After(Altair, IssuedBy(cmd), lines).pending
    ensures After(Altair, IssuedBy(cmd), lines + [line]).written == After(Altair, IssuedBy(cmd), lines).written + written
    ensures Select(Altair, IssuedBy(cmd), lines + [line], {Unsolicited})
         == Select(Altair, IssuedBy(cmd), lines, {Unsolicited}) + unsol
    ensures Apply(Altair, c, line).written == c.written + written && Apply(Altair, c, line).unsol == c.unsol + unsol
  {
    hide StartsWithAny;
    assert (lines + [line])[..|lines|] == lines;
    var p := c.pending.value;
    written := if Classify(Altair, p, line).Prompt? then [p.pdu.value] else [];
    unsol := if Classify(Altair, p, line).Unsolicited? then [line] else [];
  }

  lemma LineKeeps(s: State, woken: set<Tid>)
    requires Inv(s) && Accounted(s) && s.reader.Processing? && CanWake(s, woken)
    ensures Accounted(ExecProcess(s, woken))
  {
    var line := s.reader.line;
    var s' := ExecProcess(s, woken);
    SpansOrdered(s);
    LineSpans(s, woken);
    hide After, Apply, Accounted, Ordered, Spans, Current, HistoryOk, IsFinal;
    assert s'.log == s.log + [line] && s'.chan == Apply(Altair, s.chan, line);
    if s.g.Some? && PcOf(s, s.g.value).Waiting? {
      var pc := PcOf(s, s.g.value);
      WaitingLine(s, s', Finished(s.history), pc.cmd, pc.from, line);
    } else {
      IdleLine(s, s', line);
    }
  }

  /** What a processed line does to the stretches. */
  lemma LineSpans(s: State, woken: set<Tid>)
    requires Inv(s) && s.reader.Processing?
    ensures
      var s' := ExecProcess(s, woken);
      if s.g.Some? && PcOf(s, s.g.value).Waiting? then
        var pc := PcOf(s, s.g.value);
        && Spans(s) == Finished(s.history) + [Span(pc.cmd, pc.from, |s.log|)]
        && Spans(s') == Finished(s.history) + [Span(pc.cmd, pc.from, |s.log| + 1)]
      else Spans(s') == Spans(s) && s.chan.pending.None?
  {
    hide Apply, IsFinal, HistoryOk, Finished, After, Truthful;
    if s.g.Some? {
      var t := s.g.value;
      assert HoldsG(PcOf(s, t)) && !HoldsC(PcOf(s, t));
      PcAfterSignal(s.(chan := Apply(Altair, s.chan, s.reader.line), log := s.log + [s.reader.line], reader := Processed),
                    woken, t);
    }
  }

  // ---------- whole runs ----------

  lemma StepKeepsAccounts(s: State, step: Step)
    requires Inv(s) && Accounted(s) && Enabled(s, step)
    ensures Accounted(Exec(s, step))
  {
    var s' := Exec(s, step);
    if step.Process? && s.reader.Processing? {
      LineKeeps(s, step.woken);
    } else {
      ChannelKept(s, step);
      if step.Write? {
        IssueSpans(s, step.t, step.result);
        hide *;
        NewSpan(s, PcOf(s, step.t).cmd, s');
      } else {
        StepSpans(s, step);
        hide *;
        SameSpans(s, s');
      }
    }
  }

  lemma StepSpans(s: State, step: Step)
    requires Inv(s) && Enabled(s, step) && !step.Write? && !(step.Process? && s.reader.Processing?)
    ensures Spans(Exec(s, step)) == Spans(s)
  {
    hide Inv, Spans, Exec;
    match step
    case ReleaseG(t) => EndSpans(s, t);
    case LockC(t) => OwnerSpans(s, t, step);
    case Test(t) => OwnerSpans(s, t, step);
    case Wake(t, _) => OwnerSpans(s, t, step);
    case Clear(t) => OwnerSpans(s, t, step);
    case ReleaseC(t) => OwnerSpans(s, t, step);
    case CloseDo(_, _) => SignalSpans(s, step);
    case Process(_) => SignalSpans(s, step);
    case _ => OthersSpans(s, step);
  }

  /** Only a processed line is written about or handed on. */
  lemma ChannelKept(s: State, step: Step)
    requires Enabled(s, step) && !(step.Process? && s.reader.Processing?)
    ensures var s' := Exec(s, step);
      s'.log == s.log && s'.chan.written == s.chan.written && s'.chan.unsol == s.chan.unsol
  {
  }

  lemma {:induction false} RunKeepsAccounts(steps: seq<Step>)
    requires Run(steps).Some?
    ensures Inv(Run(steps).value) && Accounted(Run(steps).value)
  {
    RunKeeps(steps);
    hide Inv, Enabled, Exec, Accounted;
    if steps == [] {
      NothingYet();
    } else {
      var n := |steps| - 1;
      RunKeepsAccounts(steps[..n]);
      StepKeepsAccounts(Run(steps[..n]).value, steps[n]);
    }
  }

  lemma NothingYet()
    ensures Accounted(INIT)
  {
    assert Spans(INIT) == [];
  }

  // ---------- the theorems ----------

  /** Over any run, what has been written is what each call wrote in its turn, and a call writes its
      PDU once, if a prompt came while it was pending, and else nothing. */
  lemma PdusWrittenOnce(steps: seq<Step>)
    requires Run(steps).Some?
    ensures
      var s := Run(steps).value;
      && s.chan.written == WrittenIn(Spans(s), s.log)
      && (forall sp <- Spans(s) :: OncePerCall(sp, s.log))
  {
    RunKeepsAccounts(steps);
    var s := Run(steps).value;
    forall sp <- Spans(s) ensures OncePerCall(sp, s.log) {
      PduWrittenOnce(Altair, IssuedBy(sp.cmd), Stretch(sp, s.log));
    }
  }

  ghost predicate OncePerCall(sp: Span, log: seq<string>)
  {
    var prompted := Select(Altair, IssuedBy(sp.cmd), Stretch(sp, log), {LineRouter.Prompt}) != [];
    WrittenFor(sp, log) == if prompted && sp.cmd.pdu.Some? then [sp.cmd.pdu.value] else []
  }

  /** Over any run, the unsolicited handler has been given, in order, every line that came while no
      call was pending, and those that came while one was and it had no use for. */
  lemma UnsolicitedInTurn(steps: seq<Step>)
    requires Run(steps).Some?
    ensures
      var s := Run(steps).value;
      && Ordered(Spans(s), |s.log|)
      && s.chan.unsol == UnsolIn(Spans(s), s.log) + Slice(s.log, EndOf(Spans(s)), |s.log|)
  {
    RunKeepsAccounts(steps);
    SpansOrdered(Run(steps).value);
  }

  /** What the calls have kept of the lines: their final lines, prompts and intermediates. */
  function KeptIn(spans: seq<Span>, log: seq<string>): multiset<string>
  {
    if spans == [] then multiset{}
    else
      var n := |spans| - 1;
      KeptIn(spans[..n], log) + KeptBy(spans[n], log)
  }

  function KeptBy(sp: Span, log: seq<string>): multiset<string>
  {
    var p, lines := IssuedBy(sp.cmd), Stretch(sp, log);
    multiset(Select(Altair, p, lines, FINALS)) + multiset(Select(Altair, p, lines, {LineRouter.Prompt}))
      + multiset(Select(Altair, p, lines, {Intermediate}))
  }

  lemma StretchConserved(sp: Span, log: seq<string>)
    ensures multiset(Stretch(sp, log)) == KeptBy(sp, log) + multiset(Unwanted(sp, log))
  {
    hide Select;
    LinesConserved(Altair, IssuedBy(sp.cmd), Stretch(sp, log));
  }

  lemma {:induction false} SpansConserve(spans: seq<Span>, log: seq<string>)
    requires Ordered(spans, |log|)
    ensures EndOf(spans) <= |log| && multiset(log[..EndOf(spans)]) == multiset(UnsolIn(spans, log)) + KeptIn(spans, log)
  {
    hide Unwanted, KeptBy;
    if spans == [] {
      assert log[..0] == [];
    } else {
      var m := |spans| - 1;
      var sp, before := spans[m], EndOf(spans[..m]);
      OrderedLater(spans[..m], sp.from, |log|);
      SpansConserve(spans[..m], log);
      StretchConserved(sp, log);
      assert Slice(log, before, sp.from) == log[before..sp.from] && Stretch(sp, log) == log[sp.from..sp.to];
      hide Slice, Stretch;
      ThreeParts(log, before, sp.from, sp.to);
    }
  }

  lemma ThreeParts(log: seq<string>, i: nat, j: nat, k: nat)
    requires i <= j <= k <= |log|
    ensures multiset(log[..k]) == multiset(log[..i]) + multiset(log[i..j]) + multiset(log[j..k])
  {
    assert log[..k] == log[..i] + log[i..j] + log[j..k];
  }

  /** Over any run, every line the reader has processed has gone to exactly one place: to the
      unsolicited handler, or to one of the calls as a final line, a prompt or an intermediate. */
  lemma EveryLineOnce(steps: seq<Step>)
    requires Run(steps).Some?
    ensures
      var s := Run(steps).value;
      multiset(s.log) == multiset(s.chan.unsol) + KeptIn(Spans(s), s.log)
  {
    UnsolicitedInTurn(steps);
    var s := Run(steps).value;
    var spans := Spans(s);
    SpansConserve(spans, s.log);
    hide *;
    WholeTail(s.log, EndOf(spans));
  }

  lemma WholeTail(log: seq<string>, i: nat)
    requires i <= |log|
    ensures multiset(log) == multiset(log[..i]) + multiset(Slice(log, i, |log|))
  {
    assert log == log[..i] + log[i..] && Slice(log, i, |log|) == log[i..];
  }
}
