/**
  What the calls of the command protocol return, and why: every return is taken at one step of the
  run, and the kind of that step says which error code it carries.
 */
module CommandReturns {
  import opened Wrappers
  import opened AtStrings
  import opened LineRouter
  import opened CommandProtocol
  import opened Sequences

  /** The final lines that the command in progress at pc has been answered with. */
  function Answers(cmd: Command, lines: seq<string>): seq<string>
  {
    Select(Altair, IssuedBy(cmd), lines, FINALS)
  }

  // ---------- the wait loop ----------

  /** A thread leaves the wait loop by itself if and only if a final line has come since the command was
      issued, or the channel is closed; it then returns 0, or that the channel is closed. */
  lemma LeavesLoopExactly(steps: seq<Step>, t: Tid)
    requires Run(steps).Some? && PcOf(Run(steps).value, t).Looping?
    ensures
      var s := Run(steps).value;
      var pc, next := PcOf(s, t), PcOf(Exec(s, Test(t)), t);
      && pc.from <= |s.log|
      && (next == Waiting(pc.cmd, pc.from, false) || next.AtError?)
      && (next.AtError? <==> s.closed || Answers(pc.cmd, s.log[pc.from..]) != [])
      && (next.AtError? ==>
            && next.ret.err == (if s.closed then ChannelClosed else Zero)
            && next.ret.cmd == pc.cmd && next.ret.from == pc.from && next.ret.to == |s.log|
            && (next.ret.out.Some? <==> pc.cmd.wantsOut))
  {
    RunKeeps(steps);
    var s := Run(steps).value;
    assert HoldsG(PcOf(s, t)) <==> s.g == Some(t);
    LastFinalStands(Altair, IssuedBy(PcOf(s, t).cmd), s.log[PcOf(s, t).from..]);
    hide After, Select, StartsWithAny;
  }

  // ---------- every return is taken at some step ----------

  /** In state s the step makes thread t return r. */
  ghost predicate Takes(s: State, step: Step, t: Tid, r: Return)
  {
    var pc := PcOf(s, t);
    && r.from <= r.to == |s.log|
    && match step
       case Write(u, result) =>
         // the command was never issued
         u == t && pc.Entered? && r == Return(pc.cmd, result, None, |s.log|, |s.log|) && result != Zero
       case Test(u) =>
         && u == t && pc.Looping? && r.cmd == pc.cmd && r.from == pc.from
         && (s.closed || Answers(r.cmd, s.log[r.from..]) != [])
         && r.err == (if s.closed then ChannelClosed else Zero) && (r.out.Some? <==> r.cmd.wantsOut)
       case Wake(u, timedOut) =>
         && u == t && timedOut && pc.Waiting? && r.cmd == pc.cmd && r.from == pc.from
         && r.cmd.timed && r.err == Timeout && r.out == None
       case _ => false
  }

  /** Step i of the run is where thread t takes the return r. */
  ghost predicate TakenAt(steps: seq<Step>, i: nat, t: Tid, r: Return)
  {
    i < |steps| && Run(steps[..i]).Some? && Takes(Run(steps[..i]).value, steps[i], t, r)
  }

  ghost predicate Taken(steps: seq<Step>, t: Tid, r: Return)
  {
    exists i :: 0 <= i < |steps| && TakenAt(steps, i, t, r)
  }

  predicate Returning(pc: Pc)
  {
    pc.AtError? || pc.UnlockC? || pc.UnlockG?
  }

  ghost predicate AllTaken(steps: seq<Step>, s: State)
  {
    && (forall t: Tid :: Returning(PcOf(s, t)) ==> Taken(steps, t, PcOf(s, t).ret))
    && (forall k :: 0 <= k < |s.history| ==> TakenBySome(steps, s.history[k]))
  }

  ghost predicate TakenBySome(steps: seq<Step>, r: Return)
  {
    exists t: Tid :: Taken(steps, t, r)
  }

  lemma TakenLater(steps: seq<Step>, step: Step, t: Tid, r: Return)
    requires Taken(steps, t, r)
    ensures Taken(steps + [step], t, r)
  {
    hide Run;
    var i :| 0 <= i < |steps| && TakenAt(steps, i, t, r);
    assert (steps + [step])[..i] == steps[..i];
    assert TakenAt(steps + [step], i, t, r);
  }

  /** A thread that comes to return has taken its return at the step that brought it there. */
  lemma TakesReturn(steps: seq<Step>, step: Step, t: Tid)
    requires Run(steps).Some? && Enabled(Run(steps).value, step)
    requires !Returning(PcOf(Run(steps).value, t)) && Returning(PcOf(Exec(Run(steps).value, step), t))
    ensures Taken(steps + [step], t, PcOf(Exec(Run(steps).value, step), t).ret)
  {
    var s := Run(steps).value;
    var r := PcOf(Exec(s, step), t).ret;
    OnlyOwnStep(s, step, t);
    hide Run, Exec, Enabled, Takes;
    match step {
      case Test(_) => TakesByTest(steps, t);
      case Write(_, result) => TakesByWrite(s, t, result);
      case _ => TakesByWake(steps, t);
    }
    TakenNow(steps, step, t, r);
  }

  lemma TakenNow(steps: seq<Step>, step: Step, t: Tid, r: Return)
    requires Run(steps).Some? && Takes(Run(steps).value, step, t, r)
    ensures Taken(steps + [step], t, r)
  {
    hide Run, Takes;
    var more := steps + [step];
    assert more[..|steps|] == steps && more[|steps|] == step;
    assert TakenAt(more, |steps|, t, r);
  }

  lemma TakesByTest(steps: seq<Step>, t: Tid)
    requires Run(steps).Some? && PcOf(Run(steps).value, t).Looping?
    requires Returning(PcOf(Exec(Run(steps).value, Test(t)), t))
    ensures Takes(Run(steps).value, Test(t), t, PcOf(Exec(Run(steps).value, Test(t)), t).ret)
  {
    LeavesLoopExactly(steps, t);
    hide Run, Exec, Answers;
  }

  lemma TakesByWrite(s: State, t: Tid, result: Err)
    requires Enabled(s, Write(t, result)) && Returning(PcOf(Exec(s, Write(t, result)), t))
    ensures Takes(s, Write(t, result), t, PcOf(Exec(s, Write(t, result)), t).ret)
  {
  }

  lemma TakesByWake(steps: seq<Step>, t: Tid)
    requires Run(steps).Some? && Enabled(Run(steps).value, Wake(t, true))
    ensures Takes(Run(steps).value, Wake(t, true), t, PcOf(Exec(Run(steps).value, Wake(t, true)), t).ret)
  {
    RunKeeps(steps);
    WaitsSince(Run(steps).value, t);
    hide Run, Inv;
  }

  lemma WaitsSince(s: State, t: Tid)
    requires Inv(s) && PcOf(s, t).Waiting?
    ensures PcOf(s, t).from <= |s.log|
  {
    assert HoldsG(PcOf(s, t)) <==> s.g == Some(t);
    hide HistoryOk, After;
  }

  /** Only its own steps make a thread return. */
  lemma OnlyOwnStep(s: State, step: Step, t: Tid)
    requires Enabled(s, step) && !Returning(PcOf(s, t)) && Returning(PcOf(Exec(s, step), t))
    ensures (step.Write? && step.t == t) || step == Test(t) || step == Wake(t, true)
  {
    hide Apply, CanWake, IsFinal;
  }

  lemma StepKeepsReturn(s: State, step: Step, t: Tid)
    requires Enabled(s, step) && Returning(PcOf(s, t)) && Returning(PcOf(Exec(s, step), t))
    ensures PcOf(Exec(s, step), t).ret == PcOf(s, t).ret
  {
    hide Apply, CanWake, IsFinal;
  }

  /** Only the end of a call adds to the history. */
  lemma StepHistory(s: State, step: Step)
    requires Enabled(s, step)
    ensures Exec(s, step).history == if step.ReleaseG? then s.history + [PcOf(s, step.t).ret] else s.history
  {
    hide Apply, CanWake, IsFinal;
  }

  lemma StepTakes(steps: seq<Step>, step: Step)
    requires Run(steps).Some? && Enabled(Run(steps).value, step) && AllTaken(steps, Run(steps).value)
    ensures AllTaken(steps + [step], Exec(Run(steps).value, step))
  {
    hide Taken, Run, Exec;
    var s := Run(steps).value;
    var s' := Exec(s, step);
    var more := steps + [step];
    forall t: Tid | Returning(PcOf(s', t)) ensures Taken(more, t, PcOf(s', t).ret) {
      if Returning(PcOf(s, t)) {
        StepKeepsReturn(s, step, t);
        TakenLater(steps, step, t, PcOf(s, t).ret);
      } else {
        TakesReturn(steps, step, t);
      }
    }
    StepHistory(s, step);
    forall k | 0 <= k < |s'.history| ensures TakenBySome(more, s'.history[k]) {
      if k < |s.history| {
        assert TakenBySome(steps, s.history[k]) && s'.history[k] == s.history[k];
        var t: Tid :| Taken(steps, t, s.history[k]);
        TakenLater(steps, step, t, s.history[k]);
      } else {
        assert Returning(PcOf(s, step.t)) && s'.history[k] == PcOf(s, step.t).ret;
        TakenLater(steps, step, step.t, PcOf(s, step.t).ret);
      }
    }
  }

  lemma {:induction false} RunTakes(steps: seq<Step>)
    requires Run(steps).Some?
    ensures AllTaken(steps, Run(steps).value)
  {
    hide Exec, Enabled, AllTaken;
    if steps == [] {
      NothingTaken();
    } else {
      var n := |steps| - 1;
      RunTakes(steps[..n]);
      StepTakes(steps[..n], steps[n]);
      assert steps == steps[..n] + [steps[n]];
    }
  }

  lemma NothingTaken()
    ensures AllTaken([], INIT)
  {
  }

  // ---------- the theorem ----------

  /** Step i ends the call k of the history: its command was not issued, or it was answered, or the
      channel was closed, or it timed out. */
  lemma EveryReturnHasItsReason(steps: seq<Step>, k: nat) returns (i: nat, t: Tid)
    requires Run(steps).Some? && k < |Run(steps).value.history|
    ensures TakenAt(steps, i, t, Run(steps).value.history[k])
  {
    RunTakes(steps);
    hide Run, TakenAt;
    var r := Run(steps).value.history[k];
    assert TakenBySome(steps, r);
    t :| Taken(steps, t, r);
    i :| 0 <= i < |steps| && TakenAt(steps, i, t, r);
  }

  lemma {:induction false} PrefixRuns(steps: seq<Step>, i: nat)
    requires Run(steps).Some? && i < |steps|
    ensures Run(steps[..i]).Some? && Enabled(Run(steps[..i]).value, steps[i])
    decreases |steps|
  {
    hide Enabled, Exec;
    var n := |steps| - 1;
    if i < n {
      PrefixRuns(steps[..n], i);
      assert steps[..n][..i] == steps[..i];
    }
  }

  /** What a call returns, exactly.  Once its command has been issued, it returns 0 when a final line has
      come and the channel was open as the response was taken, that the channel is closed when it was,
      and a timeout when its wait timed out, for which it must have one.  A call whose command could not
      be issued returns none of 0, a timeout, and a pending command. */
  lemma ReturnsExactly(steps: seq<Step>, k: nat) returns (i: nat, t: Tid)
    requires Run(steps).Some? && k < |Run(steps).value.history|
    ensures TakenAt(steps, i, t, Run(steps).value.history[k])
    ensures
      var r := Run(steps).value.history[k];
      var s := Run(steps[..i]).value;
      if steps[i].Write? then
        r.err !in {Zero, Timeout, CommandPending} && (s.closed ==> r.err == ChannelClosed)
      else
        && (r.err == Zero <==> steps[i] == Test(t) && !s.closed)
        && (r.err == Zero ==> Answers(r.cmd, s.log[r.from..r.to]) != [])
        && (r.err == ChannelClosed <==> steps[i] == Test(t) && s.closed)
        && (s.closed ==> ClosedByCaller(steps[..i]) || EndOfStream(true) in steps[..i])
        && (r.err == Timeout <==> steps[i] == Wake(t, true))
        && (r.err == Timeout ==> r.cmd.timed)
  {
    i, t := EveryReturnHasItsReason(steps, k);
    PrefixRuns(steps, i);
    RunEnds(steps[..i]);
    NeverCommandPending(steps[..i], t);
    var r := Run(steps).value.history[k];
    var s := Run(steps[..i]).value;
    assert s.log[r.from..r.to] == s.log[r.from..];
    hide Run, Answers, ClosedByCaller, Inv;
  }

  /** Such calls exist: a run in which a call is answered by any final line and returns 0. */
  lemma AnsweredReachable(t: Tid, cmd: Command, line: string) returns (steps: seq<Step>)
    requires IsFinal(line)
    ensures Run(steps).Some?
    ensures
      var r := ResponseAfter(cmd, [line]);
      Run(steps).value.history == [Return(cmd, Zero, Handed(cmd, r), 0, 1)]
  {
    hide *;
    steps := AnswerComes(t, cmd, line);
    steps := AnswerTaken(steps, t, cmd, line);
    steps := CallEnds(steps, t, Return(cmd, Zero, Handed(cmd, ResponseAfter(cmd, [line])), 0, 1));
  }

  /** The command waits, and the reader has processed its answer. */
  lemma AnswerComes(t: Tid, cmd: Command, line: string) returns (steps: seq<Step>)
    requires IsFinal(line)
    ensures
      && Run(steps).Some?
      && var s := Run(steps).value;
      && PcOf(s, t) == Waiting(cmd, 0, true) && s.reader == Processed && s.g == Some(t)
      && s.log == [line] && !s.closed && s.history == []
  {
    hide Run, After, Apply, IsFinal;
    steps := FirstWait(t, cmd);
    steps := Extend(steps, Receive(line));
    steps := Extend(steps, ReaderLock);
    assert Blocked(Run(steps).value) == {t};
    steps := Extend(steps, Process({t}));
    assert Run(steps).value.pcs == map[t := Waiting(cmd, 0, true)];
  }

  lemma AnswerTaken(before: seq<Step>, t: Tid, cmd: Command, line: string) returns (steps: seq<Step>)
    requires Run(before).Some? && IsFinal(line)
    requires
      var s := Run(before).value;
      && PcOf(s, t) == Waiting(cmd, 0, true) && s.reader == Processed && s.g == Some(t)
      && s.log == [line] && !s.closed && s.history == []
    ensures Run(steps).Some?
    ensures
      var s := Run(steps).value;
      && PcOf(s, t) == AtError(Return(cmd, Zero, Handed(cmd, ResponseAfter(cmd, [line])), 0, 1))
      && s.history == []
  {
    hide Run, After, Apply, IsFinal, Answers;
    steps := Extend(before, ReaderRelease);
    steps := Extend(steps, Wake(t, false));
    AnswerIsFinal(cmd, line);
    LoopOwns(steps, t);
    LeavesLoopExactly(steps, t);
    assert [line][0..] == [line];
    steps := Extend(steps, Test(t));
  }

  lemma LoopOwns(steps: seq<Step>, t: Tid)
    requires Run(steps).Some? && PcOf(Run(steps).value, t).Looping?
    ensures var s := Run(steps).value; Owned(s, PcOf(s, t).cmd, PcOf(s, t).from)
  {
    RunKeeps(steps);
    assert HoldsG(PcOf(Run(steps).value, t));
    hide Run, Owned, HistoryOk;
  }

  lemma AnswerIsFinal(cmd: Command, line: string)
    requires IsFinal(line)
    ensures Answers(cmd, [line]) == [line]
  {
    VerdictCharacterised(Altair, IssuedBy(cmd), [line], 0);
    hide VerdictAt, IsFinal;
    assert [line][..0] == [];
    SelectNone(Altair, IssuedBy(cmd), FINALS);
    assert VerdictAt(Altair, IssuedBy(cmd), [line], 0).Final?;
  }

  /** The rest of a call, after its return has been taken. */
  lemma CallEnds(before: seq<Step>, t: Tid, r: Return) returns (steps: seq<Step>)
    requires Run(before).Some? && PcOf(Run(before).value, t) == AtError(r)
    ensures Run(steps).Some? && Run(steps).value.history == Run(before).value.history + [r]
    ensures Run(steps).value.closed == Run(before).value.closed
  {
    hide Run;
    steps := Extend(before, Clear(t));
    steps := Extend(steps, ReleaseC(t));
    steps := Extend(steps, ReleaseG(t));
  }

  /** A call whose command could not be written returns that error and leaves nothing pending; else its
      command is pending and it goes on to wait. */
  lemma WriteDecides(steps: seq<Step>, t: Tid, result: Err)
    requires Run(steps).Some? && Enabled(Run(steps).value, Write(t, result))
    ensures
      var s := Run(steps).value;
      var cmd, now, s' := PcOf(s, t).cmd, |s.log|, Exec(s, Write(t, result));
      if result == Zero then
        && PcOf(s', t) == Looping(cmd, now)
        && s'.chan.pending == Some(Pending(cmd.kind, cmd.prefix, cmd.pdu, Response(false, None, [])))
      else PcOf(s', t) == AtError(Return(cmd, result, None, now, now)) && s'.chan.pending.None?
  {
    NeverCommandPending(steps, t);
    hide Run, Inv;
  }

  /** A run in which writing fails. */
  lemma FailedReachable(t: Tid, cmd: Command) returns (steps: seq<Step>)
    ensures Run(steps).Some? && Run(steps).value.history == [Return(cmd, Generic, None, 0, 0)]
  {
    RunNothing();
    hide Run;
    steps := Extend([], Call(t, cmd));
    steps := Extend(steps, LockG(t));
    steps := Extend(steps, LockC(t));
    steps := Extend(steps, Write(t, Generic));
    steps := CallEnds(steps, t, Return(cmd, Generic, None, 0, 0));
  }

  /** A run in which a call times out. */
  lemma TimeoutReachable(t: Tid, cmd: Command) returns (steps: seq<Step>)
    requires cmd.timed
    ensures Run(steps).Some? && Run(steps).value.history == [Return(cmd, Timeout, None, 0, 0)]
  {
    hide Run;
    steps := FirstWait(t, cmd);
    steps := Extend(steps, Wake(t, true));
    steps := CallEnds(steps, t, Return(cmd, Timeout, None, 0, 0));
  }

  /** A run in which another thread closes the channel under a waiting call, which then returns that. */
  lemma ClosedReachable(t: Tid, u: Tid, cmd: Command) returns (steps: seq<Step>)
    requires t != u
    ensures Run(steps).Some? && Run(steps).value.closed
    ensures
      var h := Run(steps).value.history;
      |h| == 1 && h[0].cmd == cmd && h[0].err == ChannelClosed
  {
    hide *;
    steps := ClosesUnder(t, u, cmd);
    steps := ClosedTaken(steps, t);
    var r := PcOf(Run(steps).value, t).ret;
    steps := CallEnds(steps, t, r);
  }

  lemma ClosesUnder(t: Tid, u: Tid, cmd: Command) returns (steps: seq<Step>)
    requires t != u
    ensures Run(steps).Some?
    ensures
      var s := Run(steps).value;
      PcOf(s, t) == Waiting(cmd, 0, true) && s.c == Nobody && s.closed && s.history == []
  {
    hide Run;
    steps := FirstWait(t, cmd);
    steps := Extend(steps, Close(u));
    steps := Extend(steps, CloseLock(u));
    assert Run(steps).value.pcs == map[t := Waiting(cmd, 0, false), u := CloseSet];
    steps := ClosesNow(steps, t, u, cmd);
  }

  lemma ClosesNow(before: seq<Step>, t: Tid, u: Tid, cmd: Command) returns (steps: seq<Step>)
    requires t != u && Run(before).Some?
    requires Run(before).value.pcs == map[t := Waiting(cmd, 0, false), u := CloseSet] && Run(before).value.history == []
    ensures Run(steps).Some?
    ensures
      var s := Run(steps).value;
      PcOf(s, t) == Waiting(cmd, 0, true) && s.c == Nobody && s.closed && s.history == []
  {
    hide Run;
    assert Blocked(Run(before).value) == {t};
    steps := Extend(before, CloseDo(u, {t}));
    steps := Extend(steps, CloseRelease(u));
  }

  lemma ClosedTaken(before: seq<Step>, t: Tid) returns (steps: seq<Step>)
    requires Run(before).Some?
    requires var s := Run(before).value; PcOf(s, t).Waiting? && s.c == Nobody && s.closed && s.history == []
    ensures Run(steps).Some?
    ensures
      var s := Run(steps).value;
      && PcOf(s, t).AtError? && PcOf(s, t).ret.err == ChannelClosed && s.closed && s.history == []
      && PcOf(s, t).ret.cmd == PcOf(Run(before).value, t).cmd
  {
    hide Run, Answers;
    steps := Extend(before, Wake(t, false));
    LoopOwns(steps, t);
    LeavesLoopExactly(steps, t);
    steps := Extend(steps, Test(t));
  }
}
