/**
  Progress of the command protocol: what the program does by itself comes to an end.  Together with
  the theorem on what is awaited then, this says that every call returns unless the modem, or a
  caller that holds the channel open, leaves it waiting.
 */
module CommandProgress {
  import opened Wrappers
  import opened LineRouter
  import opened CommandProtocol
  import opened Sequences

  // ---------- how far each thread can go by itself ----------

  /** A bound on the steps a thread takes by itself; it is 5 more for one that has been signaled. */
  function PcRank(pc: Pc): nat
  {
    match pc
    case Outside => 0
    case WantG(_) => 7
    case WantC(_) => 6
    case Entered(_) => 5
    case Looping(_, _) => 4
    case Waiting(_, _, signaled) => if signaled then 5 else 0
    case AtError(_) => 3
    case UnlockC(_) => 2
    case UnlockG(_) => 1
    case CloseWant => 8
    case CloseSet => 7
    case CloseUnlock => 1
  }

  function ReaderRank(r: ReaderPc): nat
  {
    match r
    case Reading => 0
    case HasLine(_) => 8
    case Processing(_) => 7
    case Processed => 1
    case EndWant => 8
    case EndSet => 7
    case EndUnlock => 1
    case Stopped => 0
  }

  ghost function Total(pcs: map<Tid, Pc>): nat
    decreases |pcs|
  {
    if pcs == map[] then 0
    else
      var t: Tid :| t in pcs;
      PcRank(pcs[t]) + Total(pcs - {t})
  }

  ghost function Rank(s: State): nat
  {
    Total(s.pcs) + ReaderRank(s.reader)
  }

  lemma {:induction false} TotalWithout(pcs: map<Tid, Pc>, t: Tid)
    requires t in pcs
    ensures Total(pcs) == PcRank(pcs[t]) + Total(pcs - {t})
    decreases |pcs|
  {
    var c: Tid :| c in pcs && Total(pcs) == PcRank(pcs[c]) + Total(pcs - {c});
    if c != t {
      TotalWithout(pcs - {c}, t);
      TotalWithout(pcs - {t}, c);
      assert pcs - {c} - {t} == pcs - {t} - {c};
    }
  }

  /** A thread that moves. */
  lemma TotalMoves(pcs: map<Tid, Pc>, t: Tid, pc: Pc)
    ensures Total(pcs[t := pc]) == Total(pcs) + PcRank(pc) - (if t in pcs then PcRank(pcs[t]) else 0)
  {
    TotalWithout(pcs[t := pc], t);
    if t in pcs {
      TotalWithout(pcs, t);
      assert pcs[t := pc] - {t} == pcs - {t};
    } else {
      assert pcs[t := pc] - {t} == pcs;
    }
  }

  lemma MoveRank(s: State, t: Tid, pc: Pc)
    ensures Total(Move(s, t, pc).pcs) == Total(s.pcs) + PcRank(pc) - PcRank(PcOf(s, t))
  {
    TotalMoves(s.pcs, t, pc);
    hide Total;
  }

  /** A signal wakes at most the one thread that waits. */
  lemma SignalRank(s: State, woken: set<Tid>)
    requires LocksOk(s) && CanWake(s, woken)
    ensures Total(Signal(s, woken).pcs) <= Total(s.pcs) + 5
  {
    OnlyOwnerBlocks(s, woken);
    hide Total, PcRank;
    if woken == {} {
      assert Signal(s, woken).pcs == s.pcs;
    } else {
      var t := s.g.value;
      assert woken == {t} && t in Blocked(s);
      assert Signal(s, woken).pcs == s.pcs[t := s.pcs[t].(signaled := true)];
      TotalMoves(s.pcs, t, s.pcs[t].(signaled := true));
      WokenRank(s.pcs[t]);
    }
  }

  lemma WokenRank(pc: Pc)
    requires pc.Waiting? && !pc.signaled
    ensures PcRank(pc.(signaled := true)) == PcRank(pc) + 5
  {
  }

  // ---------- every internal step goes down ----------

  lemma ReaderGoesDown(s: State, step: Step)
    requires Inv(s) && Enabled(s, step) && (step.ReaderLock? || step.ReaderRelease? || step.Process?)
    ensures Rank(Exec(s, step)) < Rank(s)
  {
    hide Total, ResponseOk, HistoryOk, Apply, IsFinal;
    if step.Process? {
      SignalRank(s, step.woken);
      var s' := Exec(s, step);
      assert s'.pcs == s.pcs || s'.pcs == Signal(s, step.woken).pcs;
    }
  }

  lemma ThreadGoesDown(s: State, step: Step)
    requires Inv(s) && Enabled(s, step) && Internal(s, step)
    requires !step.ReaderLock? && !step.ReaderRelease? && !step.Process?
    ensures Rank(Exec(s, step)) < Rank(s)
  {
    var t := step.t;
    var s' := Exec(s, step);
    if step.CloseDo? {
      SignalRank(s, step.woken);
      MoveRank(Signal(s, step.woken), t, CloseUnlock);
      PcAfterSignal(s, step.woken, t);
    } else {
      MoveRank(s, t, PcOf(s', t));
      assert HoldsG(PcOf(s, t)) <==> s.g == Some(t);
      StepMoves(s, step);
    }
    hide Total, ResponseOk, HistoryOk, LocksOk;
  }

  /** Where each step takes its thread. */
  lemma StepMoves(s: State, step: Step)
    requires Inv(s) && Enabled(s, step) && Internal(s, step)
    requires !step.ReaderLock? && !step.ReaderRelease? && !step.Process? && !step.CloseDo?
    ensures
      var s' := Exec(s, step);
      && s'.pcs == Move(s, step.t, PcOf(s', step.t)).pcs && s'.reader == s.reader
      && PcRank(PcOf(s', step.t)) < PcRank(PcOf(s, step.t))
  {
    assert HoldsG(PcOf(s, step.t)) <==> s.g == Some(step.t);
    hide HistoryOk, After;
  }

  lemma StepGoesDown(s: State, step: Step)
    requires Inv(s) && Enabled(s, step) && Internal(s, step)
    ensures Rank(Exec(s, step)) < Rank(s)
  {
    hide Inv, Enabled, Exec, Rank;
    if step.ReaderLock? || step.ReaderRelease? || step.Process? {
      ReaderGoesDown(s, step);
    } else {
      ThreadGoesDown(s, step);
    }
  }

  // ---------- the theorems ----------

  /** The steps are taken one after the other from s, each of them by the program itself. */
  ghost predicate ByItself(s: State, steps: seq<Step>)
    decreases |steps|
  {
    steps != [] ==> Enabled(s, steps[0]) && Internal(s, steps[0]) && ByItself(Exec(s, steps[0]), steps[1..])
  }

  function EndOf(s: State, steps: seq<Step>): State
    requires ByItself(s, steps)
    decreases |steps|
  {
    if steps == [] then s else EndOf(Exec(s, steps[0]), steps[1..])
  }

  /** What the program does by itself is bounded in every reachable state: with nothing from the modem, no
      new call and no time-out, it comes to rest. */
  lemma {:induction false} ComesToRest(s: State, steps: seq<Step>)
    requires Inv(s) && ByItself(s, steps)
    ensures |steps| + Rank(EndOf(s, steps)) <= Rank(s)
    decreases |steps|
  {
    hide Inv, Enabled, Exec, Internal, Rank;
    if steps != [] {
      StepGoesDown(s, steps[0]);
      StepKeeps(s, steps[0]);
      ComesToRest(Exec(s, steps[0]), steps[1..]);
    }
  }

  /** And it can always come to rest. */
  lemma {:induction false} CanRest(s: State) returns (steps: seq<Step>)
    requires Inv(s)
    ensures ByItself(s, steps) && Stuck(EndOf(s, steps))
    decreases Rank(s)
  {
    hide Inv, Enabled, Exec, Internal, Rank;
    if step :| Internal(s, step) && Enabled(s, step) {
      StepGoesDown(s, step);
      StepKeeps(s, step);
      var rest := CanRest(Exec(s, step));
      steps := [step] + rest;
      assert steps[1..] == rest;
    } else {
      steps := [];
      assert Stuck(s);
    }
  }
}
