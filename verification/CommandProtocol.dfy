/**
  The concurrency protocol of the Altair AT channel: any number of threads in
  at_send_command_full, any number in at_close, and the reader thread, over two mutexes and one
  condition variable.

  A state holds every thread's position in its code; a step is one atomic action of one thread,
  with its nondeterministic outcome.  The theorems hold in every state that any sequence of
  steps reaches.
 */
module CommandProtocol {
  import opened Wrappers
  import opened AtStrings
  import opened LineRouter
  import opened Sequences

  type Tid = nat

  /** The arguments of at_send_command_full: timed is timeoutMsec != 0, wantsOut a non-NULL out pointer. */
  datatype Command = Command(kind: CommandType, prefix: string, pdu: Option<string>, timed: bool, wantsOut: bool)

  datatype Err = Zero | Generic | CommandPending | ChannelClosed | Timeout

  /** What a call returns; from and to are the numbers of lines processed when the command was
      issued and when its response was taken. */
  datatype Return = Return(cmd: Command, err: Err, out: Option<Response>, from: nat, to: nat)

  /** A command thread's position. */
  datatype Pc =
    | Outside
    | WantG(cmd: Command)                                 // before locking s_at_cmd_g_mutex
    | WantC(cmd: Command)                                 // before locking s_commandmutex
    | Entered(cmd: Command)                               // at the test of sp_response
    | Looping(cmd: Command, from: nat)                    // at the condition of the wait loop
    | Waiting(cmd: Command, from: nat, signaled: bool)    // in pthread_cond_wait
    | AtError(ret: Return)                                // at the label error
    | UnlockC(ret: Return)
    | UnlockG(ret: Return)
    | CloseWant | CloseSet | CloseUnlock                  // at_close

  datatype ReaderPc =
    | Reading
    | HasLine(line: string)         // processLine, before the lock
    | Processing(line: string)
    | Processed                     // before the unlock
    | EndWant | EndSet | EndUnlock  // onReaderClosed
    | Stopped

  datatype Owner = Nobody | ByReader | ByThread(t: Tid)

  datatype State = State(
    pcs: map<Tid, Pc>,
    reader: ReaderPc,
    g: Option<Tid>,         // s_at_cmd_g_mutex
    c: Owner,               // s_commandmutex
    chan: Channel,          // sp_response and the fields that go with it
    closed: bool,           // s_readerClosed
    log: seq<string>,       // the lines processLine has processed
    history: seq<Return>)   // the calls that have returned, in order

  function PcOf(s: State, t: Tid): Pc
  {
    if t in s.pcs then s.pcs[t] else Outside
  }

  const INIT := State(map[], Reading, None, Nobody, Channel(None, [], []), false, [], [])

  // ---------- steps ----------

  datatype Step =
    | Call(t: Tid, cmd: Command)
    | LockG(t: Tid)
    | LockC(t: Tid)
    | Write(t: Tid, result: Err)          // the test of sp_response, then writeline
    | Test(t: Tid)                        // the condition of the wait loop
    | Wake(t: Tid, timedOut: bool)        // pthread_cond_wait returns, also spuriously
    | Clear(t: Tid)
    | ReleaseC(t: Tid)
    | ReleaseG(t: Tid)
    | Close(t: Tid)
    | CloseLock(t: Tid)
    | CloseDo(t: Tid, woken: set<Tid>)
    | CloseRelease(t: Tid)
    | Receive(line: string)
    | ReaderLock
    | Process(woken: set<Tid>)
    | ReaderRelease
    | EndOfStream(notify: bool)

  function Move(s: State, t: Tid, pc: Pc): State
  {
    s.(pcs := s.pcs[t := pc])
  }

  /** The threads a pthread_cond_signal can wake. */
  function Blocked(s: State): set<Tid>
  {
    set t | t in s.pcs && s.pcs[t].Waiting? && !s.pcs[t].signaled
  }

  /** pthread_cond_signal wakes at least one blocked thread, if there is one. */
  predicate CanWake(s: State, woken: set<Tid>)
  {
    woken <= Blocked(s) && (Blocked(s) != {} ==> woken != {})
  }

  function Signal(s: State, woken: set<Tid>): State
  {
    s.(pcs := map t | t in s.pcs :: if t in woken && s.pcs[t].Waiting? then s.pcs[t].(signaled := true) else s.pcs[t])
  }

  predicate HoldsG(pc: Pc)
  {
    pc.WantC? || pc.Entered? || pc.Looping? || pc.Waiting? || pc.AtError? || pc.UnlockC? || pc.UnlockG?
  }

  predicate HoldsC(pc: Pc)
  {
    pc.Entered? || pc.Looping? || pc.AtError? || pc.UnlockC? || pc.CloseSet? || pc.CloseUnlock?
  }

  predicate ReaderHoldsC(r: ReaderPc)
  {
    r.Processing? || r.Processed? || r.EndSet? || r.EndUnlock?
  }

  predicate Enabled(s: State, step: Step)
  {
    match step
    case Call(t, _) => PcOf(s, t).Outside?
    case LockG(t) => PcOf(s, t).WantG? && s.g == None
    case LockC(t) => PcOf(s, t).WantC? && s.c == Nobody
    case Write(t, result) =>
      && PcOf(s, t).Entered?
      && (s.chan.pending.Some? <==> result == CommandPending)
      && result != Timeout && (s.closed && s.chan.pending.None? ==> result == ChannelClosed)
    case Test(t) => PcOf(s, t).Looping?
    case Wake(t, timedOut) => PcOf(s, t).Waiting? && s.c == Nobody && (timedOut ==> PcOf(s, t).cmd.timed)
    case Clear(t) => PcOf(s, t).AtError?
    case ReleaseC(t) => PcOf(s, t).UnlockC?
    case ReleaseG(t) => PcOf(s, t).UnlockG?
    case Close(t) => PcOf(s, t).Outside?
    case CloseLock(t) => PcOf(s, t).CloseWant? && s.c == Nobody
    case CloseDo(t, woken) => PcOf(s, t).CloseSet? && CanWake(s, woken)
    case CloseRelease(t) => PcOf(s, t).CloseUnlock?
    case Receive(_) => s.reader.Reading?
    case ReaderLock => (s.reader.HasLine? || s.reader.EndWant?) && s.c == Nobody
    case Process(woken) =>
      (s.reader.Processing? || s.reader.EndSet?) && CanWake(s, woken)
    case ReaderRelease => s.reader.Processed? || s.reader.EndUnlock?
    case EndOfStream(_) => s.reader.Reading?
  }

  function Exec(s: State, step: Step): State
    requires Enabled(s, step)
  {
    match step
    case Call(t, cmd) => Move(s, t, WantG(cmd))
    case LockG(t) => Move(s, t, WantC(PcOf(s, t).cmd)).(g := Some(t))
    case LockC(t) => Move(s, t, Entered(PcOf(s, t).cmd)).(c := ByThread(t))
    case Write(t, result) => ExecWrite(s, t, result)
    case Test(t) => ExecTest(s, t)
    case Wake(t, timedOut) => ExecWake(s, t, timedOut)
    case Clear(t) => Move(s, t, UnlockC(PcOf(s, t).ret)).(chan := s.chan.(pending := None))
    case ReleaseC(t) => Move(s, t, UnlockG(PcOf(s, t).ret)).(c := Nobody)
    case ReleaseG(t) => Move(s, t, Outside).(g := None, history := s.history + [PcOf(s, t).ret])
    case Close(t) => Move(s, t, CloseWant)
    case CloseLock(t) => Move(s, t, CloseSet).(c := ByThread(t))
    case CloseDo(t, woken) => Move(Signal(s, woken), t, CloseUnlock).(closed := true)
    case CloseRelease(t) => Move(s, t, Outside).(c := Nobody)
    case Receive(line) => s.(reader := HasLine(line))
    case ReaderLock => s.(c := ByReader, reader := if s.reader.HasLine? then Processing(s.reader.line) else EndSet)
    case Process(woken) => ExecProcess(s, woken)
    case ReaderRelease => s.(c := Nobody, reader := if s.reader.Processed? then Reading else Stopped)
    case EndOfStream(notify) => s.(reader := if notify && !s.closed then EndWant else Stopped)
  }

  function ExecWrite(s: State, t: Tid, result: Err): State
    requires Enabled(s, Write(t, result))
  {
    var cmd := PcOf(s, t).cmd;
    if result == Zero then
      Move(s, t, Looping(cmd, |s.log|)).(chan := s.chan.(pending := Some(IssuedBy(cmd))))
    else Move(s, t, AtError(Return(cmd, result, None, |s.log|, |s.log|)))
  }

  function IssuedBy(cmd: Command): Pending
  {
    Issued(cmd.kind, cmd.prefix, cmd.pdu)
  }

  /** The response handed to the caller: intermediates in arrival order. */
  function Handed(cmd: Command, r: Response): Option<Response>
  {
    if cmd.wantsOut then Some(r.(inter := Reverse(r.inter))) else None
  }

  function ExecTest(s: State, t: Tid): State
    requires PcOf(s, t).Looping?
  {
    var pc := PcOf(s, t);
    if s.chan.pending.None? then s    // excluded by the invariant: the loop reads sp_response
    else
      var r := s.chan.pending.value.response;
      if r.final == None && !s.closed then
        Move(s, t, Waiting(pc.cmd, pc.from, false)).(c := Nobody)
      else
        var err := if s.closed then ChannelClosed else Zero;
        Move(s, t, AtError(Return(pc.cmd, err, Handed(pc.cmd, r), pc.from, |s.log|)))
          .(chan := s.chan.(pending := None))
  }

  function ExecWake(s: State, t: Tid, timedOut: bool): State
    requires PcOf(s, t).Waiting?
  {
    var pc := PcOf(s, t);
    var woken := if timedOut then AtError(Return(pc.cmd, Timeout, None, pc.from, |s.log|)) else Looping(pc.cmd, pc.from);
    Move(s, t, woken).(c := ByThread(t))
  }

  function ExecProcess(s: State, woken: set<Tid>): State
    requires s.reader.Processing? || s.reader.EndSet?
  {
    if s.reader.EndSet? then Signal(s, woken).(closed := true, reader := EndUnlock)
    else
      var line := s.reader.line;
      var s' := s.(chan := Apply(Altair, s.chan, line), log := s.log + [line], reader := Processed);
      if s.chan.pending.Some? && IsFinal(line) then Signal(s', woken) else s'
  }

  /** The state after a sequence of steps, if all are enabled in turn. */
  function Run(steps: seq<Step>): Option<State>
  {
    if steps == [] then Some(INIT)
    else
      var before := Run(steps[..|steps| - 1]);
      var last := steps[|steps| - 1];
      if before.Some? && Enabled(before.value, last) then Some(Exec(before.value, last)) else None
  }

  // ---------- the invariant ----------

  /** sp_response after the given lines, for a command issued just before them. */
  function ResponseAfter(cmd: Command, lines: seq<string>): Response
  {
    After(Altair, IssuedBy(cmd), lines).pending.value.response
  }

  /** What a finished call has returned is determined by the lines between its issue and its end. */
  ghost predicate Truthful(r: Return, log: seq<string>)
  {
    && r.from <= r.to <= |log|
    && r.err != CommandPending
    && (r.err == Zero ==> ResponseAfter(r.cmd, log[r.from..r.to]).final.Some?)
    && (r.err == Zero ==> r.out == Handed(r.cmd, ResponseAfter(r.cmd, log[r.from..r.to])))
    && (r.out.Some? ==> r.out == Handed(r.cmd, ResponseAfter(r.cmd, log[r.from..r.to])))
  }

  function LastTo(history: seq<Return>): nat
  {
    if history == [] then 0 else history[|history| - 1].to
  }

  ghost predicate HistoryOk(s: State)
  {
    && (forall k :: 0 <= k < |s.history| ==> Truthful(s.history[k], s.log))
    && (forall k, l :: 0 <= k < l < |s.history| ==> s.history[k].to <= s.history[l].from)
  }

  /** Who holds which mutex is what the positions say. */
  ghost predicate LocksOk(s: State)
  {
    && (forall t: Tid :: HoldsG(PcOf(s, t)) <==> s.g == Some(t))
    && (forall t: Tid :: HoldsC(PcOf(s, t)) <==> s.c == ByThread(t))
    && (ReaderHoldsC(s.reader) <==> s.c == ByReader)
  }

  /** sp_response belongs to the command thread at pc. */
  ghost predicate Owned(s: State, cmd: Command, from: nat)
  {
    && LastTo(s.history) <= from <= |s.log|
    && s.chan.pending == After(Altair, IssuedBy(cmd), s.log[from..]).pending
  }

  ghost predicate ResponseOk(s: State)
  {
    match s.g
    case None => s.chan.pending.None?
    case Some(t) =>
      match PcOf(s, t)
      case Looping(cmd, from) => Owned(s, cmd, from)
      case Waiting(cmd, from, signaled) =>
        && Owned(s, cmd, from)
        // no wakeup is lost
        && (!signaled ==> s.chan.pending.value.response.final == None && !s.closed)
      case AtError(ret) => Truthful(ret, s.log) && LastTo(s.history) <= ret.from
      case UnlockC(ret) => s.chan.pending.None? && Truthful(ret, s.log) && LastTo(s.history) <= ret.from
      case UnlockG(ret) => s.chan.pending.None? && Truthful(ret, s.log) && LastTo(s.history) <= ret.from
      case _ => s.chan.pending.None?
  }

  ghost predicate Inv(s: State)
  {
    LocksOk(s) && ResponseOk(s) && HistoryOk(s) && LastTo(s.history) <= |s.log|
  }

  // ---------- the invariant is kept ----------

  lemma TruthfulGrows(r: Return, log: seq<string>, line: string)
    requires Truthful(r, log)
    ensures Truthful(r, log + [line])
  {
    assert (log + [line])[r.from..r.to] == log[r.from..r.to];
  }

  lemma PcAfterMove(s: State, t: Tid, pc: Pc, u: Tid)
    ensures PcOf(Move(s, t, pc), u) == if u == t then pc else PcOf(s, u)
  {
  }

  lemma PcAfterSignal(s: State, woken: set<Tid>, u: Tid)
    ensures PcOf(Signal(s, woken), u)
         == if u in woken && PcOf(s, u).Waiting? then PcOf(s, u).(signaled := true) else PcOf(s, u)
  {
  }

  /** A thread moves; it may take or give up a mutex on the way. */
  lemma LocksAfterMove(s: State, t: Tid, pc: Pc, s': State)
    requires LocksOk(s) && s'.pcs == Move(s, t, pc).pcs && s'.reader == s.reader
    requires s'.g == if HoldsG(pc) then Some(t) else if HoldsG(PcOf(s, t)) then None else s.g
    requires s'.c == if HoldsC(pc) then ByThread(t) else if HoldsC(PcOf(s, t)) then Nobody else s.c
    requires HoldsG(pc) ==> s.g == None || s.g == Some(t)
    requires HoldsC(pc) ==> s.c == Nobody || s.c == ByThread(t)
    ensures LocksOk(s')
  {
    forall u: Tid
      ensures HoldsG(PcOf(s', u)) <==> s'.g == Some(u)
      ensures HoldsC(PcOf(s', u)) <==> s'.c == ByThread(u)
    {
      PcAfterMove(s, t, pc, u);
      assert PcOf(s', u) == PcOf(Move(s, t, pc), u);
    }
  }

  lemma LocksAfterSignal(s: State, woken: set<Tid>)
    requires LocksOk(s)
    ensures LocksOk(Signal(s, woken))
  {
    forall u: Tid
      ensures HoldsG(PcOf(Signal(s, woken), u)) <==> s.g == Some(u)
      ensures HoldsC(PcOf(Signal(s, woken), u)) <==> s.c == ByThread(u)
    {
      PcAfterSignal(s, woken, u);
    }
  }

  /** Steps of other threads leave the command in progress alone. */
  lemma ResponseAfterMove(s: State, t: Tid, pc: Pc, s': State)
    requires LocksOk(s) && ResponseOk(s) && !HoldsG(PcOf(s, t)) && !HoldsG(pc)
    requires s'.pcs == Move(s, t, pc).pcs
    requires s'.g == s.g && s'.chan == s.chan && s'.closed == s.closed && s'.log == s.log && s'.history == s.history
    ensures ResponseOk(s')
  {
    if s.g.Some? {
      PcAfterMove(s, t, pc, s.g.value);
      assert PcOf(s', s.g.value) == PcOf(s, s.g.value);
    }
  }

  /** The only thread that can be blocked is the one with the command in progress. */
  lemma OnlyOwnerBlocks(s: State, woken: set<Tid>)
    requires LocksOk(s) && CanWake(s, woken)
    ensures s.g == None ==> Blocked(s) == {}
    ensures s.g.Some? && PcOf(s, s.g.value).Waiting? && !PcOf(s, s.g.value).signaled ==> s.g.value in woken
    ensures s.g.Some? ==> Blocked(s) <= {s.g.value}
  {
    forall t | t in Blocked(s) ensures s.g == Some(t) {
      assert HoldsG(PcOf(s, t));
    }
    if s.g.Some? && PcOf(s, s.g.value).Waiting? && !PcOf(s, s.g.value).signaled {
      assert s.g.value in Blocked(s);
      var t :| t in woken;
      assert t in Blocked(s);
    }
  }

  lemma ResponseAfterSignal(s: State, woken: set<Tid>, closed: bool)
    requires LocksOk(s) && ResponseOk(s) && CanWake(s, woken)
    ensures ResponseOk(Signal(s, woken).(closed := closed || s.closed))
  {
    OnlyOwnerBlocks(s, woken);
    if s.g.Some? {
      PcAfterSignal(s, woken, s.g.value);
      assert PcOf(Signal(s, woken).(closed := closed || s.closed), s.g.value) == PcOf(Signal(s, woken), s.g.value);
    }
  }

  lemma ApplyPending(c: Channel, c': Channel, line: string)
    requires c.pending == c'.pending
    ensures Apply(Altair, c, line).pending == Apply(Altair, c', line).pending
  {
  }

  /** The response in progress follows the lines processed. */
  lemma OwnedGrows(s: State, cmd: Command, from: nat, line: string)
    requires Owned(s, cmd, from)
    ensures Owned(s.(chan := Apply(Altair, s.chan, line), log := s.log + [line]), cmd, from)
  {
    var lines := s.log[from..];
    assert (s.log + [line])[from..] == lines + [line];
    assert (lines + [line])[..|lines|] == lines;
    ApplyPending(s.chan, After(Altair, IssuedBy(cmd), lines), line);
  }

  lemma HistoryGrows(s: State, line: string)
    requires HistoryOk(s)
    ensures HistoryOk(s.(chan := Apply(Altair, s.chan, line), log := s.log + [line]))
  {
    forall k | 0 <= k < |s.history| ensures Truthful(s.history[k], s.log + [line]) {
      TruthfulGrows(s.history[k], s.log, line);
    }
  }

  lemma ProcessKeepsResponse(s: State, line: string, woken: set<Tid>)
    requires LocksOk(s) && ResponseOk(s) && s.c == ByReader && CanWake(s, woken)
    ensures
      var s' := s.(chan := Apply(Altair, s.chan, line), log := s.log + [line], reader := Processed);
      ResponseOk(if s.chan.pending.Some? && IsFinal(line) then Signal(s', woken) else s')
  {
    hide After, Truthful, Classify;
    var s' := s.(chan := Apply(Altair, s.chan, line), log := s.log + [line], reader := Processed);
    OnlyOwnerBlocks(s, woken);
    if s.g.Some? {
      var t := s.g.value;
      assert !HoldsC(PcOf(s, t));
      PcAfterSignal(s', woken, t);
      match PcOf(s, t)
      case Waiting(cmd, from, _) =>
        OwnedGrows(s, cmd, from, line);
        if !IsFinal(line) { FinalNeedsFinalLine(s.chan, line); }
      case UnlockG(ret) => TruthfulGrows(ret, s.log, line);
      case _ =>
    }
  }

  lemma FinalNeedsFinalLine(c: Channel, line: string)
    requires c.pending.Some? && !IsFinal(line)
    ensures Apply(Altair, c, line).pending.value.response.final == c.pending.value.response.final
  {
    hide StartsWithAny;
  }

  lemma WriteKeeps(s: State, t: Tid, result: Err)
    requires Inv(s) && Enabled(s, Write(t, result))
    ensures Inv(ExecWrite(s, t, result)) && result != CommandPending
  {
    var s' := ExecWrite(s, t, result);
    assert HoldsG(PcOf(s, t)) && HoldsC(PcOf(s, t));
    LocksAfterMove(s, t, PcOf(s', t), s');
    assert s.log[|s.log|..] == [];
  }

  lemma TestKeeps(s: State, t: Tid)
    requires Inv(s) && Enabled(s, Test(t))
    ensures Inv(ExecTest(s, t)) && s.chan.pending.Some?
  {
    var s' := ExecTest(s, t);
    assert HoldsG(PcOf(s, t)) && HoldsC(PcOf(s, t));
    LocksAfterMove(s, t, PcOf(s', t), s');
    var from := PcOf(s, t).from;
    assert s.log[from..|s.log|] == s.log[from..];
  }

  lemma WakeKeeps(s: State, t: Tid, timedOut: bool)
    requires Inv(s) && Enabled(s, Wake(t, timedOut))
    ensures Inv(ExecWake(s, t, timedOut))
  {
    var s' := ExecWake(s, t, timedOut);
    assert HoldsG(PcOf(s, t)) && !HoldsC(PcOf(s, t));
    LocksAfterMove(s, t, PcOf(s', t), s');
  }

  lemma FinishKeeps(s: State, t: Tid, step: Step)
    requires Inv(s) && Enabled(s, step) && (step == Clear(t) || step == ReleaseC(t) || step == ReleaseG(t))
    ensures Inv(Exec(s, step))
  {
    var s' := Exec(s, step);
    assert HoldsG(PcOf(s, t));
    LocksAfterMove(s, t, PcOf(s', t), s');
  }

  lemma EnterKeeps(s: State, t: Tid, step: Step)
    requires Inv(s) && Enabled(s, step)
    requires (step.Call? && step.t == t) || step == LockG(t) || step == LockC(t)
    ensures Inv(Exec(s, step))
  {
    var s' := Exec(s, step);
    assert HoldsG(PcOf(s, t)) <==> s.g == Some(t);
    LocksAfterMove(s, t, PcOf(s', t), s');
    if step.Call? {
      ResponseAfterMove(s, t, PcOf(s', t), s');
    }
  }

  lemma CloseKeeps(s: State, t: Tid, step: Step)
    requires Inv(s) && Enabled(s, step)
    requires step == Close(t) || step == CloseLock(t) || step == CloseRelease(t)
    ensures Inv(Exec(s, step))
  {
    hide ResponseOk, HistoryOk;
    var s' := Exec(s, step);
    assert HoldsG(PcOf(s, t)) <==> s.g == Some(t);
    assert HoldsC(PcOf(s, t)) <==> s.c == ByThread(t);
    LocksAfterMove(s, t, PcOf(s', t), s');
    ResponseAfterMove(s, t, PcOf(s', t), s');
    HistoryOnly(s, s');
  }

  lemma CloseSetKeeps(s: State, t: Tid, woken: set<Tid>)
    requires Inv(s) && Enabled(s, CloseDo(t, woken))
    ensures Inv(Exec(s, CloseDo(t, woken)))
  {
    hide ResponseOk, HistoryOk;
    var s' := Exec(s, CloseDo(t, woken));
    assert HoldsG(PcOf(s, t)) <==> s.g == Some(t);
    assert HoldsC(PcOf(s, t)) <==> s.c == ByThread(t);
    var s1 := Signal(s, woken).(closed := true);
    LocksAfterSignal(s, woken);
    assert LocksOk(s1) by {
      assert forall u: Tid :: PcOf(s1, u) == PcOf(Signal(s, woken), u);
    }
    ResponseAfterSignal(s, woken, true);
    PcAfterSignal(s, woken, t);
    assert PcOf(s1, t) == PcOf(Signal(s, woken), t);
    hide LocksOk;
    LocksAfterMove(s1, t, CloseUnlock, s');
    ResponseAfterMove(s1, t, CloseUnlock, s');
    HistoryOnly(s, s');
  }

  lemma ProcessKeeps(s: State, woken: set<Tid>)
    requires Inv(s) && s.reader.Processing? && CanWake(s, woken)
    ensures Inv(ExecProcess(s, woken))
  {
    hide ResponseOk, HistoryOk, Apply;
    var line := s.reader.line;
    var s1 := s.(chan := Apply(Altair, s.chan, line), log := s.log + [line], reader := Processed);
    assert LocksOk(s1) by { assert forall u: Tid :: PcOf(s1, u) == PcOf(s, u); }
    LocksAfterSignal(s1, woken);
    ProcessKeepsResponse(s, line, woken);
    HistoryGrows(s, line);
    HistoryOnly(s.(chan := Apply(Altair, s.chan, line), log := s.log + [line]), ExecProcess(s, woken));
  }

  lemma HistoryOnly(s: State, s': State)
    requires HistoryOk(s) && s'.history == s.history && s'.log == s.log
    ensures HistoryOk(s')
  {
  }

  lemma EndSetKeeps(s: State, woken: set<Tid>)
    requires Inv(s) && s.reader.EndSet? && CanWake(s, woken)
    ensures Inv(ExecProcess(s, woken))
  {
    hide HistoryOk;
    var s1 := Signal(s, woken).(closed := true);
    var s' := ExecProcess(s, woken);
    LocksAfterSignal(s, woken);
    ResponseAfterSignal(s, woken, true);
    assert LocksOk(s') by { assert forall u: Tid :: PcOf(s', u) == PcOf(Signal(s, woken), u); }
    assert ResponseOk(s') by { assert forall u: Tid :: PcOf(s', u) == PcOf(s1, u); }
    HistoryOnly(s, s');
  }

  lemma ReaderKeeps(s: State, step: Step)
    requires Inv(s) && Enabled(s, step)
    requires step.Receive? || step.ReaderLock? || step.ReaderRelease? || step.EndOfStream?
    ensures Inv(Exec(s, step))
  {
    hide HistoryOk, ResponseOk;
    var s' := Exec(s, step);
    assert forall u: Tid :: PcOf(s', u) == PcOf(s, u);
    ResponseOnly(s, s');
    HistoryOnly(s, s');
  }

  lemma ResponseOnly(s: State, s': State)
    requires ResponseOk(s) && s'.pcs == s.pcs && s'.g == s.g && s'.chan == s.chan
    requires s'.closed == s.closed && s'.log == s.log && s'.history == s.history
    ensures ResponseOk(s')
  {
    hide After, Truthful, LastTo;
  }

  lemma ProcessStepKeeps(s: State, woken: set<Tid>)
    requires Inv(s) && Enabled(s, Process(woken))
    ensures Inv(Exec(s, Process(woken)))
  {
    hide Inv;
    if s.reader.EndSet? { EndSetKeeps(s, woken); } else { ProcessKeeps(s, woken); }
  }

  lemma StepKeeps(s: State, step: Step)
    requires Inv(s) && Enabled(s, step)
    ensures Inv(Exec(s, step))
  {
    hide Inv, Enabled;
    match step
    case Write(t, result) => WriteKeeps(s, t, result);
    case Test(t) => TestKeeps(s, t);
    case Wake(t, timedOut) => WakeKeeps(s, t, timedOut);
    case Clear(t) => FinishKeeps(s, t, step);
    case ReleaseC(t) => FinishKeeps(s, t, step);
    case ReleaseG(t) => FinishKeeps(s, t, step);
    case Call(t, _) => EnterKeeps(s, t, step);
    case LockG(t) => EnterKeeps(s, t, step);
    case LockC(t) => EnterKeeps(s, t, step);
    case Close(t) => CloseKeeps(s, t, step);
    case CloseLock(t) => CloseKeeps(s, t, step);
    case CloseDo(t, woken) => CloseSetKeeps(s, t, woken);
    case CloseRelease(t) => CloseKeeps(s, t, step);
    case Process(woken) => ProcessStepKeeps(s, woken);
    case _ => ReaderKeeps(s, step);
  }

  lemma {:induction false} RunKeeps(steps: seq<Step>)
    requires Run(steps).Some?
    ensures Inv(Run(steps).value)
  {
    hide Inv, Enabled, Exec;
    if steps == [] {
      InitOk();
    } else {
      var n := |steps| - 1;
      RunKeeps(steps[..n]);
      StepKeeps(Run(steps[..n]).value, steps[n]);
    }
  }

  lemma InitOk()
    ensures Inv(INIT)
  {
  }

  // ---------- the theorems ----------

  /** A pending response belongs to the one thread that holds the outer mutex, and it is exactly
      what that thread's command makes of the lines processed since it was issued. */
  lemma PendingResponseIsOwned(steps: seq<Step>)
    requires Run(steps).Some? && Run(steps).value.chan.pending.Some?
    ensures
      var s := Run(steps).value;
      && s.g.Some?
      && var pc := PcOf(s, s.g.value);
      && (pc.Looping? || pc.Waiting? || pc.AtError?)
      && (!pc.AtError? ==>
            pc.from <= |s.log| && s.chan.pending == After(Altair, IssuedBy(pc.cmd), s.log[pc.from..]).pending)
  {
    hide After;
    RunKeeps(steps);
  }

  /** Each mutex has at most one holder, and the critical sections are where the code says. */
  lemma MutualExclusion(steps: seq<Step>, t: Tid, u: Tid)
    requires Run(steps).Some? && t != u
    ensures
      var s := Run(steps).value;
      && !(HoldsG(PcOf(s, t)) && HoldsG(PcOf(s, u)))
      && !(HoldsC(PcOf(s, t)) && HoldsC(PcOf(s, u)))
      && !(HoldsC(PcOf(s, t)) && ReaderHoldsC(s.reader))
  {
    RunKeeps(steps);
  }

  /** AT_ERROR_COMMAND_PENDING is unreachable: no call returns it and none is about to. */
  lemma NeverCommandPending(steps: seq<Step>, t: Tid)
    requires Run(steps).Some?
    ensures
      var s := Run(steps).value;
      && (PcOf(s, t).Entered? ==> s.chan.pending.None?)
      && (PcOf(s, t).AtError? || PcOf(s, t).UnlockC? || PcOf(s, t).UnlockG? ==>
            PcOf(s, t).ret.err != CommandPending)
      && (forall k :: 0 <= k < |s.history| ==> s.history[k].err != CommandPending)
  {
    RunKeeps(steps);
    var s := Run(steps).value;
    assert HoldsG(PcOf(s, t)) <==> s.g == Some(t);
  }

  /** No wakeup is lost: a thread that is still blocked has neither a final response nor a closed
      channel to see. */
  lemma NoLostWakeup(steps: seq<Step>, t: Tid)
    requires Run(steps).Some? && PcOf(Run(steps).value, t).Waiting? && !PcOf(Run(steps).value, t).signaled
    ensures
      var s := Run(steps).value;
      !s.closed && s.chan.pending.Some? && s.chan.pending.value.response.final == None
  {
    RunKeeps(steps);
    var s := Run(steps).value;
    assert HoldsG(PcOf(s, t)) <==> s.g == Some(t);
  }

  /** Every call returns what the lines between its own issue and its own end determine: the
      accepted ones in arrival order, and the last final one.  No line is in two responses. */
  lemma ResponsesAreTheirOwn(steps: seq<Step>, k: nat)
    requires Run(steps).Some? && k < |Run(steps).value.history|
    ensures
      var s := Run(steps).value;
      var r := s.history[k];
      && r.from <= r.to <= |s.log|
      && (forall l :: k < l < |s.history| ==> r.to <= s.history[l].from)
      && var lines := s.log[r.from..r.to];
         var finals := Select(Altair, IssuedBy(r.cmd), lines, FINALS);
      && (r.err == Zero && r.cmd.wantsOut ==> r.out.Some?)
      && (r.out.Some? ==> r.out.value.inter == Select(Altair, IssuedBy(r.cmd), lines, {Intermediate}))
      && (r.err == Zero ==> finals != [])
      && (r.err == Zero && r.out.Some? ==>
            && r.out.value.final == Some(finals[|finals| - 1])
            && (r.out.value.success <==> StartsWithAny(finals[|finals| - 1], FINAL_SUCCESSES)))
  {
    hide After, Select, StartsWithAny;
    RunKeeps(steps);
    var s := Run(steps).value;
    var r := s.history[k];
    assert Truthful(r, s.log);
    IntermediatesInOrder(Altair, IssuedBy(r.cmd), s.log[r.from..r.to]);
    LastFinalStands(Altair, IssuedBy(r.cmd), s.log[r.from..r.to]);
  }

  /** The single-line, SMS and numeric senders: when a run's call has returned 0 with success and
      the sender accepts it, the response has a final line and exactly one intermediate, which has
      the prefix, or starts with a digit. */
  lemma OneLineSenders(steps: seq<Step>, k: nat)
    requires Run(steps).Some? && k < |Run(steps).value.history|
    requires
      var r := Run(steps).value.history[k];
      && r.err == Zero && r.out.Some? && r.out.value.success && r.cmd.kind in {SingleLine, Numeric}
      && CheckOneIntermediate(r.out.value).Ok?
    ensures
      var r := Run(steps).value.history[k];
      && r.out.value.final.Some?
      && |r.out.value.inter| == 1 && Wanted(IssuedBy(r.cmd), r.out.value.inter[0])
  {
    hide Run, After, Truthful;
    RunKeeps(steps);
    var s := Run(steps).value;
    OneLineReturn(s.history[k], s.log);
  }

  lemma OneLineReturn(r: Return, log: seq<string>)
    requires Truthful(r, log) && r.err == Zero && r.out.Some? && r.out.value.success
    requires r.cmd.kind in {SingleLine, Numeric} && CheckOneIntermediate(r.out.value).Ok?
    ensures r.out.value.final.Some?
    ensures |r.out.value.inter| == 1 && Wanted(IssuedBy(r.cmd), r.out.value.inter[0])
  {
    hide After;
    AtMostOne(Altair, IssuedBy(r.cmd), log[r.from..r.to]);
  }

  // ---------- no deadlock ----------

  /** Steps that the program takes by itself: not a new call, not input from the modem, and not
      the return of a wait that nothing has signaled. */
  predicate Internal(s: State, step: Step)
  {
    match step
    case Call(_, _) => false
    case Close(_) => false
    case Receive(_) => false
    case EndOfStream(_) => false
    case Wake(t, timedOut) => PcOf(s, t).Waiting? && PcOf(s, t).signaled && !timedOut
    case _ => true
  }

  ghost predicate Stuck(s: State)
  {
    forall step :: Internal(s, step) ==> !Enabled(s, step)
  }

  /** The reader is behind the end of the stream. */
  predicate AtEnd(r: ReaderPc) { r.EndWant? || r.EndSet? || r.EndUnlock? || r.Stopped? }

  /** Some thread has closed the channel by at_close. */
  ghost predicate ClosedByCaller(steps: seq<Step>)
  {
    exists k :: 0 <= k < |steps| && steps[k].CloseDo?
  }

  /** What the end of the stream, heard or unheard, has done to the reader and the closed flag. */
  ghost predicate EndOk(s: State, steps: seq<Step>)
  {
    var heard, unheard := EndOfStream(true) in steps, EndOfStream(false) in steps;
    && (AtEnd(s.reader) <==> heard || unheard) && !(heard && unheard)
    && (ClosedByCaller(steps) ==> s.closed) && (s.closed ==> ClosedByCaller(steps) || heard)
    && (s.reader.EndWant? || s.reader.EndSet? || s.reader.EndUnlock? ==> heard)
    && (s.reader.EndUnlock? || (s.reader.Stopped? && heard) ==> s.closed)
  }

  lemma EndStep(s: State, steps: seq<Step>, step: Step)
    requires EndOk(s, steps) && Enabled(s, step)
    ensures EndOk(Exec(s, step), steps + [step])
  {
    var more := steps + [step];
    assert forall e :: e in more <==> e in steps || e == step;
    ClosedByMore(steps, step);
    hide ClosedByCaller, Apply, CanWake, IsFinal;
    var s' := Exec(s, step);
    assert s'.closed == (s.closed || step.CloseDo? || (step.Process? && s.reader.EndSet?));
  }

  lemma ClosedByMore(steps: seq<Step>, step: Step)
    ensures ClosedByCaller(steps + [step]) <==> ClosedByCaller(steps) || step.CloseDo?
  {
    var more := steps + [step];
    assert more[|steps|] == step;
    if ClosedByCaller(steps) {
      var k :| 0 <= k < |steps| && steps[k].CloseDo?;
      assert more[k].CloseDo?;
    }
  }

  lemma {:induction false} RunEnds(steps: seq<Step>)
    requires Run(steps).Some?
    ensures EndOk(Run(steps).value, steps)
  {
    hide Enabled, Exec, EndOk;
    if steps == [] {
      EndInit();
    } else {
      var n := |steps| - 1;
      RunEnds(steps[..n]);
      EndStep(Run(steps[..n]).value, steps[..n], steps[n]);
      assert steps == steps[..n] + [steps[n]];
    }
  }

  lemma EndInit()
    ensures EndOk(INIT, [])
  {
  }

  /** When the program can do nothing by itself, the inner mutex is free, and every thread inside a
      call either waits for an answer that has not come or queues behind such a thread.  Then the
      channel is not closed, and whether anybody is there to answer can be read off the run: the
      reader still reads from the modem, unless the stream has ended with no handler to hear of it. */
  lemma OnlyTheModemIsAwaited(steps: seq<Step>, t: Tid)
    requires Run(steps).Some? && Stuck(Run(steps).value)
    ensures
      var s := Run(steps).value;
      var pc := PcOf(s, t);
      && s.c == Nobody && (s.reader.Reading? || s.reader.Stopped?)
      && (pc.Outside? || pc.WantG? || (pc.Waiting? && !pc.signaled))
      && (pc.WantG? ==> s.g.Some? && PcOf(s, s.g.value).Waiting? && !PcOf(s, s.g.value).signaled)
      && (!pc.Outside? ==>
            && !s.closed && !ClosedByCaller(steps)
            && (s.reader.Reading? <==> EndOfStream(false) !in steps))
      && (pc.Waiting? && s.reader.Stopped? && !pc.cmd.timed ==> Abandoned(s, t))
  {
    assert HoldsG(PcOf(Run(steps).value, t)) ==> Run(steps).value.g == Some(t) by { RunKeeps(steps); }
    RunKeeps(steps);
    RunEnds(steps);
    var s := Run(steps).value;
    InnerMutexIsFree(s);
    StuckThread(s, t);
    if s.g.Some? {
      assert HoldsG(PcOf(s, s.g.value));
      StuckThread(s, s.g.value);
      NoLostWakeup(steps, s.g.value);
    }
    if PcOf(s, t).Waiting? {
      NoLostWakeup(steps, t);
    }
    hide Inv, Stuck, Run, ClosedByCaller;
  }

  // ---------- the call that nobody answers ----------

  lemma Extend(steps: seq<Step>, step: Step) returns (more: seq<Step>)
    requires Run(steps).Some? && Enabled(Run(steps).value, step)
    ensures more == steps + [step] && Run(more) == Some(Exec(Run(steps).value, step))
  {
    more := steps + [step];
    assert more[..|steps|] == steps;
  }

  /** Thread t is in the wait of a call without a timeout, its answer has not come, and the reader
      is gone without having closed the channel. */
  ghost predicate Abandoned(s: State, t: Tid)
  {
    && s.reader.Stopped? && !s.closed && s.g == Some(t)
    && (PcOf(s, t).Looping? || PcOf(s, t).Waiting?) && !PcOf(s, t).cmd.timed
    && s.chan.pending.Some? && s.chan.pending.value.response.final == None
  }

  /** Such a state is reachable, and nothing can go on in it: the stream ends while a call waits, and
      there is no handler to hear of it. */
  lemma AbandonedReachable(t: Tid, cmd: Command) returns (steps: seq<Step>)
    requires !cmd.timed
    ensures steps == [Call(t, cmd), LockG(t), LockC(t), Write(t, Zero), Test(t), EndOfStream(false)]
    ensures Run(steps).Some? && Abandoned(Run(steps).value, t) && Stuck(Run(steps).value)
  {
    hide Run;
    steps := FirstWait(t, cmd);
    steps := Extend(steps, EndOfStream(false));
    var s := Run(steps).value;
    assert s.pcs == map[t := Waiting(cmd, 0, false)];
    NothingToDo(s, t);
  }

  /** The first call of all, up to its wait loop. */
  lemma FirstIssue(t: Tid, cmd: Command) returns (steps: seq<Step>)
    ensures steps == [Call(t, cmd), LockG(t), LockC(t), Write(t, Zero)]
    ensures Run(steps) == Some(INIT.(pcs := map[t := Looping(cmd, 0)], g := Some(t), c := ByThread(t),
                                     chan := INIT.chan.(pending := Some(IssuedBy(cmd)))))
  {
    RunNothing();
    hide Run;
    steps := Extend([], Call(t, cmd));
    steps := Extend(steps, LockG(t));
    steps := Extend(steps, LockC(t));
    assert Run(steps).value.pcs == map[t := Entered(cmd)];
    steps := Extend(steps, Write(t, Zero));
    assert Run(steps).value.pcs == map[t := Looping(cmd, 0)];
  }

  /** And in its wait. */
  lemma FirstWait(t: Tid, cmd: Command) returns (steps: seq<Step>)
    ensures steps == [Call(t, cmd), LockG(t), LockC(t), Write(t, Zero), Test(t)]
    ensures Run(steps) == Some(INIT.(pcs := map[t := Waiting(cmd, 0, false)], g := Some(t),
                                     chan := INIT.chan.(pending := Some(IssuedBy(cmd)))))
  {
    hide Run;
    steps := FirstIssue(t, cmd);
    steps := Extend(steps, Test(t));
    assert Run(steps).value.pcs == map[t := Waiting(cmd, 0, false)];
  }

  lemma RunNothing()
    ensures Run([]) == Some(INIT)
  {
  }

  lemma NothingToDo(s: State, t: Tid)
    requires s.reader.Stopped? && PcOf(s, t).Waiting? && !PcOf(s, t).signaled
    requires forall u: Tid :: u != t ==> PcOf(s, u).Outside?
    ensures Stuck(s)
  {
  }

  /** The states that a state leads to. */
  function RunFrom(s: State, steps: seq<Step>): Option<State>
  {
    if steps == [] then Some(s)
    else
      var before := RunFrom(s, steps[..|steps| - 1]);
      var last := steps[|steps| - 1];
      if before.Some? && Enabled(before.value, last) then Some(Exec(before.value, last)) else None
  }

  /** Runs go on from the states they reach. */
  lemma {:induction false} RunsOn(steps: seq<Step>, more: seq<Step>)
    requires Run(steps).Some?
    ensures Run(steps + more) == RunFrom(Run(steps).value, more)
    decreases |more|
  {
    hide Enabled, Exec;
    if more == [] {
      AppendNothing(steps);
    } else {
      var n := |more| - 1;
      RunsOn(steps, more[..n]);
      var all := steps + more;
      assert all[..|all| - 1] == steps + more[..n] && all[|all| - 1] == more[n];
    }
  }

  lemma AbandonedStep(s: State, t: Tid, step: Step)
    requires Inv(s) && Abandoned(s, t) && Enabled(s, step) && !step.CloseDo?
    ensures Abandoned(Exec(s, step), t) && Exec(s, step).history == s.history
  {
    hide ResponseOk, HistoryOk, Apply, CanWake;
    var u := match step
      case Call(u, _) => u case LockG(u) => u case LockC(u) => u case Write(u, _) => u case Test(u) => u
      case Wake(u, _) => u case Clear(u) => u case ReleaseC(u) => u case ReleaseG(u) => u case Close(u) => u
      case CloseLock(u) => u case CloseDo(u, _) => u case CloseRelease(u) => u
      case _ => t;
    assert HoldsG(PcOf(s, u)) <==> s.g == Some(u);
  }

  /** And it is for ever: until some thread calls at_close, no call returns any more, whatever else
      happens. */
  lemma {:induction false} AbandonedForGood(s: State, t: Tid, steps: seq<Step>)
    requires Inv(s) && Abandoned(s, t) && RunFrom(s, steps).Some? && !ClosedByCaller(steps)
    ensures
      var e := RunFrom(s, steps).value;
      Inv(e) && Abandoned(e, t) && e.history == s.history
  {
    hide Inv, Abandoned, Enabled, Exec;
    if steps != [] {
      var n := |steps| - 1;
      assert steps == steps[..n] + [steps[n]];
      ClosedByMore(steps[..n], steps[n]);
      AbandonedForGood(s, t, steps[..n]);
      var e := RunFrom(s, steps[..n]).value;
      StepKeeps(e, steps[n]);
      AbandonedStep(e, t, steps[n]);
    }
  }

  lemma InnerMutexIsFree(s: State)
    requires Inv(s) && Stuck(s)
    ensures s.c == Nobody && (s.reader.Reading? || s.reader.Stopped?)
  {
    match s.c {
      case Nobody =>
        assert !Enabled(s, ReaderLock);
      case ByReader =>
        ReaderCanStep(s);
      case ByThread(t) =>
        assert HoldsC(PcOf(s, t));
        HolderCanStep(s, t);
    }
  }

  lemma HolderCanStep(s: State, t: Tid)
    requires HoldsC(PcOf(s, t))
    ensures !Stuck(s)
  {
    assert CanWake(s, Blocked(s));
    var step := match PcOf(s, t)
      case Entered(_) => Write(t, if s.chan.pending.Some? then CommandPending else ChannelClosed)
      case Looping(_, _) => Test(t)
      case AtError(_) => Clear(t)
      case UnlockC(_) => ReleaseC(t)
      case CloseSet => CloseDo(t, Blocked(s))
      case _ => CloseRelease(t);
    assert Internal(s, step) && Enabled(s, step);
  }

  lemma ReaderCanStep(s: State)
    requires ReaderHoldsC(s.reader)
    ensures !Stuck(s)
  {
    assert CanWake(s, Blocked(s));
    var step := if s.reader.Processing? || s.reader.EndSet? then Process(Blocked(s)) else ReaderRelease;
    assert Internal(s, step) && Enabled(s, step);
  }

  lemma StuckThread(s: State, t: Tid)
    requires Inv(s) && Stuck(s) && s.c == Nobody
    ensures
      var pc := PcOf(s, t);
      && (pc.Outside? || pc.WantG? || (pc.Waiting? && !pc.signaled))
      && (pc.WantG? ==> s.g.Some?)
  {
    assert !HoldsC(PcOf(s, t));
    assert !Enabled(s, LockG(t)) && !Enabled(s, LockC(t)) && !Enabled(s, CloseLock(t));
    assert !Enabled(s, ReleaseG(t));
    assert Internal(s, Wake(t, false)) ==> !Enabled(s, Wake(t, false));
  }
}
