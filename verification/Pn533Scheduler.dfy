/**
  The PN533 command scheduler: an asynchronous command queue, the work items of one ordered
  workqueue, and "more information" chaining, in which the driver fetches the rest of a
  response with frames that bypass the queue.

  `Dev` is the driver's state together with a log of what it did; a step is one atomic action of
  a caller, of the USB completion handler or of a work item.  `Parse` reads a log as a sequence
  of whole commands, one after the other; the theorems connect the two in every run.
 */
module Pn533Scheduler {
  import opened Sequences
  import opened Wrappers

  /** struct pn533_cmd; exchange means complete_cb is pn533_data_exchange_complete. */
  datatype Cmd = Cmd(code: byte, context: nat, exchange: bool)

  /** What comes back for one frame: a negative status, or a frame with its status octet. */
  datatype Reply = Error(rc: int) | Frame(status: byte, payload: seq<byte>)

  /** What the caller's callback is given: Data or Failure for an exchange (skb, or NULL and rc),
      Given for the other commands. */
  datatype Outcome = Data(payload: seq<byte>) | Failure(rc: int) | Given(reply: Reply)

  const EIO: int := 5
  const RET_MASK_SIZE: int := 0x40   // PN533_CMD_RET_MASK is 0x3F, PN533_CMD_MI_MASK is 0x40

  datatype Event =
    | Sent(cmd: Cmd, continuation: bool)
    | Got(reply: Reply)
    | Finished(cmd: Cmd, outcome: Outcome)
    | Dropped(cmd: Cmd)      // a dequeued command whose frame could not be submitted
    | ChainLost(cmd: Cmd)    // a chain whose continuation could not be sent

  /** dev->cmd, with the reply once the USB completion has stored it. */
  datatype Active = Active(cmd: Cmd, reply: Option<Reply>)

  datatype Dev = Dev(
    pending: bool,             // cmd_pending
    queue: seq<Cmd>,           // cmd_queue
    active: Option<Active>,    // cmd
    inFlight: bool,            // a frame is submitted and its completion has not run
    completeWork: bool,        // cmd_complete_work is queued
    cmdWork: bool,             // cmd_work is queued
    miWork: bool,              // mi_work is queued
    fetched: Option<Cmd>,      // taken off the queue by cmd_work, not yet submitted
    miArg: Option<Cmd>,        // cmd_complete_mi_arg
    respQ: seq<seq<byte>>,     // resp_q
    accepted: seq<Cmd>,        // the commands __pn533_send_async took, in order
    stalled: bool,             // a dequeued command could not be submitted
    log: seq<Event>)

  const INIT := Dev(false, [], None, false, false, false, false, None, None, [], [], false, [])

  // ---------- the response chain ----------

  function Concat(parts: seq<seq<byte>>): seq<byte>
  {
    if parts == [] then [] else parts[0] + Concat(parts[1..])
  }

  predicate Succeeded(r: Reply)
  {
    r.Frame? && r.status % RET_MASK_SIZE == 0
  }

  /** The "more information" bit. */
  predicate HasMore(r: Reply)
  {
    Succeeded(r) && (r.status / RET_MASK_SIZE) % 2 == 1
  }

  function ErrorOf(r: Reply): int
    requires !Succeeded(r)
  {
    if r.Error? then r.rc else -EIO
  }

  // ---------- steps ----------

  datatype Step =
    | SendAsync(cmd: Cmd, submitted: bool)
    | UrbComplete(reply: Reply)
    | CompleteWork
    | CmdWork
    | SubmitFetched(submitted: bool)
    | MiWork(submitted: bool)

  predicate Enabled(d: Dev, step: Step)
  {
    match step
    case SendAsync(_, _) => true
    case UrbComplete(_) => d.inFlight && d.active.Some?
    case CompleteWork => d.completeWork && d.fetched.None? && d.active.Some? && d.active.value.reply.Some?
    case CmdWork => d.cmdWork && d.fetched.None?
    case SubmitFetched(_) => d.fetched.Some?
    case MiWork(_) => d.miWork && d.fetched.None? && d.miArg.Some?
  }

  function Exec(d: Dev, step: Step): Dev
    requires Enabled(d, step)
  {
    match step
    case SendAsync(cmd, submitted) => ExecSend(d, cmd, submitted)
    case UrbComplete(reply) =>
      d.(active := Some(d.active.value.(reply := Some(reply))), inFlight := false, completeWork := true)
    case CompleteWork => ExecComplete(d, d.active.value.cmd, d.active.value.reply.value)
    case CmdWork => ExecCmdWork(d)
    case SubmitFetched(submitted) => ExecSubmit(d, d.fetched.value, submitted)
    case MiWork(submitted) => ExecMi(d, d.miArg.value, submitted)
  }

  /** __pn533_send_async */
  function ExecSend(d: Dev, cmd: Cmd, submitted: bool): Dev
  {
    if d.pending then d.(queue := d.queue + [cmd], accepted := d.accepted + [cmd])
    else if submitted then
      d.(pending := true, active := Some(Active(cmd, None)), inFlight := true,
         accepted := d.accepted + [cmd], log := d.log + [Sent(cmd, false)])
    else d
  }

  /** pn533_wq_cmd_complete with pn533_send_async_complete and the command's callback. */
  function ExecComplete(d: Dev, cmd: Cmd, reply: Reply): Dev
  {
    var d1 := d.(completeWork := false, active := None);
    if !cmd.exchange then
      d1.(cmdWork := true, log := d.log + [Got(reply), Finished(cmd, Given(reply))])
    else if !Succeeded(reply) then
      d1.(cmdWork := true, respQ := [], log := d.log + [Got(reply), Finished(cmd, Failure(ErrorOf(reply)))])
    else if HasMore(reply) then
      d1.(miWork := true, miArg := Some(cmd), respQ := d.respQ + [reply.payload], log := d.log + [Got(reply)])
    else
      d1.(cmdWork := true, respQ := [],
          log := d.log + [Got(reply), Finished(cmd, Data(Concat(d.respQ + [reply.payload])))])
  }

  /** pn533_wq_cmd, up to the unlock */
  function ExecCmdWork(d: Dev): Dev
  {
    if d.queue == [] then d.(cmdWork := false, pending := false)
    else d.(cmdWork := false, fetched := Some(d.queue[0]), queue := d.queue[1..])
  }

  /** pn533_wq_cmd, after the unlock */
  function ExecSubmit(d: Dev, cmd: Cmd, submitted: bool): Dev
  {
    if submitted then
      d.(fetched := None, active := Some(Active(cmd, None)), inFlight := true, log := d.log + [Sent(cmd, false)])
    else d.(fetched := None, stalled := true, log := d.log + [Dropped(cmd)])
  }

  /** pn533_wq_mi_recv with pn533_send_cmd_direct_async */
  function ExecMi(d: Dev, cmd: Cmd, submitted: bool): Dev
  {
    if submitted then
      d.(miWork := false, active := Some(Active(cmd, None)), inFlight := true, log := d.log + [Sent(cmd, true)])
    else d.(miWork := false, cmdWork := true, log := d.log + [ChainLost(cmd)])
  }

  function Run(steps: seq<Step>): Option<Dev>
  {
    RunFrom(INIT, steps)
  }

  function RunFrom(d: Dev, steps: seq<Step>): Option<Dev>
  {
    if steps == [] then Some(d)
    else
      var before := RunFrom(d, steps[..|steps| - 1]);
      var last := steps[|steps| - 1];
      if before.Some? && Enabled(before.value, last) then Some(Exec(before.value, last)) else None
  }

  // ---------- what a log should look like ----------

  /** A log read from the left: the commands taken up so far, the one in progress with its
      replies, and the fragments that lost chains have left behind. */
  datatype Trace = Trace(started: seq<Cmd>, open: Option<Cmd>, replies: seq<Reply>, carry: seq<seq<byte>>)

  function Payloads(replies: seq<Reply>): seq<seq<byte>>
  {
    if replies == [] then []
    else
      var last := replies[|replies| - 1];
      Payloads(replies[..|replies| - 1]) + (if last.Frame? then [last.payload] else [])
  }

  /** The meaning of a complete chain, independent of the driver's queue: the fragments in order,
      or the error of the reply that ended it. */
  function Reassemble(replies: seq<Reply>): Outcome
    requires replies != []
  {
    var last := replies[|replies| - 1];
    if Succeeded(last) then Data(Concat(Payloads(replies))) else Failure(ErrorOf(last))
  }

  predicate AllHaveMore(replies: seq<Reply>)
  {
    forall i :: 0 <= i < |replies| ==> HasMore(replies[i])
  }

  /** What the callback of command cmd must be given after these replies. */
  function Expected(t: Trace, cmd: Cmd): Option<Outcome>
  {
    if t.replies == [] then None
    else
      var n := |t.replies| - 1;
      var last := t.replies[n];
      if !cmd.exchange then if n == 0 then Some(Given(last)) else None
      else if !AllHaveMore(t.replies[..n]) || HasMore(last) then None
      else if Succeeded(last) then Some(Data(Concat(t.carry + Payloads(t.replies))))
      else Some(Failure(ErrorOf(last)))
  }

  function Advance(t: Trace, e: Event): Option<Trace>
  {
    match e
    case Sent(cmd, false) =>
      if t.open.None? then Some(Trace(t.started + [cmd], Some(cmd), [], t.carry)) else None
    case Sent(cmd, true) =>
      if t.open == Some(cmd) && cmd.exchange && t.replies != [] && AllHaveMore(t.replies) then Some(t) else None
    case Got(reply) =>
      if t.open.Some? then Some(t.(replies := t.replies + [reply])) else None
    case Finished(cmd, outcome) =>
      if t.open == Some(cmd) && Expected(t, cmd) == Some(outcome) then
        Some(Trace(t.started, None, [], if cmd.exchange then [] else t.carry))
      else None
    case Dropped(cmd) =>
      if t.open.None? then Some(t.(started := t.started + [cmd])) else None
    case ChainLost(cmd) =>
      if t.open == Some(cmd) && t.replies != [] && AllHaveMore(t.replies) then
        Some(Trace(t.started, None, [], t.carry + Payloads(t.replies)))
      else None
  }

  /** Whole commands one after the other, each started once and ended once, with nothing but its
      own continuations in between; None if the log is not of that form. */
  function Parse(log: seq<Event>): Option<Trace>
  {
    if log == [] then Some(Trace([], None, [], []))
    else
      var t := Parse(log[..|log| - 1]);
      if t.Some? then Advance(t.value, log[|log| - 1]) else None
  }

  // ---------- the invariant ----------

  function Count(b: bool): nat { if b then 1 else 0 }

  /** The tokens: at most one of these is ever held. */
  function Tokens(d: Dev): nat
  {
    Count(d.inFlight) + Count(d.completeWork) + Count(d.cmdWork) + Count(d.miWork) + Count(d.fetched.Some?)
  }

  function Fetched(d: Dev): seq<Cmd>
  {
    if d.fetched.Some? then [d.fetched.value] else []
  }

  ghost predicate TokenOk(d: Dev)
  {
    && Tokens(d) + Count(d.stalled) == Count(d.pending)
    && (!d.pending ==> d.queue == [])
    && (d.inFlight || d.completeWork <==> d.active.Some?)
    && (d.inFlight ==> d.active.value.reply.None?)
    && (d.completeWork ==> d.active.value.reply.Some?)
    && (d.miWork ==> d.miArg.Some? && d.miArg.value.exchange)
  }

  /** The trace of the log agrees with the state. */
  ghost predicate TraceOk(d: Dev, t: Trace)
  {
    && d.accepted == t.started + Fetched(d) + d.queue
    && t.open == (if d.active.Some? then Some(d.active.value.cmd) else if d.miWork then d.miArg else None)
    && d.respQ == t.carry + Payloads(t.replies)
    && AllHaveMore(t.replies)
    && (d.miWork ==> t.replies != [])
    && (t.open.None? ==> t.replies == [])
    && (t.open.Some? && !t.open.value.exchange ==> t.replies == [])
  }

  ghost predicate Inv(d: Dev)
  {
    TokenOk(d) && Parse(d.log).Some? && TraceOk(d, Parse(d.log).value)
  }

  // ---------- the invariant is kept ----------

  lemma ParseMore(log: seq<Event>, e: Event)
    ensures Parse(log + [e]) == if Parse(log).Some? then Advance(Parse(log).value, e) else None
  {
    assert (log + [e])[..|log|] == log;
  }

  lemma ParseTwo(log: seq<Event>, e: Event, e': Event)
    requires Parse(log).Some? && Advance(Parse(log).value, e).Some?
    ensures Parse(log + [e, e']) == Advance(Advance(Parse(log).value, e).value, e')
  {
    hide Parse, Advance;
    ParseMore(log, e);
    ParseMore(log + [e], e');
    assert [e, e'] == [e] + [e'];
    Assoc(log, [e], [e']);
  }

  lemma PayloadsMore(replies: seq<Reply>, r: Reply)
    ensures Payloads(replies + [r]) == Payloads(replies) + (if r.Frame? then [r.payload] else [])
  {
    assert (replies + [r])[..|replies|] == replies;
  }

  lemma SendKeeps(d: Dev, cmd: Cmd, submitted: bool)
    requires Inv(d)
    ensures Inv(ExecSend(d, cmd, submitted))
  {
    hide Parse, Payloads;
    if !d.pending && submitted {
      ParseMore(d.log, Sent(cmd, false));
    }
  }

  lemma UrbKeeps(d: Dev, reply: Reply)
    requires Inv(d) && Enabled(d, UrbComplete(reply))
    ensures Inv(Exec(d, UrbComplete(reply)))
  {
    hide Parse, Payloads;
  }

  lemma SubmitKeeps(d: Dev, submitted: bool)
    requires Inv(d) && Enabled(d, SubmitFetched(submitted))
    ensures Inv(Exec(d, SubmitFetched(submitted)))
  {
    hide Parse, Payloads;
    ParseMore(d.log, if submitted then Sent(d.fetched.value, false) else Dropped(d.fetched.value));
  }

  lemma CmdWorkKeeps(d: Dev)
    requires Inv(d) && Enabled(d, CmdWork)
    ensures Inv(Exec(d, CmdWork))
  {
    hide Parse, Payloads;
  }

  lemma MiWorkKeeps(d: Dev, submitted: bool)
    requires Inv(d) && Enabled(d, MiWork(submitted))
    ensures Inv(Exec(d, MiWork(submitted)))
  {
    hide Parse;
    ParseMore(d.log, if submitted then Sent(d.miArg.value, true) else ChainLost(d.miArg.value));
  }

  lemma CompleteKeeps(d: Dev)
    requires Inv(d) && Enabled(d, CompleteWork)
    ensures Inv(Exec(d, CompleteWork))
  {
    hide Parse, Payloads, Concat;
    var cmd, reply := d.active.value.cmd, d.active.value.reply.value;
    var t := Parse(d.log).value;
    var t1 := t.(replies := t.replies + [reply]);
    assert Advance(t, Got(reply)) == Some(t1);
    PayloadsMore(t.replies, reply);
    assert t1.replies[..|t.replies|] == t.replies;
    if cmd.exchange && HasMore(reply) {
      ParseMore(d.log, Got(reply));
      assert d.respQ + [reply.payload] == t1.carry + Payloads(t1.replies);
    } else {
      var outcome := if !cmd.exchange then Given(reply)
        else if !Succeeded(reply) then Failure(ErrorOf(reply))
        else Data(Concat(d.respQ + [reply.payload]));
      assert cmd.exchange && Succeeded(reply) ==> d.respQ + [reply.payload] == t.carry + Payloads(t1.replies);
      assert Expected(t1, cmd) == Some(outcome);
      ParseTwo(d.log, Got(reply), Finished(cmd, outcome));
      PayloadsNone();
    }
  }

  lemma PayloadsNone()
    ensures Payloads([]) == []
  {
  }

  lemma StepKeeps(d: Dev, step: Step)
    requires Inv(d) && Enabled(d, step)
    ensures Inv(Exec(d, step))
  {
    hide Inv;
    match step
    case SendAsync(cmd, submitted) => SendKeeps(d, cmd, submitted);
    case UrbComplete(reply) => UrbKeeps(d, reply);
    case CompleteWork => CompleteKeeps(d);
    case CmdWork => CmdWorkKeeps(d);
    case SubmitFetched(submitted) => SubmitKeeps(d, submitted);
    case MiWork(submitted) => MiWorkKeeps(d, submitted);
  }

  lemma {:induction false} RunKeeps(steps: seq<Step>)
    requires Run(steps).Some?
    ensures Inv(Run(steps).value)
  {
    hide Inv, Exec, Enabled;
    if steps == [] {
      InitOk();
    } else {
      var n := |steps| - 1;
      RunKeeps(steps[..n]);
      StepKeeps(Run(steps[..n]).value, steps[n]);
    }
  }

  lemma InitOk()
    ensures Inv(INIT)
  {
  }

  // ---------- reading a parsed log ----------

  /** The commands in the order they end: with their callback, dropped, or lost. */
  function Ends(log: seq<Event>): seq<Cmd>
  {
    if log == [] then []
    else
      var last := log[|log| - 1];
      Ends(log[..|log| - 1]) + (if last.Finished? || last.Dropped? || last.ChainLost? then [last.cmd] else [])
  }

  function Replies(log: seq<Event>): seq<Reply>
  {
    if log == [] then []
    else
      var last := log[|log| - 1];
      Replies(log[..|log| - 1]) + (if last.Got? then [last.reply] else [])
  }

  function Open(t: Trace): seq<Cmd>
  {
    if t.open.Some? then [t.open.value] else []
  }

  /** In a parsed log the commands end in the order they start, each exactly once. */
  lemma {:induction false} EndsInOrder(log: seq<Event>)
    requires Parse(log).Some?
    ensures Parse(log).value.started == Ends(log) + Open(Parse(log).value)
  {
    hide Expected, AllHaveMore, Payloads;
    if log != [] {
      EndsInOrder(log[..|log| - 1]);
    }
  }

  /** log[j..] is command cmd's frame followed by nothing but its replies and continuations. */
  predicate OnlyChain(log: seq<Event>, j: nat, cmd: Cmd)
  {
    && j < |log| && log[j] == Sent(cmd, false)
    && forall k :: j < k < |log| ==> log[k].Got? || log[k] == Sent(cmd, true)
  }

  /** In a parsed log a command in progress started at some event, and since then the log holds
      nothing but its own chain. */
  lemma {:induction false} OpenChain(log: seq<Event>) returns (j: nat)
    requires Parse(log).Some? && Parse(log).value.open.Some?
    ensures OnlyChain(log, j, Parse(log).value.open.value)
    ensures Parse(log).value.replies == Replies(log[j..])
    ensures Parse(log[..j]).Some? && Parse(log[..j]).value.carry == Parse(log).value.carry
  {
    hide Expected, AllHaveMore, Payloads;
    var n := |log| - 1;
    var before := log[..n];
    if log[n].Sent? && !log[n].continuation {
      j := n;
      assert log[n..] == [log[n]] && [log[n]][..0] == [];
    } else {
      j := OpenChain(before);
      DropOrTake(log, j, n);
    }
  }

  lemma {:induction false} NothingLostNothingCarried(log: seq<Event>)
    requires Parse(log).Some? && forall k :: 0 <= k < |log| ==> !log[k].ChainLost?
    ensures Parse(log).value.carry == []
  {
    if log != [] {
      NothingLostNothingCarried(log[..|log| - 1]);
    }
  }

  lemma {:induction false} ParsePrefix(log: seq<Event>, k: nat)
    requires Parse(log).Some? && k <= |log|
    ensures Parse(log[..k]).Some?
    decreases |log|
  {
    if k < |log| {
      ParsePrefix(log[..|log| - 1], k);
      assert log[..|log| - 1][..k] == log[..k];
    } else {
      assert log[..k] == log;
    }
  }

  lemma ConcatCons(parts: seq<seq<byte>>)
    requires parts != []
    ensures Concat(parts) == parts[0] + Concat(parts[1..])
  {
  }

  lemma {:induction false} ConcatAppend(a: seq<seq<byte>>, b: seq<seq<byte>>)
    ensures Concat(a + b) == Concat(a) + Concat(b)
  {
    if a == [] {
      AppendNothing(b);
      AppendNothing(Concat(b));
    } else {
      ConcatAppend(a[1..], b);
      TailOfSum(a, b);
      ConcatCons(a);
      ConcatCons(a + b);
      hide Concat;
      Assoc(a[0], Concat(a[1..]), Concat(b));
    }
  }

  // ---------- the theorems ----------

  /** Token conservation: unless a dequeued command has failed to go out, cmd_pending means that
      exactly one of the five holds, and otherwise nothing is going on and nothing waits. */
  lemma TokenConservation(steps: seq<Step>)
    requires Run(steps).Some?
    ensures
      var d := Run(steps).value;
      && (d.pending && !d.stalled ==> Tokens(d) == 1)
      && (!d.pending ==> Tokens(d) == 0 && d.queue == [] && !d.stalled)
      && (d.stalled ==> d.pending && Tokens(d) == 0)
  {
    RunKeeps(steps);
  }

  /** Accepted commands go out first come first served, and each ends exactly once: the accepted
      sequence is the ended ones in order, then the one in progress, the one just dequeued and
      the queue. */
  lemma FirstComeFirstServed(steps: seq<Step>)
    requires Run(steps).Some?
    ensures
      var d := Run(steps).value;
      && Parse(d.log).Some?
      && d.accepted == Ends(d.log) + Open(Parse(d.log).value) + Fetched(d) + d.queue
  {
    hide Parse, Ends;
    RunKeeps(steps);
    EndsInOrder(Run(steps).value.log);
  }

  /** Chaining: whenever an exchange finishes, its frame and everything sent and received since
      are one chain, whose replies all announced more but the last.  The callback is given the
      fragments in order or the error, exactly when no lost chain has left octets behind. */
  lemma ChainReassembly(steps: seq<Step>, k: nat) returns (j: nat, replies: seq<Reply>, carry: seq<seq<byte>>)
    requires Run(steps).Some? && k < |Run(steps).value.log|
    requires Run(steps).value.log[k].Finished? && Run(steps).value.log[k].cmd.exchange
    ensures
      var log := Run(steps).value.log;
      var outcome := log[k].outcome;
      && OnlyChain(log[..k], j, log[k].cmd)
      && replies == Replies(log[j..k]) && replies != []
      && AllHaveMore(replies[..|replies| - 1]) && !HasMore(replies[|replies| - 1])
      && Parse(log[..j]).Some? && carry == Parse(log[..j]).value.carry
      && (Succeeded(replies[|replies| - 1]) ==> outcome == Data(Concat(carry) + Concat(Payloads(replies))))
      && (outcome == Reassemble(replies) <==> Concat(carry) == [] || !Succeeded(replies[|replies| - 1]))
      && ((forall i :: 0 <= i < j ==> !log[i].ChainLost?) ==> outcome == Reassemble(replies))
  {
    hide Run, Expected, Payloads, Concat, Parse, Replies;
    RunKeeps(steps);
    var log := Run(steps).value.log;
    ParsePrefix(log, k + 1);
    ParsePrefix(log, k);
    assert log[..k + 1] == log[..k] + [log[k]];
    ParseMore(log[..k], log[k]);
    var t := Parse(log[..k]).value;
    j := OpenChain(log[..k]);
    assert log[..k][j..] == log[j..k] && log[..k][..j] == log[..j];
    replies, carry := t.replies, t.carry;
    ExpectedIs(t, log[k].cmd, log[k].outcome);
    if forall i :: 0 <= i < j ==> !log[i].ChainLost? {
      NothingLostNothingCarried(log[..j]);
      ConcatNone();
    }
  }

  lemma ConcatNone()
    ensures Concat([]) == []
  {
  }

  lemma ExpectedIs(t: Trace, cmd: Cmd, outcome: Outcome)
    requires cmd.exchange && Expected(t, cmd) == Some(outcome)
    ensures t.replies != []
    ensures
      var last := t.replies[|t.replies| - 1];
      && AllHaveMore(t.replies[..|t.replies| - 1]) && !HasMore(last)
      && (Succeeded(last) ==> outcome == Data(Concat(t.carry) + Concat(Payloads(t.replies))))
      && (outcome == Reassemble(t.replies) <==> Concat(t.carry) == [] || !Succeeded(last))
  {
    hide Concat, Payloads;
    ConcatAppend(t.carry, Payloads(t.replies));
  }

  // ---------- the status octet ----------

  /** The bit of the octet with this value: 1, 2, 4 and so on. */
  predicate Bit(octet: byte, value: nat)
    requires value > 0
  {
    octet / value % 2 == 1
  }

  /** Some of the six bits of 0x3F is set. */
  predicate HasError(status: byte)
  {
    Bit(status, 1) || Bit(status, 2) || Bit(status, 4) || Bit(status, 8) || Bit(status, 16) || Bit(status, 32)
  }

  lemma LowBits(status: byte)
    ensures status % 64 == 0 <==> !HasError(status)
  {
    var a, b, c, d, e := status / 2, status / 4, status / 8, status / 16, status / 32;
    assert b == a / 2 && c == b / 2 && d == c / 2 && e == d / 2;
    assert status == 2 * a + status % 2 && a == 2 * b + a % 2 && b == 2 * c + b % 2;
    assert c == 2 * d + c % 2 && d == 2 * e + d % 2 && e == 2 * (e / 2) + e % 2;
    assert status / 64 == e / 2;
  }

  lemma StatusMeans(status: byte, payload: seq<byte>)
    ensures Succeeded(Frame(status, payload)) <==> !HasError(status)
    ensures HasMore(Frame(status, payload)) <==> !HasError(status) && Bit(status, 0x40)
    ensures HasError(status) ==> ErrorOf(Frame(status, payload)) == -5
  {
    LowBits(status);
    hide HasError;
  }

  /** The result of an exchange, by the status octet: over any run, every reply of its chain but the last
      is a frame without an error bit and with bit 0x40; the last one, if a negative status, is the
      result, if a frame with an error bit, makes it -EIO, and else has no bit 0x40 and makes it data. */
  lemma ExchangeResult(steps: seq<Step>, k: nat) returns (j: nat, replies: seq<Reply>)
    requires Run(steps).Some? && k < |Run(steps).value.log|
    requires Run(steps).value.log[k].Finished? && Run(steps).value.log[k].cmd.exchange
    ensures
      var log := Run(steps).value.log;
      && OnlyChain(log[..k], j, log[k].cmd)
      && replies == Replies(log[j..k]) && replies != []
    ensures forall i :: 0 <= i < |replies| - 1 ==>
      replies[i].Frame? && !HasError(replies[i].status) && Bit(replies[i].status, 0x40)
    ensures
      var outcome := Run(steps).value.log[k].outcome;
      match replies[|replies| - 1]
      case Error(rc) => outcome == Failure(rc)
      case Frame(status, _) =>
        && (HasError(status) ==> outcome == Failure(-5))
        && (!HasError(status) ==> outcome.Data? && !Bit(status, 0x40))
  {
    var carry;
    j, replies, carry := ChainReassembly(steps, k);
    var last := replies[|replies| - 1];
    if last.Frame? { StatusMeans(last.status, last.payload); }
    forall i | 0 <= i < |replies| - 1
      ensures replies[i].Frame? && !HasError(replies[i].status) && Bit(replies[i].status, 0x40)
    {
      assert HasMore(replies[..|replies| - 1][i]);
      StatusMeans(replies[i].status, replies[i].payload);
    }
    hide Run, Parse, Concat, Payloads, Replies, HasError, Bit;
  }

  /** What the completion of a frame does, by the reply: a plain command is given it as it is; an exchange
      continues exactly if no error bit is set and bit 0x40 is, with the fragment kept for later. */
  lemma CompletionDecides(steps: seq<Step>)
    requires Run(steps).Some? && Enabled(Run(steps).value, CompleteWork)
    ensures
      var d := Run(steps).value;
      var d', cmd, reply := Exec(d, CompleteWork), d.active.value.cmd, d.active.value.reply.value;
      var answered := d.log + [Got(reply)];
      if !cmd.exchange then d'.log == answered + [Finished(cmd, Given(reply))] && d'.respQ == d.respQ && d'.cmdWork
      else match reply
        case Error(rc) => d'.log == answered + [Finished(cmd, Failure(rc))] && d'.respQ == [] && d'.cmdWork
        case Frame(status, payload) =>
          if HasError(status) then d'.log == answered + [Finished(cmd, Failure(-5))] && d'.respQ == [] && d'.cmdWork
          else if Bit(status, 0x40) then
            d'.log == answered && d'.respQ == d.respQ + [payload] && d'.miWork && d'.miArg == Some(cmd)
          else
            && d'.log == answered + [Finished(cmd, Data(Concat(d.respQ + [payload])))]
            && d'.respQ == [] && d'.cmdWork
  {
    var d := Run(steps).value;
    var reply := d.active.value.reply.value;
    if reply.Frame? { StatusMeans(reply.status, reply.payload); }
    hide Run, HasError, Bit, Concat;
  }

  /** resp_q holds nothing between exchanges unless a chain has been lost. */
  lemma QueueEmptyBetweenExchanges(steps: seq<Step>)
    requires Run(steps).Some? && forall k :: 0 <= k < |Run(steps).value.log| ==> !Run(steps).value.log[k].ChainLost?
    ensures
      var d := Run(steps).value;
      !d.inFlight && !d.completeWork && !d.miWork ==> d.respQ == []
  {
    RunKeeps(steps);
    NothingLostNothingCarried(Run(steps).value.log);
  }

  lemma Extend(steps: seq<Step>, step: Step) returns (more: seq<Step>)
    requires Run(steps).Some? && Enabled(Run(steps).value, step)
    ensures more == steps + [step] && Run(more) == Some(Exec(Run(steps).value, step))
  {
    more := steps + [step];
    assert more[..|steps|] == steps;
  }

  /** When a continuation cannot be sent, the chain's callback is never called and its fragments
      stay in resp_q: the next exchange is given them in front of its own data. */
  lemma LostChainPollutes(a: Cmd, b: Cmd, p: seq<byte>, q: seq<byte>) returns (steps: seq<Step>)
    requires a.exchange && b.exchange && p != []
    ensures Run(steps).Some?
    ensures Run(steps).value.log ==
      [Sent(a, false), Got(Frame(0x40, p)), ChainLost(a), Sent(b, false), Got(Frame(0, q)), Finished(b, Data(p + q))]
    ensures Reassemble([Frame(0, q)]) == Data(q) != Data(p + q)
  {
    hide Run;
    RunNone();
    steps := Extend([], SendAsync(a, true));
    steps := Extend(steps, UrbComplete(Frame(0x40, p)));
    steps := Extend(steps, CompleteWork);
    steps := Extend(steps, MiWork(false));
    steps := Extend(steps, CmdWork);
    steps := Extend(steps, SendAsync(b, true));
    steps := Extend(steps, UrbComplete(Frame(0, q)));
    ConcatSmall(p, q);
    steps := Extend(steps, CompleteWork);
    assert |p + q| != |q|;
  }

  lemma RunNone()
    ensures Run([]) == Some(INIT)
  {
  }

  lemma ConcatSmall(p: seq<byte>, q: seq<byte>)
    ensures Concat([p] + [q]) == p + q && Concat([q]) == q
    ensures Payloads([Frame(0, q)]) == [q]
  {
    ConcatAppend([p], [q]);
    assert Payloads([Frame(0, q)][..0]) == [];
  }

  ghost predicate HasDropped(log: seq<Event>)
  {
    exists k :: 0 <= k < |log| && log[k].Dropped?
  }

  lemma DroppedOne(log: seq<Event>, e: Event)
    ensures HasDropped(log + [e]) <==> HasDropped(log) || e.Dropped?
  {
    var all := log + [e];
    assert all[|log|] == e;
    if HasDropped(log) {
      var k :| 0 <= k < |log| && log[k].Dropped?;
      assert all[k].Dropped?;
    }
  }

  lemma DroppedTwo(log: seq<Event>, e: Event, e': Event)
    ensures HasDropped(log + [e, e']) <==> HasDropped(log) || e.Dropped? || e'.Dropped?
  {
    DroppedOne(log, e);
    DroppedOne(log + [e], e');
    hide HasDropped;
    assert log + [e, e'] == log + [e] + [e'];
  }

  /** A completion drops nothing. */
  lemma CompleteDropsNothing(d: Dev, cmd: Cmd, reply: Reply)
    ensures HasDropped(ExecComplete(d, cmd, reply).log) <==> HasDropped(d.log)
    ensures ExecComplete(d, cmd, reply).stalled == d.stalled
  {
    hide HasDropped, Concat, ErrorOf;
    DroppedOne(d.log, Got(reply));
    var outcome := if !cmd.exchange then Given(reply)
                   else if Succeeded(reply) then Data(Concat(d.respQ + [reply.payload]))
                   else Failure(ErrorOf(reply));
    DroppedTwo(d.log, Got(reply), Finished(cmd, outcome));
  }

  /** The stall comes with a dropped command, and only with one. */
  // ---------- frames and replies ----------

  function SentCount(log: seq<Event>): nat
  {
    if log == [] then 0
    else SentCount(log[..|log| - 1]) + Count(log[|log| - 1].Sent?)
  }

  function GotCount(log: seq<Event>): nat
  {
    if log == [] then 0
    else GotCount(log[..|log| - 1]) + Count(log[|log| - 1].Got?)
  }

  lemma CountMore(log: seq<Event>, e: Event)
    ensures SentCount(log + [e]) == SentCount(log) + Count(e.Sent?)
    ensures GotCount(log + [e]) == GotCount(log) + Count(e.Got?)
  {
    assert (log + [e])[..|log|] == log;
  }

  /** Every frame is answered before the next one goes out: at any moment of any run, as many frames have been
      sent as replies have come, and one more while a frame or its reply is being handled. */
  lemma {:induction false} FramesAnswered(steps: seq<Step>)
    requires Run(steps).Some?
    ensures var d := Run(steps).value; SentCount(d.log) == GotCount(d.log) + Count(d.active.Some?)
  {
    hide Exec, Enabled;
    if steps == [] {
      assert SentCount([]) == GotCount([]) == 0;
    } else {
      var n := |steps| - 1;
      FramesAnswered(steps[..n]);
      RunKeeps(steps[..n]);
      AnswerStep(Run(steps[..n]).value, steps[n]);
    }
  }

  lemma AnswerStep(d: Dev, step: Step)
    requires Inv(d) && Enabled(d, step) && SentCount(d.log) == GotCount(d.log) + Count(d.active.Some?)
    ensures var d' := Exec(d, step); SentCount(d'.log) == GotCount(d'.log) + Count(d'.active.Some?)
  {
    hide SentCount, GotCount, Parse, TraceOk, Succeeded, HasMore;
    match step
    case SendAsync(cmd, _) => CountMore(d.log, Sent(cmd, false));
    case CompleteWork =>
      var reply, d' := d.active.value.reply.value, Exec(d, step);
      CountMore(d.log, Got(reply));
      var answered := d.log + [Got(reply)];
      if d'.log != answered {
        var e := d'.log[|d'.log| - 1];
        CountMore(answered, e);
        assert d'.log == answered + [e];
      }
    case SubmitFetched(submitted) =>
      CountMore(d.log, if submitted then Sent(d.fetched.value, false) else Dropped(d.fetched.value));
    case MiWork(submitted) =>
      CountMore(d.log, if submitted then Sent(d.miArg.value, true) else ChainLost(d.miArg.value));
    case _ =>
  }

  lemma StallStep(d: Dev, step: Step)
    requires Enabled(d, step) && (d.stalled <==> HasDropped(d.log))
    ensures Exec(d, step).stalled <==> HasDropped(Exec(d, step).log)
  {
    hide HasDropped, ExecComplete;
    match step
    case SendAsync(cmd, _) => DroppedOne(d.log, Sent(cmd, false));
    case CompleteWork =>
      CompleteDropsNothing(d, d.active.value.cmd, d.active.value.reply.value);
    case SubmitFetched(submitted) =>
      DroppedOne(d.log, if submitted then Sent(d.fetched.value, false) else Dropped(d.fetched.value));
    case MiWork(submitted) =>
      DroppedOne(d.log, if submitted then Sent(d.miArg.value, true) else ChainLost(d.miArg.value));
    case _ =>
  }

  lemma {:induction false} StalledMeansDropped(steps: seq<Step>)
    requires Run(steps).Some?
    ensures Run(steps).value.stalled <==> HasDropped(Run(steps).value.log)
  {
    hide Exec, Enabled, HasDropped;
    if steps == [] {
      NothingDropped();
    } else {
      var n := |steps| - 1;
      StalledMeansDropped(steps[..n]);
      StallStep(Run(steps[..n]).value, steps[n]);
    }
  }

  lemma NothingDropped()
    ensures !HasDropped(INIT.log) && !INIT.stalled
  {
  }

  /** Some step of the driver itself, or the completion of the frame in flight, can be taken. */
  predicate GoesOn(d: Dev)
  {
    || Enabled(d, UrbComplete(Error(0))) || Enabled(d, CompleteWork) || Enabled(d, CmdWork)
    || Enabled(d, SubmitFetched(true)) || Enabled(d, MiWork(true))
  }

  /** When the queue stops, exactly: while a command is pending something can go on if and only if no
      dequeued command has failed to go out; and then every later command is queued in vain. */
  lemma StopsExactly(steps: seq<Step>)
    requires Run(steps).Some?
    ensures
      var d := Run(steps).value;
      && (d.pending ==> (GoesOn(d) <==> !HasDropped(d.log)))
      && (HasDropped(d.log) ==> d.pending) && (d.stalled <==> HasDropped(d.log))
  {
    RunKeeps(steps);
    StalledMeansDropped(steps);
    hide HasDropped, TraceOk, Parse;
  }

  /** A stalled state is reachable: two commands, the second one queued, and a submission that fails. */
  lemma StallReachable(a: Cmd, b: Cmd, reply: Reply) returns (steps: seq<Step>)
    requires !a.exchange
    ensures Run(steps).Some?
    ensures var d := Run(steps).value;
      d.stalled && d.pending && d.accepted == [a, b]
      && d.log == [Sent(a, false), Got(reply), Finished(a, Given(reply)), Dropped(b)]
  {
    hide Run;
    RunNone();
    steps := Extend([], SendAsync(a, true));
    steps := Extend(steps, SendAsync(b, true));
    steps := Extend(steps, UrbComplete(reply));
    steps := Extend(steps, CompleteWork);
    steps := Extend(steps, CmdWork);
    steps := Extend(steps, SubmitFetched(false));
  }

  /** When a dequeued command cannot be submitted the scheduler stops for good: nothing more is
      sent or finished, and later commands are queued for ever. */
  lemma {:induction false} StallIsPermanent(d: Dev, steps: seq<Step>)
    requires Inv(d) && d.stalled && RunFrom(d, steps).Some?
    ensures
      var e := RunFrom(d, steps).value;
      && Inv(e) && e.stalled && e.pending && e.log == d.log
      && d.queue <= e.queue && |e.queue| == |d.queue| + |steps|
  {
    hide Parse, TraceOk;
    if steps != [] {
      var n := |steps| - 1;
      StallIsPermanent(d, steps[..n]);
      var e := RunFrom(d, steps[..n]).value;
      assert steps[n].SendAsync?;
      StepKeeps(e, steps[n]);
    }
  }

  // ---------- the imperative driver ----------

  const EINPROGRESS: int := 115

  lemma ConcatSplit(parts: seq<seq<byte>>, i: nat)
    requires i < |parts|
    ensures Concat(parts[..i + 1]) == Concat(parts[..i]) + parts[i]
    ensures |Concat(parts[..i + 1])| <= |Concat(parts)|
  {
    ConcatAppend(parts[..i], [parts[i]]);
    assert parts[..i] + [parts[i]] == parts[..i + 1];
    assert Concat([parts[i]]) == parts[i] + Concat([parts[i]][1..]);
    ConcatAppend(parts[..i + 1], parts[i + 1..]);
    assert parts[..i + 1] + parts[i + 1..] == parts;
  }

  /** What a callback does to the fragment queue, the MI work and the log. */
  function CalledBack(d: Dev, c: Cmd, reply: Reply): Dev
  {
    if !c.exchange then d.(log := d.log + [Finished(c, Given(reply))])
    else if HasMore(reply) then d.(respQ := d.respQ + [reply.payload], miArg := Some(c), miWork := true)
    else d.(respQ := [], log := d.log + [Finished(c,
      if Succeeded(reply) then Data(Concat(d.respQ + [reply.payload])) else Failure(ErrorOf(reply)))])
  }

  /** The completion step: the callback's effect, and the next work. */
  lemma CompletedIs(d: Dev, c: Cmd, reply: Reply)
    ensures
      var e := CalledBack(d.(completeWork := false, log := d.log + [Got(reply)]), c, reply).(active := None);
      ExecComplete(d, c, reply) == if c.exchange && HasMore(reply) then e else e.(cmdWork := true)
  {
    hide CalledBack, ExecComplete;
    if c.exchange && HasMore(reply) { CompletedContinues(d, c, reply); } else { CompletedEnds(d, c, reply); }
  }

  lemma CompletedContinues(d: Dev, c: Cmd, reply: Reply)
    requires c.exchange && HasMore(reply)
    ensures ExecComplete(d, c, reply)
         == CalledBack(d.(completeWork := false, log := d.log + [Got(reply)]), c, reply).(active := None)
  {
  }

  lemma CompletedEnds(d: Dev, c: Cmd, reply: Reply)
    requires !(c.exchange && HasMore(reply))
    ensures ExecComplete(d, c, reply)
         == CalledBack(d.(completeWork := false, log := d.log + [Got(reply)]), c, reply).(active := None, cmdWork := true)
  {
    hide Concat, ErrorOf;
    var outcome := if !c.exchange then Given(reply)
                   else if Succeeded(reply) then Data(Concat(d.respQ + [reply.payload]))
                   else Failure(ErrorOf(reply));
    LogTwo(d.log, Got(reply), Finished(c, outcome));
    hide Succeeded, HasMore;
  }

  lemma LogTwo(log: seq<Event>, e: Event, e': Event)
    ensures log + [e] + [e'] == log + [e, e']
  {
  }

  class Pn533 {
    var cmdPending: bool
    var cmdQueue: seq<Cmd>
    var cmd: Option<Active>
    var inFlight: bool
    var completeWork: bool
    var cmdWork: bool
    var miWork: bool
    var fetched: Option<Cmd>
    var miArg: Option<Cmd>
    var respQ: seq<seq<byte>>
    ghost var accepted: seq<Cmd>
    ghost var stalled: bool
    ghost var log: seq<Event>

    ghost function State(): Dev
      reads this
    {
      Dev(cmdPending, cmdQueue, cmd, inFlight, completeWork, cmdWork, miWork, fetched, miArg, respQ,
          accepted, stalled, log)
    }

    constructor ()
      ensures State() == INIT
    {
      cmdPending, cmdQueue, cmd, inFlight := false, [], None, false;
      completeWork, cmdWork, miWork, fetched, miArg := false, false, false, None, None;
      respQ, accepted, stalled, log := [], [], false, [];
    }

    /** __pn533_send_async; submitRc is what __pn533_send_frame_async would return. */
    method SendAsync(c: Cmd, submitRc: int) returns (rc: int)
      modifies this
      ensures State() == Exec(old(State()), Step.SendAsync(c, submitRc == 0))
      ensures rc == (if old(cmdPending) then 0 else submitRc)
      ensures accepted == old(accepted) + (if rc == 0 then [c] else [])
    {
      rc := 0;
      if !cmdPending {
        rc := submitRc;
        if rc != 0 {
          return;
        }
        cmdPending := true;
        cmd := Some(Active(c, None));
        inFlight := true;
        accepted, log := accepted + [c], log + [Sent(c, false)];
        return;
      }
      cmdQueue := cmdQueue + [c];
      accepted := accepted + [c];
    }

    /** pn533_recv_response and pn533_recv_ack with an error: the reply is stored, the work queued. */
    method RecvResponse(reply: Reply)
      requires Enabled(State(), UrbComplete(reply))
      modifies this
      ensures State() == Exec(old(State()), UrbComplete(reply))
    {
      cmd := Some(Active(cmd.value.cmd, Some(reply)));
      inFlight := false;
      completeWork := true;
    }

    /** pn533_build_response: NULL for an empty queue, a single fragment as it is, and otherwise all
        queued fragments in one buffer. */
    method BuildResponse() returns (skb: array?<byte>)
      modifies this`respQ
      ensures respQ == [] && (skb == null <==> old(respQ) == [])
      ensures skb != null ==> skb[..] == Concat(old(respQ)) && fresh(skb)
    {
      var parts := respQ;
      if parts == [] {
        return null;
      }
      if |parts| == 1 {
        var fragment := parts[0];
        skb := new byte[|fragment|](i requires 0 <= i < |fragment| => fragment[i]);
        assert skb[..] == fragment == Concat(parts);
        respQ := [];
        return;
      }
      skb := CopyFragments(parts);
      respQ := [];
    }

    /** The two walks over the queue: the total length, then the copies. */
    method CopyFragments(parts: seq<seq<byte>>) returns (skb: array<byte>)
      ensures skb[..] == Concat(parts) && fresh(skb)
    {
      hide Concat;
      var skbLen := 0;
      ConcatNone();
      for i := 0 to |parts|
        invariant skbLen == |Concat(parts[..i])|
      {
        ConcatSplit(parts, i);
        skbLen := skbLen + |parts[i]|;
      }
      assert parts[..|parts|] == parts;
      skb := new byte[skbLen];
      var tmpLen := 0;
      for i := 0 to |parts|
        invariant tmpLen == |Concat(parts[..i])| <= skbLen
        invariant skb[..tmpLen] == Concat(parts[..i])
      {
        ConcatSplit(parts, i);
        ghost var done := skb[..tmpLen];
        forall k | 0 <= k < |parts[i]| {
          skb[tmpLen + k] := parts[i][k];
        }
        assert skb[..tmpLen + |parts[i]|] == done + parts[i];
        tmpLen := tmpLen + |parts[i]|;
      }
      assert skb[..] == skb[..tmpLen];
    }

    /** pn533_data_exchange_complete */
    method DataExchangeComplete(arg: Cmd, reply: Reply) returns (rc: int)
      modifies this`respQ, this`miArg, this`miWork, this`log
      ensures rc == -EINPROGRESS <==> HasMore(reply) || (reply.Error? && reply.rc == -EINPROGRESS)
      ensures HasMore(reply) ==>
        respQ == old(respQ) + [reply.payload] && miArg == Some(arg) && miWork && log == old(log)
      ensures !HasMore(reply) ==> respQ == [] && miArg == old(miArg) && miWork == old(miWork)
      ensures !HasMore(reply) ==> log == old(log) + [Finished(arg,
        if Succeeded(reply) then Data(Concat(old(respQ) + [reply.payload])) else Failure(ErrorOf(reply)))]
    {
      if reply.Error? {
        rc := reply.rc;
        respQ := [];
        log := log + [Finished(arg, Failure(rc))];
        return;
      }
      var ret := reply.status % RET_MASK_SIZE;
      var mi := (reply.status / RET_MASK_SIZE) % 2;
      if ret != 0 {
        rc := -EIO;
        respQ := [];
        log := log + [Finished(arg, Failure(rc))];
        return;
      }
      respQ := respQ + [reply.payload];
      if mi != 0 {
        miArg := Some(arg);
        miWork := true;
        return -EINPROGRESS;
      }
      var skb := BuildResponse();
      log := log + [Finished(arg, Data(skb[..]))];
      return 0;
    }

    /** pn533_wq_cmd_complete.  The status of a completed URB is never -EINPROGRESS. */
    method WqCmdComplete()
      requires Enabled(State(), CompleteWork)
      requires cmd.value.reply.value.Error? ==> cmd.value.reply.value.rc != -EINPROGRESS
      modifies this
      ensures State() == Exec(old(State()), CompleteWork)
    {
      var c, reply := cmd.value.cmd, cmd.value.reply.value;
      CompletedIs(State(), c, reply);
      hide CalledBack, ExecComplete, HasMore;
      completeWork := false;
      log := log + [Got(reply)];
      var rc := CallBack(c, reply);
      cmd := None;
      if rc != -EINPROGRESS {
        cmdWork := true;
      }
    }

    /** The command's callback: pn533_data_exchange_complete, or the caller's own. */
    method CallBack(c: Cmd, reply: Reply) returns (rc: int)
      modifies this`respQ, this`miArg, this`miWork, this`log
      ensures var d := old(State()); State() == CalledBack(d, c, reply)
      ensures rc == -EINPROGRESS <==> c.exchange && (HasMore(reply) || (reply.Error? && reply.rc == -EINPROGRESS))
    {
      rc := 0;
      if c.exchange {
        rc := DataExchangeComplete(c, reply);
      } else {
        log := log + [Finished(c, Given(reply))];
      }
    }

    /** pn533_wq_cmd up to mutex_unlock */
    method WqCmd()
      requires Enabled(State(), CmdWork)
      modifies this
      ensures State() == Exec(old(State()), CmdWork)
    {
      cmdWork := false;
      if cmdQueue == [] {
        cmdPending := false;
        return;
      }
      fetched := Some(cmdQueue[0]);
      cmdQueue := cmdQueue[1..];
    }

    /** pn533_wq_cmd after mutex_unlock */
    method WqCmdSubmit(submitRc: int)
      requires Enabled(State(), SubmitFetched(submitRc >= 0))
      modifies this
      ensures State() == Exec(old(State()), SubmitFetched(submitRc >= 0))
    {
      var c := fetched.value;
      fetched := None;
      if submitRc < 0 {
        stalled, log := true, log + [Dropped(c)];
        return;
      }
      cmd := Some(Active(c, None));
      inFlight := true;
      log := log + [Sent(c, false)];
    }

    /** pn533_wq_mi_recv */
    method WqMiRecv(submitRc: int)
      requires Enabled(State(), MiWork(submitRc == 0))
      modifies this
      ensures State() == Exec(old(State()), MiWork(submitRc == 0))
    {
      miWork := false;
      if submitRc == 0 {
        cmd := Some(Active(miArg.value, None));
        inFlight := true;
        log := log + [Sent(miArg.value, true)];
        return;
      }
      log := log + [ChainLost(miArg.value)];
      cmdWork := true;
    }
  }
}
