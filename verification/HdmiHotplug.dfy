/**
  The i.MX HDMI driver as an event system: cable hot-plug, framebuffer events, blanking and the
  power of the PHY.

  `Exec` gives the effect of one event on the state; `Hdmi` is the driver with its handlers.
  Registers appear only where an event depends on them.
 */
module HdmiHotplug {
  import opened Wrappers

  const FB_BLANK_UNBLANK := 0
  const FB_BLANK_POWERDOWN := 4

  /** A video mode up to fb_mode_is_equal; Unset is the zeroed structure of a new driver. */
  datatype Mode = Unset | Vga | Other(id: nat)

  datatype Dev = Dev(
    fbReg: bool, cablePlugin: bool, blank: int, phyEnabled: bool,
    fbMode: Mode,              // the mode in fbi->var
    previousMode: Mode, previousNonVga: Mode,
    requestingVga: bool,       // requesting_vga_for_initialization
    polHpd: bool,              // HDMI_PHY_HPD in HDMI_PHY_POL0: the interrupt waits for a plug-in
    muted: bool,               // the hot-plug interrupt is masked and muted
    latestHpd: bool,           // HDMI_IH_PHY_STAT0_HPD in latest_intr_stat
    queued: bool)              // hotplug_work is scheduled

  /** After mxc_hdmi_disp_init, with the default mode it has found. */
  function Initial(mode: Mode): Dev
  {
    Dev(false, false, FB_BLANK_POWERDOWN, false, mode, Unset, Unset, false, true, true, false, false)
  }

  datatype Event =
    | Registered | Unregistered
    | ModeChange(mode: Mode)       // somebody sets this mode
    | Blank(value: int)
    | Suspend | Resume
    | PowerOn | PowerOff
    | Store                        // sysfs: rgb_out_enable, hdcp_enable
    | Interrupt(hpd: bool)
    | Hotplug(found: Option<Mode>) // hotplug_worker, with the mode nearest to the wanted one, if any

  // ---------- the handlers on values ----------

  function PhyInit(d: Dev): Dev
  {
    if !d.fbReg || !d.cablePlugin || d.blank != FB_BLANK_UNBLANK then d else d.(phyEnabled := true)
  }

  function PhyDisable(d: Dev): Dev { d.(phyEnabled := false) }

  /** mxc_hdmi_setup: the mode that is set up is remembered. */
  function Setup(d: Dev): Dev
  {
    PhyInit(d.(previousMode := d.fbMode, previousNonVga := if d.requestingVga then d.previousNonVga else d.fbMode))
  }

  /** fb_set_var and the FB_EVENT_MODE_CHANGE that it sends. */
  function SetVar(d: Dev, mode: Mode): Dev
  {
    var changed := d.(fbMode := mode);
    if d.fbReg && mode != d.previousMode then Setup(changed) else changed
  }

  function NotifyFb(d: Dev, mode: Mode): Dev { SetVar(PhyDisable(d), mode) }

  /** mxc_hdmi_set_mode_to_vga_dvi */
  function SetVga(d: Dev): Dev { NotifyFb(d.(requestingVga := true), Vga).(requestingVga := false) }

  /** mxc_hdmi_set_mode: nothing, the same mode again, or a new one by way of VGA. */
  function DoSetMode(d: Dev, found: Option<Mode>): Dev
  {
    if found.None? then d
    else if found.value == d.previousNonVga then Setup(d)
    else NotifyFb(SetVga(d), found.value)
  }

  function CableConnected(d: Dev, found: Option<Mode>): Dev { DoSetMode(d.(cablePlugin := true), found) }

  function CableDisconnected(d: Dev): Dev { PhyDisable(d).(cablePlugin := false) }

  function OnBlank(d: Dev, value: int): Dev
  {
    if value == d.blank then d
    else if value == FB_BLANK_UNBLANK then
      var on := d.(blank := value);
      if d.fbReg && d.cablePlugin then Setup(on) else on
    else PhyDisable(d).(blank := value)
  }

  function OnHotplug(d: Dev, found: Option<Mode>): Dev
  {
    var after :=
      if !d.latestHpd then d
      else if d.polHpd then CableConnected(d, found).(polHpd := false)
      else CableDisconnected(d).(polHpd := true);
    after.(muted := false)
  }

  /** The worker runs only when it is scheduled. */
  predicate Enabled(d: Dev, e: Event) { e.Hotplug? ==> d.queued }

  function Exec(d: Dev, e: Event): Dev
  {
    match e
    case Registered => if d.fbReg then d else d.(fbReg := true, muted := false)
    case Unregistered => d.(fbReg := false)
    case ModeChange(mode) => SetVar(d, mode)
    case Blank(value) => OnBlank(d, value)
    case Suspend => if d.blank == FB_BLANK_UNBLANK then PhyDisable(d) else d
    case Resume => if d.blank == FB_BLANK_UNBLANK then PhyInit(d) else d
    case PowerOn => PhyInit(d)
    case PowerOff => PhyDisable(d)
    case Store => Setup(d)
    case Interrupt(hpd) => if hpd then d.(latestHpd := true, muted := true, queued := true) else d
    case Hotplug(found) => OnHotplug(d.(queued := false), found)
  }

  function Run(d: Dev, events: seq<Event>): Dev
    decreases |events|
  {
    if events == [] then d else Run(Exec(d, events[0]), events[1..])
  }

  predicate Possible(d: Dev, events: seq<Event>)
    decreases |events|
  {
    events != [] ==> Enabled(d, events[0]) && Possible(Exec(d, events[0]), events[1..])
  }

  // ---------- safety ----------

  predicate Safe(d: Dev)
  {
    d.phyEnabled ==> d.cablePlugin && d.blank == FB_BLANK_UNBLANK
  }

  predicate Inv(d: Dev)
  {
    && Safe(d)
    && d.polHpd == !d.cablePlugin && !d.requestingVga
    && (d.queued ==> d.latestHpd)
    && (d.fbReg && d.muted ==> d.queued)
  }

  /** Safe, and like d but for the PHY and the modes. */
  predicate Tuned(d: Dev, t: Dev)
  {
    && t == d.(phyEnabled := t.phyEnabled, fbMode := t.fbMode, previousMode := t.previousMode,
               previousNonVga := t.previousNonVga)
    && (Safe(d) ==> Safe(t))
    && (t.phyEnabled ==> d.phyEnabled || d.fbReg)
  }

  lemma SetupTunes(d: Dev)
    ensures Tuned(d, Setup(d))
  {
  }

  lemma SetVarTunes(d: Dev, mode: Mode)
    ensures Tuned(d, SetVar(d, mode))
  {
    SetupTunes(d.(fbMode := mode));
    hide Setup;
  }

  lemma NotifyTunes(d: Dev, mode: Mode)
    ensures Tuned(d, NotifyFb(d, mode))
  {
    SetVarTunes(PhyDisable(d), mode);
    hide SetVar;
  }

  lemma SetVgaTunes(d: Dev)
    requires !d.requestingVga
    ensures Tuned(d, SetVga(d))
  {
    NotifyTunes(d.(requestingVga := true), Vga);
    hide NotifyFb;
  }

  lemma ModesOnly(d: Dev, found: Option<Mode>)
    requires !d.requestingVga
    ensures Tuned(d, SetVga(d)) && Tuned(d, DoSetMode(d, found))
  {
    SetupTunes(d);
    SetVgaTunes(d);
    if found.Some? {
      NotifyTunes(SetVga(d), found.value);
    }
    hide NotifyFb, Setup, SetVga;
  }

  lemma StepKeeps(d: Dev, e: Event)
    requires Inv(d) && Enabled(d, e)
    ensures Inv(Exec(d, e))
    ensures Exec(d, e).cablePlugin == (if e.Hotplug? then !d.cablePlugin else d.cablePlugin)
  {
    SetupTunes(d);
    match e
    case ModeChange(mode) =>
      SetVarTunes(d, mode);
      hide SetVar, Setup;
    case Blank(value) =>
      SetupTunes(d.(blank := value));
      hide Setup;
    case Hotplug(found) =>
      ModesOnly(d.(queued := false, cablePlugin := true), found);
      hide DoSetMode, Setup;
    case _ =>
      hide SetVar, Setup, OnHotplug;
  }

  lemma WorkerIs(d: Dev, found: Option<Mode>)
    ensures var q := d.(queued := false);
      Exec(d, Hotplug(found)) == (
        if !d.latestHpd then q.(muted := false)
        else if d.polHpd then CableConnected(q, found).(polHpd := false, muted := false)
        else CableDisconnected(q).(polHpd := true, muted := false))
  {
    hide CableConnected, CableDisconnected;
  }

  lemma WorkerToggles(d: Dev, found: Option<Mode>)
    requires Inv(d) && d.queued
    ensures var after := Exec(d, Hotplug(found));
      after.cablePlugin == !d.cablePlugin && after.polHpd == !after.cablePlugin && !after.muted
  {
    StepKeeps(d, Hotplug(found));
    hide CableConnected, CableDisconnected;
  }

  lemma {:induction false} RunKeeps(d: Dev, events: seq<Event>)
    requires Inv(d) && Possible(d, events)
    ensures Inv(Run(d, events))
    decreases |events|
  {
    if events != [] {
      StepKeeps(d, events[0]);
      RunKeeps(Exec(d, events[0]), events[1..]);
    }
  }

  /** In every run the PHY is powered only while a cable is plugged in and the display is not blank;
      the interrupt waits for a plug-in exactly while no cable is plugged in; and while the driver is
      registered the interrupt is not muted unless the worker that unmutes it is scheduled. */
  lemma SafeAlways(mode: Mode, events: seq<Event>)
    requires Possible(Initial(mode), events)
    ensures var d := Run(Initial(mode), events);
      && (d.phyEnabled ==> d.cablePlugin && d.blank == FB_BLANK_UNBLANK)
      && (d.polHpd <==> !d.cablePlugin)
      && (d.fbReg && d.muted ==> d.queued)
  {
    RunKeeps(Initial(mode), events);
  }

  function Hotplugs(events: seq<Event>): nat
  {
    if events == [] then 0 else (if events[0].Hotplug? then 1 else 0) + Hotplugs(events[1..])
  }

  /** Nothing but the worker moves the cable state, and every run of it does: whatever the line does
      meanwhile, the cable counts as plugged in after an odd number of runs. */
  lemma {:induction false} CableIsParity(d: Dev, events: seq<Event>)
    requires Inv(d) && Possible(d, events)
    ensures Run(d, events).cablePlugin == (d.cablePlugin == (Hotplugs(events) % 2 == 0))
    decreases |events|
  {
    if events != [] {
      StepKeeps(d, events[0]);
      CableIsParity(Exec(d, events[0]), events[1..]);
    }
  }

  // ---------- when the PHY is on ----------

  /** Plugging in powers the PHY if and only if the driver is registered, the display is not blank, a
      mode is found, and that mode is not VGA found anew: the detour by way of VGA leaves VGA as the
      previous mode, so that the change to it is taken for none. */
  lemma PhyAfterPlugin(d: Dev, found: Option<Mode>)
    requires Inv(d) && d.queued && !d.cablePlugin
    ensures Exec(d, Hotplug(found)).phyEnabled
      <==> d.fbReg && d.blank == FB_BLANK_UNBLANK && found.Some? && !(found.value != d.previousNonVga && found.value == Vga)
  {
    var plugged := d.(queued := false, cablePlugin := true);
    VgaIsPrevious(plugged);
    ModesOnly(plugged, found);
    SetupOn(plugged);
    if found.Some? && found.value != d.previousNonVga {
      NotifyOn(SetVga(plugged), found.value);
    }
    hide NotifyFb, SetVga, Setup;
  }

  lemma VgaIsPrevious(d: Dev)
    ensures d.fbReg ==> SetVga(d).previousMode == Vga
  {
  }

  predicate CanPower(d: Dev) { d.fbReg && d.cablePlugin && d.blank == FB_BLANK_UNBLANK }

  lemma SetupOn(d: Dev)
    ensures Setup(d).phyEnabled <==> d.phyEnabled || CanPower(d)
  {
  }

  lemma NotifyOn(d: Dev, mode: Mode)
    ensures NotifyFb(d, mode).phyEnabled <==> CanPower(d) && mode != d.previousMode
  {
    SetupOn(PhyDisable(d).(fbMode := mode));
    hide Setup;
  }

  /** When the PHY is on after event e of any run, exactly: whatever takes the display or the cable away turns
      it off, an event that sets the mode up turns it on if it may, and the others leave it as it is. */
  lemma PhyExactly(mode: Mode, events: seq<Event>, e: Event)
    requires Possible(Initial(mode), events) && Enabled(Run(Initial(mode), events), e)
    ensures
      var d := Run(Initial(mode), events);
      var may := d.fbReg && d.cablePlugin;
      var on := Exec(d, e).phyEnabled;
      match e
      case Suspend | PowerOff => !on
      case Blank(value) => on <==> value == 0 && (d.phyEnabled || (may && d.blank != 0))
      case Resume | PowerOn | Store => on <==> d.phyEnabled || (may && d.blank == 0)
      case ModeChange(m) => on <==> d.phyEnabled || (may && d.blank == 0 && m != d.previousMode)
      case Hotplug(found) =>
        on <==> !d.cablePlugin && d.fbReg && d.blank == 0 && found.Some? && (found.value == d.previousNonVga || found.value != Vga)
      case Registered | Unregistered | Interrupt(_) => on == d.phyEnabled
  {
    RunKeeps(Initial(mode), events);
    var d := Run(Initial(mode), events);
    hide Run, Possible;
    match e
    case Hotplug(found) =>
      if d.cablePlugin { StepKeeps(d, e); } else { PhyAfterPlugin(d, found); }
      hide OnHotplug;
    case Blank(value) =>
      SetupOn(d.(blank := value));
      hide Setup;
    case ModeChange(m) =>
      SetupOn(d.(fbMode := m));
      hide Setup;
    case Store =>
      SetupOn(d);
      hide Setup;
    case _ =>
  }

  /** Runs compose. */
  lemma {:induction false} Extend(d: Dev, events: seq<Event>, e: Event)
    requires Possible(d, events) && Enabled(Run(d, events), e)
    ensures Possible(d, events + [e]) && Run(d, events + [e]) == Exec(Run(d, events), e)
    decreases |events|
  {
    if events == [] {
      assert ([e])[1..] == [];
    } else {
      assert (events + [e])[1..] == events[1..] + [e];
      Extend(Exec(d, events[0]), events[1..], e);
    }
  }

  // ---------- what the state remembers ----------

  /** The last blanking value, or that of a driver nobody has unblanked. */
  function LastBlank(events: seq<Event>): int
  {
    if events == [] then FB_BLANK_POWERDOWN
    else
      var n := |events| - 1;
      if events[n].Blank? then events[n].value else LastBlank(events[..n])
  }

  predicate IsRegistered(events: seq<Event>)
  {
    events != [] &&
      var n := |events| - 1;
      events[n].Registered? || (!events[n].Unregistered? && IsRegistered(events[..n]))
  }

  /** A hot-plug interrupt has come that the worker has not handled. */
  predicate Outstanding(events: seq<Event>)
  {
    events != [] &&
      var n := |events| - 1;
      events[n] == Interrupt(true) || (!events[n].Hotplug? && Outstanding(events[..n]))
  }

  /** The hot-plug interrupt is masked from the start, and again from one such interrupt on; the worker
      unmasks it, and so does a first registration. */
  predicate Masked(events: seq<Event>)
  {
    events == [] ||
      var n := |events| - 1;
      events[n] == Interrupt(true) ||
        (!events[n].Hotplug? && !(events[n].Registered? && !IsRegistered(events[..n])) && Masked(events[..n]))
  }

  /** In every run, the flags of the driver are those that the events so far say. */
  lemma {:induction false} Remembers(mode: Mode, events: seq<Event>)
    requires Possible(Initial(mode), events)
    ensures
      var d := Run(Initial(mode), events);
      && d.blank == LastBlank(events) && (d.fbReg <==> IsRegistered(events)) && (d.queued <==> Outstanding(events))
      && (d.muted <==> Masked(events)) && (d.latestHpd <==> Interrupt(true) in events) && !d.requestingVga
  {
    if events != [] {
      var n := |events| - 1;
      var before := Run(Initial(mode), events[..n]);
      assert events == events[..n] + [events[n]];
      PossibleBefore(Initial(mode), events[..n], events[n]);
      Remembers(mode, events[..n]);
      Extend(Initial(mode), events[..n], events[n]);
      RunKeeps(Initial(mode), events[..n]);
      FlagsAfter(before, events[n]);
      assert Interrupt(true) in events <==> Interrupt(true) in events[..n] || events[n] == Interrupt(true);
      hide Run, Possible, Exec, Inv;
    }
  }

  lemma {:induction false} PossibleBefore(d: Dev, events: seq<Event>, e: Event)
    requires Possible(d, events + [e])
    ensures Possible(d, events) && Enabled(Run(d, events), e)
    decreases |events|
  {
    if events == [] {
      assert (events + [e])[0] == e;
    } else {
      assert (events + [e])[1..] == events[1..] + [e];
      PossibleBefore(Exec(d, events[0]), events[1..], e);
    }
  }

  lemma FlagsAfter(d: Dev, e: Event)
    requires Inv(d) && Enabled(d, e)
    ensures
      var after := Exec(d, e);
      && after.blank == (if e.Blank? then e.value else d.blank)
      && after.fbReg == (e.Registered? || (!e.Unregistered? && d.fbReg))
      && after.queued == (e == Interrupt(true) || (!e.Hotplug? && d.queued))
      && after.latestHpd == (e == Interrupt(true) || d.latestHpd) && !after.requestingVga
      && after.muted == (e == Interrupt(true) || (!e.Hotplug? && !(e.Registered? && !d.fbReg) && d.muted))
  {
    SetupTunes(d);
    match e
    case ModeChange(mode) =>
      SetVarTunes(d, mode);
      hide SetVar, Setup;
    case Blank(value) =>
      SetupTunes(d.(blank := value));
      hide Setup;
    case Hotplug(found) =>
      ModesOnly(d.(queued := false, cablePlugin := true), found);
      hide DoSetMode, Setup;
    case _ =>
      hide SetVar, Setup, OnHotplug;
  }

  /** What a plug-in leaves of the modes: the wanted one is set unless it is the last one that was not VGA; a
      registered driver then remembers it as the last one, and as the last one that was not VGA unless it is
      VGA. */
  lemma ModesAfterPlugin(d: Dev, found: Option<Mode>)
    requires Inv(d) && d.queued && !d.cablePlugin
    ensures
      var after := Exec(d, Hotplug(found));
      if found.None? then
        after.fbMode == d.fbMode && after.previousMode == d.previousMode && after.previousNonVga == d.previousNonVga
      else if found.value == d.previousNonVga then
        after.fbMode == after.previousMode == after.previousNonVga == d.fbMode
      else
        && after.fbMode == found.value
        && after.previousMode == (if d.fbReg then found.value else d.previousMode)
        && after.previousNonVga == (if d.fbReg && found.value != Vga then found.value else d.previousNonVga)
  {
    if found.Some? && found.value != d.previousNonVga {
      var plugged := d.(queued := false, cablePlugin := true);
      AfterVga(plugged);
      AfterMode(SetVga(plugged), found.value);
      hide SetVga, NotifyFb, Setup;
    }
  }

  lemma AfterVga(d: Dev)
    requires !d.requestingVga
    ensures
      var v := SetVga(d);
      && v.fbReg == d.fbReg && v.fbMode == Vga && !v.requestingVga && v.previousNonVga == d.previousNonVga
      && v.previousMode == if d.fbReg then Vga else d.previousMode
  {
  }

  lemma AfterMode(d: Dev, mode: Mode)
    requires !d.requestingVga
    ensures
      var n := NotifyFb(d, mode);
      && n.fbMode == mode
      && n.previousMode == (if d.fbReg then mode else d.previousMode)
      && n.previousNonVga == (if d.fbReg && mode != d.previousMode then mode else d.previousNonVga)
  {
  }

  /** Events of a display that offers nothing but VGA: its cable comes and goes. */
  predicate VgaOnly(e: Event) { e.Interrupt? || e == Hotplug(Some(Vga)) }

  /** Such a display never gets its PHY, however often it is plugged in: the registered driver that is
      not blank has VGA found anew every time. */
  lemma {:induction false} VgaDisplayStaysDark(d: Dev, events: seq<Event>)
    requires Inv(d) && Possible(d, events) && !d.phyEnabled
    requires d.previousNonVga != Vga && forall e <- events :: VgaOnly(e)
    ensures !Run(d, events).phyEnabled && Run(d, events).previousNonVga != Vga
    decreases |events|
  {
    if events != [] {
      VgaStep(d, events[0]);
      StepKeeps(d, events[0]);
      VgaDisplayStaysDark(Exec(d, events[0]), events[1..]);
    }
  }

  lemma VgaStep(d: Dev, e: Event)
    requires Inv(d) && Enabled(d, e) && !d.phyEnabled && d.previousNonVga != Vga && VgaOnly(e)
    ensures !Exec(d, e).phyEnabled && Exec(d, e).previousNonVga != Vga
  {
    if e.Hotplug? {
      if !d.cablePlugin { PhyAfterPlugin(d, Some(Vga)); }
      VgaKeepsNonVga(d.(queued := false, cablePlugin := true));
      hide DoSetMode;
    }
  }

  lemma VgaKeepsNonVga(d: Dev)
    requires d.previousNonVga != Vga
    ensures DoSetMode(d, Some(Vga)).previousNonVga == d.previousNonVga
  {
    assert SetVga(d).previousNonVga == d.previousNonVga;
    VgaIsPrevious(d);
    hide SetVga;
  }

  /** And it is reachable: registered, not blank, plugged in, a mode found, and no PHY. */
  lemma DarkReachable(mode: Mode) returns (events: seq<Event>)
    ensures Possible(Initial(mode), events)
    ensures var d := Run(Initial(mode), events);
      && d.fbReg && d.blank == FB_BLANK_UNBLANK && d.cablePlugin && d.fbMode == Vga
      && !d.phyEnabled && d.previousNonVga != Vga
  {
    events := UpTo(mode, Some(Vga));
  }

  /** Registration, unblanking and a first plug-in. */
  lemma UpTo(mode: Mode, found: Option<Mode>) returns (events: seq<Event>)
    ensures events == [Registered, Blank(FB_BLANK_UNBLANK), Interrupt(true), Hotplug(found)]
    ensures var d := Initial(mode).(fbReg := true, blank := FB_BLANK_UNBLANK, latestHpd := true, queued := true);
      Possible(Initial(mode), events) && Run(Initial(mode), events) == Exec(d, Hotplug(found))
  {
    var d := Initial(mode);
    assert Possible(d, []) && Run(d, []) == d;
    Extend(d, [], Registered);
    Extend(d, [Registered], Blank(FB_BLANK_UNBLANK));
    Extend(d, [Registered, Blank(FB_BLANK_UNBLANK)], Interrupt(true));
    Extend(d, [Registered, Blank(FB_BLANK_UNBLANK), Interrupt(true)], Hotplug(found));
    events := [Registered, Blank(FB_BLANK_UNBLANK), Interrupt(true), Hotplug(found)];
    assert events == [Registered, Blank(FB_BLANK_UNBLANK), Interrupt(true)] + [Hotplug(found)];
  }

  /** The PHY is on without a registered framebuffer only since an unregistration: that event alone
      breaks it, and exactly when the PHY was on. */
  lemma RegisteredWhileOn(d: Dev, e: Event)
    requires Inv(d) && Enabled(d, e) && (d.phyEnabled ==> d.fbReg)
    ensures (Exec(d, e).phyEnabled ==> Exec(d, e).fbReg) <==> !(e.Unregistered? && d.phyEnabled)
  {
    SetupTunes(d);
    match e
    case ModeChange(mode) =>
      SetVarTunes(d, mode);
      hide SetVar, Setup;
    case Blank(value) =>
      SetupTunes(d.(blank := value));
      hide Setup;
    case Hotplug(found) =>
      ModesOnly(d.(queued := false, cablePlugin := true), found);
      hide DoSetMode, Setup;
    case _ =>
      hide SetVar, Setup, OnHotplug;
  }

  // ---------- handlers that overtake each other ----------

  /** The events that power the PHY up in state d. */
  predicate Starts(d: Dev, e: Event)
  {
    && d.fbReg && d.cablePlugin
    && match e {
         case ModeChange(mode) => mode != d.previousMode && d.blank == FB_BLANK_UNBLANK
         case Blank(value) => value == FB_BLANK_UNBLANK != d.blank
         case Resume | PowerOn | Store => d.blank == FB_BLANK_UNBLANK
         case _ => false
       }
  }

  /** The worker's plug-out, up to disabling the PHY, and from clearing the flag on. */
  function PlugOutStart(d: Dev): Dev { PhyDisable(d.(queued := false)) }

  function PlugOutEnd(d: Dev): Dev { d.(cablePlugin := false, polHpd := true, muted := false) }

  /** Event e handled in between. */
  function Torn(d: Dev, e: Event): Dev { PlugOutEnd(Exec(PlugOutStart(d), e)) }

  /** The plug-out path holds no lock: undisturbed it is the worker's step, but safety survives an
      event in its middle if and only if the event is not one that powers the PHY up. */
  lemma TornPlugOut(d: Dev, e: Event, found: Option<Mode>)
    requires Inv(d) && d.queued && d.cablePlugin && !e.Hotplug?
    ensures PlugOutEnd(PlugOutStart(d)) == Exec(d, Hotplug(found))
    ensures Safe(Torn(d, e)) <==> !Starts(d, e)
  {
  }

  /** Such a state is reachable: the cable is pulled, its worker runs, and the framebuffer resumes. */
  lemma TornReachable(mode: Mode) returns (events: seq<Event>)
    ensures Possible(Initial(mode), events)
    ensures var d := Run(Initial(mode), events);
      && d.queued && d.latestHpd && d.cablePlugin && !d.polHpd
      && !Safe(Torn(d, Resume))
  {
    var before := PluggedIn(mode);
    var plugged := Run(Initial(mode), before);
    hide Run, Possible, Torn, Safe, Inv;
    Extend(Initial(mode), before, Interrupt(true));
    StepKeeps(plugged, Interrupt(true));
    events := before + [Interrupt(true)];
    TornPlugOut(Run(Initial(mode), events), Resume, None);
  }

  /** A run after which a cable is plugged in and the display is not blank. */
  lemma PluggedIn(mode: Mode) returns (events: seq<Event>)
    ensures Possible(Initial(mode), events) && Inv(Run(Initial(mode), events))
    ensures var d := Run(Initial(mode), events);
      d.fbReg && d.cablePlugin && !d.polHpd && d.blank == FB_BLANK_UNBLANK
  {
    events := UpTo(mode, Some(Other(0)));
    RunKeeps(Initial(mode), events);
    ModesOnly(Initial(mode).(fbReg := true, blank := FB_BLANK_UNBLANK, latestHpd := true, cablePlugin := true), Some(Other(0)));
    hide Run, Possible, DoSetMode, Safe;
  }

  // ---------- the driver ----------

  class Hdmi {
    var fbReg: bool
    var cablePlugin: bool
    var blank: int
    var phyEnabled: bool
    var fbMode: Mode
    var previousMode: Mode
    var previousNonVga: Mode
    var requestingVga: bool
    var polHpd: bool
    var muted: bool
    var latestHpd: bool
    var queued: bool

    function State(): Dev
      reads this
    {
      Dev(fbReg, cablePlugin, blank, phyEnabled, fbMode, previousMode, previousNonVga, requestingVga,
          polHpd, muted, latestHpd, queued)
    }

    constructor (mode: Mode)
      ensures State() == Initial(mode) && Inv(State())
    {
      fbReg, cablePlugin, blank, phyEnabled := false, false, FB_BLANK_POWERDOWN, false;
      fbMode, previousMode, previousNonVga, requestingVga := mode, Unset, Unset, false;
      polHpd, muted, latestHpd, queued := true, true, false, false;
    }

    /** mxc_hdmi_phy_init */
    method InitPhy()
      modifies this
      ensures State() == PhyInit(old(State()))
    {
      if !fbReg || !cablePlugin || blank != FB_BLANK_UNBLANK {
        return;
      }
      phyEnabled := true;
    }

    /** mxc_hdmi_phy_disable */
    method DisablePhy()
      modifies this
      ensures State() == PhyDisable(old(State()))
    {
      if !phyEnabled {
        return;
      }
      phyEnabled := false;
    }

    /** mxc_hdmi_setup */
    method SetUp()
      modifies this
      ensures State() == Setup(old(State()))
    {
      previousMode := fbMode;
      if !requestingVga {
        previousNonVga := fbMode;
      }
      InitPhy();
    }

    /** fb_set_var with FB_EVENT_MODE_CHANGE */
    method ChangeMode(mode: Mode)
      modifies this
      ensures State() == SetVar(old(State()), mode)
    {
      fbMode := mode;
      if fbReg && previousMode != mode {
        SetUp();
      }
    }

    /** mxc_hdmi_notify_fb */
    method Notify(mode: Mode)
      modifies this
      ensures State() == NotifyFb(old(State()), mode)
    {
      DisablePhy();
      ChangeMode(mode);
    }

    /** mxc_hdmi_set_mode_to_vga_dvi */
    method SetToVga()
      modifies this
      ensures State() == SetVga(old(State()))
    {
      hide NotifyFb;
      requestingVga := true;
      Notify(Vga);
      requestingVga := false;
    }

    /** mxc_hdmi_set_mode */
    method SetMode(found: Option<Mode>)
      modifies this
      ensures State() == DoSetMode(old(State()), found)
    {
      hide NotifyFb, Setup, SetVga;
      if found == None {
        return;
      }
      if previousNonVga == found.value {
        SetUp();
      } else {
        SetToVga();
        Notify(found.value);
      }
    }

    /** mxc_hdmi_cable_connected */
    method Connect(found: Option<Mode>)
      modifies this
      ensures State() == CableConnected(old(State()), found)
    {
      cablePlugin := true;
      SetMode(found);
    }

    /** mxc_hdmi_cable_disconnected */
    method Disconnect()
      modifies this
      ensures State() == CableDisconnected(old(State()))
    {
      DisablePhy();
      cablePlugin := false;
    }

    /** hotplug_worker */
    method HotplugWorker(found: Option<Mode>)
      requires Inv(State()) && queued
      modifies this
      ensures State() == Exec(old(State()), Hotplug(found)) && Inv(State())
      ensures cablePlugin == !old(cablePlugin) && polHpd == !cablePlugin && !muted
    {
      hide Inv, CableConnected, CableDisconnected, Exec, OnHotplug;
      StepKeeps(State(), Hotplug(found));
      WorkerToggles(State(), found);
      WorkerIs(State(), found);
      queued := false;
      var phyIntPol := polHpd;
      if latestHpd {
        if phyIntPol {
          Connect(found);
          polHpd := false;
        } else {
          Disconnect();
          polHpd := true;
        }
      }
      muted := false;
    }

    /** mxc_hdmi_hotplug, the interrupt handler */
    method HandleInterrupt(hpd: bool)
      requires Inv(State())
      modifies this
      ensures State() == Exec(old(State()), Interrupt(hpd)) && Inv(State())
    {
      if hpd {
        latestHpd := true;
        muted := true;
        queued := true;    // schedule_delayed_work
      }
    }

    /** mxc_hdmi_fb_event: the framebuffer events. */
    method FbEvent(e: Event)
      requires Inv(State())
      requires e.Registered? || e.Unregistered? || e.ModeChange? || e.Blank? || e.Suspend? || e.Resume?
      modifies this
      ensures State() == Exec(old(State()), e) && Inv(State())
    {
      StepKeeps(State(), e);
      hide Inv, Setup, SetVar, OnHotplug;
      match e {
        case Registered =>
          if !fbReg {
            muted := false;
            fbReg := true;
          }
        case Unregistered =>
          fbReg := false;
        case ModeChange(mode) =>
          ChangeMode(mode);
        case Blank(value) =>
          if value == FB_BLANK_UNBLANK && value != blank {
            blank := value;
            if fbReg && cablePlugin {
              SetUp();
            }
          } else if value != blank {
            DisablePhy();
            blank := value;
          }
        case Suspend =>
          if blank == FB_BLANK_UNBLANK {
            DisablePhy();
          }
        case Resume =>
          if blank == FB_BLANK_UNBLANK {
            InitPhy();
          }
      }
    }
  }
}
