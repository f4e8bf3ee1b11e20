/** What a slot can go through between registration and release, and what its timeout can do. */
module SlotHistory {
  import opened Words
  import opened SlotSpec
  import opened SlotTheorems

  // ------------------------------------------------------- isolation, steps

  /** The part of a step that concerns slot i. */
  function SlotAfter(p: Drv, ev: Event, i: nat): Slot
    requires |p.devs| == 4 && i < 4
  {
    var l := At(p, i);
    if !Enabled(p, ev) then l.s
    else if ev.ReleaseAll? then Release(l).s
    else if Target(ev) == i then LocalStep(l, ev).s
    else l.s
  }

  lemma {:induction false} ReleaseLoopIsLocal(p: Drv, k: nat, i: nat)
    requires |p.devs| == 4 && k <= 4 && i < 4
    ensures ReleaseUpTo(p, k).devs[i] == if i < k then Release(At(p, i)).s else p.devs[i]
    decreases k
  {
    if k > 0 { ReleaseLoopIsLocal(p, k - 1, i); }
  }

  /** Slots do not influence each other: what a step makes of slot i depends on that slot (and the id counter) only,
      and an event for one slot changes no other. */
  lemma StepIsLocal(p: Drv, ev: Event, i: nat)
    requires |p.devs| == 4 && i < 4
    ensures Step(p, ev).devs[i] == SlotAfter(p, ev, i)
    ensures Target(ev) >= 0 && Target(ev) != i ==> Step(p, ev).devs[i] == p.devs[i]
  {
    ReleaseLoopIsLocal(p, 4, i);
    hide LocalStep, Wrap32, Release, TimeoutLocal, ReleaseUpTo;
  }

  /** Handling the same addition twice is handling it once, except when creating the proc nodes failed the first time
      and succeeds the second; so the scan after the notifier is registered does no harm. */
  lemma AddTwiceExactly(p: Drv, dev: Pdev, ok1: bool, ok2: bool)
    requires |p.devs| == 4 && p.phase == Running
    ensures var i, q := SlotOfBus(dev.bus), Step(p, Add(dev, ok1));
      Step(q, Add(dev, ok2)) == q <==>
        !(0 <= i && !p.devs[i].inUse && (IsVirtio(dev) || IsTarget(dev)) && !ok1 && ok2)
  {
    var i, q := SlotOfBus(dev.bus), Step(p, Add(dev, ok1));
    if 0 <= i {
      assert q == PutBack(p, i, AddLocal(At(p, i), dev, ok1));
      assert Step(q, Add(dev, ok2)) == PutBack(q, i, AddLocal(At(q, i), dev, ok2));
      assert q.devs[i := q.devs[i]] == q.devs;
      assert Step(q, Add(dev, ok2)).devs[i] == AddLocal(At(q, i), dev, ok2).s;
      hide Step;
    }
  }

  /** The scan at module load offers only boot-mode devices; for slots that the notifier already registered it
      changes nothing, whatever order it finds the devices in. */
  lemma {:induction false} RescanChangesNothing(p: Drv, scan: seq<Event>)
    requires |p.devs| == 4
    requires forall e :: e in scan ==> e.Add? && e.dev.device == TARGET_DEVICE
    requires forall e :: e in scan ==> 0 <= Target(e) ==> p.devs[Target(e)].inUse
    ensures Exec(p, scan) == p
    decreases |scan|
  {
    if scan != [] {
      var init, last := scan[..|scan| - 1], scan[|scan| - 1];
      RescanChangesNothing(p, init);
      assert last in scan;
      if 0 <= Target(last) { assert p.devs[Target(last) := p.devs[Target(last)]] == p.devs; }
    }
  }

  // ------------------------------------------------------------- lifecycle

  /** Slot i is registered in p and stays registered throughout the run. */
  ghost predicate Registered(p: Drv, evs: seq<Event>, i: nat)
    requires |p.devs| == 4 && i < 4
    decreases |evs|
  {
    && Exec(p, evs).devs[i].inUse
    && (evs != [] ==> Registered(p, evs[..|evs| - 1], i))
  }

  /** The moves of a registered slot. */
  ghost predicate Follows(a: DevState, b: DevState) {
    || a == b
    || (a == DISCONNECTED && b == BOOTING)
    || (a == BOOTING && (b == CONNECTED || b == BOOT_FAILED))
    || (a == CONNECTED && b == REBOOTING)
  }

  /** Each move goes up. */
  function Rank(a: DevState): nat {
    match a
    case DISCONNECTED => 0
    case BOOTING => 1
    case CONNECTED => 2
    case BOOT_FAILED => 3
    case REBOOTING => 3
  }

  /** What one step may do to a registered slot that stays registered. */
  ghost predicate Moves(s: Slot, t: Slot) {
    && Follows(s.state, t.state) && t.id == s.id
    && (s.infoFresh ==> t.infoFresh && t.info == s.info)
    && (!t.infoFresh ==> t.info == s.info)
  }

  lemma RegisteredLocalStep(l: Local, ev: Event)
    requires l.s.inUse && LocalStep(l, ev).s.inUse
    ensures Moves(l.s, LocalStep(l, ev).s)
  {
    hide Refresh;
    match ev
    case Query(_, probe) => RefreshFrame(l.s, probe);
    case Firmware(_, probe, _) => RefreshFrame(l.s, probe);
    case _ =>
  }

  lemma RegisteredStep(p: Drv, ev: Event, i: nat)
    requires |p.devs| == 4 && i < 4 && p.devs[i].inUse && Step(p, ev).devs[i].inUse
    ensures Moves(p.devs[i], Step(p, ev).devs[i])
  {
    StepIsLocal(p, ev, i);
    hide Step, LocalStep;
    if LocalStep(At(p, i), ev).s.inUse { RegisteredLocalStep(At(p, i), ev); }
    hide Moves;
    assert Moves(p.devs[i], p.devs[i]) by { StaysPut(p.devs[i]); }
  }

  lemma StaysPut(s: Slot)
    ensures Moves(s, s)
  {}

  /** An addition for slot i that the driver sees while it is loaded. */
  predicate AddsTo(p: Drv, ev: Event, i: nat) {
    ev.Add? && p.phase == Running && SlotOfBus(ev.dev.bus) == i
  }

  /** The complete transition table: which event, in which situation, moves slot i. */
  lemma TransitionsExactly(p: Drv, ev: Event, i: nat)
    requires |p.devs| == 4 && i < 4
    ensures var s, t := p.devs[i], Step(p, ev).devs[i];
      && (!s.inUse && t.inUse <==> !s.inUse && AddsTo(p, ev, i) && ev.procOk && (IsVirtio(ev.dev) || IsTarget(ev.dev)))
      && (!s.inUse && t.inUse ==> t.pdev == Some(ev.dev) && t.id == p.nextId && !t.infoFresh && !t.window.Some?
                                  && t.state == if IsVirtio(ev.dev) then CONNECTED else DISCONNECTED)
      && (s.inUse && !t.inUse <==>
            s.inUse
            && ((ev.Del? && p.phase == Running && SlotOfBus(ev.dev.bus) == i && s.state != BOOTING)
                || (ev.ReleaseAll? && p.phase == Closing(4))))
      && (s.inUse && s.state == BOOTING && t.state == CONNECTED <==>
            s.inUse && s.state == BOOTING && AddsTo(p, ev, i) && IsVirtio(ev.dev))
      && (s.inUse && s.state == BOOTING && t.state == BOOT_FAILED <==>
            s.inUse && s.state == BOOTING && s.waiting
            && ((ev == TimeoutRuns(i) && p.phase != Gone) || (ev == CancelTimer(i) && p.phase == Closing(i))))
      && (s.inUse && s.state == CONNECTED && t.state == REBOOTING <==>
            s.inUse && s.state == CONNECTED && s.pdev.Some? && ev == Reboot(i) && p.phase != Gone)
      && (s.inUse && s.state == DISCONNECTED && t.state == BOOTING <==>
            s.inUse && s.state == DISCONNECTED && ev.Firmware? && ev.slot == i && ev.delivered && Enabled(p, ev)
            && Refresh(s, ev.probe).1 == OK)
      && (s.inUse && s.state == DISCONNECTED && t.state == BOOTING ==> t.pending && t.window.Some?)
  {
    StepIsLocal(p, ev, i);
    hide Step, Refresh;
    match ev
    case Query(_, probe) => RefreshFrame(p.devs[i], probe);
    case Firmware(_, probe, _) => RefreshFrame(p.devs[i], probe);
    case _ =>
  }

  /** How often slot i entered BOOTING during the run. */
  ghost function Boots(p: Drv, evs: seq<Event>, i: nat): nat
    requires |p.devs| == 4 && i < 4
    decreases |evs|
  {
    if evs == [] then 0
    else
      var before, after := Exec(p, evs[..|evs| - 1]).devs[i].state, Exec(p, evs).devs[i].state;
      Boots(p, evs[..|evs| - 1], i) + if before != BOOTING && after == BOOTING then 1 else 0
  }

  /** How often its board info changed. */
  ghost function InfoChanges(p: Drv, evs: seq<Event>, i: nat): nat
    requires |p.devs| == 4 && i < 4
    decreases |evs|
  {
    if evs == [] then 0
    else
      var before, after := Exec(p, evs[..|evs| - 1]).devs[i], Exec(p, evs).devs[i];
      InfoChanges(p, evs[..|evs| - 1], i)
        + if before.info != after.info || before.infoFresh != after.infoFresh then 1 else 0
  }

  /** Within one registration the state only moves forward and the id stays; firmware succeeds at most once, and
      exactly when the slot left DISCONNECTED. */
  lemma {:induction false} OneRegistration(p: Drv, evs: seq<Event>, i: nat)
    requires |p.devs| == 4 && i < 4 && Registered(p, evs, i)
    ensures var s, t := p.devs[i], Exec(p, evs).devs[i];
      && Rank(s.state) <= Rank(t.state) && (Rank(s.state) == Rank(t.state) ==> s.state == t.state)
      && t.id == s.id
      && Boots(p, evs, i) == (if s.state == DISCONNECTED != t.state then 1 else 0)
    decreases |evs|
  {
    if evs != [] {
      var q, ev := Exec(p, evs[..|evs| - 1]), evs[|evs| - 1];
      OneRegistration(p, evs[..|evs| - 1], i);
      assert Exec(p, evs) == Step(q, ev);
      RegisteredStep(q, ev, i);
      hide Step, Exec, Registered;
    }
  }

  /** Within one registration the board info changes at most once: when it is first read. */
  lemma {:induction false} InfoReadOnce(p: Drv, evs: seq<Event>, i: nat)
    requires |p.devs| == 4 && i < 4 && Registered(p, evs, i)
    ensures var s, t := p.devs[i], Exec(p, evs).devs[i];
      && InfoChanges(p, evs, i) == (if !s.infoFresh && t.infoFresh then 1 else 0)
      && (s.infoFresh ==> t.infoFresh && t.info == s.info)
    decreases |evs|
  {
    if evs != [] {
      var q, ev := Exec(p, evs[..|evs| - 1]), evs[|evs| - 1];
      InfoReadOnce(p, evs[..|evs| - 1], i);
      assert Exec(p, evs) == Step(q, ev);
      RegisteredStep(q, ev, i);
      hide Step, Exec, Registered, Follows;
    }
  }

  // ---------------------------------------------------------------- timers

  /** Before module exit a slot never waits in BOOTING without a timeout: whatever happened before, letting its timer
      fire and its callback run ends the boot. */
  lemma BootAlwaysTimesOut(evs: seq<Event>, i: nat)
    requires EnvOk(INIT, evs) && i < 4
    requires var p := Exec(INIT, evs); TimerLive(p.phase, i) && p.devs[i].state == BOOTING
    ensures var p := Exec(INIT, evs); Step(Step(p, TimerFires(i)), TimeoutRuns(i)).devs[i].state == BOOT_FAILED
  {
    RunKeepsInv(evs);
    var p := Exec(INIT, evs);
    assert SlotInv(p.devs[i], p.phase, i);
    StepIsLocal(p, TimerFires(i), i);
    var q := Step(p, TimerFires(i));
    StepIsLocal(q, TimeoutRuns(i), i);
    assert q.phase == p.phase;
    hide Step, Exec, Wrap32;
  }

  /** Slot i is in BOOTING in p and stays there throughout the run. */
  ghost predicate StaysBooting(p: Drv, evs: seq<Event>, i: nat)
    requires |p.devs| == 4 && i < 4
    decreases |evs|
  {
    && Exec(p, evs).devs[i].inUse && Exec(p, evs).devs[i].state == BOOTING
    && (evs != [] ==> StaysBooting(p, evs[..|evs| - 1], i))
  }

  lemma BootingStep(p: Drv, ev: Event, i: nat)
    requires |p.devs| == 4 && i < 4 && p.devs[i].inUse && p.devs[i].state == BOOTING
    requires Step(p, ev).devs[i].inUse && Step(p, ev).devs[i].state == BOOTING
    ensures var s, t := p.devs[i], Step(p, ev).devs[i];
      && (s.pending && s.waiting ==> t.pending && t.waiting)
      && (!(s.pending && s.waiting) ==> !(t.pending && t.waiting))
  {
    StepIsLocal(p, ev, i);
    hide Step;
  }

  /** During one boot attempt (timer just scheduled in p) a callback that is about to run belongs to an earlier attempt,
      and ends this one while its own timer is still pending, exactly when it was already waiting for the mutex
      at the moment the timer was scheduled. */
  lemma {:induction false} BootCutShortExactly(p: Drv, evs: seq<Event>, i: nat)
    requires |p.devs| == 4 && i < 4 && p.devs[i].pending && StaysBooting(p, evs, i)
    ensures var q := Exec(p, evs);
      q.phase != Gone ==>
        (q.devs[i].pending && Step(q, TimeoutRuns(i)).devs[i].state == BOOT_FAILED <==> p.devs[i].waiting)
  {
    StaleCallbackStays(p, evs, i);
    StepIsLocal(Exec(p, evs), TimeoutRuns(i), i);
    hide Step, Exec;
  }

  lemma {:induction false} StaleCallbackStays(p: Drv, evs: seq<Event>, i: nat)
    requires |p.devs| == 4 && i < 4 && p.devs[i].pending && StaysBooting(p, evs, i)
    ensures var t := Exec(p, evs).devs[i]; (t.pending && t.waiting) <==> p.devs[i].waiting
    decreases |evs|
  {
    if evs != [] {
      var init := evs[..|evs| - 1];
      assert StaysBooting(p, init, i);
      StaleCallbackStays(p, init, i);
      BootingStep(Exec(p, init), evs[|evs| - 1], i);
      hide Step;
    }
  }

  /** A late callback does nothing to a slot that is not booting. */
  lemma CallbackOnlyEndsBoots(p: Drv, i: nat)
    requires |p.devs| == 4 && i < 4 && p.phase != Gone && p.devs[i].waiting
    ensures var s, q := p.devs[i], Step(p, TimeoutRuns(i));
      && q == p.(devs := q.devs) && q.devs == p.devs[i := q.devs[i]]
      && q.devs[i] == s.(waiting := false, state := q.devs[i].state)
      && (q.devs[i].state != s.state <==> s.inUse && s.state == BOOTING)
  {
    hide Wrap32;
  }

  const CARD: Pdev := Pdev(1, 1, 0x2134, 0x0006, 0xff0000, 4096)
  const BOOTED: Pdev := Pdev(2, 1, 0x2134, 0x0500, 0xff0000, 4096)
  const PROBE: Probe := Probe([MapTry(0, 4096, true, true, true), MapTry(0, 4096, true, true, true),
                               MapTry(0, 4096, true, true, true)], 7)

  lemma Extend(es: seq<Event>, ev: Event)
    requires EnvOk(INIT, es) && AddAfterDel(Exec(INIT, es), ev)
    ensures EnvOk(INIT, es + [ev]) && Exec(INIT, es + [ev]) == Step(Exec(INIT, es), ev)
  {
    assert (es + [ev])[..|es|] == es;
    hide Step;
  }

  /** First boot: the timer fires while the mutex is held, and the card reconnects; the cancel misses the callback. */
  const FIRST_BOOT: seq<Event> :=
    [] + [Add(CARD, true)] + [Firmware(0, PROBE, true)] + [Del(CARD)] + [TimerFires(0)] + [Add(BOOTED, true)]

  /** Then the card is removed, comes back, and is sent firmware again. */
  const SECOND_BOOT: seq<Event> :=
    FIRST_BOOT + [Del(BOOTED)] + [Add(CARD, true)] + [Firmware(0, PROBE, true)]

  lemma FirstBoot()
    ensures EnvOk(INIT, FIRST_BOOT)
    ensures Exec(INIT, FIRST_BOOT).devs[0]
         == Slot(Some(BOOTED), 0, true, true, CONNECTED, 0, 4096, None, 7, true, false, true)
    ensures Exec(INIT, FIRST_BOOT).phase == Running
  {
    var e0, e1, e2, e3, e4 := Add(CARD, true), Firmware(0, PROBE, true), Del(CARD), TimerFires(0), Add(BOOTED, true);
    var s0: seq<Event> := [];
    Extend(s0, e0);
    var s1 := s0 + [e0];
    Extend(s1, e1);
    assert Exec(INIT, s1 + [e1]).devs[0].state == BOOTING;
    var s2 := s1 + [e1];
    Extend(s2, e2);
    var s3 := s2 + [e2];
    Extend(s3, e3);
    var s4 := s3 + [e3];
    Extend(s4, e4);
  }

  lemma CardBack()
    ensures var es := FIRST_BOOT + [Del(BOOTED)] + [Add(CARD, true)];
      && EnvOk(INIT, es) && Exec(INIT, es).phase == Running
      && var s := Exec(INIT, es).devs[0];
         s == Slot(Some(CARD), s.id, true, true, DISCONNECTED, -1, 0, None, 0, false, false, true)
  {
    FirstBoot();
    Extend(FIRST_BOOT, Del(BOOTED));
    var s6 := FIRST_BOOT + [Del(BOOTED)];
    assert Exec(INIT, s6).devs[0] == Slot(None, 0, false, false, DISCONNECTED, -1, 0, None, 0, false, false, true);
    Extend(s6, Add(CARD, true));
  }

  /** The slot's own timer need not be what ends a boot: in a run that the environment may well produce, a callback
      left over from the first boot fails the second one although its timer has just been scheduled. */
  lemma StaleCallbackFailsFreshBoot()
    ensures EnvOk(INIT, SECOND_BOOT)
    ensures var p := Exec(INIT, SECOND_BOOT);
      && p.devs[0].state == BOOTING && p.devs[0].pending
      && Step(p, TimeoutRuns(0)).devs[0].state == BOOT_FAILED && Step(p, TimeoutRuns(0)).devs[0].pending
  {
    CardBack();
    Extend(FIRST_BOOT + [Del(BOOTED)] + [Add(CARD, true)], Firmware(0, PROBE, true));
    hide Exec, EnvOk;
  }
}
