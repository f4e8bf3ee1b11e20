/** What every run of the slot state machine keeps. */
module SlotTheorems {
  import opened Words
  import opened SlotSpec

  // ------------------------------------------------------------ invariants

  /** The timer of slot i has not been cancelled for good. */
  predicate TimerLive(phase: Phase, i: nat) {
    phase == Running || (phase.Closing? && phase.cancelled <= i)
  }

  ghost predicate SlotInv(s: Slot, phase: Phase, i: nat) {
    && (!s.inUse ==> s.pdev.None? && !s.procDir && s.id == 0 && s.state == DISCONNECTED && !s.infoFresh)
    && (s.inUse ==> s.procDir)
    && (s.inUse && s.state != BOOTING && s.state != BOOT_FAILED ==> s.pdev.Some?)
    && (s.window.Some? ==> s.pdev.Some? && s.window.value == Window(s.bootBar, s.bootLen))
    && (s.state == CONNECTED || s.state == REBOOTING ==> !s.window.Some?)
    && (s.pending ==> s.state == BOOTING || s.state == BOOT_FAILED)
    && (s.state == BOOTING && TimerLive(phase, i) ==> s.pending || s.waiting)
    && (!TimerLive(phase, i) ==> !s.pending && !s.waiting)
    && (phase == Gone ==> !s.inUse)
  }

  function One(b: bool): int { if b then 1 else 0 }

  /** The number of slots that hold a device reference, and that hold a mapping. */
  function Holders(ds: seq<Slot>): int
    requires |ds| == 4
  {
    One(ds[0].pdev.Some?) + One(ds[1].pdev.Some?) + One(ds[2].pdev.Some?) + One(ds[3].pdev.Some?)
  }

  function Mappings(ds: seq<Slot>): int
    requires |ds| == 4
  {
    One(ds[0].window.Some?) + One(ds[1].window.Some?) + One(ds[2].window.Some?) + One(ds[3].window.Some?)
  }

  /** References taken and not dropped are those the slots hold; mappings likewise. */
  ghost predicate Conserved(p: Drv)
    requires |p.devs| == 4
  {
    && p.tally.gets - p.tally.puts == Holders(p.devs)
    && p.tally.maps - p.tally.unmaps == Mappings(p.devs)
  }

  /** Until the id counter has wrapped, the ids of live slots are distinct and below it. */
  ghost predicate Ids(p: Drv) {
    && (p.phase != Gone ==> p.nextId == Wrap32(p.tally.issued))
    && (p.tally.issued <= TWO32 ==>
          && (forall i :: 0 <= i < |p.devs| && p.devs[i].inUse ==> p.devs[i].id < p.tally.issued)
          && (forall i, j :: 0 <= i < j < |p.devs| && p.devs[i].inUse && p.devs[j].inUse ==>
                p.devs[i].id != p.devs[j].id))
  }

  ghost predicate SlotsInv(p: Drv) {
    forall i :: 0 <= i < |p.devs| ==> SlotInv(p.devs[i], p.phase, i)
  }

  ghost predicate DrvInv(p: Drv) {
    |p.devs| == 4 && SlotsInv(p) && Conserved(p) && Ids(p)
  }

  /** The environment assumption: a device that reconnects during boot is announced after the old one is gone. */
  ghost predicate AddAfterDel(p: Drv, ev: Event)
    requires |p.devs| == 4
  {
    ev.Add? && Enabled(p, ev) && IsVirtio(ev.dev) && 0 <= Target(ev) < 4 ==>
      (p.devs[Target(ev)].state == BOOTING ==> p.devs[Target(ev)].pdev.None?)
  }

  /** What a critical section does to its slot, apart from the slot's own invariant. */
  ghost predicate Balanced(l: Local, m: Local) {
    && m.t.gets - m.t.puts - One(m.s.pdev.Some?) == l.t.gets - l.t.puts - One(l.s.pdev.Some?)
    && m.t.maps - m.t.unmaps - One(m.s.window.Some?) == l.t.maps - l.t.unmaps - One(l.s.window.Some?)
  }

  /** The slot keeps its id, or gives it up, or takes the next one. */
  ghost predicate IdStep(l: Local, m: Local) {
    || (m.nextId == l.nextId && m.t.issued == l.t.issued && (m.s.inUse ==> l.s.inUse && m.s.id == l.s.id))
    || (m.nextId == Wrap32(l.nextId + 1) && m.t.issued == l.t.issued + 1 && !l.s.inUse && m.s.id == l.nextId)
  }

  /** What mapping may change: a BAR that is mapped stays as it is, and a new mapping is of the recorded BAR. */
  ghost predicate MapFrame(s: Slot, s1: Slot) {
    && s1 == s.(bootBar := s1.bootBar, bootLen := s1.bootLen, window := s1.window)
    && (s.window.Some? ==> s1.window.Some?)
    && (s.window.None? && s1.window.Some? ==> s1.window.value == Window(s1.bootBar, s1.bootLen))
  }

  lemma MapOnceFrame(s: Slot, m: MapTry)
    requires s.window.None?
    ensures MapFrame(s, MapOnce(s, m).0) && (MapOnce(s, m).0.window.Some? <==> MapOnce(s, m).1 == OK)
  {}

  lemma {:induction false} MapLoopFrame(s: Slot, tries: seq<MapTry>)
    requires s.window.None?
    ensures MapFrame(s, MapLoop(s, tries).0) && (MapLoop(s, tries).0.window.Some? <==> MapLoop(s, tries).1 == OK)
    decreases |tries|
  {
    if tries != [] {
      MapOnceFrame(s, tries[0]);
      hide MapOnce;
      if MapOnce(s, tries[0]).1 == ENXIO { MapLoopFrame(MapOnce(s, tries[0]).0, tries[1..]); }
    }
  }

  /** A mapping exists after the refresh exactly when it succeeded on a disconnected slot, or existed before. */
  lemma RefreshFrame(s: Slot, probe: Probe)
    ensures var (s1, ret) := Refresh(s, probe);
      && s1 == s.(bootBar := s1.bootBar, bootLen := s1.bootLen, window := s1.window, info := s1.info,
                  infoFresh := s1.infoFresh)
      && (s1.window.Some? <==> s.window.Some? || (s.state == DISCONNECTED && ret == OK))
      && (s.window.Some? ==> s1.bootBar == s.bootBar && s1.bootLen == s.bootLen && s1.window == s.window)
      && (s.infoFresh ==> s1.infoFresh && s1.info == s.info)
      && (!s1.infoFresh ==> s1.info == s.info)
      && (s1.window.Some? && s.window.None? ==> s.pdev.Some? && s1.window.value == Window(s1.bootBar, s1.bootLen))
      && (s.state == DISCONNECTED && ret == OK ==> s.pdev.Some?)
  {
    if s.window.None? { MapLoopFrame(s, probe.tries); }
  }

  // -------------------------------------------------- mapping the boot BAR

  /** By attempt k the BAR has been found, and in attempt k it has an address. */
  ghost predicate Usable(s: Slot, tries: seq<MapTry>, k: nat)
    requires k < |tries|
  {
    && tries[k].hasAddress
    && ((s.bootBar >= 0 && s.bootLen != 0) || exists j: nat :: j <= k && tries[j].len != 0)
  }

  function Verdict(m: MapTry): Errno {
    if !m.configOk then ECONFIG else if !m.iomapOk then EIO else OK
  }

  /** What one unusable attempt leaves behind for the next. */
  lemma UnusableAttempt(s: Slot, tries: seq<MapTry>, k: nat)
    requires 0 < k < |tries| && !Usable(s, tries, 0)
    ensures var s1 := MapOnce(s, tries[0]).0;
      MapOnce(s, tries[0]).1 == ENXIO && (Usable(s1, tries[1..], k - 1) <==> Usable(s, tries, k))
  {
    var s1 := MapOnce(s, tries[0]).0;
    assert tries[0].len != 0 ==> s1.bootBar >= 0 && s1.bootLen != 0;
    if j: nat :| j <= k - 1 && tries[1..][j].len != 0 { assert tries[j + 1].len != 0; }
    if j: nat :| 0 < j <= k && tries[j].len != 0 { assert tries[1..][j - 1].len != 0; }
  }

  /** The retry loop stops at the first usable attempt and returns what that attempt returns. */
  lemma {:induction false} FirstUsableDecides(s: Slot, tries: seq<MapTry>, k: nat)
    requires k < |tries| && Usable(s, tries, k) && forall j: nat :: j < k ==> !Usable(s, tries, j)
    ensures MapLoop(s, tries).1 == Verdict(tries[k])
    decreases |tries|
  {
    if k > 0 {
      var s1 := MapOnce(s, tries[0]).0;
      UnusableAttempt(s, tries, k);
      forall j: nat | j < k - 1 ensures !Usable(s1, tries[1..], j) { UnusableAttempt(s, tries, j + 1); }
      FirstUsableDecides(s1, tries[1..], k - 1);
    }
  }

  lemma {:induction false} NoneUsable(s: Slot, tries: seq<MapTry>)
    requires forall j: nat :: j < |tries| ==> !Usable(s, tries, j)
    ensures MapLoop(s, tries).1 == ENXIO
    decreases |tries|
  {
    if tries != [] {
      var s1 := MapOnce(s, tries[0]).0;
      forall j: nat | j < |tries[1..]| ensures !Usable(s1, tries[1..], j) { UnusableAttempt(s, tries, j + 1); }
      assert MapOnce(s, tries[0]).1 == ENXIO by { assert !Usable(s, tries, 0); }
      NoneUsable(s1, tries[1..]);
    }
  }

  /** Mapping an unmapped BAR times out exactly when none of the attempts is usable; otherwise the first usable one
      decides, whatever the later ones would have said. */
  lemma EnsureMappedExactly(s: Slot, tries: seq<MapTry>)
    requires !s.window.Some?
    ensures EnsureMapped(s, tries).1 == ETIMEDOUT <==> forall j: nat :: j < |tries| ==> !Usable(s, tries, j)
    ensures forall k: nat ::
      (k < |tries| && Usable(s, tries, k) && (forall j: nat :: j < k ==> !Usable(s, tries, j))) ==>
      EnsureMapped(s, tries).1 == Verdict(tries[k])
  {
    if forall j: nat :: j < |tries| ==> !Usable(s, tries, j) {
      NoneUsable(s, tries);
    } else {
      FirstUsableDecides(s, tries, FirstUsable(s, tries, 0));
    }
    hide MapLoop;
    forall k: nat | k < |tries| && Usable(s, tries, k) && forall j: nat :: j < k ==> !Usable(s, tries, j)
      ensures EnsureMapped(s, tries).1 == Verdict(tries[k])
    {
      FirstUsableDecides(s, tries, k);
      hide Usable;
    }
  }

  ghost function FirstUsable(s: Slot, tries: seq<MapTry>, i: nat): (k: nat)
    requires i < |tries| && forall j: nat :: j < i ==> !Usable(s, tries, j)
    requires exists j: nat :: j < |tries| && Usable(s, tries, j)
    ensures k < |tries| && Usable(s, tries, k) && forall j: nat :: j < k ==> !Usable(s, tries, j)
    decreases |tries| - i
  {
    if Usable(s, tries, i) then i else FirstUsable(s, tries, i + 1)
  }

  // ------------------------------------------------------- one slot, again

  lemma LocalStepKeeps(l: Local, ev: Event, phase: Phase, i: nat)
    requires SlotInv(l.s, phase, i) && phase != Gone
    requires ev.Firmware? ==> phase == Running
    requires ev.CancelTimer? ==> phase == Closing(i)
    requires ev.Add? && IsVirtio(ev.dev) && l.s.state == BOOTING ==> l.s.pdev.None?
    ensures var m := LocalStep(l, ev);
      && SlotInv(m.s, if ev.CancelTimer? then Closing(i + 1) else phase, i)
      && Balanced(l, m) && IdStep(l, m)
  {
    hide Refresh, Wrap32;
    match ev
    case Query(_, probe) => RefreshFrame(l.s, probe);
    case Firmware(_, probe, _) => RefreshFrame(l.s, probe);
    case _ =>
  }

  // ------------------------------------------------------------ every step

  lemma PutBackKeeps(p: Drv, i: nat, l: Local)
    requires |p.devs| == 4 && i < 4 && Conserved(p) && Ids(p) && p.phase != Gone
    requires Balanced(At(p, i), l) && IdStep(At(p, i), l)
    ensures Conserved(PutBack(p, i, l)) && Ids(PutBack(p, i, l))
  {
    PutBackConserves(p, i, l);
    PutBackKeepsIds(p, i, l);
    hide Conserved, Ids;
  }

  lemma PutBackConserves(p: Drv, i: nat, l: Local)
    requires |p.devs| == 4 && i < 4 && Conserved(p) && Balanced(At(p, i), l)
    ensures Conserved(PutBack(p, i, l))
  {
    SumsAfterUpdate(p.devs, i, l.s);
    hide Holders, Mappings;
  }

  lemma SumsAfterUpdate(ds: seq<Slot>, i: nat, s: Slot)
    requires |ds| == 4 && i < 4
    ensures Holders(ds[i := s]) == Holders(ds) - One(ds[i].pdev.Some?) + One(s.pdev.Some?)
    ensures Mappings(ds[i := s]) == Mappings(ds) - One(ds[i].window.Some?) + One(s.window.Some?)
  {
    hide One;
  }

  lemma PutBackKeepsIds(p: Drv, i: nat, l: Local)
    requires |p.devs| == 4 && i < 4 && Ids(p) && IdStep(At(p, i), l) && p.phase != Gone
    ensures Ids(PutBack(p, i, l))
  {
    WrapLinear(p.tally.issued, 1);
    if l.t.issued <= TWO32 && l.t.issued > p.tally.issued { WrapSmall(p.tally.issued); }
  }

  lemma SlotEventKeepsInv(p: Drv, ev: Event)
    requires DrvInv(p) && AddAfterDel(p, ev) && Enabled(p, ev) && p.phase != Gone && 0 <= Target(ev) < 4
    ensures DrvInv(Step(p, ev))
  {
    var i := Target(ev);
    LocalStepKeeps(At(p, i), ev, p.phase, i);
    PutBackKeeps(p, i, LocalStep(At(p, i), ev));
    hide LocalStep, Holders, Mappings, IdStep, Balanced, Ids;
    if ev.CancelTimer? {
      forall j | 0 <= j < 4 && j != i ensures SlotInv(p.devs[j], Closing(i + 1), j) {
        assert SlotInv(p.devs[j], p.phase, j);
      }
    }
    hide SlotInv;
  }

  lemma ReleaseLocalKeeps(l: Local, i: nat)
    requires SlotInv(l.s, Closing(4), i) && i < 4
    ensures SlotInv(Release(l).s, Gone, i) && Balanced(l, Release(l)) && IdStep(l, Release(l))
  {}

  lemma {:induction false} ReleaseUpToKeeps(p: Drv, k: nat)
    requires |p.devs| == 4 && k <= 4 && SlotsInv(p) && Conserved(p) && Ids(p) && p.phase == Closing(4)
    ensures var q := ReleaseUpTo(p, k);
      && Conserved(q) && Ids(q) && q.devs[k..] == p.devs[k..]
      && forall i :: 0 <= i < k ==> SlotInv(q.devs[i], Gone, i)
    decreases k
  {
    if k > 0 {
      var q, i := ReleaseUpTo(p, k - 1), k - 1;
      ReleaseUpToKeeps(p, i);
      assert q.devs[i] == q.devs[i..][0] == p.devs[i] && SlotInv(p.devs[i], Closing(4), i);
      ReleaseLocalKeeps(At(q, i), i);
      PutBackKeeps(q, i, Release(At(q, i)));
      assert ReleaseUpTo(p, k).devs[k..] == q.devs[i..][1..];
      hide Conserved, Ids, SlotInv, Release, Balanced, IdStep;
    }
  }

  lemma StepKeepsInv(p: Drv, ev: Event)
    requires DrvInv(p) && AddAfterDel(p, ev)
    ensures DrvInv(Step(p, ev))
  {
    if Enabled(p, ev) {
      match ev
      case ReleaseAll => ReleaseUpToKeeps(p, 4);
      case Unregister =>
      case _ => if 0 <= Target(ev) < 4 { SlotEventKeepsInv(p, ev); }
    }
  }

  /** The invariant survives a step exactly when the environment kept its side: a reconnect that overtakes the
      matching removal leaks a device reference. */
  lemma StepKeepsInvExactly(p: Drv, ev: Event)
    requires DrvInv(p)
    ensures DrvInv(Step(p, ev)) <==> AddAfterDel(p, ev)
  {
    if AddAfterDel(p, ev) {
      StepKeepsInv(p, ev);
    } else {
      var i := Target(ev);
      var q := Step(p, ev);
      assert p.devs[i].inUse by { assert SlotInv(p.devs[i], p.phase, i); }
      assert q.devs == p.devs[i := q.devs[i]] && q.devs[i].pdev.Some? && p.devs[i].pdev.Some?;
      assert Holders(q.devs) == Holders(p.devs) && q.tally.gets == p.tally.gets + 1 && q.tally.puts == p.tally.puts;
    }
  }

  // -------------------------------------------------------------- all runs

  /** The environment keeps its side throughout the run. */
  ghost predicate EnvOk(p: Drv, evs: seq<Event>)
    requires |p.devs| == 4
    decreases |evs|
  {
    evs != [] ==>
      var init, last := evs[..|evs| - 1], evs[|evs| - 1];
      EnvOk(p, init) && AddAfterDel(Exec(p, init), last)
  }

  /** One event more. */
  lemma ExecOneMore(p: Drv, evs: seq<Event>, ev: Event)
    requires |p.devs| == 4
    ensures Exec(p, evs + [ev]) == Step(Exec(p, evs), ev)
  {
    assert (evs + [ev])[..|evs|] == evs;
    hide Step;
  }

  /** Safety over whole runs, from module load on. */
  lemma {:induction false} RunKeepsInv(evs: seq<Event>)
    requires EnvOk(INIT, evs)
    ensures DrvInv(Exec(INIT, evs))
    decreases |evs|
  {
    if evs != [] {
      RunKeepsInv(evs[..|evs| - 1]);
      StepKeepsInv(Exec(INIT, evs[..|evs| - 1]), evs[|evs| - 1]);
    }
  }

  /** The same from any good state on, as long as no device is announced. */
  lemma {:induction false} NoAddsKeepInv(p: Drv, evs: seq<Event>)
    requires DrvInv(p) && forall ev :: ev in evs ==> !ev.Add?
    ensures DrvInv(Exec(p, evs))
    decreases |evs|
  {
    if evs != [] {
      var init, last := evs[..|evs| - 1], evs[|evs| - 1];
      NoAddsKeepInv(p, init);
      assert last in evs;
      StepKeepsInv(Exec(p, init), last);
    }
  }

  /** Every reference dropped, every mapping undone, no slot in use, no timer or callback left. */
  ghost predicate NothingHeld(p: Drv) {
    && p.tally.gets == p.tally.puts && p.tally.maps == p.tally.unmaps
    && forall i :: 0 <= i < |p.devs| ==> !p.devs[i].inUse && !p.devs[i].pending && !p.devs[i].waiting
  }

  lemma GoneMeansNothingHeld(p: Drv)
    requires DrvInv(p) && p.phase == Gone
    ensures NothingHeld(p)
  {
    assert forall i :: 0 <= i < 4 ==> SlotInv(p.devs[i], Gone, i);
  }

  /** After module exit nothing is held, whatever happened before and between the steps of the exit. */
  lemma ExitReleasesEverything(evs: seq<Event>)
    requires EnvOk(INIT, evs) && Exec(INIT, evs).phase == Gone
    ensures NothingHeld(Exec(INIT, evs))
  {
    RunKeepsInv(evs);
    GoneMeansNothingHeld(Exec(INIT, evs));
  }
}
