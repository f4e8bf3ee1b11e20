/** What each event does to the driver, field by field and in the numbers of the hardware, on its own terms. */
module SlotEffects {
  import opened Words
  import opened SlotSpec
  import opened SlotTheorems

  /** Slot i, the id counter and the tally may differ, nothing else. */
  ghost predicate OnlySlot(p: Drv, q: Drv, i: nat) {
    && |q.devs| == |p.devs| && q.phase == p.phase
    && forall j :: 0 <= j < |p.devs| && j != i ==> q.devs[j] == p.devs[j]
  }

  // -------------------------------------------------------- notifications

  /** Which devices the driver takes: vendor 0x2134 with a first BAR, and either device 0x0500 or device 0x0006 with
      0xff in bits 16 to 23 of its class. */
  lemma AddExactly(p: Drv, dev: Pdev, procOk: bool, i: nat)
    requires |p.devs| == 4 && p.phase == Running && i < 4 && dev.bus == i + 1
    ensures var q := Step(p, Add(dev, procOk));
      var s, t := p.devs[i], q.devs[i];
      && OnlySlot(p, q, i)
      && (!s.inUse ==>
            (t.inUse <==> procOk && dev.vendor == 0x2134 && dev.bar0Len != 0
                          && (dev.device == 0x0500 || (dev.device == 0x0006 && dev.class_ / 0x1_0000 % 0x100 == 0xff))))
      && (!s.inUse && t.inUse ==>
            && t.pdev == Some(dev) && t.id == p.nextId && t.procDir
            && t.state == (if dev.device == 0x0500 then CONNECTED else DISCONNECTED)
            && t.bootBar == -1 && t.bootLen == 0 && t.window.None? && !t.infoFresh && t.info == 0
            && t.pending == s.pending && t.waiting == s.waiting
            && q.nextId == (p.nextId + 1) % 0x1_0000_0000
            && q.tally == p.tally.(gets := p.tally.gets + 1, issued := p.tally.issued + 1))
      && (!s.inUse && !t.inUse ==> t == s.(procDir := t.procDir) && q.nextId == p.nextId && q.tally == p.tally)
      && (s.inUse ==>
            if s.state == BOOTING && dev.vendor == 0x2134 && dev.device == 0x0500 && dev.bar0Len != 0
            then t == s.(pdev := Some(dev), pending := false, state := CONNECTED) && q.nextId == p.nextId
                 && q.tally == p.tally.(gets := p.tally.gets + 1)
            else q == p)
  {
    assert p.devs[i := p.devs[i]] == p.devs;
  }

  /** Buses 1 to 4 are the slots 0 to 3; devices on others are nobody's. */
  lemma OtherBusIgnored(p: Drv, dev: Pdev, procOk: bool)
    requires |p.devs| == 4 && !(1 <= dev.bus <= 4)
    ensures Step(p, Add(dev, procOk)) == p && Step(p, Del(dev)) == p
  {}

  /** What a slot is after its release. */
  ghost predicate Blank(t: Slot, s: Slot) {
    && t.pdev.None? && t.id == 0 && !t.procDir && !t.inUse && t.state == DISCONNECTED
    && t.bootBar == -1 && t.bootLen == 0 && t.window.None? && t.info == 0 && !t.infoFresh
    && !t.pending && t.waiting == s.waiting
  }

  /** The device and its mapping are given up, and nothing else is counted. */
  ghost predicate GivenUp(p: Drv, q: Drv, s: Slot) {
    && q.tally == p.tally.(puts := p.tally.puts + One(s.pdev.Some?), unmaps := p.tally.unmaps + One(s.window.Some?))
    && q.nextId == p.nextId
  }

  /** A removal takes the device and its mapping from a booting slot and leaves it waiting; any other slot it clears. */
  lemma DelExactly(p: Drv, dev: Pdev, i: nat)
    requires |p.devs| == 4 && p.phase == Running && i < 4 && dev.bus == i + 1 && SlotInv(p.devs[i], Running, i)
    ensures var q := Step(p, Del(dev));
      var s, t := p.devs[i], q.devs[i];
      && OnlySlot(p, q, i)
      && (!s.inUse ==> q == p)
      && (s.inUse ==> GivenUp(p, q, s))
      && (s.inUse && s.state == BOOTING ==> t == s.(pdev := None, window := None))
      && (s.inUse && s.state != BOOTING ==> Blank(t, s))
  {
    assert p.devs[i := p.devs[i]] == p.devs;
  }

  // ------------------------------------------------------------- mapping

  /** Some attempt is usable, and the first that is gets through both calls. */
  ghost predicate MapsOk(s: Slot, tries: seq<MapTry>) {
    exists k: nat :: FirstUsableIs(s, tries, k) && tries[k].configOk && tries[k].iomapOk
  }

  ghost predicate FirstUsableIs(s: Slot, tries: seq<MapTry>, k: nat) {
    k < |tries| && Usable(s, tries, k) && forall j: nat :: j < k ==> !Usable(s, tries, j)
  }

  /** A BAR was found before. */
  predicate Found(s: Slot) { s.bootBar >= 0 && s.bootLen != 0 }

  /** Try k is the first that finds a BAR. */
  ghost predicate FirstFindIs(tries: seq<MapTry>, k: nat) {
    k < |tries| && tries[k].len != 0 && forall j: nat :: j < k ==> tries[j].len == 0
  }

  /** The BAR that the slot records: the one found before, or the first that is found. */
  ghost predicate Records(s: Slot, tries: seq<MapTry>, t: Slot) {
    && (Found(s) ==> t.bootBar == s.bootBar && t.bootLen == s.bootLen)
    && (!Found(s) ==> forall k: nat :: FirstFindIs(tries, k) ==> t.bootBar == tries[k].bar && t.bootLen == tries[k].len)
    && (!Found(s) && (forall k: nat :: k < |tries| ==> tries[k].len == 0) ==>
          t.bootBar == s.bootBar && t.bootLen == s.bootLen)
  }

  /** One attempt: it records a BAR that it finds, needs its address, and then both calls. */
  lemma OneTryExactly(s: Slot, m: MapTry)
    ensures var (t, ret) := MapOnce(s, m);
      && t == s.(bootBar := t.bootBar, bootLen := t.bootLen, window := t.window)
      && (if Found(s) || m.len == 0 then t.bootBar == s.bootBar && t.bootLen == s.bootLen
          else t.bootBar == m.bar && t.bootLen == m.len)
      && t.window == (if ret == OK then Some(Window(t.bootBar, t.bootLen)) else s.window)
      && (ret == ENXIO <==> (!Found(s) && m.len == 0) || !m.hasAddress)
      && (ret == ECONFIG <==> (Found(s) || m.len != 0) && m.hasAddress && !m.configOk)
      && (ret == EIO <==> (Found(s) || m.len != 0) && m.hasAddress && m.configOk && !m.iomapOk)
      && (ret == OK <==> (Found(s) || m.len != 0) && m.hasAddress && m.configOk && m.iomapOk)
  {}

  lemma {:induction false} LoopRecords(s: Slot, tries: seq<MapTry>)
    ensures Records(s, tries, MapLoop(s, tries).0)
    decreases |tries|
  {
    if tries != [] {
      var s1 := MapOnce(s, tries[0]).0;
      OneTryExactly(s, tries[0]);
      hide MapOnce;
      if MapOnce(s, tries[0]).1 == ENXIO { LoopRecords(s1, tries[1..]); }
      forall k: nat | !Found(s) && FirstFindIs(tries, k)
        ensures MapLoop(s, tries).0.bootBar == tries[k].bar && MapLoop(s, tries).0.bootLen == tries[k].len
      {
        if k > 0 { assert tries[0].len == 0 && FirstFindIs(tries[1..], k - 1); }
      }
      if !Found(s) && forall k: nat :: k < |tries| ==> tries[k].len == 0 {
        assert tries[0].len == 0;
        assert forall k: nat :: k < |tries[1..]| ==> tries[1..][k] == tries[k + 1];
      }
    }
  }

  /** Mapping an unmapped BAR: which BAR is recorded, when there is a mapping afterwards, and of what. */
  lemma MappingExactly(s: Slot, tries: seq<MapTry>)
    requires s.window.None?
    ensures var (t, ret) := EnsureMapped(s, tries);
      && t == s.(bootBar := t.bootBar, bootLen := t.bootLen, window := t.window)
      && Records(s, tries, t)
      && (ret == OK <==> MapsOk(s, tries)) && (t.window.Some? <==> MapsOk(s, tries))
      && (t.window.Some? ==> t.window.value == Window(t.bootBar, t.bootLen))
      && (ret == ETIMEDOUT <==> forall k: nat :: k < |tries| ==> !Usable(s, tries, k))
  {
    LoopRecords(s, tries);
    MapLoopFrame(s, tries);
    EnsureMappedExactly(s, tries);
    hide MapLoop, Records;
    if !(forall k: nat :: k < |tries| ==> !Usable(s, tries, k)) {
      var k := FirstUsable(s, tries, 0);
      assert FirstUsableIs(s, tries, k);
      forall j: nat | FirstUsableIs(s, tries, j) ensures j == k {}
    }
  }

  // ------------------------------------------------- queries and firmware

  /** A refresh of a disconnected slot that holds a device maps its BAR if it can, and reads the board info once. */
  ghost predicate Refreshed(s: Slot, probe: Probe, t: Slot) {
    && t == s.(bootBar := t.bootBar, bootLen := t.bootLen, window := t.window, info := t.info,
               infoFresh := t.infoFresh, state := t.state, pending := t.pending)
    && (t.window.Some? <==> s.window.Some? || MapsOk(s, probe.tries))
    && (s.window.Some? ==> t.bootBar == s.bootBar && t.bootLen == s.bootLen && t.window == s.window)
    && (s.window.None? ==> Records(s, probe.tries, t))
    && (s.window.None? && t.window.Some? ==> t.window.value == Window(t.bootBar, t.bootLen))
    && (t.window.Some? ==> t.infoFresh && t.info == if s.infoFresh then s.info else probe.info)
    && (t.window.None? ==> t.infoFresh == s.infoFresh && t.info == s.info)
  }

  lemma RefreshExactly(s: Slot, probe: Probe)
    ensures var (t, ret) := Refresh(s, probe);
      && (s.state != DISCONNECTED ==> t == s && ret == OK)
      && (s.state == DISCONNECTED && s.pdev.None? ==> t == s && ret == ENODEV)
      && (s.state == DISCONNECTED && s.pdev.Some? ==>
            Refreshed(s, probe, t) && t.state == s.state && t.pending == s.pending && (ret == OK <==> t.window.Some?))
  {
    if s.window.None? { MappingExactly(s, probe.tries); }
    hide EnsureMapped, Records, MapsOk;
    if s.window.Some? { assert EnsureMapped(s, probe.tries) == (s, OK) by { AlreadyMapped(s, probe.tries); } }
  }

  lemma AlreadyMapped(s: Slot, tries: seq<MapTry>)
    requires s.window.Some?
    ensures EnsureMapped(s, tries) == (s, OK)
  {}

  /** The mapping that a refresh adds is counted, and nothing else. */
  ghost predicate MapCounted(p: Drv, q: Drv, s: Slot, t: Slot) {
    && q.tally == p.tally.(maps := p.tally.maps + One(s.window.None? && t.window.Some?))
    && q.nextId == p.nextId
  }

  /** A query refreshes a disconnected slot that is in use, and changes nothing otherwise. */
  lemma QueryExactly(p: Drv, probe: Probe, i: nat)
    requires |p.devs| == 4 && p.phase != Gone && i < 4 && |probe.tries| == 3
    ensures var q := Step(p, Query(i, probe));
      var s, t := p.devs[i], q.devs[i];
      && OnlySlot(p, q, i)
      && (s.inUse && s.state == DISCONNECTED && s.pdev.Some? ==>
            Refreshed(s, probe, t) && t.state == s.state && t.pending == s.pending && MapCounted(p, q, s, t))
      && (!(s.inUse && s.state == DISCONNECTED && s.pdev.Some?) ==> q == p)
  {
    RefreshExactly(p.devs[i], probe);
    assert p.devs[i := p.devs[i]] == p.devs;
    hide Refresh, Refreshed;
  }

  /** The firmware ioctl does the same, and if the BAR is mapped and the firmware delivered, the slot boots and its
      timer runs. */
  lemma FirmwareExactly(p: Drv, probe: Probe, delivered: bool, i: nat)
    requires |p.devs| == 4 && p.phase == Running && i < 4 && |probe.tries| == 3
    ensures var q := Step(p, Firmware(i, probe, delivered));
      var s, t := p.devs[i], q.devs[i];
      && OnlySlot(p, q, i)
      && (s.inUse && s.state == DISCONNECTED && s.pdev.Some? ==>
            && Refreshed(s, probe, t) && MapCounted(p, q, s, t)
            && (if delivered && t.window.Some? then t.state == BOOTING && t.pending
                else t.state == DISCONNECTED && t.pending == s.pending))
      && (!(s.inUse && s.state == DISCONNECTED && s.pdev.Some?) ==> q == p)
  {
    var s := p.devs[i];
    RefreshExactly(s, probe);
    assert p.devs[i := s] == p.devs;
    hide Refresh, Records, MapsOk;
  }

  // ------------------------------------------------- reboot, timers, exit

  lemma RebootExactly(p: Drv, i: nat)
    requires |p.devs| == 4 && p.phase != Gone && i < 4
    ensures Step(p, Reboot(i)) ==
      if p.devs[i].pdev.Some? && p.devs[i].state == CONNECTED
      then p.(devs := p.devs[i := p.devs[i].(state := REBOOTING)]) else p
  {
    assert p.devs[i := p.devs[i]] == p.devs;
  }

  /** The slot after its callback ran. */
  predicate CallbackRan(s: Slot, t: Slot) {
    t == s.(waiting := false, state := if s.waiting && s.inUse && s.state == BOOTING then BOOT_FAILED else s.state)
  }

  lemma TimersExactly(p: Drv, i: nat)
    requires |p.devs| == 4 && i < 4
    ensures p.phase != Gone ==>
      && Step(p, TimerFires(i)) == (if p.devs[i].pending && !p.devs[i].waiting
                                    then p.(devs := p.devs[i := p.devs[i].(pending := false, waiting := true)]) else p)
      && var q := Step(p, TimeoutRuns(i));
         q == p.(devs := q.devs) && OnlySlot(p, q, i) && CallbackRan(p.devs[i], q.devs[i])
    ensures p.phase == Closing(i) ==>
      var q := Step(p, CancelTimer(i));
      && q == p.(devs := q.devs, phase := Closing(i + 1)) && OnlySlot(p.(phase := q.phase), q, i)
      && CallbackRan(p.devs[i].(pending := false), q.devs[i])
  {
    assert p.devs[i := p.devs[i]] == p.devs;
  }

  lemma ReleasedOne(l: Local)
    ensures if l.s.inUse then Blank(Release(l).s, l.s) else Release(l) == l
    ensures Release(l).nextId == l.nextId
  {}

  lemma {:induction false} ReleasedUpTo(p: Drv, k: nat)
    requires |p.devs| == 4 && k <= 4
    ensures var q := ReleaseUpTo(p, k);
      && q.nextId == p.nextId && q.devs[k..] == p.devs[k..]
      && forall i :: 0 <= i < k ==> if p.devs[i].inUse then Blank(q.devs[i], p.devs[i]) else q.devs[i] == p.devs[i]
    decreases k
  {
    if k > 0 {
      ReleasedUpTo(p, k - 1);
      var q := ReleaseUpTo(p, k - 1);
      assert q.devs[k - 1..][0] == q.devs[k - 1] && p.devs[k - 1..][0] == p.devs[k - 1];
      ReleasedOne(At(q, k - 1));
      assert ReleaseUpTo(p, k).devs[k..] == q.devs[k - 1..][1..] && p.devs[k - 1..][1..] == p.devs[k..];
      hide Release, Blank;
    }
  }

  /** Exit: the notifier goes first, and the release clears every slot in use and the id counter. */
  lemma ExitStepsExactly(p: Drv)
    requires |p.devs| == 4
    ensures p.phase == Running ==> Step(p, Unregister) == p.(phase := Closing(0))
    ensures p.phase == Closing(4) ==>
      var q := Step(p, ReleaseAll);
      && q.phase == Gone && q.nextId == 0
      && forall i :: 0 <= i < 4 ==> if p.devs[i].inUse then Blank(q.devs[i], p.devs[i]) else q.devs[i] == p.devs[i]
  {
    ReleasedUpTo(p, 4);
    hide ReleaseUpTo, Blank;
  }
}
