/** The driver's slot table, updated in place by its handlers; each handler runs under the driver's mutex. */
module Platforms {
  import opened Words
  import opened SlotSpec
  import opened SlotTheorems

  class Platform {
    const devs: array<Slot>
    var nextId: u32
    ghost var tally: Tally
    ghost var phase: Phase

    ghost function View(): Drv
      reads this, devs
    {
      Drv(devs[..], nextId, tally, phase)
    }

    ghost predicate Valid() { devs.Length == 4 }

    /** amba_pci_platform_init, once the notifier is registered. */
    constructor ()
      ensures Valid() && View() == INIT && fresh(devs)
    {
      devs := new Slot[4](_ => FRESH);
      nextId, tally, phase := 0, Tally(0, 0, 0, 0, 0), Running;
      new;
      assert devs[..] == [FRESH, FRESH, FRESH, FRESH];
    }

    /** get_pci_slot_id. */
    method GetPciSlotId(bus: nat) returns (ret: int)
      ensures ret == SlotOfBus(bus) == if 1 <= bus <= 4 then bus - 1 else -1
    {
      ret := -1;
      for i := 0 to DEV_MAX
        invariant forall k :: 0 <= k < i ==> PHYSICAL_BUSES[k] != bus
      {
        if bus == PHYSICAL_BUSES[i] {
          return i;
        }
      }
      assert PHYSICAL_BUSES[0] == 1 && PHYSICAL_BUSES[1] == 2 && PHYSICAL_BUSES[2] == 3 && PHYSICAL_BUSES[3] == 4;
    }

    /** pcie_boot_bar_unmap. */
    method BootBarUnmap(i: nat)
      requires Valid() && i < 4
      modifies this`tally, devs
      ensures View() == PutBack(old(View()), i, Unmap(At(old(View()), i)))
    {
      if !devs[i].window.Some? {
        assert devs[..] == devs[..][i := devs[i]];
        return;
      }
      tally := tally.(unmaps := tally.unmaps + 1);
      devs[i] := devs[i].(window := None);
    }

    /** pcie_entry_detach_pdev. */
    method EntryDetachPdev(i: nat)
      requires Valid() && i < 4
      modifies this`tally, devs
      ensures View() == PutBack(old(View()), i, Detach(At(old(View()), i)))
    {
      if devs[i].pdev.None? {
        assert devs[..] == devs[..][i := devs[i]];
        return;
      }
      BootBarUnmap(i);
      tally := tally.(puts := tally.puts + 1);
      devs[i] := devs[i].(pdev := None);
    }

    /** pcie_release_dev. */
    method ReleaseDev(i: nat)
      requires Valid() && i < 4
      modifies this`tally, devs
      ensures View() == PutBack(old(View()), i, Release(At(old(View()), i)))
    {
      if !devs[i].inUse {
        assert devs[..] == devs[..][i := devs[i]];
        return;
      }
      EntryDetachPdev(i);
      devs[i] := devs[i].(pending := false);
      if devs[i].procDir {
        devs[i] := devs[i].(procDir := false);
      }
      devs[i] := devs[i].(id := 0, inUse := false, state := DISCONNECTED);
      devs[i] := devs[i].(bootBar := -1, bootLen := 0, window := None);
      devs[i] := devs[i].(infoFresh := false, info := 0);
    }

    /** pcie_init_slot; procOk tells whether the proc nodes could be created. */
    method InitSlot(i: nat, dev: Pdev, procOk: bool) returns (ret: Errno)
      requires Valid() && i < 4
      modifies this`tally, this`nextId, devs
      ensures View() == PutBack(old(View()), i, SlotSpec.InitSlot(At(old(View()), i), dev, procOk))
      ensures ret == OK <==> procOk
    {
      devs[i] := devs[i].(procDir := procOk);
      if !procOk {
        return ENOMEM;
      }
      tally := tally.(gets := tally.gets + 1, issued := tally.issued + 1);
      devs[i] := devs[i].(pdev := Some(dev), id := nextId);
      nextId := Wrap32(nextId as int + 1);
      devs[i] := devs[i].(infoFresh := false, info := 0);
      devs[i] := devs[i].(bootBar := -1, bootLen := 0, window := None);
      devs[i] := devs[i].(state := DISCONNECTED, inUse := true);
      return OK;
    }

    /** pcie_try_reconnect_booting_locked. */
    method TryReconnectBooting(i: nat, dev: Pdev)
      requires Valid() && i < 4
      modifies this`tally, devs
      ensures View() == PutBack(old(View()), i, Reconnect(At(old(View()), i), dev))
    {
      tally := tally.(gets := tally.gets + 1);
      devs[i] := devs[i].(pdev := Some(dev));
      devs[i] := devs[i].(pending := false);
      devs[i] := devs[i].(state := CONNECTED);
    }

    /** pcie_handle_add_locked. */
    method HandleAdd(dev: Pdev, procOk: bool)
      requires Valid() && phase == Running
      modifies this`tally, this`nextId, devs
      ensures View() == Step(old(View()), Add(dev, procOk))
    {
      hide Holders, Mappings;
      var i := GetPciSlotId(dev.bus);
      if i < 0 {
        return;
      }
      ghost var l := At(View(), i);
      assert devs[..][i := devs[i]] == devs[..];
      if devs[i].inUse {
        if devs[i].state == BOOTING && IsVirtio(dev) {
          TryReconnectBooting(i, dev);
        }
      } else if IsVirtio(dev) {
        var ret := InitSlot(i, dev, procOk);
        if ret == OK {
          devs[i] := devs[i].(state := CONNECTED);
        }
      } else if IsTarget(dev) {
        var _ := InitSlot(i, dev, procOk);
      }
      assert View() == PutBack(old(View()), i, AddLocal(l, dev, procOk));
    }

    /** pcie_handle_del_locked. */
    method HandleDel(dev: Pdev)
      requires Valid() && phase == Running
      modifies this`tally, devs
      ensures View() == Step(old(View()), Del(dev))
    {
      var i := GetPciSlotId(dev.bus);
      if i < 0 {
        return;
      }
      assert devs[..][i := devs[i]] == devs[..];
      if !devs[i].inUse {
        return;
      }
      if devs[i].state == BOOTING {
        EntryDetachPdev(i);
      } else {
        ReleaseDev(i);
      }
    }

    /** pcie_map_boot_bar, for one set of answers from the kernel. */
    method MapBootBar(i: nat, m: MapTry) returns (ret: Errno)
      requires Valid() && i < 4 && !devs[i].window.Some?
      modifies this`tally, devs
      ensures var (s, err) := MapOnce(old(devs[i]), m);
        ret == err && View() == PutBack(old(View()), i, Local(s, nextId, CountMap(old(tally), old(devs[i]), s)))
    {
      assert devs[..][i := devs[i]] == devs[..];
      if devs[i].bootBar < 0 || devs[i].bootLen == 0 {
        if m.len == 0 {
          return ENXIO;
        }
        devs[i] := devs[i].(bootBar := m.bar, bootLen := m.len);
      }
      if !m.hasAddress {
        return ENXIO;
      }
      if !m.configOk {
        return ECONFIG;
      }
      if !m.iomapOk {
        return EIO;
      }
      tally := tally.(maps := tally.maps + 1);
      devs[i] := devs[i].(window := Some(Window(devs[i].bootBar, devs[i].bootLen)));
      return OK;
    }

    /** pcie_boot_bar_ensure_mapped: up to three attempts, and only an unassigned BAR is tried again. */
    method EnsureMapped(i: nat, tries: seq<MapTry>) returns (ret: Errno)
      requires Valid() && i < 4 && |tries| == MAP_RETRIES
      modifies this`tally, devs
      ensures var (s, err) := SlotSpec.EnsureMapped(old(devs[i]), tries);
        ret == err && View() == PutBack(old(View()), i, Local(s, nextId, CountMap(old(tally), old(devs[i]), s)))
    {
      assert devs[..][i := devs[i]] == devs[..];
      if devs[i].window.Some? {
        return OK;
      }
      ret := ENXIO;
      for attempt := 0 to MAP_RETRIES
        invariant ret == ENXIO && !devs[i].window.Some? && tally == old(tally)
        invariant devs[..] == old(devs[..])[i := devs[i]]
        invariant MapLoop(devs[i], tries[attempt..]) == MapLoop(old(devs[i]), tries)
      {
        assert tries[attempt..][0] == tries[attempt] && tries[attempt..][1..] == tries[attempt + 1..];
        ret := MapBootBar(i, tries[attempt]);
        if ret != ENXIO {
          return;
        }
      }
      ret := ETIMEDOUT;
    }

    /** pcie_dev_refresh_board_info_locked. */
    method RefreshBoardInfo(i: nat, probe: Probe) returns (ret: Errno)
      requires Valid() && i < 4 && |probe.tries| == MAP_RETRIES
      modifies this`tally, devs
      ensures var (s, err) := Refresh(old(devs[i]), probe);
        ret == err && View() == PutBack(old(View()), i, Local(s, nextId, CountMap(old(tally), old(devs[i]), s)))
    {
      if devs[i].window.None? { MapLoopFrame(devs[i], probe.tries); }
      assert devs[..][i := devs[i]] == devs[..];
      if devs[i].state != DISCONNECTED {
        return OK;
      }
      if devs[i].pdev.None? {
        return ENODEV;
      }
      ret := EnsureMapped(i, probe.tries);
      if ret != OK {
        return;
      }
      if !devs[i].infoFresh && devs[i].window.Some? {
        devs[i] := devs[i].(info := probe.info, infoFresh := true);
      }
    }

    /** pcie_query_dev_info_locked, as far as it changes the slot. */
    method QueryDev(i: nat, probe: Probe)
      requires Valid() && i < 4 && |probe.tries| == MAP_RETRIES && phase != Gone
      modifies this`tally, devs
      ensures View() == Step(old(View()), Query(i, probe))
    {
      assert devs[..][i := devs[i]] == devs[..];
      if devs[i].inUse {
        var _ := RefreshBoardInfo(i, probe);
      }
      hide Refresh;
    }

    /** pcie_reboot_write_entry, the part under the mutex. */
    method RebootWrite(i: nat) returns (ret: Errno)
      requires Valid() && i < 4 && phase != Gone
      modifies devs
      ensures View() == Step(old(View()), Reboot(i))
      ensures ret == OK <==> old(devs[i]).state == CONNECTED && devs[i].state == REBOOTING
      ensures ret == (if old(devs[i]).pdev.None? then ENODEV else if old(devs[i]).state != CONNECTED then EBUSY else OK)
    {
      assert devs[..][i := devs[i]] == devs[..];
      if devs[i].pdev.None? {
        return ENODEV;
      }
      if devs[i].state != CONNECTED {
        return EBUSY;
      }
      devs[i] := devs[i].(state := REBOOTING);
      return OK;
    }

    /** The workqueue starts the callback of a due timeout; one callback of a work item runs at a time. */
    method TimerFire(i: nat)
      requires Valid() && i < 4 && phase != Gone
      modifies devs
      ensures View() == Step(old(View()), TimerFires(i))
    {
      assert devs[..][i := devs[i]] == devs[..];
      if devs[i].pending && !devs[i].waiting {
        devs[i] := devs[i].(pending := false, waiting := true);
      }
    }

    /** pcie_boot_timeout_fn, once it has the mutex. */
    method BootTimeoutFn(i: nat)
      requires Valid() && i < 4
      modifies devs
      ensures View() == PutBack(old(View()), i, TimeoutLocal(At(old(View()), i)))
    {
      assert devs[..][i := devs[i]] == devs[..];
      if !devs[i].waiting {
        return;
      }
      devs[i] := devs[i].(waiting := false);
      if devs[i].inUse && devs[i].state == BOOTING {
        devs[i] := devs[i].(state := BOOT_FAILED);
      }
    }

    /** pcie_boot_timeout_schedule: the cancel does not wait for a callback that has started. */
    method BootTimeoutSchedule(i: nat)
      requires Valid() && i < 4
      modifies devs
      ensures devs[..] == old(devs[..])[i := old(devs[i]).(pending := true)]
    {
      devs[i] := devs[i].(pending := false);
      devs[i] := devs[i].(pending := true);
    }

    /** cancel_delayed_work_sync. */
    method CancelTimerSync(i: nat)
      requires Valid() && i < 4 && phase == Closing(i)
      modifies this`phase, devs
      ensures View() == Step(old(View()), CancelTimer(i)) && phase == Closing(i + 1)
    {
      hide TimeoutLocal;
      devs[i] := devs[i].(pending := false);
      BootTimeoutFn(i);
      phase := Closing(i + 1);
    }

    /** What else may take the mutex while the module is on its way out: queries, reboot writes, timers and their
        callbacks, on any slots, any number of times. */
    method Background(ghost p: Drv, ghost evs: seq<Event>) returns (ghost all: seq<Event>)
      requires Valid() && phase != Gone && |p.devs| == 4 && View() == Exec(p, evs)
      requires forall ev :: ev in evs ==> !ev.Add?
      modifies this`tally, devs
      ensures View() == Exec(p, all) && phase == old(phase) && nextId == old(nextId)
      ensures evs <= all && forall ev :: ev in all ==> !ev.Add?
    {
      hide Step, Exec;
      all := evs;
      var rounds: nat := *;
      while rounds > 0
        invariant Valid() && View() == Exec(p, all) && phase == old(phase) && nextId == old(nextId)
        invariant evs <= all && forall ev :: ev in all ==> !ev.Add?
      {
        var i: nat, kind: nat, probe: Probe := *, *, *;
        if i < 4 {
          ghost var ev := if kind == 0 && |probe.tries| == MAP_RETRIES then Query(i, probe)
                          else if kind == 1 then Reboot(i) else if kind == 2 then TimerFires(i) else TimeoutRuns(i);
          ExecOneMore(p, all, ev);
          if kind == 0 && |probe.tries| == MAP_RETRIES {
            QueryDev(i, probe);
          } else if kind == 1 {
            var _ := RebootWrite(i);
          } else if kind == 2 {
            TimerFire(i);
          } else {
            TimeoutIsStep(View(), i);
            BootTimeoutFn(i);
          }
          all := all + [ev];
        }
        rounds := rounds - 1;
      }
    }

    method ReleaseAllSlots()
      requires Valid()
      modifies this`tally, devs
      ensures View() == ReleaseUpTo(old(View()), 4)
    {
      hide Release;
      ghost var p := View();
      for i := 0 to DEV_MAX
        invariant View() == ReleaseUpTo(p, i)
      {
        ReleaseDev(i);
      }
    }

    /** amba_pci_platform_exit: the notifier goes, the timers are cancelled one by one without the mutex, and the slots
        are released under it.  The events of the exit and of everything that ran in between are a run of the state
        machine, and in the end nothing is held. */
    method Exit() returns (ghost evs: seq<Event>)
      requires Valid() && phase == Running
      modifies this, devs
      ensures View() == Exec(old(View()), evs) && phase == Gone && forall ev :: ev in evs ==> !ev.Add?
      ensures DrvInv(old(View())) ==> DrvInv(View()) && NothingHeld(View())
    {
      hide Step, Exec, DrvInv, NothingHeld, ReleaseUpTo;
      ghost var p := View();
      evs := [];
      NoEvents(p);
      UnregisterIsStep(p);
      ExecOneMore(p, evs, Unregister);
      phase := Closing(0);
      evs := evs + [Unregister];
      for i := 0 to DEV_MAX
        invariant View() == Exec(p, evs) && phase == Closing(i) && forall ev :: ev in evs ==> !ev.Add?
      {
        evs := Background(p, evs);
        ExecOneMore(p, evs, CancelTimer(i));
        CancelTimerSync(i);
        evs := evs + [CancelTimer(i)];
      }
      evs := Background(p, evs);
      ExecOneMore(p, evs, ReleaseAll);
      ReleaseIsStep(View());
      ReleaseAllSlots();
      nextId := 0;
      phase := Gone;
      evs := evs + [ReleaseAll];
      if DrvInv(p) {
        NoAddsKeepInv(p, evs);
        GoneMeansNothingHeld(View());
      }
    }
  }

  lemma NoEvents(p: Drv)
    requires |p.devs| == 4
    ensures Exec(p, []) == p
  {}

  lemma UnregisterIsStep(p: Drv)
    requires |p.devs| == 4 && p.phase == Running
    ensures Step(p, Unregister) == p.(phase := Closing(0))
  {}

  lemma ReleaseIsStep(p: Drv)
    requires |p.devs| == 4 && p.phase == Closing(4)
    ensures Step(p, ReleaseAll) == ReleaseUpTo(p, 4).(phase := Gone, nextId := 0)
  {
    hide ReleaseUpTo;
  }

  lemma TimeoutIsStep(p: Drv, i: nat)
    requires |p.devs| == 4 && i < 4 && p.phase != Gone
    ensures Step(p, TimeoutRuns(i)) == PutBack(p, i, TimeoutLocal(At(p, i)))
  {
    hide TimeoutLocal;
  }
}
