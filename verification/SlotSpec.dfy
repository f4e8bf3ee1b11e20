/** The device slots as a state machine: one event is one critical section under the driver's mutex. */
module SlotSpec {
  import opened Words

  const DEV_MAX: nat := 4
  const PHYSICAL_BUSES: seq<nat> := [1, 2, 3, 4]
  const TARGET_VENDOR: nat := 0x2134
  const TARGET_DEVICE: nat := 0x0006
  const VIRTIO_DEVICE: nat := 0x0500
  const MAP_RETRIES: nat := 3

  datatype DevState = DISCONNECTED | BOOTING | REBOOTING | CONNECTED | BOOT_FAILED

  /** struct pci_dev, as far as the driver looks at it; node tells devices apart. */
  datatype Pdev = Pdev(node: nat, bus: nat, vendor: nat, device: nat, class_: nat, bar0Len: nat)

  /** What pci_iomap was asked to map. */
  datatype Window = Window(bar: int, len: nat)

  /** struct pcie_dev_entry.  pending: the timeout work is scheduled.  waiting: its callback has started and waits for
      the mutex; cancelling the work does not wait for such a callback, so both can hold at once. */
  datatype Slot = Slot(pdev: Option<Pdev>, id: u32, procDir: bool, inUse: bool, state: DevState,
                       bootBar: int, bootLen: nat, window: Option<Window>, info: nat, infoFresh: bool,
                       pending: bool, waiting: bool)

  /** Kernel calls made so far: device references taken and dropped, mappings made and undone, ids given out. */
  datatype Tally = Tally(gets: nat, puts: nat, maps: nat, unmaps: nat, issued: nat)

  /** Module life: Closing once the notifier is gone, while the timers of the slots are cancelled one by one; Gone once
      the slots are released. */
  datatype Phase = Running | Closing(cancelled: nat) | Gone

  datatype Drv = Drv(devs: seq<Slot>, nextId: u32, tally: Tally, phase: Phase)

  /** One attempt at mapping the boot BAR: what the kernel reports (len 0: no usable BAR). */
  datatype MapTry = MapTry(bar: nat, len: nat, hasAddress: bool, configOk: bool, iomapOk: bool)

  /** The outcomes of the attempts, and the board info found. */
  datatype Probe = Probe(tries: seq<MapTry>, info: nat)

  datatype Event =
    | Add(dev: Pdev, procOk: bool)
    | Del(dev: Pdev)
    | Query(slot: nat, probe: Probe)
    | Firmware(slot: nat, probe: Probe, delivered: bool)
    | Reboot(slot: nat)
    | TimerFires(slot: nat)
    | TimeoutRuns(slot: nat)
    | Unregister
    | CancelTimer(slot: nat)
    | ReleaseAll

  // ------------------------------------------------------- one slot's part

  /** The slot of a bus, -1 if there is none. */
  function SlotOfBus(bus: nat): int { if 1 <= bus <= 4 then bus - 1 else -1 }

  predicate IsVirtio(d: Pdev) {
    d.vendor == TARGET_VENDOR && d.device == VIRTIO_DEVICE && d.bar0Len != 0
  }

  predicate IsTarget(d: Pdev) {
    d.vendor == TARGET_VENDOR && d.device == TARGET_DEVICE && d.class_ / 0x1_0000 % 0x100 == 0xff && d.bar0Len != 0
  }

  /** One slot, the id counter and the tally: what a critical section on that slot works with. */
  datatype Local = Local(s: Slot, nextId: u32, t: Tally)

  function Unmap(l: Local): Local {
    if !l.s.window.Some? then l
    else l.(s := l.s.(window := None), t := l.t.(unmaps := l.t.unmaps + 1))
  }

  function Detach(l: Local): Local {
    if l.s.pdev.None? then l
    else
      var m := Unmap(l);
      m.(s := m.s.(pdev := None), t := m.t.(puts := m.t.puts + 1))
  }

  function Release(l: Local): Local {
    if !l.s.inUse then l
    else
      var m := Detach(l);
      m.(s := Slot(m.s.pdev, 0, false, false, DISCONNECTED, -1, 0, None, 0, false, false, m.s.waiting))
  }

  function InitSlot(l: Local, dev: Pdev, procOk: bool): Local {
    if !procOk then l.(s := l.s.(procDir := false))
    else
      Local(Slot(Some(dev), l.nextId, true, true, DISCONNECTED, -1, 0, None, 0, false, l.s.pending, l.s.waiting),
            Wrap32(l.nextId + 1), l.t.(gets := l.t.gets + 1, issued := l.t.issued + 1))
  }

  function Reconnect(l: Local, dev: Pdev): Local {
    l.(s := l.s.(pdev := Some(dev), pending := false, state := CONNECTED), t := l.t.(gets := l.t.gets + 1))
  }

  function AddLocal(l: Local, dev: Pdev, procOk: bool): Local {
    if l.s.inUse then
      if l.s.state == BOOTING && IsVirtio(dev) then Reconnect(l, dev) else l
    else if IsVirtio(dev) then
      var m := InitSlot(l, dev, procOk);
      if procOk then m.(s := m.s.(state := CONNECTED)) else m
    else if IsTarget(dev) then InitSlot(l, dev, procOk)
    else l
  }

  function DelLocal(l: Local): Local {
    if !l.s.inUse then l
    else if l.s.state == BOOTING then Detach(l)
    else Release(l)
  }

  /** pcie_map_boot_bar. */
  function MapOnce(s: Slot, m: MapTry): (Slot, Errno) {
    var find := s.bootBar < 0 || s.bootLen == 0;
    if find && m.len == 0 then (s, ENXIO)
    else
      var s1 := if find then s.(bootBar := m.bar, bootLen := m.len) else s;
      if !m.hasAddress then (s1, ENXIO)
      else if !m.configOk then (s1, ECONFIG)
      else if !m.iomapOk then (s1, EIO)
      else (s1.(window := Some(Window(s1.bootBar, s1.bootLen))), OK)
  }

  /** The retry loop: attempts go on only while the BAR is not assigned. */
  function MapLoop(s: Slot, tries: seq<MapTry>): (Slot, Errno)
    decreases |tries|
  {
    if tries == [] then (s, ENXIO)
    else
      var (s1, ret) := MapOnce(s, tries[0]);
      if ret == ENXIO then MapLoop(s1, tries[1..]) else (s1, ret)
  }

  /** pcie_boot_bar_ensure_mapped. */
  function EnsureMapped(s: Slot, tries: seq<MapTry>): (Slot, Errno) {
    if s.window.Some? then (s, OK)
    else
      var (s1, ret) := MapLoop(s, tries);
      (s1, if ret == ENXIO then ETIMEDOUT else ret)
  }

  /** pcie_dev_refresh_board_info_locked. */
  function Refresh(s: Slot, probe: Probe): (Slot, Errno) {
    if s.state != DISCONNECTED then (s, OK)
    else if s.pdev.None? then (s, ENODEV)
    else
      var (s1, ret) := EnsureMapped(s, probe.tries);
      if ret != OK then (s1, ret)
      else if !s1.infoFresh && s1.window.Some? then (s1.(info := probe.info, infoFresh := true), OK)
      else (s1, OK)
  }

  function CountMap(t: Tally, before: Slot, after: Slot): Tally {
    if after.window.Some? && !before.window.Some? then t.(maps := t.maps + 1) else t
  }

  function QueryLocal(l: Local, probe: Probe): Local {
    if !l.s.inUse then l
    else
      var s := Refresh(l.s, probe).0;
      l.(s := s, t := CountMap(l.t, l.s, s))
  }

  /** The ioctl's critical section; delivered tells whether the EP was ready and all three transfers succeeded. */
  function FirmwareLocal(l: Local, probe: Probe, delivered: bool): Local {
    if !l.s.inUse || l.s.state != DISCONNECTED then l
    else
      var (s, ret) := Refresh(l.s, probe);
      var m := l.(s := s, t := CountMap(l.t, l.s, s));
      if ret == OK && delivered then m.(s := m.s.(state := BOOTING, pending := true)) else m
  }

  function RebootLocal(l: Local): Local {
    if l.s.pdev.Some? && l.s.state == CONNECTED then l.(s := l.s.(state := REBOOTING)) else l
  }

  function TimerFiresLocal(l: Local): Local {
    if l.s.pending && !l.s.waiting then l.(s := l.s.(pending := false, waiting := true)) else l
  }

  function TimeoutLocal(l: Local): Local {
    if !l.s.waiting then l
    else
      var s := l.s.(waiting := false);
      l.(s := if s.inUse && s.state == BOOTING then s.(state := BOOT_FAILED) else s)
  }

  /** cancel_delayed_work_sync: a callback that has started is waited for. */
  function CancelSyncLocal(l: Local): Local { TimeoutLocal(l.(s := l.s.(pending := false))) }

  // ------------------------------------------------------------- the driver

  /** The slot an event is about, -1 for none or all. */
  function Target(ev: Event): int {
    match ev
    case Add(dev, _) => SlotOfBus(dev.bus)
    case Del(dev) => SlotOfBus(dev.bus)
    case Query(i, _) => i
    case Firmware(i, _, _) => i
    case Reboot(i) => i
    case TimerFires(i) => i
    case TimeoutRuns(i) => i
    case CancelTimer(i) => i
    case _ => -1
  }

  /** Notifications end with Unregister; the control device cannot be in use during exit; proc files and timers
      remain until the end. */
  predicate Enabled(p: Drv, ev: Event) {
    match ev
    case Add(_, _) => p.phase == Running
    case Del(_) => p.phase == Running
    case Query(_, probe) => p.phase != Gone && |probe.tries| == MAP_RETRIES
    case Firmware(_, probe, _) => p.phase == Running && |probe.tries| == MAP_RETRIES
    case Unregister => p.phase == Running
    case CancelTimer(i) => i < DEV_MAX && p.phase == Closing(i)
    case ReleaseAll => p.phase == Closing(DEV_MAX)
    case _ => p.phase != Gone
  }

  function LocalStep(l: Local, ev: Event): Local {
    match ev
    case Add(dev, procOk) => AddLocal(l, dev, procOk)
    case Del(_) => DelLocal(l)
    case Query(_, probe) => QueryLocal(l, probe)
    case Firmware(_, probe, delivered) => FirmwareLocal(l, probe, delivered)
    case Reboot(_) => RebootLocal(l)
    case TimerFires(_) => TimerFiresLocal(l)
    case TimeoutRuns(_) => TimeoutLocal(l)
    case CancelTimer(_) => CancelSyncLocal(l)
    case _ => l
  }

  /** Put the result of a critical section on slot i back. */
  function PutBack(p: Drv, i: nat, l: Local): Drv
    requires i < |p.devs|
  {
    p.(devs := p.devs[i := l.s], nextId := l.nextId, tally := l.t)
  }

  function At(p: Drv, i: nat): Local
    requires i < |p.devs|
  {
    Local(p.devs[i], p.nextId, p.tally)
  }

  function ReleaseSlot(p: Drv, i: nat): Drv
    requires i < |p.devs|
  {
    PutBack(p, i, Release(At(p, i)))
  }

  /** The release loop over the first k slots. */
  function ReleaseUpTo(p: Drv, k: nat): (q: Drv)
    requires k <= |p.devs|
    ensures |q.devs| == |p.devs| && q.phase == p.phase
  {
    if k == 0 then p else ReleaseSlot(ReleaseUpTo(p, k - 1), k - 1)
  }

  function Step(p: Drv, ev: Event): (q: Drv)
    requires |p.devs| == 4
    ensures |q.devs| == 4
  {
    if !Enabled(p, ev) then p
    else
      match ev
      case Unregister => p.(phase := Closing(0))
      case CancelTimer(i) => PutBack(p, i, LocalStep(At(p, i), ev)).(phase := Closing(i + 1))
      case ReleaseAll => ReleaseUpTo(p, 4).(phase := Gone, nextId := 0)
      case _ =>
        var i := Target(ev);
        if 0 <= i < 4 then PutBack(p, i, LocalStep(At(p, i), ev)) else p
  }

  /** Every slot is zeroed at load time. */
  const FRESH: Slot := Slot(None, 0, false, false, DISCONNECTED, 0, 0, None, 0, false, false, false)

  const INIT: Drv := Drv([FRESH, FRESH, FRESH, FRESH], 0, Tally(0, 0, 0, 0, 0), Running)

  /** The state after a run of events. */
  function Exec(p: Drv, evs: seq<Event>): (q: Drv)
    requires |p.devs| == 4
    ensures |q.devs| == 4
  {
    if evs == [] then p else Step(Exec(p, evs[..|evs| - 1]), evs[|evs| - 1])
  }
}
