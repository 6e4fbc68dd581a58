/** One AutoIP host as a pure transition function: the fields of the AutoIP control block,
    the interface fields it shares with NetX, and the point at which its thread is blocked.
    The thread runs in segments, each from one blocking call to the next. */
module AutoIpHost {
  import opened Common

  /** A 32-bit ULONG. */
  type Word = x: int | 0 <= x < UINT_SIZE

  const START_ADDRESS: Word := 0xA9FE_0100  // 169.254.1.0
  const END_ADDRESS: Word := 0xA9FE_FEFF    // 169.254.254.255

  /** 169.254.0.0/16 */
  predicate LinkLocal(a: Word) {
    0xA9FE_0000 <= a <= 0xA9FE_FFFF
  }

  /** The starting addresses the interface documents as valid; 0 asks for a derived one. */
  predicate Startable(a: Word) {
    a == 0 || START_ADDRESS <= a <= END_ADDRESS
  }

  /** The build-time macros, times given in ticks, that is, multiplied by NX_IP_PERIODIC_RATE.
      Every theorem holds for every valid setting of them. */
  datatype Settings = Settings(probeWait: nat, probeNum: nat, probeMin: nat, probeMax: nat,
                               maxConflicts: nat, rateLimit: nat,
                               announceWait: nat, announceNum: nat, announceInterval: nat)
  {
    predicate Valid() {
      probeWait > 0 && probeNum > 0 && probeMax > 0
    }
  }

  const RATE := 100  // the default NX_IP_PERIODIC_RATE

  const DEFAULT_SETTINGS := Settings(1 * RATE, 3, 1 * RATE, 2 * RATE, 10, 60 * RATE, 2 * RATE, 2, 2 * RATE)

  type Config = c: Settings | c.Valid() witness DEFAULT_SETTINGS

  /** Where the thread is blocked. Top is the head of its endless loop, which is also reached
      right after an address is cleared, where the address-change callback may run. */
  datatype Pc =
    | Top
    | Parked                  // sleeping until the interface address is zero
    | RateLimit               // sleeping after too many conflicts
    | ProbeDelay              // sleeping before the first probe
    | Probing(i: nat)         // waiting for a conflict after probe i
    | AnnounceWait            // sleeping before the first announcement
    | Announcing(i: nat)      // waiting for a conflict after announcement i
    | Bound                   // waiting forever for a late conflict

  predicate EventWait(pc: Pc) {
    pc.Probing? || pc.Announcing? || pc.Bound?
  }

  /** Outcome of the blocking call, fixed when it completes and read when the thread next runs. */
  datatype Wake = Blocked | TimedOut | Signalled

  /** NX_AUTO_IP. The statistics counters are mathematical numbers; the conflict count wraps. */
  datatype ControlBlock = ControlBlock(
    candidate: Word,        // nx_auto_ip_current_local_address
    restart: bool,          // nx_auto_ip_restart_flag
    conflictCount: Word,
    probeCount: nat,
    announceCount: nat,
    defendCount: nat,
    event: bool)            // the bit of nx_auto_ip_conflict_event

  datatype Thread = Thread(
    pc: Pc,
    wake: Wake,
    deadline: nat,          // tick at which the current sleep or wait times out
    suspended: bool,        // not started yet, or stopped
    conflict: bool)         // the thread's local flag

  /** The fields of NX_INTERFACE that matter to address conflicts. */
  datatype Interface = Interface(
    address: Word,
    probeAddress: Word,
    handler: bool,          // conflict handler registered
    mac: Word)              // nx_interface_physical_address_lsw

  datatype Host = Host(auto: ControlBlock, thread: Thread, nic: Interface, clock: nat)

  /** An ARP message: probes carry sender 0, announcements carry the address twice. */
  datatype Arp = Arp(request: bool, sender: Word, target: Word)

  /** What the application and the thread do, in order, as recorded in a log. */
  datatype Act =
    | Started(address: Word)
    | Restarted                                 // the restart flag is consumed
    | Handled                                   // a conflict is counted and its candidate dropped
    | Derived(address: Word)
    | Registered(address: Word, iface: Word)
    | Probed(address: Word)
    | Quiet                                     // a wait ended without a conflict
    | Abandoned                                 // the round is given up
    | Claimed(address: Word)
    | Announced
    | Conflicted(address: Word)                 // a conflict event is consumed
    | Defended
    | Released                                  // bound wait ended, address no longer its own

  datatype Outcome = Outcome(host: Host, sent: Option<Arp>, acts: seq<Act>)

  /** Somewhere between raised and consumed by the thread. */
  predicate Pending(h: Host) {
    h.auto.event || h.thread.wake.Signalled?
  }

  /** tx_event_flags_set: a thread blocked on the event is woken and the bit consumed for it. */
  function SetEvent(h: Host): Host {
    if EventWait(h.thread.pc) && h.thread.wake.Blocked? then h.(thread := h.thread.(wake := Signalled))
    else h.(auto := h.auto.(event := true))
  }

  function Sleep(h: Host, pc: Pc, delay: nat): Host {
    h.(thread := h.thread.(pc := pc, wake := Blocked, deadline := h.clock + delay))
  }

  /** tx_event_flags_get with TX_OR_CLEAR: a bit already set is consumed at once. */
  function Await(h: Host, pc: Pc, delay: nat): Host {
    if h.auto.event then
      h.(thread := h.thread.(pc := pc, wake := Signalled), auto := h.auto.(event := false))
    else
      Sleep(h, pc, delay)
  }

  /** Back at the head of the loop. */
  function Loop(h: Host, conflict: bool): Host {
    h.(thread := h.thread.(pc := Top, wake := Blocked, conflict := conflict))
  }

  function SetAddress(h: Host, a: Word): Host {
    h.(nic := h.nic.(address := a))
  }

  /** A pseudo-random address of the local range. */
  function Derive(random: Word, mac: Word): Word {
    START_ADDRESS + ((random + mac) % UINT_SIZE) % (END_ADDRESS - START_ADDRESS)
  }

  /** Wait after a probe: random below the maximum, raised to the minimum. */
  function ProbeInterval(c: Config, random: Word): nat {
    var delay := random % c.probeMax;
    if delay < c.probeMin then c.probeMin else delay
  }

  function Register(c: Config, h: Host, acts: seq<Act>, r1: Word, r2: Word): Outcome {
    var derived := h.auto.candidate == 0;
    var candidate := if derived then Derive(r1, h.nic.mac) else h.auto.candidate;
    var h1 := h.(auto := h.auto.(candidate := candidate, event := false), nic := h.nic.(handler := true));
    Outcome(Sleep(h1, ProbeDelay, r2 % c.probeWait), None,
            acts + (if derived then [Derived(candidate)] else []) + [Registered(candidate, h.nic.address)])
  }

  function Forget(c: Config, h: Host, acts: seq<Act>, r1: Word, r2: Word): Outcome {
    Register(c, h.(auto := h.auto.(candidate := 0), thread := h.thread.(conflict := false)),
             acts + [Handled], r1, r2)
  }

  function CountConflict(c: Config, h: Host, r1: Word, r2: Word): Outcome {
    var h1 := h.(auto := h.auto.(conflictCount := (h.auto.conflictCount + 1) % UINT_SIZE));
    if h1.auto.conflictCount > c.maxConflicts then
      Outcome(Sleep(h1, RateLimit, c.rateLimit), None, [])
    else
      Forget(c, h1, [], r1, r2)
  }

  function LoopHead(c: Config, h: Host, r1: Word, r2: Word): Outcome {
    if h.nic.address != 0 then
      Outcome(Sleep(h, Parked, c.probeMax), None, [])
    else if h.auto.restart then
      Register(c, h.(auto := h.auto.(restart := false, conflictCount := 0),
                     thread := h.thread.(conflict := false)), [Restarted], r1, r2)
    else if h.thread.conflict then
      CountConflict(c, h, r1, r2)
    else
      Register(c, h, [], r1, r2)
  }

  function Probe(c: Config, h: Host, i: nat, acts: seq<Act>, r1: Word): Outcome {
    var x := h.auto.candidate;
    var h1 := h.(auto := h.auto.(probeCount := h.auto.probeCount + 1), nic := h.nic.(probeAddress := x));
    Outcome(Await(h1, Probing(i), ProbeInterval(c, r1)), Some(Arp(true, 0, x)), acts + [Probed(x)])
  }

  /** After probe i: a conflict, a reason to give up, the next probe, or the claim. */
  function AfterProbe(c: Config, h: Host, i: nat, r1: Word): Outcome {
    if h.thread.wake.Signalled? then
      Outcome(Loop(h, true), None, [Conflicted(h.auto.candidate)])
    else if h.nic.address != 0 || h.auto.restart then
      Outcome(Loop(h, h.thread.conflict), None, [Quiet, Abandoned])
    else if i + 1 < c.probeNum then
      Probe(c, h, i + 1, [Quiet], r1)
    else
      Outcome(Sleep(SetAddress(h, h.auto.candidate), AnnounceWait, c.announceWait), None,
              [Quiet, Claimed(h.auto.candidate)])
  }

  /** Announcement i, or the endless wait once all are sent. */
  function Announce(c: Config, h: Host, i: nat, acts: seq<Act>): Outcome {
    if i < c.announceNum then
      var x := h.nic.address;
      var probe := if h.nic.probeAddress == x then 0 else h.nic.probeAddress;
      var h1 := h.(auto := h.auto.(announceCount := h.auto.announceCount + 1),
                   nic := h.nic.(probeAddress := probe));
      Outcome(Await(h1, Announcing(i), c.announceInterval), Some(Arp(true, x, x)), acts + [Announced])
    else
      Outcome(Await(h, Bound, 0), None, acts)
  }

  function AfterAnnounce(c: Config, h: Host, i: nat): Outcome {
    if h.thread.wake.Signalled? then
      Outcome(Loop(SetAddress(h, 0), true), None, [Conflicted(h.auto.candidate)])
    else
      Announce(c, h, i + 1, [Quiet])
  }

  function AfterBound(h: Host): Outcome {
    if h.auto.candidate == h.nic.address then
      var h1 := h.(auto := h.auto.(defendCount := h.auto.defendCount + 1));
      Outcome(Loop(SetAddress(h1, 0), true), None, [Conflicted(h.auto.candidate), Defended])
    else
      Outcome(Loop(h, h.thread.conflict), None, [Released])
  }

  predicate Runnable(h: Host) {
    !h.thread.suspended && (h.thread.pc.Top? || !h.thread.wake.Blocked?)
  }

  /** The thread from the call it is blocked in to the next one. */
  function Resume(c: Config, h: Host, r1: Word, r2: Word): Outcome {
    match h.thread.pc
    case Top => LoopHead(c, h, r1, r2)
    case Parked => LoopHead(c, h, r1, r2)
    case RateLimit => Forget(c, h, [], r1, r2)
    case ProbeDelay => Probe(c, h, 0, [], r1)
    case Probing(i) => AfterProbe(c, h, i, r1)
    case AnnounceWait => Announce(c, h, 0, [])
    case Announcing(i) => AfterAnnounce(c, h, i)
    case Bound => AfterBound(h)
  }

  /** Everything that can happen to one host. Notify is the ARP conflict callback, Outside an
      address set by the application or another address manager, Expire the timer. */
  datatype Label =
    | Start(address: Word)
    | Stop
    | Notify
    | Outside(address: Word)
    | Tick
    | Expire
    | Run(r1: Word, r2: Word)

  predicate Enabled(h: Host, l: Label) {
    match l
    case Start(a) => Startable(a)
    case Outside(a) => !LinkLocal(a)
    case Expire =>
      !h.thread.pc.Top? && !h.thread.pc.Bound? && h.thread.wake.Blocked? && h.clock >= h.thread.deadline
    case Run(_, _) => Runnable(h)
    case _ => true
  }

  function Apply(c: Config, h: Host, l: Label): Outcome
  {
    match l
    case Start(a) =>
      var h1 := SetEvent(h.(auto := h.auto.(candidate := a, restart := true)));
      Outcome(h1.(thread := h1.thread.(suspended := false)), None, [Started(a)])
    case Stop => Outcome(h.(thread := h.thread.(suspended := true)), None, [])
    case Notify => Outcome(SetEvent(h), None, [])
    case Outside(a) => Outcome(SetAddress(h, a), None, [])
    case Tick => Outcome(h.(clock := h.clock + 1), None, [])
    case Expire => Outcome(h.(thread := h.thread.(wake := TimedOut)), None, [])
    case Run(r1, r2) => Resume(c, h, r1, r2)
  }

  /** A created AutoIP instance, not started, on an interface without a link-local address. */
  ghost predicate Created(h: Host) {
    && h.auto == ControlBlock(0, false, 0, 0, 0, 0, false)
    && h.thread.pc == Top && h.thread.wake == Blocked && h.thread.suspended && !h.thread.conflict
    && !LinkLocal(h.nic.address) && h.nic.probeAddress == 0 && !h.nic.handler
    && h.clock == 0
  }

  /** A host together with everything it has done. */
  datatype Traced = Traced(h: Host, log: seq<Act>)

  function Next(c: Config, t: Traced, l: Label): Traced
  {
    if !Enabled(t.h, l) then t
    else
      var o := Apply(c, t.h, l);
      Traced(o.host, t.log + o.acts)
  }

  /** A run: the labels in order, those not enabled having no effect. */
  function Exec(c: Config, t: Traced, ls: seq<Label>): Traced
    decreases |ls|
  {
    if ls == [] then t else Next(c, Exec(c, t, ls[..|ls| - 1]), ls[|ls| - 1])
  }

  /** The host uses the address as its AutoIP address. */
  predicate Owns(h: Host, x: Word) {
    x != 0 && h.auto.candidate == x && h.nic.address == x
  }
}
