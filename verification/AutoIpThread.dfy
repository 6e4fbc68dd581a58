/** The AutoIP instance as the object it is: fields that the application's calls, the ARP callback
    and the thread update in place. Every method is proved to take exactly one step of AutoIpHost, and
    the steps since creation are recorded, so that what holds over every run holds of the instance. */
module AutoIpThread {
  import opened Common
  import opened AutoIpHost
  import opened AutoIpRuns
  import AutoIpStarts
  import opened AutoIpTiming

  /** nx_auto_ip_get_address: success with this address, or the error. */
  function AddressAnswer(h: Host): Option<Word> {
    if h.auto.candidate == h.nic.address then Some(h.auto.candidate) else None
  }

  /** Until its first start an instance that finds its interface at 0 answers success with address 0,
      though it owns nothing. */
  lemma {:induction false} UnstartedAnswersZero(c: Config, t: Traced, ls: seq<Label>)
    requires Created(t.h) && forall l :: l in ls ==> !l.Start?
    ensures var h := Exec(c, t, ls).h;
            && h.auto.candidate == 0 && h.thread.suspended && (forall x :: !Owns(h, x))
            && AddressAnswer(h) == if h.nic.address == 0 then Some(0) else None
    decreases |ls|
  {
    if ls != [] {
      assert ls[|ls| - 1] in ls;
      UnstartedAnswersZero(c, t, ls[..|ls| - 1]);
    }
  }

  lemma StepRecorded(c: Config, t: Traced, ls: seq<Label>, h: Host, l: Label)
    requires Exec(c, t, ls).h == h && Enabled(h, l)
    ensures Exec(c, t, ls + [l]).h == Apply(c, h, l).host
  {
    ExecAppend(c, t, ls, l);
  }

  class AutoIp {
    const config: Config
    const mac: Word
    // NX_AUTO_IP
    var candidate: Word
    var restart: bool
    var conflictCount: Word
    var probeCount: nat
    var announceCount: nat
    var defendCount: nat
    var event: bool
    // the thread
    var pc: Pc
    var wake: Wake
    var deadline: nat
    var suspended: bool
    var conflict: bool
    // NX_INTERFACE
    var address: Word
    var probeAddress: Word
    var handler: bool
    // time
    var clock: nat
    // the run so far
    ghost const start: Traced
    ghost var history: seq<Label>

    /** The value of the object in the transition system. */
    ghost function Abs(): Host
      reads this
    {
      Host(ControlBlock(candidate, restart, conflictCount, probeCount, announceCount, defendCount, event),
           Thread(pc, wake, deadline, suspended, conflict),
           Interface(address, probeAddress, handler, mac),
           clock)
    }

    /** The instance is where the recorded steps lead from its creation. */
    ghost predicate Recorded()
      reads this
    {
      Created(start.h) && start.log == [] && Exec(config, start, history).h == Abs()
    }

    /** nx_auto_ip_create: the control block zeroed, the thread created but not started. */
    constructor (config: Config, mac: Word, address: Word)
      requires !LinkLocal(address)
      ensures Created(Abs()) && this.config == config && this.mac == mac && this.address == address
      ensures Recorded() && history == []
    {
      start := Traced(Host(ControlBlock(0, false, 0, 0, 0, 0, false), Thread(Top, Blocked, 0, true, false),
                           Interface(address, 0, false, mac), 0), []);
      history := [];
      this.config, this.mac, this.address := config, mac, address;
      candidate, restart, conflictCount := 0, false, 0;
      probeCount, announceCount, defendCount := 0, 0, 0;
      event, conflict, suspended, handler := false, false, true, false;
      pc, wake, deadline := Top, Blocked, 0;
      probeAddress, clock := 0, 0;
    }

    /** tx_event_flags_set on the conflict event. */
    method EventSet()
      modifies this`event, this`wake
      ensures Abs() == SetEvent(old(Abs()))
    {
      if EventWait(pc) && wake.Blocked? {
        wake := Signalled;
      } else {
        event := true;
      }
    }

    /** tx_thread_sleep, as far as the thread is concerned: blocked until the deadline. */
    method BlockFor(at: Pc, delay: nat)
      modifies this`pc, this`wake, this`deadline
      ensures Abs() == Sleep(old(Abs()), at, delay)
    {
      pc, wake := at, Blocked;
      deadline := clock + delay;
    }

    /** tx_event_flags_get with TX_OR_CLEAR and a timeout. */
    method EventGet(at: Pc, delay: nat)
      modifies this`event, this`pc, this`wake, this`deadline
      ensures Abs() == Await(old(Abs()), at, delay)
    {
      if event {
        event := false;
        pc, wake := at, Signalled;
      } else {
        BlockFor(at, delay);
      }
    }

    method Start(startingAddress: Word)
      modifies this
      ensures Abs() == Apply(config, old(Abs()), Label.Start(startingAddress)).host
      ensures history == old(history) + [Label.Start(startingAddress)]
      ensures old(Recorded()) && Startable(startingAddress) ==> Recorded()
    {
      if Recorded() && Startable(startingAddress) {
        StepRecorded(config, start, history, Abs(), Label.Start(startingAddress));
      }
      history := history + [Label.Start(startingAddress)];
      StartAt(startingAddress);
    }

    method StartAt(startingAddress: Word)
      modifies this`candidate, this`restart, this`event, this`wake, this`suspended
      ensures Abs() == Apply(config, old(Abs()), Label.Start(startingAddress)).host
    {
      candidate := startingAddress;
      restart := true;
      EventSet();
      suspended := false;
    }

    method Stop()
      modifies this`suspended, this`history
      ensures Abs() == Apply(config, old(Abs()), Label.Stop).host
      ensures history == old(history) + [Label.Stop] && (old(Recorded()) ==> Recorded())
    {
      if Recorded() {
        StepRecorded(config, start, history, Abs(), Label.Stop);
      }
      history := history + [Label.Stop];
      suspended := true;
    }

    /** The conflict callback. */
    method Conflict()
      modifies this`event, this`wake, this`history
      ensures Abs() == Apply(config, old(Abs()), Notify).host
      ensures history == old(history) + [Notify] && (old(Recorded()) ==> Recorded())
    {
      if Recorded() {
        StepRecorded(config, start, history, Abs(), Notify);
      }
      history := history + [Notify];
      EventSet();
    }

    /** Another address manager, or the application, sets the interface address. */
    method SetInterface(a: Word)
      modifies this`address, this`history
      ensures Abs() == Apply(config, old(Abs()), Outside(a)).host
      ensures history == old(history) + [Outside(a)] && (old(Recorded()) && !LinkLocal(a) ==> Recorded())
    {
      if Recorded() && !LinkLocal(a) {
        StepRecorded(config, start, history, Abs(), Outside(a));
      }
      history := history + [Outside(a)];
      address := a;
    }

    method ClockTick()
      modifies this`clock, this`history
      ensures Abs() == Apply(config, old(Abs()), Tick).host
      ensures history == old(history) + [Tick] && (old(Recorded()) ==> Recorded())
    {
      if Recorded() {
        StepRecorded(config, start, history, Abs(), Tick);
      }
      history := history + [Tick];
      clock := clock + 1;
    }

    /** The end of a sleep or wait that is due. */
    method TimerExpiry()
      requires Enabled(Abs(), Expire)
      modifies this`wake, this`history
      ensures Abs() == Apply(config, old(Abs()), Expire).host
      ensures history == old(history) + [Expire] && (old(Recorded()) ==> Recorded())
    {
      if Recorded() {
        StepRecorded(config, start, history, Abs(), Expire);
      }
      history := history + [Expire];
      wake := TimedOut;
    }

    /** Success exactly when candidate and interface agree. A nonzero answer is an owned address,
        but 0 is a success too: it is answered when neither is set. */
    method GetAddress() returns (success: bool, local: Word)
      ensures success && local != 0 ==> Owns(Abs(), local)
      ensures (exists x :: Owns(Abs(), x)) ==> success && Owns(Abs(), local)
      ensures success && local == 0 <==> candidate == 0 && address == 0
      ensures !success ==> local == 0 && candidate != address
      ensures AddressAnswer(Abs()) == if success then Some(local) else None
    {
      if candidate == address {
        success, local := true, candidate;
      } else {
        success, local := false, 0;
      }
    }

    /** From the derivation of a candidate to the delay before its first probe. */
    method DeriveAndRegister(r1: Word, r2: Word)
      modifies this
      ensures Abs() == Register(config, old(Abs()), [], r1, r2).host && history == old(history)
    {
      if candidate == 0 {
        var temp := (r1 + mac) % UINT_SIZE;
        var addresses := END_ADDRESS - START_ADDRESS;
        temp := temp % addresses;
        candidate := START_ADDRESS + temp;
      }
      handler := true;
      event := false;
      BlockFor(ProbeDelay, r2 % config.probeWait);
    }

    /** From the head of the endless loop to the next blocking call. */
    method EnterLoop(r1: Word, r2: Word)
      modifies this
      ensures Abs() == LoopHead(config, old(Abs()), r1, r2).host && history == old(history)
    {
      if address != 0 {
        BlockFor(Parked, config.probeMax);
        return;
      }
      if restart {
        restart := false;
        conflictCount := 0;
        conflict := false;
      }
      if conflict {
        AnswerConflict(r1, r2);
      } else {
        DeriveAndRegister(r1, r2);
      }
    }

    method AnswerConflict(r1: Word, r2: Word)
      modifies this
      ensures Abs() == CountConflict(config, old(Abs()), r1, r2).host && history == old(history)
    {
      conflictCount := (conflictCount + 1) % UINT_SIZE;
      if conflictCount > config.maxConflicts {
        BlockFor(RateLimit, config.rateLimit);
        return;
      }
      candidate := 0;
      conflict := false;
      DeriveAndRegister(r1, r2);
    }

    /** The body of the probe loop up to its wait. */
    method SendProbe(i: nat, r1: Word) returns (sent: Option<Arp>)
      modifies this
      ensures var o := Probe(config, old(Abs()), i, [], r1); Abs() == o.host && sent == o.sent
      ensures history == old(history)
    {
      probeCount := probeCount + 1;
      probeAddress := candidate;
      sent := Some(Arp(true, 0, candidate));
      var delay := r1 % config.probeMax;
      if delay < config.probeMin {
        delay := config.probeMin;
      }
      EventGet(Probing(i), delay);
    }

    /** The body of the announce loop up to its wait, or the endless wait after the loop. */
    method SendAnnounce(i: nat) returns (sent: Option<Arp>)
      modifies this
      ensures var o := Announce(config, old(Abs()), i, []); Abs() == o.host && sent == o.sent
      ensures history == old(history)
    {
      if i < config.announceNum {
        announceCount := announceCount + 1;
        if probeAddress == address {
          probeAddress := 0;
        }
        sent := Some(Arp(true, address, address));
        EventGet(Announcing(i), config.announceInterval);
      } else {
        sent := None;
        EventGet(Bound, 0);
      }
    }

    /** nx_auto_ip_thread_entry between two blocking calls. */
    method RunThread(r1: Word, r2: Word) returns (sent: Option<Arp>)
      requires Runnable(Abs())
      modifies this
      ensures var o := Resume(config, old(Abs()), r1, r2); Abs() == o.host && sent == o.sent
      ensures history == old(history) + [Run(r1, r2)] && (old(Recorded()) ==> Recorded())
    {
      if Recorded() {
        StepRecorded(config, start, history, Abs(), Run(r1, r2));
      }
      sent := Segment(r1, r2);
      history := history + [Run(r1, r2)];
    }

    method Segment(r1: Word, r2: Word) returns (sent: Option<Arp>)
      modifies this
      ensures var o := Resume(config, old(Abs()), r1, r2); Abs() == o.host && sent == o.sent
      ensures history == old(history)
    {
      sent := None;
      match pc {
        case Top | Parked =>
          EnterLoop(r1, r2);
        case RateLimit =>
          candidate := 0;
          conflict := false;
          DeriveAndRegister(r1, r2);
        case ProbeDelay =>
          sent := SendProbe(0, r1);
        case Probing(i) =>
          sent := ContinueProbing(i, r1);
        case AnnounceWait =>
          sent := SendAnnounce(0);
        case Announcing(i) =>
          sent := ContinueAnnouncing(i);
        case Bound =>
          LateConflict();
      }
    }

    method ContinueProbing(i: nat, r1: Word) returns (sent: Option<Arp>)
      modifies this
      ensures var o := AfterProbe(config, old(Abs()), i, r1); Abs() == o.host && sent == o.sent
      ensures history == old(history)
    {
      sent := None;
      if wake.Signalled? {
        conflict := true;
        pc, wake := Top, Blocked;
      } else if address != 0 || restart {
        pc, wake := Top, Blocked;
      } else if i + 1 < config.probeNum {
        sent := SendProbe(i + 1, r1);
      } else {
        address := candidate;
        BlockFor(AnnounceWait, config.announceWait);
      }
    }

    method ContinueAnnouncing(i: nat) returns (sent: Option<Arp>)
      modifies this
      ensures var o := AfterAnnounce(config, old(Abs()), i); Abs() == o.host && sent == o.sent
      ensures history == old(history)
    {
      if wake.Signalled? {
        sent := None;
        conflict := true;
        address := 0;
        pc, wake := Top, Blocked;
      } else {
        sent := SendAnnounce(i + 1);
      }
    }

    method LateConflict()
      modifies this
      ensures Abs() == AfterBound(old(Abs())).host && history == old(history)
    {
      if candidate == address {
        defendCount := defendCount + 1;
        address := 0;
        conflict := true;
      }
      pc, wake := Top, Blocked;
    }
  }

  /** What holds over every run holds of an instance whatever was called on it, as long as starts and
      outsiders supplied the addresses they may. */
  lemma InstanceKeeps(i: AutoIp)
    requires i.Recorded()
    ensures var t := Exec(i.config, i.start, i.history);
            && t.h == i.Abs()
            && ProbeInv(i.config, t) && SourceInv(t) && ConflictInv(t) && WaitInv(t.h)
            && CountInv(i.config, t.h, ClaimsIn(t.log))
            && AutoIpStarts.WakeInv(t.h) && AutoIpStarts.StartInv(t)
  {
    ProbeBeforeClaim(i.config, i.start, i.history);
    ClaimsInRange(i.config, i.start, i.history);
    NoConflictLost(i.config, i.start, i.history);
    CountersAddUp(i.config, i.start, i.history);
    AutoIpStarts.NobodySleepsOnAnEvent(i.config, i.start, i.history);
    AutoIpStarts.StartsAreHonoured(i.config, i.start, i.history);
  }
}
