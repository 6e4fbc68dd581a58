/** What one AutoIP host does over every run, whatever the application, the ARP layer and the
    timer do at the points where its thread is blocked. */
module AutoIpRuns {
  import opened Common
  import opened AutoIpHost

  // ----- reading logs -----

  ghost predicate EndsWith(log: seq<Act>, s: seq<Act>) {
    |s| <= |log| && log[|log| - |s|..] == s
  }

  /** n probes of x, each followed by an undisturbed wait, with nothing else in between. */
  ghost function Rounds(x: Word, n: nat): seq<Act> {
    if n == 0 then [] else Rounds(x, n - 1) + [Probed(x), Quiet]
  }

  lemma EndsWithAppend(log: seq<Act>, s: seq<Act>, more: seq<Act>)
    requires EndsWith(log, s)
    ensures EndsWith(log + more, s + more)
  {
    assert (log + more)[|log| - |s|..] == s + more;
  }

  /** What can be counted in a log. */
  datatype Tally = Probes | Announcements | Defences | Takings

  /** A taking is a consumed event. */
  predicate Tallied(k: Tally, a: Act) {
    match k
    case Probes => a.Probed?
    case Announcements => a.Announced?
    case Defences => a.Defended?
    case Takings => a.Conflicted? || a.Released?
  }

  ghost function TallyOf(k: Tally, log: seq<Act>): nat {
    if log == [] then 0 else TallyOf(k, log[..|log| - 1]) + (if Tallied(k, log[|log| - 1]) then 1 else 0)
  }

  lemma {:induction false} TallyAppend(k: Tally, log: seq<Act>, more: seq<Act>)
    ensures TallyOf(k, log + more) == TallyOf(k, log) + TallyOf(k, more)
    decreases |more|
  {
    if more == [] {
      assert log + more == log;
    } else {
      TallyAppend(k, log, more[..|more| - 1]);
      assert (log + more)[..|log + more| - 1] == log + more[..|more| - 1];
    }
  }

  lemma {:induction false} TallyNone(k: Tally, acts: seq<Act>)
    requires forall a :: a in acts ==> !Tallied(k, a)
    ensures TallyOf(k, acts) == 0
    decreases |acts|
  {
    if acts != [] {
      assert acts[|acts| - 1] in acts;
      TallyNone(k, acts[..|acts| - 1]);
    }
  }

  lemma TallyShort(k: Tally, a: Act, b: Act)
    ensures TallyOf(k, []) == 0
    ensures TallyOf(k, [a]) == if Tallied(k, a) then 1 else 0
    ensures TallyOf(k, [a, b]) == TallyOf(k, [a]) + TallyOf(k, [b])
  {
    assert [a][..0] == [] && [b][..0] == [] && [a, b][..1] == [a];
  }

  // ----- what blocks where -----

  ghost predicate AtHead(h: Host) {
    h.thread.pc.Top? || h.thread.pc.Parked? || h.thread.pc.RateLimit?
  }

  /** Past the claim, for as long as the thread treats the address as its own. */
  ghost predicate InUse(h: Host) {
    h.thread.pc.AnnounceWait? || h.thread.pc.Announcing? || h.thread.pc.Bound?
  }

  /** Only an event wait can be signalled, the endless one by nothing else, and an address of the
      local range sits on the interface only from a claim until the thread is back at its loop head. */
  ghost predicate WaitInv(h: Host) {
    && (h.thread.wake.Signalled? ==> EventWait(h.thread.pc))
    && (h.thread.pc.Bound? ==> !h.thread.wake.TimedOut?)
    && (LinkLocal(h.nic.address) ==>
          InUse(h) || ((h.thread.pc.Top? || h.thread.pc.Parked?) && !h.thread.conflict))
    && (h.thread.pc.RateLimit? ==> h.thread.conflict)
    && (!AtHead(h) ==> !h.thread.conflict)
  }

  /** At its loop head the thread claims nothing and does not probe yet. */
  lemma LoopHeadShape(c: Config, h: Host, r1: Word, r2: Word)
    requires AtHead(h)
    ensures var o := Resume(c, h, r1, r2);
            && o.sent.None?
            && (o.host.thread.pc.Parked? || o.host.thread.pc.RateLimit? || o.host.thread.pc.ProbeDelay?)
            && (forall a :: a in o.acts ==> a.Restarted? || a.Handled? || a.Derived? || a.Registered?)
  {
  }

  lemma WaitInvHead(c: Config, h: Host, r1: Word, r2: Word)
    requires WaitInv(h) && AtHead(h)
    ensures WaitInv(Resume(c, h, r1, r2).host)
  {
  }

  lemma WaitInvBody(c: Config, h: Host, r1: Word, r2: Word)
    requires WaitInv(h) && Runnable(h) && !AtHead(h)
    ensures WaitInv(Resume(c, h, r1, r2).host)
  {
  }

  lemma WaitInvRun(c: Config, h: Host, r1: Word, r2: Word)
    requires WaitInv(h) && Runnable(h)
    ensures WaitInv(Resume(c, h, r1, r2).host)
  {
    if AtHead(h) {
      WaitInvHead(c, h, r1, r2);
    } else {
      WaitInvBody(c, h, r1, r2);
    }
  }

  lemma WaitInvStep(c: Config, h: Host, l: Label)
    requires WaitInv(h) && Enabled(h, l)
    ensures WaitInv(Apply(c, h, l).host)
  {
    if l.Run? {
      WaitInvRun(c, h, l.r1, l.r2);
    }
  }

  // ----- the log tells the truth -----

  /** Every entry means what its name says. */
  ghost predicate EntriesTrue(h: Host, o: Outcome, r1: Word) {
    forall a :: a in o.acts ==>
      match a
      case Started(_) => false
      case Restarted => h.auto.restart && !o.host.auto.restart
      case Handled => h.thread.conflict && !o.host.thread.conflict && o.host.auto.restart == h.auto.restart
      case Derived(y) => y == Derive(r1, h.nic.mac) == o.host.auto.candidate
      case Registered(y, z) => o.host.thread.pc.ProbeDelay? && y == o.host.auto.candidate && z == h.nic.address
      case Probed(y) => o.host.thread.pc.Probing? && o.sent == Some(Arp(true, 0, y)) && y == h.auto.candidate
      case Quiet => h.thread.wake.TimedOut? && EventWait(h.thread.pc)
      case Abandoned => h.thread.pc.Probing? && o.host.thread.pc.Top? && !o.host.thread.conflict
      case Claimed(y) => o.host.nic.address == y == h.auto.candidate && o.host.thread.pc.AnnounceWait?
      case Announced => o.sent == Some(Arp(true, h.nic.address, h.nic.address))
      case Conflicted(y) => h.thread.wake.Signalled? && y == h.auto.candidate && o.host.thread.conflict
      case Defended => o.host.auto.defendCount == h.auto.defendCount + 1
      case Released => h.thread.pc.Bound? && h.auto.candidate != h.nic.address && o.host.nic == h.nic
  }

  /** What happens is recorded. */
  ghost predicate NothingUnlogged(h: Host, o: Outcome) {
    var x := o.host.nic.address;
    && (x != h.nic.address && x != 0 ==> Claimed(x) in o.acts)
    && (h.auto.restart && !o.host.auto.restart ==> Restarted in o.acts)
    && (h.thread.conflict && !o.host.thread.conflict && o.host.auto.restart == h.auto.restart ==> Handled in o.acts)
    && (o.host.auto.candidate != h.auto.candidate ==> Derived(o.host.auto.candidate) in o.acts)
    && (o.host.thread.pc.ProbeDelay? ==> Registered(o.host.auto.candidate, h.nic.address) in o.acts)
    && (o.sent.Some? && o.host.thread.pc.Probing? ==> Probed(o.sent.value.target) in o.acts)
    && (o.sent.Some? && o.host.thread.pc.Announcing? ==> Announced in o.acts)
    && (h.thread.wake.TimedOut? && EventWait(h.thread.pc) ==> Quiet in o.acts)
    && (h.thread.wake.Signalled? && (h.thread.pc.Bound? ==> h.auto.candidate == h.nic.address) ==>
          Conflicted(h.auto.candidate) in o.acts)
    && (o.host.auto.defendCount != h.auto.defendCount ==> Defended in o.acts)
  }

  /** The entries a registration adds. */
  lemma RegisterActs(c: Config, h: Host, acts: seq<Act>, r1: Word, r2: Word)
    ensures var o := Register(c, h, acts, r1, r2);
            forall a :: a in o.acts <==>
              || a in acts || a == Registered(o.host.auto.candidate, h.nic.address)
              || (h.auto.candidate == 0 && a == Derived(o.host.auto.candidate))
  {
  }

  lemma StayIsLogged(c: Config, h: Host, r1: Word, r2: Word)
    requires WaitInv(h) && AtHead(h) && !h.thread.pc.RateLimit?
    requires h.nic.address != 0 || !(h.auto.restart || h.thread.conflict)
    ensures var o := Resume(c, h, r1, r2); EntriesTrue(h, o, r1) && NothingUnlogged(h, o)
  {
    if h.nic.address == 0 {
      RegisterActs(c, h, [], r1, r2);
    }
  }

  lemma RestartIsLogged(c: Config, h: Host, r1: Word, r2: Word)
    requires WaitInv(h) && AtHead(h) && !h.thread.pc.RateLimit? && h.nic.address == 0 && h.auto.restart
    ensures var o := Resume(c, h, r1, r2); EntriesTrue(h, o, r1) && NothingUnlogged(h, o)
  {
    RegisterActs(c, h.(auto := h.auto.(restart := false, conflictCount := 0),
                       thread := h.thread.(conflict := false)), [Restarted], r1, r2);
  }

  lemma ForgetIsLogged(c: Config, h: Host, h1: Host, r1: Word, r2: Word)
    requires WaitInv(h) && AtHead(h) && h.thread.conflict
    requires h1 == h.(auto := h.auto.(conflictCount := h1.auto.conflictCount))
    ensures var o := Forget(c, h1, [], r1, r2); EntriesTrue(h, o, r1) && NothingUnlogged(h, o)
  {
    RegisterActs(c, h1.(auto := h1.auto.(candidate := 0), thread := h1.thread.(conflict := false)),
                 [] + [Handled], r1, r2);
  }

  lemma CountIsLogged(c: Config, h: Host, r1: Word, r2: Word)
    requires WaitInv(h) && AtHead(h) && !h.thread.pc.RateLimit? && h.thread.conflict
    ensures var o := CountConflict(c, h, r1, r2); EntriesTrue(h, o, r1) && NothingUnlogged(h, o)
  {
    ForgetIsLogged(c, h, h.(auto := h.auto.(conflictCount := (h.auto.conflictCount + 1) % UINT_SIZE)), r1, r2);
  }

  lemma ConflictIsLogged(c: Config, h: Host, r1: Word, r2: Word)
    requires WaitInv(h) && AtHead(h) && h.thread.conflict
    requires h.thread.pc.RateLimit? || (h.nic.address == 0 && !h.auto.restart)
    ensures var o := Resume(c, h, r1, r2); EntriesTrue(h, o, r1) && NothingUnlogged(h, o)
  {
    if h.thread.pc.RateLimit? {
      ForgetIsLogged(c, h, h, r1, r2);
    } else {
      CountIsLogged(c, h, r1, r2);
      assert Resume(c, h, r1, r2) == CountConflict(c, h, r1, r2);
    }
  }

  lemma ProbingIsLogged(c: Config, h: Host, r1: Word, r2: Word)
    requires WaitInv(h) && Runnable(h) && (h.thread.pc.ProbeDelay? || h.thread.pc.Probing?)
    ensures var o := Resume(c, h, r1, r2); EntriesTrue(h, o, r1) && NothingUnlogged(h, o)
  {
  }

  lemma AnnouncingIsLogged(c: Config, h: Host, r1: Word, r2: Word)
    requires WaitInv(h) && Runnable(h) && (h.thread.pc.AnnounceWait? || h.thread.pc.Announcing?)
    ensures var o := Resume(c, h, r1, r2); EntriesTrue(h, o, r1) && NothingUnlogged(h, o)
  {
  }

  lemma BoundIsLogged(c: Config, h: Host, r1: Word, r2: Word)
    requires WaitInv(h) && Runnable(h) && h.thread.pc.Bound?
    ensures var o := Resume(c, h, r1, r2); EntriesTrue(h, o, r1) && NothingUnlogged(h, o)
  {
  }

  /** The log tells the truth about the state, both ways: whatever a segment of the thread logs it
      did, and every claim, restart, derivation, registration, probe, announcement, quiet wait,
      conflict and defence it logs. */
  lemma {:induction false} LogIsFaithful(c: Config, h: Host, r1: Word, r2: Word)
    requires WaitInv(h) && Runnable(h)
    ensures var o := Resume(c, h, r1, r2); EntriesTrue(h, o, r1) && NothingUnlogged(h, o)
  {
    if AtHead(h) {
      if h.thread.pc.RateLimit? || (h.nic.address == 0 && !h.auto.restart && h.thread.conflict) {
        ConflictIsLogged(c, h, r1, r2);
      } else if h.nic.address == 0 && h.auto.restart {
        RestartIsLogged(c, h, r1, r2);
      } else {
        StayIsLogged(c, h, r1, r2);
      }
    } else if h.thread.pc.Bound? {
      BoundIsLogged(c, h, r1, r2);
    } else if InUse(h) {
      AnnouncingIsLogged(c, h, r1, r2);
    } else {
      ProbingIsLogged(c, h, r1, r2);
    }
  }

  // ----- messages and the interface -----

  /** What a segment sends: a probe for the candidate if it ends waiting after a probe, an announcement of
      the interface address if it ends waiting after one, and nothing otherwise. */
  ghost predicate SendsAsItWaits(h: Host, o: Outcome) {
    match o.host.thread.pc
    case Probing(_) => o.sent == Some(Arp(true, 0, h.auto.candidate)) && Probed(h.auto.candidate) in o.acts
    case Announcing(_) => o.sent == Some(Arp(true, h.nic.address, h.nic.address)) && Announced in o.acts
    case _ => o.sent == None
  }

  /** What a segment does to the interface. Its address is the candidate after a claim and 0 after a
      conflict with an address in use, whatever that is; otherwise it is not touched. Its probe address
      is the one last probed, until that address is announced. */
  ghost predicate InterfaceLaw(h: Host, o: Outcome) {
    var was, nic := h.nic, o.host.nic;
    && nic.address == (if o.host.thread.pc.AnnounceWait? then h.auto.candidate
                       else if Conflicted(h.auto.candidate) in o.acts && InUse(h) then 0
                       else was.address)
    && nic.probeAddress == (if o.host.thread.pc.Probing? then h.auto.candidate
                            else if o.host.thread.pc.Announcing? && was.probeAddress == was.address then 0
                            else was.probeAddress)
    && nic.handler == (was.handler || o.host.thread.pc.ProbeDelay?)
    && nic.mac == was.mac
  }

  lemma HeadTouchesNothing(c: Config, h: Host, r1: Word, r2: Word)
    requires AtHead(h)
    ensures var o := Resume(c, h, r1, r2); SendsAsItWaits(h, o) && InterfaceLaw(h, o)
  {
    LoopHeadShape(c, h, r1, r2);
  }

  lemma ProbingSends(c: Config, h: Host, r1: Word, r2: Word)
    requires h.thread.pc.ProbeDelay? || h.thread.pc.Probing?
    ensures var o := Resume(c, h, r1, r2); SendsAsItWaits(h, o) && InterfaceLaw(h, o)
  {
  }

  lemma UseSends(c: Config, h: Host, r1: Word, r2: Word)
    requires InUse(h)
    ensures var o := Resume(c, h, r1, r2); SendsAsItWaits(h, o) && InterfaceLaw(h, o)
  {
  }

  /** Every segment sends exactly the message it then waits on, and touches the interface only so. */
  lemma SegmentsSend(c: Config, h: Host, r1: Word, r2: Word)
    ensures var o := Resume(c, h, r1, r2); SendsAsItWaits(h, o) && InterfaceLaw(h, o)
  {
    if AtHead(h) {
      HeadTouchesNothing(c, h, r1, r2);
    } else if InUse(h) {
      UseSends(c, h, r1, r2);
    } else {
      ProbingSends(c, h, r1, r2);
    }
  }

  /** An address of the local range counts as probed until it is first announced, and no longer after. */
  ghost predicate ProvenInv(c: Config, h: Host) {
    && (h.nic.probeAddress != 0 || h.thread.pc.ProbeDelay? ==> h.nic.handler)
    && (h.thread.pc.Probing? && !h.auto.restart ==> h.nic.probeAddress == h.auto.candidate)
    && (LinkLocal(h.nic.address) ==>
          && (h.thread.pc.AnnounceWait? ==> h.nic.probeAddress == h.nic.address)
          && (h.thread.pc.Announcing? || (h.thread.pc.Bound? && c.announceNum > 0) ==>
                h.nic.probeAddress != h.nic.address))
  }

  lemma ProvenInvStep(c: Config, h: Host, l: Label)
    requires ProvenInv(c, h) && WaitInv(h) && Enabled(h, l)
    ensures ProvenInv(c, Apply(c, h, l).host)
  {
    if l.Run? {
      SegmentsSend(c, h, l.r1, l.r2);
    }
  }

  lemma {:induction false} ProvenWhenAnnounced(c: Config, t: Traced, ls: seq<Label>)
    requires Created(t.h) && t.log == []
    ensures var h := Exec(c, t, ls).h; ProvenInv(c, h) && WaitInv(h)
    decreases |ls|
  {
    if ls != [] {
      var u := Exec(c, t, ls[..|ls| - 1]);
      ProvenWhenAnnounced(c, t, ls[..|ls| - 1]);
      if Enabled(u.h, ls[|ls| - 1]) {
        ProvenInvStep(c, u.h, ls[|ls| - 1]);
        WaitInvStep(c, u.h, ls[|ls| - 1]);
      }
    }
  }

  // ----- probe before claim -----

  /** Every claim in the log directly follows a full set of quiet probes of that address. */
  ghost predicate ClaimsProbed(c: Config, log: seq<Act>) {
    forall k :: 0 <= k < |log| && log[k].Claimed? ==> EndsWith(log[..k], Rounds(log[k].address, c.probeNum))
  }

  ghost predicate ProbeInv(c: Config, t: Traced) {
    && ClaimsProbed(c, t.log)
    && (t.h.thread.pc.Probing? ==>
          && t.h.thread.pc.i < c.probeNum
          && var x := t.h.auto.candidate;
             t.h.auto.restart || EndsWith(t.log, Rounds(x, t.h.thread.pc.i) + [Probed(x)]))
  }

  lemma ClaimsProbedAppend(c: Config, log: seq<Act>, more: seq<Act>)
    requires ClaimsProbed(c, log)
    requires forall k :: 0 <= k < |more| && more[k].Claimed? ==>
               EndsWith(log + more[..k], Rounds(more[k].address, c.probeNum))
    ensures ClaimsProbed(c, log + more)
  {
    forall k | 0 <= k < |log + more| && (log + more)[k].Claimed?
      ensures EndsWith((log + more)[..k], Rounds((log + more)[k].address, c.probeNum))
    {
      if k < |log| {
        assert (log + more)[..k] == log[..k];
      } else {
        assert (log + more)[..k] == log + more[..k - |log|];
      }
    }
  }

  lemma ProbeInvQuiet(c: Config, t: Traced, r1: Word, r2: Word)
    requires ProbeInv(c, t) && t.h.thread.pc.Probing? && t.h.thread.wake.TimedOut?
    requires t.h.nic.address == 0 && !t.h.auto.restart
    ensures var o := Resume(c, t.h, r1, r2); ProbeInv(c, Traced(o.host, t.log + o.acts))
  {
    var i, x := t.h.thread.pc.i, t.h.auto.candidate;
    var o := Resume(c, t.h, r1, r2);
    EndsWithAppend(t.log, Rounds(x, i) + [Probed(x)], [Quiet]);
    assert Rounds(x, i) + [Probed(x)] + [Quiet] == Rounds(x, i + 1);
    if i + 1 < c.probeNum {
      EndsWithAppend(t.log + [Quiet], Rounds(x, i + 1), [Probed(x)]);
      assert t.log + [Quiet] + [Probed(x)] == t.log + o.acts;
    } else {
      assert o.acts[..1] == [Quiet];
    }
    ClaimsProbedAppend(c, t.log, o.acts);
  }

  lemma ProbeInvPlain(c: Config, t: Traced, h': Host, acts: seq<Act>)
    requires ProbeInv(c, t) && !h'.thread.pc.Probing?
    requires forall k :: 0 <= k < |acts| ==> !acts[k].Claimed?
    ensures ProbeInv(c, Traced(h', t.log + acts))
  {
    ClaimsProbedAppend(c, t.log, acts);
  }

  lemma ProbeInvFirst(c: Config, t: Traced, r1: Word, r2: Word)
    requires ProbeInv(c, t) && t.h.thread.pc.ProbeDelay?
    ensures var o := Resume(c, t.h, r1, r2); ProbeInv(c, Traced(o.host, t.log + o.acts))
  {
    var o := Resume(c, t.h, r1, r2);
    assert Rounds(t.h.auto.candidate, 0) + [Probed(t.h.auto.candidate)] == o.acts;
    ClaimsProbedAppend(c, t.log, o.acts);
  }

  lemma ProbeInvHead(c: Config, t: Traced, r1: Word, r2: Word)
    requires ProbeInv(c, t) && AtHead(t.h)
    ensures var o := Resume(c, t.h, r1, r2); ProbeInv(c, Traced(o.host, t.log + o.acts))
  {
    var o := Resume(c, t.h, r1, r2);
    LoopHeadShape(c, t.h, r1, r2);
    forall k | 0 <= k < |o.acts| ensures !o.acts[k].Claimed? {
      assert o.acts[k] in o.acts;
    }
    ProbeInvPlain(c, t, o.host, o.acts);
  }

  lemma GivingUpClaimsNothing(c: Config, h: Host, r1: Word, r2: Word)
    requires h.thread.pc.Probing? && (h.thread.wake.Signalled? || h.nic.address != 0 || h.auto.restart)
    ensures var o := Resume(c, h, r1, r2);
            !o.host.thread.pc.Probing? && forall k :: 0 <= k < |o.acts| ==> !o.acts[k].Claimed?
  {
  }

  lemma UseClaimsNothing(c: Config, h: Host, r1: Word, r2: Word)
    requires InUse(h)
    ensures var o := Resume(c, h, r1, r2);
            !o.host.thread.pc.Probing? && forall k :: 0 <= k < |o.acts| ==> !o.acts[k].Claimed?
  {
  }

  lemma ProbeInvRun(c: Config, t: Traced, r1: Word, r2: Word)
    requires ProbeInv(c, t) && Runnable(t.h)
    ensures var o := Resume(c, t.h, r1, r2); ProbeInv(c, Traced(o.host, t.log + o.acts))
  {
    var o := Resume(c, t.h, r1, r2);
    if AtHead(t.h) {
      ProbeInvHead(c, t, r1, r2);
    } else if t.h.thread.pc.ProbeDelay? {
      ProbeInvFirst(c, t, r1, r2);
    } else if InUse(t.h) {
      UseClaimsNothing(c, t.h, r1, r2);
      ProbeInvPlain(c, t, o.host, o.acts);
    } else if t.h.thread.wake.Signalled? || t.h.nic.address != 0 || t.h.auto.restart {
      GivingUpClaimsNothing(c, t.h, r1, r2);
      ProbeInvPlain(c, t, o.host, o.acts);
    } else {
      ProbeInvQuiet(c, t, r1, r2);
    }
  }

  lemma ProbeInvStep(c: Config, t: Traced, l: Label)
    requires ProbeInv(c, t) && Enabled(t.h, l)
    ensures ProbeInv(c, Next(c, t, l))
  {
    match l
    case Run(r1, r2) =>
      ProbeInvRun(c, t, r1, r2);
    case Start(a) =>
      ClaimsProbedAppend(c, t.log, [Started(a)]);
    case _ =>
      assert t.log + [] == t.log;
  }

  /** In every run of a host, an address is installed only directly after probeNum probes of
      exactly that address, each followed by a wait that ended quietly: no conflict, no start and
      no probe of another address came between them. */
  lemma {:induction false} ProbeBeforeClaim(c: Config, t: Traced, ls: seq<Label>)
    requires Created(t.h) && t.log == []
    ensures ProbeInv(c, Exec(c, t, ls))
    decreases |ls|
  {
    if ls != [] {
      var u := Exec(c, t, ls[..|ls| - 1]);
      ProbeBeforeClaim(c, t, ls[..|ls| - 1]);
      if Enabled(u.h, ls[|ls| - 1]) {
        ProbeInvStep(c, u, ls[|ls| - 1]);
      }
    }
  }

  // ----- addresses in range -----

  lemma DerivedInRange(random: Word, mac: Word)
    ensures START_ADDRESS <= Derive(random, mac) <= 0xA9FE_FEFE
  {
    var addresses := END_ADDRESS - START_ADDRESS;
    assert 0 <= ((random + mac) % UINT_SIZE) % addresses < addresses;
  }

  /** How many addresses can be derived. */
  const ADDRESSES := 65023

  /** Every address of the range is derived from some random word, whatever the MAC word. */
  lemma DerivationIsOnto(mac: Word, a: Word)
    requires START_ADDRESS <= a <= 0xA9FE_FEFE
    ensures exists random: Word :: Derive(random, mac) == a
  {
    var d := a - START_ADDRESS;
    var random: Word := if d >= mac then d - mac else d - mac + UINT_SIZE;
    assert (random + mac) % UINT_SIZE == d;
    assert Derive(random, mac) == a;
  }

  /** Every address of the range is derived for some MAC word, whatever the random word. */
  lemma DerivationIsOntoByMac(random: Word, a: Word)
    requires START_ADDRESS <= a <= 0xA9FE_FEFE
    ensures exists mac: Word :: Derive(random, mac) == a
  {
    DerivationIsOnto(random, a);
    var mac: Word :| Derive(mac, random) == a;
    assert Derive(random, mac) == a;
  }

  lemma DerivedFromSum(r: Word, m: Word)
    requires r + m < UINT_SIZE
    ensures Derive(r, m) == START_ADDRESS + (r + m) % ADDRESSES
  {
  }

  /** Two hosts derive the same address exactly if their sums, neither of which wraps, differ by a
      multiple of the number of addresses. */
  lemma SameAddressDerived(r: Word, m: Word, s: Word, n: Word)
    requires r + m < UINT_SIZE && s + n < UINT_SIZE
    ensures Derive(r, m) == Derive(s, n) <==> (r + m - (s + n)) % ADDRESSES == 0
  {
    DerivedFromSum(r, m);
    DerivedFromSum(s, n);
    var x, y := r + m, s + n;
    SameRemainder(x, y);
  }

  lemma SameRemainder(x: nat, y: nat)
    ensures x % ADDRESSES == y % ADDRESSES <==> (x - y) % ADDRESSES == 0
  {
    var p, q := x / ADDRESSES, y / ADDRESSES;
    assert x - y == ADDRESSES * (p - q) + (x % ADDRESSES - y % ADDRESSES);
  }

  /** So hosts that draw the same random word and whose MAC words are close derive different ones. */
  lemma NearbyHostsDiffer(random: Word, m: Word, n: Word)
    requires m < n < m + ADDRESSES && random + n < UINT_SIZE
    ensures Derive(random, m) != Derive(random, n)
  {
    SameAddressDerived(random, n, random, m);
  }

  /** Where an address comes from: the thread derived it, and then it is in range, or a start supplied it. */
  ghost predicate Sourced(log: seq<Act>, a: Word) {
    || (Derived(a) in log && START_ADDRESS <= a <= 0xA9FE_FEFE)
    || (Started(a) in log && Startable(a) && a != 0)
  }

  ghost predicate ClaimsSourced(log: seq<Act>) {
    forall k :: 0 <= k < |log| && log[k].Claimed? ==> Sourced(log[..k], log[k].address)
  }

  ghost predicate SourceInv(t: Traced) {
    && ClaimsSourced(t.log)
    && (t.h.auto.candidate != 0 ==> Sourced(t.log, t.h.auto.candidate))
    && ((t.h.thread.pc.ProbeDelay? || t.h.thread.pc.Probing?) && !t.h.auto.restart ==> t.h.auto.candidate != 0)
  }

  lemma ClaimsSourcedAppend(log: seq<Act>, more: seq<Act>)
    requires ClaimsSourced(log)
    requires forall k :: 0 <= k < |more| && more[k].Claimed? ==> Sourced(log, more[k].address)
    ensures ClaimsSourced(log + more)
  {
    forall k | 0 <= k < |log + more| && (log + more)[k].Claimed?
      ensures Sourced((log + more)[..k], (log + more)[k].address)
    {
      if k < |log| {
        assert (log + more)[..k] == log[..k];
      } else {
        assert log == (log + more)[..k][..|log|];
      }
    }
  }

  /** The loop head changes the candidate only to one it logs as derived. */
  lemma CandidateIsLogged(c: Config, h: Host, r1: Word, r2: Word)
    requires AtHead(h)
    ensures var o := Resume(c, h, r1, r2);
            && (o.host.thread.pc.ProbeDelay? ==> o.host.auto.candidate != 0)
            && (o.host.auto.candidate != h.auto.candidate ==>
                  Derived(o.host.auto.candidate) in o.acts && o.host.auto.candidate == Derive(r1, h.nic.mac))
  {
    var o := Resume(c, h, r1, r2);
    if o.host.auto.candidate != h.auto.candidate {
      assert o.acts[|o.acts| - 2] == Derived(o.host.auto.candidate);
    }
  }

  lemma SourceInvLoopHead(c: Config, t: Traced, r1: Word, r2: Word)
    requires SourceInv(t) && Runnable(t.h) && AtHead(t.h)
    ensures var o := Resume(c, t.h, r1, r2); SourceInv(Traced(o.host, t.log + o.acts))
  {
    var o := Resume(c, t.h, r1, r2);
    LoopHeadShape(c, t.h, r1, r2);
    CandidateIsLogged(c, t.h, r1, r2);
    DerivedInRange(r1, t.h.nic.mac);
    forall k | 0 <= k < |o.acts| ensures !o.acts[k].Claimed? {
      assert o.acts[k] in o.acts;
    }
    ClaimsSourcedAppend(t.log, o.acts);
  }

  /** What any other segment claims is the candidate, which it keeps. */
  ghost predicate ClaimsCandidate(h: Host, o: Outcome) {
    && o.host.auto.candidate == h.auto.candidate && o.host.auto.restart == h.auto.restart
    && !o.host.thread.pc.ProbeDelay?
    && (o.host.thread.pc.Probing? ==> h.thread.pc.ProbeDelay? || h.thread.pc.Probing?)
    && (forall k :: 0 <= k < |o.acts| && o.acts[k].Claimed? ==>
          o.acts[k].address == h.auto.candidate && h.thread.pc.Probing? && !h.auto.restart)
  }

  lemma ProbingClaimsCandidate(c: Config, h: Host, r1: Word, r2: Word)
    requires h.thread.pc.ProbeDelay? || h.thread.pc.Probing?
    ensures ClaimsCandidate(h, Resume(c, h, r1, r2))
  {
  }

  lemma UseKeepsCandidate(c: Config, h: Host, r1: Word, r2: Word)
    requires InUse(h)
    ensures ClaimsCandidate(h, Resume(c, h, r1, r2))
  {
  }

  lemma SourceInvBody(c: Config, t: Traced, r1: Word, r2: Word)
    requires SourceInv(t) && Runnable(t.h) && !AtHead(t.h)
    ensures var o := Resume(c, t.h, r1, r2); SourceInv(Traced(o.host, t.log + o.acts))
  {
    if InUse(t.h) {
      UseKeepsCandidate(c, t.h, r1, r2);
    } else {
      ProbingClaimsCandidate(c, t.h, r1, r2);
    }
    ClaimsSourcedAppend(t.log, Resume(c, t.h, r1, r2).acts);
  }

  lemma SourceInvStep(c: Config, t: Traced, l: Label)
    requires SourceInv(t) && Enabled(t.h, l)
    ensures SourceInv(Next(c, t, l))
  {
    match l
    case Run(r1, r2) =>
      if AtHead(t.h) {
        SourceInvLoopHead(c, t, r1, r2);
      } else {
        SourceInvBody(c, t, r1, r2);
      }
    case Start(a) =>
      ClaimsSourcedAppend(t.log, [Started(a)]);
      assert (t.log + [Started(a)])[|t.log|] == Started(a);
    case _ =>
      assert t.log + [] == t.log;
  }

  /** In every run, every address a host installs is nonzero and either one its thread derived
      earlier, in 169.254.1.0 .. 169.254.254.254, or one a start supplied earlier. */
  lemma {:induction false} ClaimsInRange(c: Config, t: Traced, ls: seq<Label>)
    requires Created(t.h) && t.log == []
    ensures SourceInv(Exec(c, t, ls))
    decreases |ls|
  {
    if ls != [] {
      var u := Exec(c, t, ls[..|ls| - 1]);
      ClaimsInRange(c, t, ls[..|ls| - 1]);
      if Enabled(u.h, ls[|ls| - 1]) {
        SourceInvStep(c, u, ls[|ls| - 1]);
      }
    }
  }

  // ----- no conflict is lost -----

  /** The segment ends with taking the event: at an event wait, or with the clear at registration. */
  ghost predicate TakesEvent(o: Outcome) {
    |o.acts| > 0 && var a := o.acts[|o.acts| - 1];
    a.Conflicted? || a.Defended? || a.Released? || a.Registered?
  }

  lemma EventPersistsHead(c: Config, h: Host, r1: Word, r2: Word)
    requires WaitInv(h) && Pending(h) && AtHead(h)
    ensures var o := Resume(c, h, r1, r2); Pending(o.host) || TakesEvent(o)
  {
    var o := Resume(c, h, r1, r2);
    if o.host.thread.pc.ProbeDelay? {
      assert o.acts[|o.acts| - 1].Registered?;
    }
  }

  lemma EventPersistsBody(c: Config, h: Host, r1: Word, r2: Word)
    requires WaitInv(h) && Runnable(h) && Pending(h)
    requires !AtHead(h)
    ensures var o := Resume(c, h, r1, r2); Pending(o.host) || TakesEvent(o)
  {
  }

  /** A raised event stays raised until the thread takes it, at an event wait or at the clear
      that comes with registration. */
  lemma EventPersists(c: Config, h: Host, l: Label)
    requires WaitInv(h) && Enabled(h, l) && Pending(h)
    ensures var o := Apply(c, h, l); Pending(o.host) || (l.Run? && TakesEvent(o))
  {
    if l.Run? {
      if AtHead(h) {
        EventPersistsHead(c, h, l.r1, l.r2);
      } else {
        EventPersistsBody(c, h, l.r1, l.r2);
      }
    }
  }

  /** A consumed conflict is followed, before the next registration, by the derivation of the
      address being registered or by a restart; and the interface then no longer has the address. */
  ghost predicate ConflictsAnswered(log: seq<Act>) {
    forall j, k :: 0 <= j < k < |log| && log[j].Conflicted? && log[k].Registered?
                   && (forall i :: j < i < k ==> !log[i].Registered?) ==>
      && (Restarted in log[j..k] || log[k - 1] == Derived(log[k].address))
      && (log[j].address != 0 ==> log[k].iface != log[j].address)
  }

  /** A conflict was consumed since the last registration and no restart came after it. */
  ghost predicate Owed(log: seq<Act>) {
    exists j :: 0 <= j < |log| && log[j].Conflicted? && Restarted !in log[j..]
                && forall i :: j < i < |log| ==> !log[i].Registered?
  }

  ghost predicate ConflictInv(t: Traced) {
    && ConflictsAnswered(t.log)
    && (Owed(t.log) ==> t.h.thread.conflict)
    && (forall j :: 0 <= j < |t.log| && t.log[j].Conflicted? && t.log[j].address != 0 ==> LinkLocal(t.log[j].address))
  }

  lemma AnsweredAppend(log: seq<Act>, more: seq<Act>)
    requires ConflictsAnswered(log)
    requires forall k :: 0 <= k < |more| - 1 ==> !more[k].Registered?
    requires forall k :: 0 <= k < |more| && more[k].Registered? ==>
               !(exists j :: 0 <= j < k && more[j].Conflicted?)
               && (!Owed(log) || Restarted in more || (|more| > 1 && more[|more| - 2] == Derived(more[k].address)))
               && forall j :: 0 <= j < |log| && log[j].Conflicted? && log[j].address != 0 ==>
                       more[k].iface != log[j].address
    ensures ConflictsAnswered(log + more)
  {
    var all := log + more;
    forall j, k | 0 <= j < k < |all| && all[j].Conflicted? && all[k].Registered?
                  && (forall i :: j < i < k ==> !all[i].Registered?)
      ensures (Restarted in all[j..k] || all[k - 1] == Derived(all[k].address))
              && (all[j].address != 0 ==> all[k].iface != all[j].address)
    {
      if k < |log| {
        assert all[j..k] == log[j..k];
        assert forall i :: j < i < k ==> all[i] == log[i];
        assert all[k - 1] == log[k - 1];
      } else {
        assert k == |all| - 1 && more[k - |log|] == all[k] && j < |log|;
        assert forall i :: j < i < |log| ==> all[i] == log[i];
        assert all[j..k] == log[j..] + more[..|more| - 1];
        if Owed(log) {
          if Restarted in more {
            var i :| 0 <= i < |more| && more[i] == Restarted;
            assert (log[j..] + more[..|more| - 1])[|log| - j + i] == Restarted;
          } else {
            assert all[k - 1] == more[|more| - 2];
          }
        } else {
          assert Restarted in log[j..];
        }
      }
    }
  }

  lemma OwedAppend(log: seq<Act>, more: seq<Act>)
    ensures Owed(log + more) ==> Owed(log) || exists j :: 0 <= j < |more| && more[j].Conflicted?
    ensures Owed(log + more) && Restarted in more ==> exists j :: 0 <= j < |more| && more[j].Conflicted?
    ensures Owed(log + more) && (exists k :: 0 <= k < |more| && more[k].Registered?) ==>
              exists j :: 0 <= j < |more| && more[j].Conflicted?
  {
    var all := log + more;
    assert forall i :: |log| <= i < |all| ==> all[i] == more[i - |log|];
    if Owed(all) && !exists j :: 0 <= j < |more| && more[j].Conflicted? {
      var j :| 0 <= j < |all| && all[j].Conflicted? && Restarted !in all[j..]
               && forall i :: j < i < |all| ==> !all[i].Registered?;
      assert all[j..] == log[j..] + more;
      assert forall i :: j < i < |log| ==> log[i] == all[i];
      assert Owed(log);
      forall k | 0 <= k < |more| ensures !more[k].Registered? {
        assert more[k] == all[|log| + k];
      }
    }
  }

  /** What a segment from the loop head records: nothing, or a registration at its end that comes
      with a restart, or after deriving the address registered, or with no conflict to answer. */
  ghost predicate HeadActs(h: Host, h': Host, acts: seq<Act>) {
    var n := |acts|;
    || (n == 0 && h'.thread.conflict == h.thread.conflict)
    || (&& n > 0 && acts[n - 1].Registered? && acts[n - 1].iface == h.nic.address && !LinkLocal(h.nic.address)
        && !h'.thread.conflict
        && (forall k :: 0 <= k < n - 1 ==> !acts[k].Registered?)
        && (forall k :: 0 <= k < n ==> !acts[k].Conflicted?)
        && (!h.thread.conflict || acts[0] == Restarted || (n > 1 && acts[n - 2] == Derived(acts[n - 1].address))))
  }

  /** A registration after at most one entry that is neither a registration nor a conflict. */
  lemma RegisterEnds(c: Config, h: Host, acts: seq<Act>, r1: Word, r2: Word)
    requires |acts| <= 1 && (acts != [] ==> acts[0].Restarted? || acts[0].Handled?)
    ensures var o := Register(c, h, acts, r1, r2); var n := |o.acts|;
            && n > 0 && o.acts[n - 1] == Registered(o.host.auto.candidate, h.nic.address)
            && (forall k :: 0 <= k < n - 1 ==> !o.acts[k].Registered?)
            && (forall k :: 0 <= k < n ==> !o.acts[k].Conflicted?)
            && (acts != [] ==> o.acts[0] == acts[0])
            && (h.auto.candidate == 0 ==> n > 1 && o.acts[n - 2] == Derived(o.host.auto.candidate))
  {
  }

  lemma CalmHeadActs(c: Config, h: Host, r1: Word, r2: Word)
    requires WaitInv(h) && AtHead(h) && !h.thread.pc.RateLimit?
    requires h.nic.address != 0 || !h.thread.conflict || h.auto.restart
    ensures var o := Resume(c, h, r1, r2); HeadActs(h, o.host, o.acts)
  {
    if h.nic.address == 0 {
      if h.auto.restart {
        RegisterEnds(c, h.(auto := h.auto.(restart := false, conflictCount := 0),
                           thread := h.thread.(conflict := false)), [Restarted], r1, r2);
      } else {
        RegisterEnds(c, h, [], r1, r2);
      }
    }
  }

  lemma ForgetActs(c: Config, h: Host, h1: Host, r1: Word, r2: Word)
    requires !LinkLocal(h.nic.address) && h1 == h.(auto := h1.auto)
    ensures var o := Forget(c, h1, [], r1, r2); HeadActs(h, o.host, o.acts)
  {
    RegisterEnds(c, h1.(auto := h1.auto.(candidate := 0), thread := h1.thread.(conflict := false)),
                 [] + [Handled], r1, r2);
  }

  lemma ConflictHeadActs(c: Config, h: Host, r1: Word, r2: Word)
    requires WaitInv(h) && AtHead(h) && h.thread.conflict
    requires h.thread.pc.RateLimit? || (h.nic.address == 0 && !h.auto.restart)
    ensures var o := Resume(c, h, r1, r2); HeadActs(h, o.host, o.acts)
  {
    if h.thread.pc.RateLimit? {
      ForgetActs(c, h, h, r1, r2);
    } else {
      ForgetActs(c, h, h.(auto := h.auto.(conflictCount := (h.auto.conflictCount + 1) % UINT_SIZE)), r1, r2);
    }
  }

  lemma LoopHeadActs(c: Config, h: Host, r1: Word, r2: Word)
    requires WaitInv(h) && AtHead(h)
    ensures var o := Resume(c, h, r1, r2); HeadActs(h, o.host, o.acts)
  {
    if h.thread.pc.RateLimit? || (h.nic.address == 0 && !h.auto.restart && h.thread.conflict) {
      ConflictHeadActs(c, h, r1, r2);
    } else {
      CalmHeadActs(c, h, r1, r2);
    }
  }

  /** What any other segment records. */
  ghost predicate BodyActs(h: Host, h': Host, acts: seq<Act>) {
    && (h.thread.conflict ==> h'.thread.conflict)
    && (forall k :: 0 <= k < |acts| ==> !acts[k].Registered?)
    && (forall k :: 0 <= k < |acts| && acts[k].Conflicted? ==>
          acts[k].address == h.auto.candidate && h'.thread.conflict)
  }

  lemma BodySegmentActs(c: Config, h: Host, r1: Word, r2: Word)
    requires WaitInv(h) && !AtHead(h)
    ensures var o := Resume(c, h, r1, r2); BodyActs(h, o.host, o.acts)
  {
  }

  lemma ConflictInvHead(t: Traced, h': Host, acts: seq<Act>)
    requires ConflictInv(t) && HeadActs(t.h, h', acts)
    ensures ConflictInv(Traced(h', t.log + acts))
  {
    if acts == [] {
      assert t.log + acts == t.log;
    } else {
      assert acts[|acts| - 1].Registered?;
      OwedAppend(t.log, acts);
      AnsweredAppend(t.log, acts);
    }
  }

  lemma ConflictInvBody(t: Traced, h': Host, acts: seq<Act>)
    requires ConflictInv(t) && BodyActs(t.h, h', acts)
    requires t.h.auto.candidate != 0 ==> LinkLocal(t.h.auto.candidate)
    ensures ConflictInv(Traced(h', t.log + acts))
  {
    OwedAppend(t.log, acts);
    AnsweredAppend(t.log, acts);
  }

  lemma ConflictInvStep(c: Config, t: Traced, l: Label)
    requires ConflictInv(t) && WaitInv(t.h) && SourceInv(t) && Enabled(t.h, l)
    ensures ConflictInv(Next(c, t, l))
  {
    var o := Apply(c, t.h, l);
    if !l.Run? {
      ConflictInvBody(t, o.host, o.acts);
    } else if AtHead(t.h) {
      LoopHeadActs(c, t.h, l.r1, l.r2);
      ConflictInvHead(t, o.host, o.acts);
    } else {
      BodySegmentActs(c, t.h, l.r1, l.r2);
      ConflictInvBody(t, o.host, o.acts);
    }
  }

  /** No conflict is lost: in every run, once the thread has consumed a conflict it registers next
      with a freshly derived address, the interface rid of the old one, unless a restart came. */
  lemma {:induction false} NoConflictLost(c: Config, t: Traced, ls: seq<Label>)
    requires Created(t.h) && t.log == []
    ensures var u := Exec(c, t, ls); ConflictInv(u) && WaitInv(u.h)
    decreases |ls|
  {
    if ls != [] {
      var u := Exec(c, t, ls[..|ls| - 1]);
      NoConflictLost(c, t, ls[..|ls| - 1]);
      ClaimsInRange(c, t, ls[..|ls| - 1]);
      if Enabled(u.h, ls[|ls| - 1]) {
        ConflictInvStep(c, u, ls[|ls| - 1]);
        WaitInvStep(c, u.h, ls[|ls| - 1]);
      }
    }
  }
}
