/** What starts, stops and conflict callbacks do to one AutoIP host: no raised event is slept on, none
    is taken twice, a start is taken up exactly when the interface lets it, and a stop holds. */
module AutoIpStarts {
  import opened Common
  import opened AutoIpHost
  import opened AutoIpRuns
  import opened AutoIpTiming

  // ----- nobody sleeps on an event -----

  /** A thread blocked on the event has none waiting for it. */
  ghost predicate WakeInv(h: Host) {
    EventWait(h.thread.pc) && h.thread.wake.Blocked? ==> !h.auto.event
  }

  lemma HeadKeepsAwake(c: Config, h: Host, r1: Word, r2: Word)
    requires AtHead(h)
    ensures WakeInv(Resume(c, h, r1, r2).host)
  {
    LoopHeadShape(c, h, r1, r2);
  }

  lemma BodyKeepsAwake(c: Config, h: Host, r1: Word, r2: Word)
    requires !AtHead(h)
    ensures WakeInv(Resume(c, h, r1, r2).host)
  {
  }

  lemma WakeInvStep(c: Config, h: Host, l: Label)
    requires WakeInv(h) && Enabled(h, l)
    ensures WakeInv(Apply(c, h, l).host)
  {
    if l.Run? {
      if AtHead(h) {
        HeadKeepsAwake(c, h, l.r1, l.r2);
      } else {
        BodyKeepsAwake(c, h, l.r1, l.r2);
      }
    }
  }

  ghost predicate TimesOutIn(h: Host, n: nat) {
    Enabled(h.(clock := h.clock + n), Expire)
  }

  /** The thread can run, or will once its timeout has come. */
  ghost predicate HasNextStep(h: Host) {
    Runnable(h) || (!h.thread.suspended && exists n: nat :: TimesOutIn(h, n))
  }

  /** In every run a raised event is never slept on, and a thread that is not suspended has a next step,
      except in the endless wait of an address in use, with no event raised. */
  lemma {:induction false} NobodySleepsOnAnEvent(c: Config, t: Traced, ls: seq<Label>)
    requires Created(t.h) && t.log == []
    ensures var h := Exec(c, t, ls).h;
            && WakeInv(h)
            && (!h.thread.suspended ==> HasNextStep(h) || (h.thread.pc.Bound? && !Pending(h)))
    decreases |ls|
  {
    if ls != [] {
      var u, l := Exec(c, t, ls[..|ls| - 1]), ls[|ls| - 1];
      NobodySleepsOnAnEvent(c, t, ls[..|ls| - 1]);
      if Enabled(u.h, l) {
        WakeInvStep(c, u.h, l);
      }
    }
    var h := Exec(c, t, ls).h;
    if !h.thread.suspended && !h.thread.pc.Bound? {
      TimeoutComes(h);
    }
  }

  lemma TimeoutComes(h: Host)
    requires !h.thread.suspended && !h.thread.pc.Bound?
    ensures HasNextStep(h)
  {
    if !Runnable(h) {
      var n: nat := if h.clock >= h.thread.deadline then 0 else h.thread.deadline - h.clock;
      assert TimesOutIn(h, n);
    }
  }

  /** A start leaves no thread without a next step, and one that waits for the event runs at once. */
  lemma StartWakes(c: Config, h: Host, a: Word)
    ensures var u := Apply(c, h, Start(a)).host;
            HasNextStep(u) && Pending(u) && (EventWait(h.thread.pc) ==> Runnable(u))
  {
    var u := Apply(c, h, Start(a)).host;
    if !u.thread.pc.Bound? {
      TimeoutComes(u);
    }
  }

  /** So does a conflict callback, but for a suspended thread; and either way the event is pending. */
  lemma CallbackWakes(c: Config, h: Host)
    ensures var u := Apply(c, h, Notify).host;
            Pending(u) && (EventWait(h.thread.pc) && !h.thread.suspended ==> Runnable(u))
  {
  }

  // ----- no conflict is invented -----

  /** How often the event has been raised. */
  ghost function Raised(c: Config, t: Traced, ls: seq<Label>): nat
    decreases |ls|
  {
    if ls == [] then 0
    else
      var front, l := ls[..|ls| - 1], ls[|ls| - 1];
      Raised(c, t, front) + (if (l.Start? || l.Notify?) && Enabled(Exec(c, t, front).h, l) then 1 else 0)
  }

  /** Raised and not yet consumed. */
  ghost function Outstanding(h: Host): nat {
    (if h.auto.event then 1 else 0) + (if h.thread.wake.Signalled? then 1 else 0)
  }

  lemma HeadLeavesEvent(c: Config, h: Host, r1: Word, r2: Word)
    requires WaitInv(h) && AtHead(h)
    ensures Outstanding(Resume(c, h, r1, r2).host) <= Outstanding(h)
  {
  }

  lemma HeadTally(c: Config, h: Host, r1: Word, r2: Word)
    requires AtHead(h)
    ensures TallyOf(Takings, Resume(c, h, r1, r2).acts) == 0
  {
    LoopHeadShape(c, h, r1, r2);
    var acts := Resume(c, h, r1, r2).acts;
    forall a | a in acts ensures !Tallied(Takings, a) {
    }
    TallyNone(Takings, acts);
  }

  lemma HeadTakesNone(c: Config, h: Host, r1: Word, r2: Word)
    requires WaitInv(h) && AtHead(h)
    ensures var o := Resume(c, h, r1, r2); TallyOf(Takings, o.acts) + Outstanding(o.host) <= Outstanding(h)
  {
    HeadLeavesEvent(c, h, r1, r2);
    HeadTally(c, h, r1, r2);
  }

  lemma ProbeTakes(c: Config, h: Host, i: nat, acts: seq<Act>, r1: Word)
    requires !h.thread.wake.Signalled? && TallyOf(Takings, acts) == 0
    ensures var o := Probe(c, h, i, acts, r1); TallyOf(Takings, o.acts) + Outstanding(o.host) <= Outstanding(h)
  {
    TallyAppend(Takings, acts, [Probed(h.auto.candidate)]);
    TallyShort(Takings, Probed(h.auto.candidate), Quiet);
  }

  lemma EndOfProbingTakes(c: Config, h: Host, r1: Word)
    requires WaitInv(h) && h.thread.pc.Probing?
    requires h.thread.wake.Signalled? || h.nic.address != 0 || h.auto.restart || h.thread.pc.i + 1 >= c.probeNum
    ensures var o := AfterProbe(c, h, h.thread.pc.i, r1);
            TallyOf(Takings, o.acts) + Outstanding(o.host) <= Outstanding(h)
  {
    if h.thread.wake.Signalled? {
      TallyShort(Takings, Conflicted(h.auto.candidate), Quiet);
    } else {
      TallyNone(Takings, AfterProbe(c, h, h.thread.pc.i, r1).acts);
    }
  }

  lemma ProbingTakes(c: Config, h: Host, r1: Word, r2: Word)
    requires WaitInv(h) && (h.thread.pc.ProbeDelay? || h.thread.pc.Probing?)
    ensures var o := Resume(c, h, r1, r2); TallyOf(Takings, o.acts) + Outstanding(o.host) <= Outstanding(h)
  {
    TallyShort(Takings, Quiet, Abandoned);
    if h.thread.pc.ProbeDelay? {
      ProbeTakes(c, h, 0, [], r1);
    } else if h.thread.wake.Signalled? || h.nic.address != 0 || h.auto.restart || h.thread.pc.i + 1 >= c.probeNum {
      EndOfProbingTakes(c, h, r1);
    } else {
      ProbeTakes(c, h, h.thread.pc.i + 1, [Quiet], r1);
    }
  }

  lemma AnnounceLeavesEvent(c: Config, h: Host, i: nat, acts: seq<Act>)
    requires !h.thread.wake.Signalled?
    ensures var o := Announce(c, h, i, acts);
            Outstanding(o.host) <= Outstanding(h) && (o.acts == acts || o.acts == acts + [Announced])
  {
  }

  lemma AnnounceTakes(c: Config, h: Host, i: nat, acts: seq<Act>)
    requires !h.thread.wake.Signalled? && TallyOf(Takings, acts) == 0
    ensures var o := Announce(c, h, i, acts); TallyOf(Takings, o.acts) + Outstanding(o.host) <= Outstanding(h)
  {
    AnnounceLeavesEvent(c, h, i, acts);
    TallyAppend(Takings, acts, [Announced]);
    TallyShort(Takings, Announced, Quiet);
  }

  lemma UseTakes(c: Config, h: Host, r1: Word, r2: Word)
    requires WaitInv(h) && Runnable(h) && InUse(h)
    ensures var o := Resume(c, h, r1, r2); TallyOf(Takings, o.acts) + Outstanding(o.host) <= Outstanding(h)
  {
    TallyShort(Takings, Conflicted(h.auto.candidate), Defended);
    TallyShort(Takings, Defended, Released);
    TallyShort(Takings, Released, Quiet);
    TallyShort(Takings, Quiet, Announced);
    if h.thread.pc.AnnounceWait? {
      AnnounceTakes(c, h, 0, []);
    } else if h.thread.pc.Announcing? && !h.thread.wake.Signalled? {
      AnnounceTakes(c, h, h.thread.pc.i + 1, [Quiet]);
    }
  }

  lemma TakingsStep(c: Config, h: Host, l: Label)
    requires WaitInv(h) && Enabled(h, l)
    ensures var o := Apply(c, h, l);
            TallyOf(Takings, o.acts) + Outstanding(o.host)
              <= Outstanding(h) + (if l.Start? || l.Notify? then 1 else 0)
  {
    var o := Apply(c, h, l);
    if !l.Run? {
      TallyNone(Takings, o.acts);
    } else if AtHead(h) {
      HeadTakesNone(c, h, l.r1, l.r2);
    } else if InUse(h) {
      UseTakes(c, h, l.r1, l.r2);
    } else {
      ProbingTakes(c, h, l.r1, l.r2);
    }
  }

  /** In every run each conflict the thread takes, and each event still pending, was raised by a start or
      a callback of its own. */
  lemma {:induction false} NoConflictInvented(c: Config, t: Traced, ls: seq<Label>)
    requires Created(t.h) && t.log == []
    ensures var u := Exec(c, t, ls);
            WaitInv(u.h) && TallyOf(Takings, u.log) + Outstanding(u.h) <= Raised(c, t, ls)
    decreases |ls|
  {
    if ls != [] {
      var u, l := Exec(c, t, ls[..|ls| - 1]), ls[|ls| - 1];
      NoConflictInvented(c, t, ls[..|ls| - 1]);
      if Enabled(u.h, l) {
        TakingsStep(c, u.h, l);
        WaitInvStep(c, u.h, l);
        TallyAppend(Takings, u.log, Apply(c, u.h, l).acts);
      }
    }
  }

  // ----- a stop holds -----

  /** The thread's own state, with nothing raised or timed. */
  ghost predicate SameThread(h: Host, u: Host) {
    && u.thread.suspended && u.thread.pc == h.thread.pc && u.thread.conflict == h.thread.conflict
    && u.auto.(event := h.auto.event) == h.auto && u.nic.(address := h.nic.address) == h.nic
  }

  /** A stopped host does nothing until it is started: over every run without a start its thread stays
      where it is, its fields keep their values, and it logs nothing. */
  lemma {:induction false} StopHolds(c: Config, t: Traced, ls: seq<Label>)
    requires forall l :: l in ls ==> !l.Start?
    ensures var u := Exec(c, Next(c, t, Stop), ls); SameThread(t.h, u.h) && u.log == t.log
    decreases |ls|
  {
    if ls == [] {
      assert t.log + [] == t.log;
    } else {
      var u, l := Exec(c, Next(c, t, Stop), ls[..|ls| - 1]), ls[|ls| - 1];
      StopHolds(c, t, ls[..|ls| - 1]);
      assert l in ls;
      if Enabled(u.h, l) {
        assert u.log + [] == u.log;
      }
    }
  }

  // ----- starts in the log -----

  /** The start at j is the last one, and the thread has not consumed it. */
  ghost predicate Unserved(log: seq<Act>, j: int) {
    && 0 <= j < |log| && log[j].Started?
    && forall k :: j < k < |log| ==> !log[k].Started? && !log[k].Restarted?
  }

  /** At k the start at j is consumed: what it supplied is registered, or derived if it was 0, unless a
      conflict has been answered in between. */
  ghost predicate ServedAt(log: seq<Act>, j: int, k: int)
    requires 0 <= j < k < |log| && log[j].Started?
  {
    || Handled in log[j..k]
    || (log[j].address != 0 && k + 1 < |log| && log[k + 1].Registered? && log[k + 1].address == log[j].address)
    || (log[j].address == 0 && k + 2 < |log| && log[k + 1].Derived? && log[k + 2].Registered?
        && log[k + 2].address == log[k + 1].address)
  }

  ghost predicate Served(log: seq<Act>, k: int)
    requires 0 <= k < |log|
  {
    exists j :: Unserved(log[..k], j) && ServedAt(log, j, k)
  }

  ghost predicate AllServed(log: seq<Act>) {
    forall k :: 0 <= k < |log| && log[k].Restarted? ==> Served(log, k)
  }

  ghost predicate StartInv(t: Traced) {
    && AllServed(t.log)
    && (t.h.auto.restart <==> exists j :: Unserved(t.log, j))
    && (forall j :: Unserved(t.log, j) ==> Handled in t.log[j..] || t.h.auto.candidate == t.log[j].address)
  }

  lemma ServedAppend(log: seq<Act>, more: seq<Act>, k: int)
    requires 0 <= k < |log| && Served(log, k)
    ensures Served(log + more, k)
  {
    var j :| Unserved(log[..k], j) && ServedAt(log, j, k);
    assert (log + more)[..k] == log[..k] && (log + more)[j..k] == log[j..k];
    assert ServedAt(log + more, j, k);
  }

  lemma UnservedAppend(log: seq<Act>, more: seq<Act>, j: int)
    requires forall k :: 0 <= k < |more| ==> !more[k].Started? && !more[k].Restarted?
    ensures Unserved(log + more, j) <==> Unserved(log, j)
  {
    var all := log + more;
    assert forall k :: |log| <= k < |all| ==> all[k] == more[k - |log|];
    if Unserved(all, j) {
      assert j < |log|;
      assert forall k :: j < k < |log| ==> log[k] == all[k];
    }
  }

  /** Entries that neither start nor restart, with the candidate kept or a conflict answered. */
  lemma StartInvPlain(t: Traced, h': Host, acts: seq<Act>)
    requires StartInv(t) && h'.auto.restart == t.h.auto.restart
    requires forall k :: 0 <= k < |acts| ==> !acts[k].Started? && !acts[k].Restarted?
    requires t.h.auto.restart ==> h'.auto.candidate == t.h.auto.candidate || Handled in acts
    ensures StartInv(Traced(h', t.log + acts))
  {
    var log := t.log + acts;
    forall k | |t.log| <= k < |log| ensures !log[k].Restarted? {
      assert log[k] == acts[k - |t.log|];
    }
    forall k | 0 <= k < |log| && log[k].Restarted? ensures Served(log, k) {
      ServedAppend(t.log, acts, k);
    }
    forall j ensures Unserved(log, j) <==> Unserved(t.log, j) {
      UnservedAppend(t.log, acts, j);
    }
    forall j | Unserved(log, j) ensures Handled in log[j..] || h'.auto.candidate == log[j].address {
      assert log[j..] == t.log[j..] + acts;
    }
  }

  lemma StartInvStart(t: Traced, h': Host, a: Word)
    requires StartInv(t) && h'.auto.restart && h'.auto.candidate == a
    ensures StartInv(Traced(h', t.log + [Started(a)]))
  {
    var log := t.log + [Started(a)];
    forall k | 0 <= k < |log| && log[k].Restarted? ensures Served(log, k) {
      ServedAppend(t.log, [Started(a)], k);
    }
    assert Unserved(log, |t.log|);
    assert forall j :: Unserved(log, j) ==> j == |t.log|;
  }

  /** What the segment that consumes a restart logs, the candidate having been x. */
  ghost predicate RestartLogs(acts: seq<Act>, x: Word) {
    && |acts| >= 2 && acts[0] == Restarted
    && if x != 0 then |acts| == 2 && acts[1].Registered? && acts[1].address == x
       else |acts| == 3 && acts[1].Derived? && acts[2].Registered? && acts[2].address == acts[1].address
  }

  lemma ServedNow(log: seq<Act>, acts: seq<Act>, j: int, x: Word)
    requires Unserved(log, j) && RestartLogs(acts, x) && (Handled in log[j..] || x == log[j].address)
    ensures Served(log + acts, |log|)
  {
    var n, all := |log|, log + acts;
    assert all[..n] == log && all[j..n] == log[j..];
    assert forall k :: 0 <= k < |acts| ==> all[n + k] == acts[k];
    assert ServedAt(all, j, n);
  }

  lemma NoneUnserved(log: seq<Act>, acts: seq<Act>, x: Word, i: int)
    requires RestartLogs(acts, x)
    ensures !Unserved(log + acts, i)
  {
    var n, all := |log|, log + acts;
    assert all[n].Restarted? && all[n + 1] == acts[1];
    assert |acts| > 2 ==> all[n + 2] == acts[2];
  }

  lemma ServedStays(log: seq<Act>, acts: seq<Act>, j: int, x: Word)
    requires AllServed(log) && Unserved(log, j) && RestartLogs(acts, x)
    requires Handled in log[j..] || x == log[j].address
    ensures AllServed(log + acts)
  {
    var all := log + acts;
    ServedNow(log, acts, j, x);
    forall k | 0 <= k < |all| && all[k].Restarted? ensures Served(all, k) {
      if k < |log| {
        ServedAppend(log, acts, k);
      } else {
        assert all[k] == acts[k - |log|];
      }
    }
  }

  /** The segment that consumes a restart. */
  lemma StartInvRestart(t: Traced, h': Host, acts: seq<Act>)
    requires StartInv(t) && t.h.auto.restart && !h'.auto.restart && RestartLogs(acts, t.h.auto.candidate)
    ensures StartInv(Traced(h', t.log + acts))
  {
    var x := t.h.auto.candidate;
    var j :| Unserved(t.log, j);
    ServedStays(t.log, acts, j, x);
    forall i ensures !Unserved(t.log + acts, i) {
      NoneUnserved(t.log, acts, x, i);
    }
  }

  lemma RestartActs(c: Config, h: Host, r1: Word, r2: Word)
    requires h.auto.restart && (h.thread.pc.Top? || h.thread.pc.Parked?) && h.nic.address == 0
    ensures var o := Resume(c, h, r1, r2); !o.host.auto.restart && RestartLogs(o.acts, h.auto.candidate)
  {
  }

  /** No other segment starts or restarts, and while a start is unserved the candidate is kept unless a
      conflict is answered. */
  ghost predicate KeepsStart(h: Host, o: Outcome) {
    && o.host.auto.restart == h.auto.restart
    && (forall k :: 0 <= k < |o.acts| ==> !o.acts[k].Started? && !o.acts[k].Restarted?)
    && (h.auto.restart ==> o.host.auto.candidate == h.auto.candidate || Handled in o.acts)
  }

  lemma OtherHeadKeepsStart(c: Config, h: Host, r1: Word, r2: Word)
    requires AtHead(h) && (h.thread.pc.RateLimit? || h.nic.address != 0 || !h.auto.restart)
    ensures KeepsStart(h, Resume(c, h, r1, r2))
  {
    if h.thread.pc.RateLimit? {
      assert Resume(c, h, r1, r2).acts[0] == Handled;
    }
  }

  lemma BodyKeepsStart(c: Config, h: Host, r1: Word, r2: Word)
    requires !AtHead(h)
    ensures KeepsStart(h, Resume(c, h, r1, r2))
  {
  }

  lemma StartInvStep(c: Config, t: Traced, l: Label)
    requires StartInv(t) && Enabled(t.h, l)
    ensures StartInv(Next(c, t, l))
  {
    var o := Apply(c, t.h, l);
    if l.Start? {
      StartInvStart(t, o.host, l.address);
    } else if !l.Run? {
      StartInvPlain(t, o.host, o.acts);
    } else if !AtHead(t.h) {
      BodyKeepsStart(c, t.h, l.r1, l.r2);
      StartInvPlain(t, o.host, o.acts);
    } else if t.h.thread.pc.RateLimit? || t.h.nic.address != 0 || !t.h.auto.restart {
      OtherHeadKeepsStart(c, t.h, l.r1, l.r2);
      StartInvPlain(t, o.host, o.acts);
    } else {
      RestartActs(c, t.h, l.r1, l.r2);
      StartInvRestart(t, o.host, o.acts);
    }
  }

  /** Starts are honoured: in every run the restart flag is up exactly while the last start has not been
      consumed; and when it is consumed, the address it supplied is registered next, or a derived one
      if it supplied 0, unless a conflict was answered since, which makes the thread forget it. */
  lemma {:induction false} StartsAreHonoured(c: Config, t: Traced, ls: seq<Label>)
    requires Created(t.h) && t.log == []
    ensures StartInv(Exec(c, t, ls))
    decreases |ls|
  {
    if ls != [] {
      var u := Exec(c, t, ls[..|ls| - 1]);
      StartsAreHonoured(c, t, ls[..|ls| - 1]);
      if Enabled(u.h, ls[|ls| - 1]) {
        StartInvStep(c, u, ls[|ls| - 1]);
      }
    }
  }

  // ----- when a start is taken up -----

  /** The thread's next segment, its timeout having come if it is blocked. */
  ghost function Segment(c: Config, h: Host, r: (Word, Word)): Host {
    if h.thread.pc.Top? || !h.thread.wake.Blocked? then Resume(c, h, r.0, r.1).host
    else Resume(c, h.(clock := h.clock + (if h.clock < h.thread.deadline then h.thread.deadline - h.clock else 0),
                      thread := h.thread.(wake := TimedOut)), r.0, r.1).host
  }

  /** About to probe for what a start of a supplied, with nothing outstanding. */
  ghost predicate TakenUp(h: Host, a: Word) {
    h.thread.pc.ProbeDelay? && !h.auto.restart && !h.auto.event && (a != 0 ==> h.auto.candidate == a)
  }

  /** The bound wait leads on to the loop head with a clear interface. */
  predicate ClearsBound(h: Host, a: Word) {
    h.nic.address == a || h.nic.address == 0
  }

  /** What a caller of start can see: the interface is clear, or the thread is about to clear it. */
  predicate CanTakeUp(c: Config, h: Host, a: Word) {
    match h.thread.pc
    case RateLimit => false
    case Bound => ClearsBound(h, a)
    case AnnounceWait => c.announceNum > 0 || ClearsBound(h, a)
    case Announcing(i) => i + 1 < c.announceNum || !h.thread.wake.TimedOut? || ClearsBound(h, a)
    case _ => h.nic.address == 0
  }

  /** The result of the three segments after a start. */
  ghost predicate Answers(c: Config, h: Host, a: Word, r: (Word, Word), s: (Word, Word), q: (Word, Word)) {
    var u := Segment(c, Apply(c, h, Start(a)).host, r);
    var v := Segment(c, u, s);
    var w := Segment(c, v, q);
    if CanTakeUp(c, h, a) then TakenUp(u, a) || TakenUp(v, a) || TakenUp(w, a)
    else u.auto.restart && v.auto.restart && w.auto.restart
  }

  /** A start not yet consumed, with what it supplied still the candidate. */
  ghost predicate Awaits(h: Host, a: Word) {
    h.auto.restart && h.auto.candidate == a
  }

  lemma HeadRestarts(c: Config, h: Host, a: Word, q: (Word, Word))
    requires Awaits(h, a) && (h.thread.pc.Top? || h.thread.pc.Parked?)
    ensures var w := Segment(c, h, q);
            if h.nic.address == 0 then TakenUp(w, a) else Awaits(w, a) && w.thread.pc.Parked? && w.nic == h.nic
  {
  }

  lemma BoundLeaves(c: Config, h: Host, a: Word, q: (Word, Word))
    requires Awaits(h, a) && h.thread.pc.Bound? && h.thread.wake.Signalled?
    ensures var w := Segment(c, h, q);
            Awaits(w, a) && w.thread.pc.Top? && w.nic.address == if h.nic.address == a then 0 else h.nic.address
  {
  }

  lemma AnnouncingLeaves(c: Config, h: Host, a: Word, q: (Word, Word))
    requires Awaits(h, a) && h.thread.pc.Announcing? && h.thread.wake.Signalled?
    ensures var w := Segment(c, h, q); Awaits(w, a) && w.thread.pc.Top? && w.nic.address == 0
  {
  }

  lemma ProbingLeaves(c: Config, h: Host, a: Word, q: (Word, Word))
    requires Awaits(h, a) && h.thread.pc.Probing? && !h.thread.wake.Blocked?
    ensures var w := Segment(c, h, q); Awaits(w, a) && w.thread.pc.Top? && w.nic == h.nic
  {
  }

  lemma DelayLeaves(c: Config, h: Host, a: Word, q: (Word, Word))
    requires Awaits(h, a) && h.thread.pc.ProbeDelay? && h.auto.event
    ensures var w := Segment(c, h, q);
            Awaits(w, a) && w.thread.pc.Probing? && w.thread.wake.Signalled? && w.nic.address == h.nic.address
  {
  }

  /** The next announcement, or the bound wait, finds the event raised. */
  lemma NextIsSignalled(c: Config, h: Host, a: Word, q: (Word, Word))
    requires Awaits(h, a) && h.auto.event
    requires h.thread.pc.AnnounceWait? || (h.thread.pc.Announcing? && h.thread.wake.TimedOut?)
    ensures var w := Segment(c, h, q); var i := if h.thread.pc.Announcing? then h.thread.pc.i + 1 else 0;
            && Awaits(w, a) && w.thread.wake.Signalled? && w.nic.address == h.nic.address
            && if i < c.announceNum then w.thread.pc.Announcing? else w.thread.pc.Bound?
  {
  }

  /** From the bound wait, signalled: two segments. */
  lemma BoundRestarts(c: Config, h: Host, a: Word, s: (Word, Word), q: (Word, Word))
    requires Awaits(h, a) && h.thread.pc.Bound? && h.thread.wake.Signalled?
    ensures var v := Segment(c, h, s); var w := Segment(c, v, q);
            v.auto.restart && if ClearsBound(h, a) then TakenUp(w, a) else w.auto.restart
  {
    BoundLeaves(c, h, a, s);
    HeadRestarts(c, Segment(c, h, s), a, q);
  }

  lemma HeadAnswers(c: Config, h: Host, a: Word, r: (Word, Word), s: (Word, Word), q: (Word, Word))
    requires WaitInv(h) && WakeInv(h) && (h.thread.pc.Top? || h.thread.pc.Parked?)
    ensures Answers(c, h, a, r, s, q)
  {
    var h1 := Apply(c, h, Start(a)).host;
    HeadRestarts(c, h1, a, r);
    if h.nic.address != 0 {
      HeadRestarts(c, Segment(c, h1, r), a, s);
      HeadRestarts(c, Segment(c, Segment(c, h1, r), s), a, q);
    }
  }

  lemma ProbingAnswers(c: Config, h: Host, a: Word, r: (Word, Word), s: (Word, Word), q: (Word, Word))
    requires WaitInv(h) && WakeInv(h) && (h.thread.pc.ProbeDelay? || h.thread.pc.Probing?)
    ensures Answers(c, h, a, r, s, q)
  {
    var h1 := Apply(c, h, Start(a)).host;
    var u := Segment(c, h1, r);
    if h.thread.pc.ProbeDelay? {
      DelayLeaves(c, h1, a, r);
      ProbingLeaves(c, u, a, s);
    } else {
      ProbingLeaves(c, h1, a, r);
      HeadRestarts(c, u, a, s);
    }
    var v := Segment(c, u, s);
    if v.thread.pc.Top? || v.thread.pc.Parked? {
      HeadRestarts(c, v, a, q);
    }
  }

  lemma RateLimitAnswers(c: Config, h: Host, a: Word, r: (Word, Word), s: (Word, Word), q: (Word, Word))
    requires WaitInv(h) && WakeInv(h) && h.thread.pc.RateLimit?
    ensures Answers(c, h, a, r, s, q)
  {
  }

  lemma AnnounceWaitAnswers(c: Config, h: Host, a: Word, r: (Word, Word), s: (Word, Word), q: (Word, Word))
    requires WaitInv(h) && WakeInv(h) && h.thread.pc.AnnounceWait?
    ensures Answers(c, h, a, r, s, q)
  {
    var h1 := Apply(c, h, Start(a)).host;
    NextIsSignalled(c, h1, a, r);
    AfterNext(c, Segment(c, h1, r), a, s, q);
  }

  lemma AfterNext(c: Config, h: Host, a: Word, s: (Word, Word), q: (Word, Word))
    requires Awaits(h, a) && h.thread.wake.Signalled? && (h.thread.pc.Announcing? || h.thread.pc.Bound?)
    ensures var v := Segment(c, h, s); var w := Segment(c, v, q);
            if h.thread.pc.Announcing? || ClearsBound(h, a) then TakenUp(w, a) else v.auto.restart && w.auto.restart
  {
    if h.thread.pc.Bound? {
      BoundRestarts(c, h, a, s, q);
    } else {
      AnnouncingLeaves(c, h, a, s);
      HeadRestarts(c, Segment(c, h, s), a, q);
    }
  }

  lemma AnnouncingAnswers(c: Config, h: Host, a: Word, r: (Word, Word), s: (Word, Word), q: (Word, Word))
    requires WaitInv(h) && WakeInv(h) && h.thread.pc.Announcing?
    ensures Answers(c, h, a, r, s, q)
  {
    var h1 := Apply(c, h, Start(a)).host;
    var u := Segment(c, h1, r);
    if h.thread.wake.TimedOut? {
      NextIsSignalled(c, h1, a, r);
      AfterNext(c, u, a, s, q);
    } else {
      AnnouncingLeaves(c, h1, a, r);
      HeadRestarts(c, u, a, s);
    }
  }

  lemma BoundAnswers(c: Config, h: Host, a: Word, r: (Word, Word), s: (Word, Word), q: (Word, Word))
    requires WaitInv(h) && WakeInv(h) && h.thread.pc.Bound?
    ensures Answers(c, h, a, r, s, q)
  {
    var h1 := Apply(c, h, Start(a)).host;
    var u := Segment(c, h1, r);
    BoundRestarts(c, h1, a, r, s);
    BoundLeaves(c, h1, a, r);
    if !ClearsBound(h, a) {
      HeadRestarts(c, u, a, s);
      HeadRestarts(c, Segment(c, u, s), a, q);
    }
  }

  /** A start is taken up within three segments of the thread, left alone, exactly if the interface is
      clear or the thread is about to clear it, and it does not sleep for the rate limit. Otherwise the
      restart flag is still up after them. */
  lemma StartIsTakenUp(c: Config, h: Host, a: Word, r: (Word, Word), s: (Word, Word), q: (Word, Word))
    requires WaitInv(h) && WakeInv(h)
    ensures Answers(c, h, a, r, s, q)
  {
    match h.thread.pc
    case Top | Parked => HeadAnswers(c, h, a, r, s, q);
    case ProbeDelay | Probing(_) => ProbingAnswers(c, h, a, r, s, q);
    case RateLimit => RateLimitAnswers(c, h, a, r, s, q);
    case AnnounceWait => AnnounceWaitAnswers(c, h, a, r, s, q);
    case Announcing(_) => AnnouncingAnswers(c, h, a, r, s, q);
    case Bound => BoundAnswers(c, h, a, r, s, q);
  }

  // ----- a start during the rate limit -----

  ghost predicate ForgetsStart(c: Config, h: Host, a: Word, r: (Word, Word)) {
    var u := Segment(c, Apply(c, h, Start(a)).host, r);
    u.thread.pc.ProbeDelay? && u.auto.restart && u.auto.candidate == Derive(r.0, h.nic.mac)
  }

  ghost predicate ForgetsStarts(c: Config, h: Host) {
    forall a, r :: ForgetsStart(c, h, a, r)
  }

  /** A start during the sleep for the rate limit is forgotten: the thread goes on to derive an address of
      its own. */
  lemma StartForgotten(c: Config, h: Host, a: Word, r: (Word, Word))
    requires h.thread.pc.RateLimit?
    ensures ForgetsStart(c, h, a, r)
  {
  }

  /** Back at the loop head with its n+1-st conflict to answer. */
  ghost predicate Conflicting(c: Config, h: Host, n: nat) {
    && h.thread.pc.Top? && h.thread.conflict && !h.auto.restart && !h.thread.suspended && !h.auto.event
    && h.nic.address == 0 && h.auto.conflictCount == n && n <= c.maxConflicts
  }

  /** The first probe of a registered address meets a conflict. */
  lemma ProbeMeetsConflict(c: Config, t: Traced, u: Traced) returns (v: Traced)
    requires LeadsTo(c, t, u) && Calm(u.h) && u.h.thread.pc.ProbeDelay? && u.h.nic.address == 0
    requires u.h.auto.conflictCount <= c.maxConflicts
    ensures LeadsTo(c, t, v) && Conflicting(c, v.h, u.h.auto.conflictCount)
  {
    FirstProbe(c, u.h, (0, 0));
    var w := LeadsPrompts(c, t, u, [(0, 0)]);
    LeadsNext(c, t, w, Notify);
    var signalled := Next(c, w, Notify);
    LeadsNext(c, t, signalled, Run(0, 0));
    v := Next(c, signalled, Run(0, 0));
  }

  lemma {:induction false} ConflictsLeadToLimit(c: Config, t: Traced, u: Traced, n: nat) returns (v: Traced)
    requires LeadsTo(c, t, u) && Conflicting(c, u.h, n) && c.maxConflicts < UINT_SIZE - 1
    ensures LeadsTo(c, t, v) && v.h.thread.pc.RateLimit? && !v.h.thread.suspended
    decreases c.maxConflicts - n
  {
    LeadsNext(c, t, u, Run(0, 0));
    v := Next(c, u, Run(0, 0));
    ConflictIsCounted(c, u, n);
    if n < c.maxConflicts {
      var w := ProbeMeetsConflict(c, t, v);
      v := ConflictsLeadToLimit(c, t, w, n + 1);
    }
  }

  lemma ConflictIsCounted(c: Config, u: Traced, n: nat)
    requires Conflicting(c, u.h, n) && c.maxConflicts < UINT_SIZE - 1
    ensures var h := Next(c, u, Run(0, 0)).h;
            && !h.thread.suspended
            && if n == c.maxConflicts then h.thread.pc.RateLimit?
               else Calm(h) && h.thread.pc.ProbeDelay? && h.nic.address == 0 && h.auto.conflictCount == n + 1
  {
  }

  /** And runs get there, for every setting whose maximum the conflict count can exceed: whatever is then
      supplied, the thread drops it. */
  lemma StartsAreForgotten(c: Config, t: Traced, x: Word)
    requires Created(t.h) && t.h.nic.address == 0 && START_ADDRESS <= x <= END_ADDRESS
    requires c.maxConflicts < UINT_SIZE - 1
    ensures exists u :: LeadsTo(c, t, u) && !u.h.thread.suspended && ForgetsStarts(c, u.h)
  {
    assert Exec(c, t, []) == t;
    LeadsNext(c, t, t, Start(x));
    var t1 := Next(c, t, Start(x));
    LeadsNext(c, t, t1, Run(0, 0));
    var t2 := Next(c, t1, Run(0, 0));
    var t3 := ProbeMeetsConflict(c, t, t2);
    var u := ConflictsLeadToLimit(c, t, t3, 0);
    forall a, r ensures ForgetsStart(c, u.h, a, r) {
      StartForgotten(c, u.h, a, r);
    }
  }
}
