/** Numbers over every run of one AutoIP host: the conflict rate limit, the statistics counters,
    and the timing of an attempt nobody disturbs. */
module AutoIpTiming {
  import opened Common
  import opened AutoIpHost
  import opened AutoIpRuns

  // ----- the rate limit -----

  /** Conflicts answered so far. */
  ghost function HandledIn(log: seq<Act>): nat {
    multiset(log)[Handled]
  }

  /** Ticks that n conflicts must have cost. */
  ghost function Penalty(c: Config, n: nat): nat {
    if n > c.maxConflicts then (n - c.maxConflicts) * c.rateLimit else 0
  }

  lemma PenaltyGrows(c: Config, n: nat)
    ensures Penalty(c, n) <= Penalty(c, n + 1) <= Penalty(c, n) + c.rateLimit
    ensures n + 1 <= c.maxConflicts ==> Penalty(c, n + 1) == 0
  {
    if n > c.maxConflicts {
      assert (n + 1 - c.maxConflicts) * c.rateLimit
          == (n - c.maxConflicts) * c.rateLimit + c.rateLimit;
    }
  }

  /** n conflicts answered since tick t0, when the count was 0; a sleep only beyond the maximum. */
  ghost predicate RateInv(c: Config, h: Host, n: nat, t0: nat) {
    RateInvWith(c, h, n, t0, Penalty(c, n), Penalty(c, n + 1))
  }

  /** The same, with the penalties as numbers. */
  ghost predicate RateInvWith(c: Config, h: Host, n: nat, t0: nat, now: nat, next: nat) {
    && (h.thread.pc.RateLimit? ==> !h.thread.wake.Signalled?)
    && (n < UINT_SIZE ==>
          && h.auto.conflictCount == (if h.thread.pc.RateLimit? then n + 1 else n)
          && h.clock >= t0 + now
          && (h.thread.pc.RateLimit? ==>
                && n + 1 > c.maxConflicts && h.thread.deadline >= t0 + next
                && (h.thread.wake.TimedOut? ==> h.clock >= h.thread.deadline)))
  }

  /** What a step does to the conflict count when it consumes no restart: k conflicts answered. */
  ghost predicate RateShape(c: Config, h: Host, h': Host, k: nat) {
    && h'.clock >= h.clock && h'.auto.conflictCount < UINT_SIZE
    && if h'.thread.pc.RateLimit? && !h.thread.pc.RateLimit? then
         && k == 0 && h'.thread.wake.Blocked?
         && h'.auto.conflictCount == (h.auto.conflictCount + 1) % UINT_SIZE > c.maxConflicts
         && h'.thread.deadline == h.clock + c.rateLimit
       else if h'.thread.pc.RateLimit? then
         && k == 0 && h'.auto.conflictCount == h.auto.conflictCount && h'.thread.deadline == h.thread.deadline
         && (h'.thread.wake == h.thread.wake || (h'.thread.wake.TimedOut? && h'.clock >= h'.thread.deadline))
       else if h.thread.pc.RateLimit? then
         k == 1 && h'.auto.conflictCount == h.auto.conflictCount && h.thread.wake != Blocked
       else
         || (k == 0 && h'.auto.conflictCount == h.auto.conflictCount)
         || (k == 1 && h'.auto.conflictCount == (h.auto.conflictCount + 1) % UINT_SIZE <= c.maxConflicts)
  }

  /** A step that consumes a restart, and any other. */
  ghost predicate RateStep(c: Config, h: Host, h': Host, acts: seq<Act>) {
    if Restarted in acts then h'.auto.conflictCount == 0 && h'.clock == h.clock && !h'.thread.pc.RateLimit?
    else RateShape(c, h, h', HandledIn(acts))
  }

  lemma RateStepRestart(c: Config, h: Host, r1: Word, r2: Word)
    requires h.auto.restart && (h.thread.pc.Top? || h.thread.pc.Parked?) && h.nic.address == 0
    ensures var o := Resume(c, h, r1, r2); RateStep(c, h, o.host, o.acts)
  {
    assert Resume(c, h, r1, r2).acts[0] == Restarted;
  }

  lemma RateStepCalm(c: Config, h: Host, r1: Word, r2: Word)
    requires h.thread.pc.Top? || h.thread.pc.Parked?
    requires h.nic.address != 0 || (!h.auto.restart && !h.thread.conflict)
    ensures var o := Resume(c, h, r1, r2); RateStep(c, h, o.host, o.acts)
  {
    assert Handled !in Resume(c, h, r1, r2).acts;
  }

  lemma RateStepConflict(c: Config, h: Host, r1: Word, r2: Word)
    requires !h.auto.restart && (h.thread.pc.Top? || h.thread.pc.Parked?) && h.nic.address == 0 && h.thread.conflict
    ensures var o := Resume(c, h, r1, r2); RateStep(c, h, o.host, o.acts)
  {
    var o := Resume(c, h, r1, r2);
    if (h.auto.conflictCount + 1) % UINT_SIZE > c.maxConflicts {
      assert o.acts == [];
    } else {
      assert HandledIn(o.acts) == 1;
    }
  }

  lemma RateStepSlept(c: Config, h: Host, r1: Word, r2: Word)
    requires Runnable(h) && h.thread.pc.RateLimit?
    ensures var o := Resume(c, h, r1, r2); RateStep(c, h, o.host, o.acts)
  {
    assert HandledIn(Resume(c, h, r1, r2).acts) == 1;
  }

  /** Outside the loop head nothing touches the conflict count or the clock. */
  ghost predicate BodyFrame(h: Host, o: Outcome) {
    && o.host.auto.conflictCount == h.auto.conflictCount
    && o.host.clock == h.clock && !o.host.thread.pc.RateLimit?
    && Handled !in o.acts && Restarted !in o.acts
  }

  lemma ProbeFrame(c: Config, h: Host, r1: Word, r2: Word)
    requires h.thread.pc.ProbeDelay? || h.thread.pc.Probing?
    ensures BodyFrame(h, Resume(c, h, r1, r2))
  {
  }

  lemma AnnounceFrame(c: Config, h: Host, r1: Word, r2: Word)
    requires InUse(h)
    ensures BodyFrame(h, Resume(c, h, r1, r2))
  {
  }

  lemma RateShapeOther(c: Config, h: Host, h': Host, acts: seq<Act>)
    requires h'.auto.conflictCount == h.auto.conflictCount && h'.clock == h.clock
    requires !h.thread.pc.RateLimit? && !h'.thread.pc.RateLimit? && Handled !in acts
    ensures RateShape(c, h, h', HandledIn(acts))
  {
  }

  lemma RateInvStays(c: Config, h: Host, h': Host, n: nat, t0: nat, now: nat, next: nat)
    requires RateInvWith(c, h, n, t0, now, next) && RateShape(c, h, h', 0) && next <= now + c.rateLimit
    ensures RateInvWith(c, h', n, t0, now, next)
  {
  }

  lemma RateInvAnswers(c: Config, h: Host, h': Host, n: nat, t0: nat, now: nat, next: nat, later: nat)
    requires RateInvWith(c, h, n, t0, now, next) && RateShape(c, h, h', 1)
    requires n + 1 <= c.maxConflicts ==> next == 0
    ensures RateInvWith(c, h', n + 1, t0, next, later)
  {
  }

  lemma RateInvShape(c: Config, h: Host, h': Host, k: nat, n: nat, t0: nat)
    requires RateInv(c, h, n, t0) && RateShape(c, h, h', k)
    ensures RateInv(c, h', n + k, t0)
  {
    PenaltyGrows(c, n);
    if k == 0 {
      RateInvStays(c, h, h', n, t0, Penalty(c, n), Penalty(c, n + 1));
    } else {
      RateInvAnswers(c, h, h', n, t0, Penalty(c, n), Penalty(c, n + 1), Penalty(c, n + 2));
    }
  }

  lemma RateStepRun(c: Config, h: Host, r1: Word, r2: Word)
    requires Runnable(h)
    ensures var o := Resume(c, h, r1, r2); RateStep(c, h, o.host, o.acts)
  {
    if h.thread.pc.RateLimit? {
      RateStepSlept(c, h, r1, r2);
    } else if h.thread.pc.Top? || h.thread.pc.Parked? {
      if h.nic.address != 0 || (!h.auto.restart && !h.thread.conflict) {
        RateStepCalm(c, h, r1, r2);
      } else if h.auto.restart {
        RateStepRestart(c, h, r1, r2);
      } else {
        RateStepConflict(c, h, r1, r2);
      }
    } else {
      if InUse(h) {
        AnnounceFrame(c, h, r1, r2);
      } else {
        ProbeFrame(c, h, r1, r2);
      }
      var o := Resume(c, h, r1, r2);
      RateShapeOther(c, h, o.host, o.acts);
    }
  }

  /** Conflicts answered since the last restart was consumed, and the tick of that. */
  datatype Window = Window(answered: nat, since: nat)

  ghost function WindowNext(c: Config, h: Host, l: Label, w: Window): Window {
    if !Enabled(h, l) then w
    else if Restarted in Apply(c, h, l).acts then Window(0, h.clock)
    else Window(w.answered + HandledIn(Apply(c, h, l).acts), w.since)
  }

  ghost function WindowOf(c: Config, t: Traced, ls: seq<Label>): Window
    decreases |ls|
  {
    if ls == [] then Window(0, t.h.clock)
    else WindowNext(c, Exec(c, t, ls[..|ls| - 1]).h, ls[|ls| - 1], WindowOf(c, t, ls[..|ls| - 1]))
  }

  lemma RateInvStep(c: Config, t: Traced, l: Label, w: Window)
    requires RateInv(c, t.h, w.answered, w.since)
    ensures var w' := WindowNext(c, t.h, l, w); RateInv(c, Next(c, t, l).h, w'.answered, w'.since)
  {
    if Enabled(t.h, l) {
      var o := Apply(c, t.h, l);
      if l.Run? {
        RateStepRun(c, t.h, l.r1, l.r2);
      }
      if Restarted !in o.acts {
        RateInvShape(c, t.h, o.host, HandledIn(o.acts), w.answered, w.since);
      }
    }
  }

  /** The rate limit over every run, starts included: since the last restart was consumed, which sets
      the count to 0, n answered conflicts (n below 2^32) have cost at least their penalty, and the
      thread sleeps for the limit only beyond the maximum. */
  lemma {:induction false} RateLimitSince(c: Config, t: Traced, ls: seq<Label>)
    requires t.h.auto.conflictCount == 0 && !t.h.thread.pc.RateLimit?
    ensures var w := WindowOf(c, t, ls); RateInv(c, Exec(c, t, ls).h, w.answered, w.since)
    decreases |ls|
  {
    if ls != [] {
      var front, l := ls[..|ls| - 1], ls[|ls| - 1];
      RateLimitSince(c, t, front);
      RateInvStep(c, Exec(c, t, front), l, WindowOf(c, t, front));
    }
  }

  lemma HeadWithoutRestart(c: Config, h: Host, r1: Word, r2: Word)
    requires AtHead(h) && !h.auto.restart
    ensures var o := Resume(c, h, r1, r2); !o.host.auto.restart && Restarted !in o.acts
  {
  }

  lemma BodyKeepsRestart(c: Config, h: Host, r1: Word, r2: Word)
    requires !AtHead(h)
    ensures var o := Resume(c, h, r1, r2); o.host.auto.restart == h.auto.restart && Restarted !in o.acts
  {
    if InUse(h) {
      AnnounceFrame(c, h, r1, r2);
    } else {
      ProbeFrame(c, h, r1, r2);
    }
  }

  lemma NoRestartLogged(c: Config, h: Host, l: Label)
    requires Enabled(h, l) && !h.auto.restart && !l.Start?
    ensures var o := Apply(c, h, l); !o.host.auto.restart && Restarted !in o.acts
  {
    if l.Run? {
      if AtHead(h) {
        HeadWithoutRestart(c, h, l.r1, l.r2);
      } else {
        BodyKeepsRestart(c, h, l.r1, l.r2);
      }
    }
  }

  lemma WindowGoesOn(c: Config, t: Traced, l: Label, since: nat)
    requires !t.h.auto.restart && !l.Start?
    ensures var u := Next(c, t, l);
            && !u.h.auto.restart
            && WindowNext(c, t.h, l, Window(HandledIn(t.log), since)) == Window(HandledIn(u.log), since)
  {
    if Enabled(t.h, l) {
      NoRestartLogged(c, t.h, l);
    }
  }

  lemma {:induction false} WindowIsWholeRun(c: Config, t: Traced, ls: seq<Label>)
    requires t.log == [] && !t.h.auto.restart && forall l :: l in ls ==> !l.Start?
    ensures !Exec(c, t, ls).h.auto.restart && WindowOf(c, t, ls) == Window(HandledIn(Exec(c, t, ls).log), t.h.clock)
    decreases |ls|
  {
    if ls != [] {
      var front, l := ls[..|ls| - 1], ls[|ls| - 1];
      WindowIsWholeRun(c, t, front);
      assert l in ls;
      WindowGoesOn(c, Exec(c, t, front), l, t.h.clock);
    }
  }

  /** The rate limit as a bound on real time: from any state whose conflict count is 0, over any
      run without a start, n answered conflicts (n below 2^32) have cost at least their penalty,
      (n - maxConflicts) rate-limit intervals once n exceeds maxConflicts. */
  lemma RateLimitBound(c: Config, t: Traced, ls: seq<Label>)
    requires t.log == [] && t.h.auto.conflictCount == 0 && !t.h.auto.restart && !t.h.thread.pc.RateLimit?
    requires forall l :: l in ls ==> !l.Start?
    ensures var u := Exec(c, t, ls);
            && RateInv(c, u.h, HandledIn(u.log), t.h.clock)
            && (HandledIn(u.log) < UINT_SIZE ==> u.h.clock - t.h.clock >= Penalty(c, HandledIn(u.log)))
  {
    WindowIsWholeRun(c, t, ls);
    RateLimitSince(c, t, ls);
  }

  // ----- the counters -----

  ghost function ClaimsIn(log: seq<Act>): nat {
    if log == [] then 0
    else ClaimsIn(log[..|log| - 1]) + (if log[|log| - 1].Claimed? then 1 else 0)
  }

  lemma ClaimsInAppend(log: seq<Act>, more: seq<Act>)
    ensures ClaimsIn(log + more) == ClaimsIn(log) + ClaimsIn(more)
  {
    if more == [] {
      assert log + more == log;
    } else {
      ClaimsInAppend(log, more[..|more| - 1]);
      assert (log + more)[..|log + more| - 1] == log + more[..|more| - 1];
    }
  }

  /** Probes of the round in progress. */
  ghost function ProbesSent(pc: Pc): nat {
    if pc.Probing? then pc.i + 1 else 0
  }

  /** Announcements of the address in use. */
  ghost function AnnouncesSent(c: Config, pc: Pc): nat {
    if pc.Announcing? then pc.i + 1 else if pc.Bound? then c.announceNum else 0
  }

  /** Announcements still owed to the address in use. */
  ghost function AnnouncesOwed(c: Config, pc: Pc): int {
    if pc.AnnounceWait? then c.announceNum
    else if pc.Announcing? then c.announceNum - pc.i - 1 else 0
  }

  ghost predicate CountInv(c: Config, h: Host, claims: nat) {
    && (h.thread.pc.Probing? ==> h.thread.pc.i < c.probeNum)
    && (h.thread.pc.Announcing? ==> h.thread.pc.i < c.announceNum)
    && c.probeNum * claims + ProbesSent(h.thread.pc) <= h.auto.probeCount
    && h.auto.announceCount + AnnouncesOwed(c, h.thread.pc) <= c.announceNum * claims
    && c.announceNum * h.auto.defendCount + AnnouncesSent(c, h.thread.pc) <= h.auto.announceCount
  }

  lemma NoClaims(acts: seq<Act>)
    requires forall a :: a in acts ==> !a.Claimed?
    ensures ClaimsIn(acts) == 0
  {
    if acts != [] {
      assert acts[|acts| - 1] in acts;
      NoClaims(acts[..|acts| - 1]);
    }
  }

  lemma OneClaim(x: Word)
    ensures ClaimsIn([Quiet, Claimed(x)]) == 1
  {
    NoClaims([Quiet]);
    assert [Quiet, Claimed(x)][..1] == [Quiet];
  }

  /** What a step does to the counters, with k claims made. */
  ghost predicate CountShape(c: Config, h: Host, h': Host, k: nat) {
    && (h'.thread.pc.Probing? ==> h'.thread.pc.i < c.probeNum)
    && (h'.thread.pc.Announcing? ==> h'.thread.pc.i < c.announceNum)
    && if k == 1 then
         && h.thread.pc.Probing? && h.thread.pc.i + 1 == c.probeNum && h'.thread.pc.AnnounceWait?
         && h'.auto.probeCount == h.auto.probeCount && h'.auto.announceCount == h.auto.announceCount
         && h'.auto.defendCount == h.auto.defendCount
       else if h'.auto.defendCount != h.auto.defendCount then
         && k == 0 && h'.auto.defendCount == h.auto.defendCount + 1 && h.thread.pc.Bound? && h'.thread.pc.Top?
         && h'.auto.probeCount == h.auto.probeCount && h'.auto.announceCount == h.auto.announceCount
       else
         && k == 0
         && h'.auto.probeCount - h.auto.probeCount >= ProbesSent(h'.thread.pc) - ProbesSent(h.thread.pc)
         && h'.auto.probeCount >= h.auto.probeCount
         && h'.auto.announceCount + AnnouncesOwed(c, h'.thread.pc)
            <= h.auto.announceCount + AnnouncesOwed(c, h.thread.pc)
         && h'.auto.announceCount - h.auto.announceCount
            >= AnnouncesSent(c, h'.thread.pc) - AnnouncesSent(c, h.thread.pc)
         && h'.auto.announceCount >= h.auto.announceCount
  }

  lemma CountInvShape(c: Config, h: Host, h': Host, k: nat, claims: nat)
    requires CountInv(c, h, claims) && CountShape(c, h, h', k)
    ensures CountInv(c, h', claims + k)
  {
    if k == 1 {
      assert c.probeNum * (claims + 1) == c.probeNum * claims + c.probeNum;
      assert c.announceNum * (claims + 1) == c.announceNum * claims + c.announceNum;
    }
    if h'.auto.defendCount == h.auto.defendCount + 1 {
      assert c.announceNum * (h.auto.defendCount + 1) == c.announceNum * h.auto.defendCount + c.announceNum;
    }
  }

  lemma CountShapeHead(c: Config, h: Host, r1: Word, r2: Word)
    requires h.thread.pc.Top? || h.thread.pc.Parked? || h.thread.pc.RateLimit?
    ensures var o := Resume(c, h, r1, r2); CountShape(c, h, o.host, ClaimsIn(o.acts))
  {
    var o := Resume(c, h, r1, r2);
    LoopHeadShape(c, h, r1, r2);
    NoClaims(o.acts);
    assert o.host.auto.probeCount == h.auto.probeCount && o.host.auto.announceCount == h.auto.announceCount
        && o.host.auto.defendCount == h.auto.defendCount;
  }

  lemma CountShapeFirst(c: Config, h: Host, r1: Word, r2: Word)
    requires h.thread.pc.ProbeDelay?
    ensures var o := Resume(c, h, r1, r2); CountShape(c, h, o.host, ClaimsIn(o.acts))
  {
    NoClaims(Resume(c, h, r1, r2).acts);
  }

  lemma CountShapeGivesUp(c: Config, h: Host, r1: Word, r2: Word)
    requires h.thread.pc.Probing? && (h.thread.wake.Signalled? || h.nic.address != 0 || h.auto.restart)
    ensures var o := Resume(c, h, r1, r2); CountShape(c, h, o.host, ClaimsIn(o.acts))
  {
    NoClaims(Resume(c, h, r1, r2).acts);
  }

  lemma CountShapeQuiet(c: Config, h: Host, r1: Word, r2: Word)
    requires h.thread.pc.Probing? && h.thread.pc.i < c.probeNum
    requires !h.thread.wake.Signalled? && h.nic.address == 0 && !h.auto.restart
    ensures var o := Resume(c, h, r1, r2); CountShape(c, h, o.host, ClaimsIn(o.acts))
  {
    var o := Resume(c, h, r1, r2);
    if h.thread.pc.i + 1 < c.probeNum {
      NoClaims(o.acts);
    } else {
      OneClaim(h.auto.candidate);
    }
  }

  lemma CountShapeSends(c: Config, h: Host, i: nat, acts: seq<Act>)
    requires i <= c.announceNum && ProbesSent(h.thread.pc) == 0 && !h.thread.pc.Bound?
    requires AnnouncesOwed(c, h.thread.pc) == c.announceNum - i && AnnouncesSent(c, h.thread.pc) == i
    ensures CountShape(c, h, Announce(c, h, i, acts).host, 0)
  {
  }

  lemma AnnounceClaimsNothing(c: Config, h: Host, i: nat, acts: seq<Act>)
    requires acts == [] || acts == [Quiet]
    ensures ClaimsIn(Announce(c, h, i, acts).acts) == 0
  {
    NoClaims(Announce(c, h, i, acts).acts);
  }

  lemma CountShapeAnnounce(c: Config, h: Host, r1: Word, r2: Word)
    requires h.thread.pc.AnnounceWait?
    ensures var o := Resume(c, h, r1, r2); CountShape(c, h, o.host, ClaimsIn(o.acts))
  {
    AnnounceClaimsNothing(c, h, 0, []);
    CountShapeSends(c, h, 0, []);
  }

  lemma CountShapeNext(c: Config, h: Host, r1: Word, r2: Word)
    requires h.thread.pc.Announcing? && h.thread.pc.i < c.announceNum && !h.thread.wake.Signalled?
    ensures var o := Resume(c, h, r1, r2); CountShape(c, h, o.host, ClaimsIn(o.acts))
  {
    AnnounceClaimsNothing(c, h, h.thread.pc.i + 1, [Quiet]);
    CountShapeSends(c, h, h.thread.pc.i + 1, [Quiet]);
  }

  lemma CountShapeConflict(c: Config, h: Host, r1: Word, r2: Word)
    requires h.thread.pc.Announcing? && h.thread.pc.i < c.announceNum && h.thread.wake.Signalled?
    ensures var o := Resume(c, h, r1, r2); CountShape(c, h, o.host, ClaimsIn(o.acts))
  {
    NoClaims(Resume(c, h, r1, r2).acts);
  }

  lemma CountShapeBound(c: Config, h: Host, r1: Word, r2: Word)
    requires h.thread.pc.Bound?
    ensures var o := Resume(c, h, r1, r2); CountShape(c, h, o.host, ClaimsIn(o.acts))
  {
    NoClaims(Resume(c, h, r1, r2).acts);
  }

  lemma CountShapeRun(c: Config, h: Host, r1: Word, r2: Word, claims: nat)
    requires CountInv(c, h, claims)
    ensures var o := Resume(c, h, r1, r2); CountShape(c, h, o.host, ClaimsIn(o.acts))
  {
    if h.thread.pc.Top? || h.thread.pc.Parked? || h.thread.pc.RateLimit? {
      CountShapeHead(c, h, r1, r2);
    } else if h.thread.pc.ProbeDelay? {
      CountShapeFirst(c, h, r1, r2);
    } else if h.thread.pc.Probing? {
      if h.thread.wake.Signalled? || h.nic.address != 0 || h.auto.restart {
        CountShapeGivesUp(c, h, r1, r2);
      } else {
        CountShapeQuiet(c, h, r1, r2);
      }
    } else if h.thread.pc.Bound? {
      CountShapeBound(c, h, r1, r2);
    } else if h.thread.pc.AnnounceWait? {
      CountShapeAnnounce(c, h, r1, r2);
    } else if h.thread.wake.Signalled? {
      CountShapeConflict(c, h, r1, r2);
    } else {
      CountShapeNext(c, h, r1, r2);
    }
  }

  lemma CountShapeOther(c: Config, h: Host, l: Label, claims: nat)
    requires CountInv(c, h, claims) && !l.Run?
    ensures var o := Apply(c, h, l); CountShape(c, h, o.host, ClaimsIn(o.acts))
  {
    NoClaims(Apply(c, h, l).acts);
  }

  lemma CountInvAppend(c: Config, t: Traced, h': Host, acts: seq<Act>)
    requires CountInv(c, t.h, ClaimsIn(t.log)) && CountShape(c, t.h, h', ClaimsIn(acts))
    ensures CountInv(c, h', ClaimsIn(t.log + acts))
  {
    CountInvShape(c, t.h, h', ClaimsIn(acts), ClaimsIn(t.log));
    ClaimsInAppend(t.log, acts);
  }

  lemma CountInvRun(c: Config, t: Traced, r1: Word, r2: Word)
    requires CountInv(c, t.h, ClaimsIn(t.log)) && Runnable(t.h)
    ensures var o := Resume(c, t.h, r1, r2); CountInv(c, o.host, ClaimsIn(t.log + o.acts))
  {
    CountShapeRun(c, t.h, r1, r2, ClaimsIn(t.log));
    var o := Resume(c, t.h, r1, r2);
    CountInvAppend(c, t, o.host, o.acts);
  }

  lemma CountInvStep(c: Config, t: Traced, l: Label)
    requires CountInv(c, t.h, ClaimsIn(t.log)) && Enabled(t.h, l)
    ensures var u := Next(c, t, l); CountInv(c, u.h, ClaimsIn(u.log))
  {
    if l.Run? {
      CountInvRun(c, t, l.r1, l.r2);
    } else {
      CountShapeOther(c, t.h, l, ClaimsIn(t.log));
      var o := Apply(c, t.h, l);
      CountInvAppend(c, t, o.host, o.acts);
    }
  }

  /** In every reachable state: no claim without its probes, no announcement without its claim,
      no defence without all the announcements of the address defended. */
  lemma {:induction false} CountersAddUp(c: Config, t: Traced, ls: seq<Label>)
    requires Created(t.h) && t.log == []
    ensures var u := Exec(c, t, ls); var claims := ClaimsIn(u.log);
            && CountInv(c, u.h, claims)
            && c.probeNum * claims <= u.h.auto.probeCount
            && u.h.auto.announceCount <= c.announceNum * claims
            && c.announceNum * u.h.auto.defendCount <= u.h.auto.announceCount
    decreases |ls|
  {
    if ls != [] {
      var u := Exec(c, t, ls[..|ls| - 1]);
      CountersAddUp(c, t, ls[..|ls| - 1]);
      if Enabled(u.h, ls[|ls| - 1]) {
        CountInvStep(c, u, ls[|ls| - 1]);
      }
    }
  }

  /** The counter an entry of each kind stands for. */
  ghost function Counter(k: Tally, h: Host): nat
    requires !k.Takings?
  {
    match k
    case Probes => h.auto.probeCount
    case Announcements => h.auto.announceCount
    case Defences => h.auto.defendCount
  }

  lemma HeadCountsNothing(c: Config, h: Host, r1: Word, r2: Word, k: Tally)
    requires AtHead(h) && !k.Takings?
    ensures var o := Resume(c, h, r1, r2); Counter(k, o.host) == Counter(k, h) + TallyOf(k, o.acts)
  {
    LoopHeadShape(c, h, r1, r2);
    TallyNone(k, Resume(c, h, r1, r2).acts);
  }

  lemma ProbeCounts(c: Config, h: Host, i: nat, acts: seq<Act>, r1: Word, k: Tally)
    requires !k.Takings? && TallyOf(k, acts) == 0
    ensures var o := Probe(c, h, i, acts, r1); Counter(k, o.host) == Counter(k, h) + TallyOf(k, o.acts)
  {
    TallyAppend(k, acts, [Probed(h.auto.candidate)]);
    TallyShort(k, Probed(h.auto.candidate), Quiet);
  }

  lemma EndOfProbingCounts(c: Config, h: Host, r1: Word, k: Tally)
    requires h.thread.pc.Probing? && !k.Takings?
    requires h.thread.wake.Signalled? || h.nic.address != 0 || h.auto.restart || h.thread.pc.i + 1 >= c.probeNum
    ensures var o := AfterProbe(c, h, h.thread.pc.i, r1); Counter(k, o.host) == Counter(k, h) + TallyOf(k, o.acts)
  {
    TallyNone(k, AfterProbe(c, h, h.thread.pc.i, r1).acts);
  }

  lemma FirstProbeCounts(c: Config, h: Host, r1: Word, r2: Word, k: Tally)
    requires h.thread.pc.ProbeDelay? && !k.Takings?
    ensures var o := Resume(c, h, r1, r2); Counter(k, o.host) == Counter(k, h) + TallyOf(k, o.acts)
  {
    assert Resume(c, h, r1, r2) == Probe(c, h, 0, [], r1);
    ProbeCounts(c, h, 0, [], r1, k);
  }

  lemma NextProbeCounts(c: Config, h: Host, r1: Word, r2: Word, k: Tally)
    requires h.thread.pc.Probing? && !k.Takings?
    requires !h.thread.wake.Signalled? && h.nic.address == 0 && !h.auto.restart && h.thread.pc.i + 1 < c.probeNum
    ensures var o := Resume(c, h, r1, r2); Counter(k, o.host) == Counter(k, h) + TallyOf(k, o.acts)
  {
    assert Resume(c, h, r1, r2) == Probe(c, h, h.thread.pc.i + 1, [Quiet], r1);
    TallyShort(k, Quiet, Abandoned);
    ProbeCounts(c, h, h.thread.pc.i + 1, [Quiet], r1, k);
  }

  lemma AnnounceCounts(c: Config, h: Host, i: nat, acts: seq<Act>, k: Tally)
    requires !k.Takings? && TallyOf(k, acts) == 0
    ensures var o := Announce(c, h, i, acts); Counter(k, o.host) == Counter(k, h) + TallyOf(k, o.acts)
  {
    TallyAppend(k, acts, [Announced]);
    TallyShort(k, Announced, Quiet);
  }

  lemma UseCounts(c: Config, h: Host, r1: Word, r2: Word, k: Tally)
    requires InUse(h) && !h.thread.pc.Bound? && !k.Takings?
    ensures var o := Resume(c, h, r1, r2); Counter(k, o.host) == Counter(k, h) + TallyOf(k, o.acts)
  {
    TallyShort(k, Quiet, Announced);
    if h.thread.pc.AnnounceWait? {
      AnnounceCounts(c, h, 0, [], k);
    } else if h.thread.wake.Signalled? {
      TallyShort(k, Conflicted(h.auto.candidate), Defended);
    } else {
      AnnounceCounts(c, h, h.thread.pc.i + 1, [Quiet], k);
    }
  }

  lemma BoundCounts(c: Config, h: Host, r1: Word, r2: Word, k: Tally)
    requires h.thread.pc.Bound? && !k.Takings?
    ensures var o := Resume(c, h, r1, r2); Counter(k, o.host) == Counter(k, h) + TallyOf(k, o.acts)
  {
    TallyShort(k, Conflicted(h.auto.candidate), Defended);
    TallyShort(k, Defended, Released);
    TallyShort(k, Released, Quiet);
  }

  lemma CountersRun(c: Config, h: Host, r1: Word, r2: Word, k: Tally)
    requires !k.Takings?
    ensures var o := Resume(c, h, r1, r2); Counter(k, o.host) == Counter(k, h) + TallyOf(k, o.acts)
  {
    if AtHead(h) {
      HeadCountsNothing(c, h, r1, r2, k);
    } else if h.thread.pc.Bound? {
      BoundCounts(c, h, r1, r2, k);
    } else if InUse(h) {
      UseCounts(c, h, r1, r2, k);
    } else if h.thread.pc.ProbeDelay? {
      FirstProbeCounts(c, h, r1, r2, k);
    } else if h.thread.wake.Signalled? || h.nic.address != 0 || h.auto.restart || h.thread.pc.i + 1 >= c.probeNum {
      EndOfProbingCounts(c, h, r1, k);
    } else {
      NextProbeCounts(c, h, r1, r2, k);
    }
  }

  lemma CountersAppend(t: Traced, h': Host, acts: seq<Act>, k: Tally)
    requires !k.Takings? && Counter(k, t.h) == TallyOf(k, t.log)
    requires Counter(k, h') == Counter(k, t.h) + TallyOf(k, acts)
    ensures Counter(k, h') == TallyOf(k, t.log + acts)
  {
    TallyAppend(k, t.log, acts);
  }

  lemma CountersStep(c: Config, t: Traced, l: Label, k: Tally)
    requires Enabled(t.h, l) && !k.Takings? && Counter(k, t.h) == TallyOf(k, t.log)
    ensures var u := Next(c, t, l); Counter(k, u.h) == TallyOf(k, u.log)
  {
    var o := Apply(c, t.h, l);
    if l.Run? {
      CountersRun(c, t.h, l.r1, l.r2, k);
    } else {
      TallyNone(k, o.acts);
    }
    CountersAppend(t, o.host, o.acts, k);
  }

  /** In every run the statistics count exactly the probes, announcements and defences of the log. */
  lemma {:induction false} CountersTellTheLog(c: Config, t: Traced, ls: seq<Label>, k: Tally)
    requires Created(t.h) && t.log == [] && !k.Takings?
    ensures var u := Exec(c, t, ls); Counter(k, u.h) == TallyOf(k, u.log)
    decreases |ls|
  {
    if ls != [] {
      var u := Exec(c, t, ls[..|ls| - 1]);
      CountersTellTheLog(c, t, ls[..|ls| - 1], k);
      if Enabled(u.h, ls[|ls| - 1]) {
        CountersStep(c, u, ls[|ls| - 1], k);
      }
    }
  }

  // ----- timing of an undisturbed attempt -----

  /** n intervals of x ticks. */
  ghost function Intervals(n: nat, x: nat): nat {
    if n == 0 then 0 else Intervals(n - 1, x) + x
  }

  lemma {:induction false} IntervalsProduct(n: nat, x: nat)
    ensures Intervals(n, x) == n * x
  {
    if n > 0 {
      IntervalsProduct(n - 1, x);
      assert n * x == (n - 1) * x + x;
    }
  }

  /** The thread is blocked with a timeout ahead of it and no event, start or stop outstanding. */
  ghost predicate Calm(h: Host) {
    && !h.auto.event && !h.auto.restart && !h.thread.suspended && h.thread.wake.Blocked?
    && !h.thread.pc.Top? && !h.thread.pc.Bound? && h.clock <= h.thread.deadline
  }

  /** Nothing happens until the timeout; then the thread runs at once. */
  ghost function Prompt(c: Config, h: Host, r: (Word, Word)): Host {
    Resume(c, h.(clock := h.thread.deadline, thread := h.thread.(wake := TimedOut)), r.0, r.1).host
  }

  ghost function Prompts(c: Config, h: Host, rs: seq<(Word, Word)>): Host
    decreases |rs|
  {
    if rs == [] then h else Prompts(c, Prompt(c, h, rs[0]), rs[1..])
  }

  ghost function Ticks(n: nat): seq<Label> {
    if n == 0 then [] else Ticks(n - 1) + [Tick]
  }

  lemma TickPasses(c: Config, t: Traced)
    ensures Next(c, t, Tick) == t.(h := t.h.(clock := t.h.clock + 1))
  {
    assert t.log + [] == t.log;
  }

  lemma {:induction false} TicksPass(c: Config, t: Traced, n: nat)
    ensures Exec(c, t, Ticks(n)) == t.(h := t.h.(clock := t.h.clock + n))
  {
    if n > 0 {
      TicksPass(c, t, n - 1);
      assert Ticks(n)[..|Ticks(n)| - 1] == Ticks(n - 1);
      TickPasses(c, Exec(c, t, Ticks(n - 1)));
    }
  }

  lemma ExecAppend(c: Config, t: Traced, ls: seq<Label>, l: Label)
    ensures Exec(c, t, ls + [l]) == Next(c, Exec(c, t, ls), l)
  {
    assert (ls + [l])[..|ls + [l]| - 1] == ls;
  }

  lemma ExpireThenRun(c: Config, t: Traced, r: (Word, Word))
    requires Calm(t.h) && t.h.clock == t.h.thread.deadline
    ensures Next(c, Next(c, t, Expire), Run(r.0, r.1)).h == Prompt(c, t.h, r)
  {
  }

  /** A prompt step is a run of the host: ticks up to the deadline, the timer, the thread. */
  lemma PromptIsRun(c: Config, t: Traced, r: (Word, Word))
    requires Calm(t.h)
    ensures Exec(c, t, Ticks(t.h.thread.deadline - t.h.clock) + [Expire] + [Run(r.0, r.1)]).h == Prompt(c, t.h, r)
  {
    var n := t.h.thread.deadline - t.h.clock;
    TicksPass(c, t, n);
    ExecAppend(c, t, Ticks(n), Expire);
    ExecAppend(c, t, Ticks(n) + [Expire], Run(r.0, r.1));
    ExpireThenRun(c, t.(h := t.h.(clock := t.h.thread.deadline)), r);
  }

  /** Nothing is outstanding at the start of any of the prompt steps. */
  ghost predicate CalmThroughout(c: Config, h: Host, rs: seq<(Word, Word)>)
    decreases |rs|
  {
    rs == [] || (Calm(h) && CalmThroughout(c, Prompt(c, h, rs[0]), rs[1..]))
  }

  ghost function PromptLabels(h: Host, r: (Word, Word)): seq<Label>
    requires Calm(h)
  {
    Ticks(h.thread.deadline - h.clock) + [Expire] + [Run(r.0, r.1)]
  }

  ghost function PromptsLabels(c: Config, h: Host, rs: seq<(Word, Word)>): seq<Label>
    requires CalmThroughout(c, h, rs)
    decreases |rs|
  {
    if rs == [] then [] else PromptLabels(h, rs[0]) + PromptsLabels(c, Prompt(c, h, rs[0]), rs[1..])
  }

  lemma {:induction false} ExecConcat(c: Config, t: Traced, ls: seq<Label>, more: seq<Label>)
    ensures Exec(c, t, ls + more) == Exec(c, Exec(c, t, ls), more)
    decreases |more|
  {
    if more == [] {
      assert ls + more == ls;
    } else {
      var front, l := more[..|more| - 1], more[|more| - 1];
      ExecConcat(c, t, ls, front);
      assert ls + more == ls + front + [l] && more == front + [l];
      ExecAppend(c, t, ls + front, l);
      ExecAppend(c, Exec(c, t, ls), front, l);
    }
  }

  /** A sequence of prompt steps is a run of the host. */
  lemma {:induction false} PromptsAreRun(c: Config, t: Traced, rs: seq<(Word, Word)>)
    requires CalmThroughout(c, t.h, rs)
    ensures Exec(c, t, PromptsLabels(c, t.h, rs)).h == Prompts(c, t.h, rs)
    decreases |rs|
  {
    if rs != [] {
      var ls := PromptLabels(t.h, rs[0]);
      PromptIsRun(c, t, rs[0]);
      var u := Exec(c, t, ls);
      PromptsAreRun(c, u, rs[1..]);
      ExecConcat(c, t, ls, PromptsLabels(c, u.h, rs[1..]));
    }
  }

  lemma IntervalBounds(c: Config, random: Word)
    ensures c.probeMin <= ProbeInterval(c, random)
    ensures c.probeMin < c.probeMax ==> ProbeInterval(c, random) < c.probeMax
  {
  }

  lemma SmallRemainder(x: nat, m: nat)
    requires x < m
    ensures x % m == x
  {
  }

  lemma OnlyMinimum(c: Config, random: Word)
    requires c.probeMin >= c.probeMax
    ensures ProbeInterval(c, random) == c.probeMin
  {
  }

  /** The wait after a probe takes every value from the minimum up to the maximum that a random word
      reaches, and none below; only the minimum if that is not below the maximum. */
  lemma IntervalsTaken(c: Config, d: nat)
    requires c.probeMin <= d < UINT_SIZE
    ensures d < c.probeMax || (d == c.probeMin && c.probeMin >= c.probeMax) ==>
              exists random: Word :: ProbeInterval(c, random) == d
    ensures c.probeMin >= c.probeMax ==> forall random: Word :: ProbeInterval(c, random) == c.probeMin
  {
    if d < c.probeMax {
      var random: Word := d;
      SmallRemainder(random, c.probeMax);
      assert ProbeInterval(c, random) == d;
    }
    if c.probeMin >= c.probeMax {
      forall random: Word ensures ProbeInterval(c, random) == c.probeMin {
        OnlyMinimum(c, random);
      }
      assert ProbeInterval(c, 0) == c.probeMin;
    }
  }

  lemma RegisteredDelay(c: Config, h: Host, r1: Word, r2: Word, delay: nat)
    requires AtHead(h) && Resume(c, h, r1, r2).host.thread.pc.ProbeDelay? && delay == r2 % c.probeWait
    ensures Resume(c, h, r1, r2).host.thread.deadline == h.clock + delay
  {
  }

  /** The delay before the first probe takes every value below the probe wait. */
  lemma DelaysTaken(c: Config, h: Host, r1: Word, d: Word)
    requires AtHead(h) && Resume(c, h, r1, d).host.thread.pc.ProbeDelay? && d < c.probeWait
    ensures Resume(c, h, r1, d).host.thread.deadline == h.clock + d
  {
    SmallRemainder(d, c.probeWait);
    RegisteredDelay(c, h, r1, d, d);
  }

  /** A parked thread looks at its interface every probeMax ticks, for as long as that has an address. */
  lemma {:induction false} ParkedPolls(c: Config, h: Host, rs: seq<(Word, Word)>)
    requires Calm(h) && h.thread.pc.Parked? && h.nic.address != 0 && rs != []
    ensures var u := Prompts(c, h, rs);
            && CalmThroughout(c, h, rs)
            && Calm(u) && u.thread.pc.Parked? && u.nic == h.nic && u.auto == h.auto
            && u.clock == h.thread.deadline + Intervals(|rs| - 1, c.probeMax)
            && u.thread.deadline == u.clock + c.probeMax
    decreases |rs|
  {
    if rs[1..] != [] {
      ParkedPolls(c, Prompt(c, h, rs[0]), rs[1..]);
    }
  }

  /** A conflict beyond the maximum keeps the thread from its next registration for exactly the limit. */
  lemma RateLimitWaits(c: Config, h: Host, r: (Word, Word), s: (Word, Word))
    requires Runnable(h) && (h.thread.pc.Top? || h.thread.pc.Parked?) && h.nic.address == 0
    requires h.thread.conflict && !h.auto.restart && !h.auto.event
    requires c.maxConflicts <= h.auto.conflictCount < UINT_SIZE - 1
    ensures var u := Resume(c, h, r.0, r.1).host; var v := Prompt(c, u, s);
            && Calm(u) && u.thread.pc.RateLimit? && u.thread.deadline == h.clock + c.rateLimit
            && v.thread.pc.ProbeDelay? && v.clock == h.clock + c.rateLimit
            && v.auto.candidate == Derive(s.0, h.nic.mac)
  {
  }

  /** A registration leaves the thread within probeWait of its first probe, and calm unless a restart came
      during a rate-limit sleep; any other registration has consumed it, and found the interface clear. */
  lemma RegistrationIsCalm(c: Config, h: Host, r: (Word, Word))
    requires Runnable(h) && AtHead(h)
    ensures var u := Resume(c, h, r.0, r.1).host;
            u.thread.pc.ProbeDelay? ==>
              && u.clock == h.clock && u.thread.deadline - u.clock < c.probeWait
              && u.nic.address == h.nic.address && (Calm(u) <==> !u.auto.restart)
              && (u.auto.restart || u.nic.address != 0 ==> h.thread.pc.RateLimit?)
  {
  }

  lemma FirstProbe(c: Config, h: Host, r: (Word, Word))
    requires Calm(h) && h.thread.pc.ProbeDelay? && h.nic.address == 0
    ensures var u := Prompt(c, h, r);
            && Calm(u) && u.thread.pc == Probing(0) && u.nic.address == 0 && u.auto.candidate == h.auto.candidate
            && u.clock == h.thread.deadline && u.thread.deadline == u.clock + ProbeInterval(c, r.0)
  {
  }

  lemma NextProbe(c: Config, h: Host, r: (Word, Word))
    requires Calm(h) && h.thread.pc.Probing? && h.nic.address == 0 && h.thread.pc.i + 1 < c.probeNum
    ensures var u := Prompt(c, h, r);
            && Calm(u) && u.thread.pc == Probing(h.thread.pc.i + 1) && u.nic.address == 0
            && u.auto.candidate == h.auto.candidate
            && u.clock == h.thread.deadline && u.thread.deadline == u.clock + ProbeInterval(c, r.0)
  {
  }

  lemma LastProbe(c: Config, h: Host, r: (Word, Word))
    requires Calm(h) && h.thread.pc.Probing? && h.nic.address == 0 && h.thread.pc.i + 1 == c.probeNum
    ensures var u := Prompt(c, h, r);
            && Calm(u) && u.thread.pc.AnnounceWait? && u.nic.address == u.auto.candidate == h.auto.candidate
            && u.clock == h.thread.deadline && u.thread.deadline == u.clock + c.announceWait
  {
  }

  /** From the wait after a probe to the claim. */
  lemma {:induction false} ProbingTimes(c: Config, h: Host, rs: seq<(Word, Word)>)
    requires Calm(h) && h.thread.pc.Probing? && h.nic.address == 0
    requires h.thread.pc.i < c.probeNum && |rs| == c.probeNum - h.thread.pc.i
    ensures var u := Prompts(c, h, rs); var spent := u.clock - h.thread.deadline;
            && CalmThroughout(c, h, rs)
            && Calm(u) && u.thread.pc.AnnounceWait? && u.nic.address == u.auto.candidate == h.auto.candidate
            && u.thread.deadline == u.clock + c.announceWait
            && Intervals(|rs| - 1, c.probeMin) <= spent
            && (c.probeMin < c.probeMax ==> spent <= Intervals(|rs| - 1, c.probeMax))
    decreases |rs|
  {
    var u, rest := Prompt(c, h, rs[0]), rs[1..];
    if rest == [] {
      LastProbe(c, h, rs[0]);
    } else {
      NextProbe(c, h, rs[0]);
      IntervalBounds(c, rs[0].0);
      ProbingTimes(c, u, rest);
    }
  }

  lemma ClaimTimes(c: Config, h: Host, rs: seq<(Word, Word)>)
    requires Calm(h) && h.thread.pc.ProbeDelay? && h.nic.address == 0
    requires h.thread.deadline - h.clock < c.probeWait
    requires |rs| == c.probeNum + 1
    ensures var u := Prompts(c, h, rs); var spent := u.clock - h.clock;
            && CalmThroughout(c, h, rs)
            && Calm(u) && u.thread.pc.AnnounceWait? && u.nic.address == u.auto.candidate == h.auto.candidate
            && u.thread.deadline == u.clock + c.announceWait
            && Intervals(c.probeNum, c.probeMin) <= spent
            && (c.probeMin < c.probeMax ==> spent < c.probeWait + Intervals(c.probeNum, c.probeMax))
  {
    FirstProbe(c, h, rs[0]);
    IntervalBounds(c, rs[0].0);
    ProbingTimes(c, Prompt(c, h, rs[0]), rs[1..]);
  }

  /** An attempt nobody disturbs claims its candidate, within these bounds after registration. */
  lemma UndisturbedClaim(c: Config, h: Host, rs: seq<(Word, Word)>)
    requires Calm(h) && h.thread.pc.ProbeDelay? && h.nic.address == 0
    requires h.thread.deadline - h.clock < c.probeWait
    requires |rs| == c.probeNum + 1
    ensures var u := Prompts(c, h, rs); var spent := u.clock - h.clock;
            && CalmThroughout(c, h, rs)
            && Calm(u) && u.thread.pc.AnnounceWait? && u.nic.address == u.auto.candidate == h.auto.candidate
            && u.thread.deadline == u.clock + c.announceWait
            && c.probeNum * c.probeMin <= spent
            && (c.probeMin < c.probeMax ==> spent < c.probeWait + c.probeNum * c.probeMax)
  {
    ClaimTimes(c, h, rs);
    IntervalsProduct(c.probeNum, c.probeMin);
    IntervalsProduct(c.probeNum, c.probeMax);
  }

  /** In the endless wait, with nothing outstanding. */
  ghost predicate AtRest(h: Host) {
    h.thread.pc.Bound? && h.thread.wake.Blocked? && !h.auto.event && !h.auto.restart && !h.thread.suspended
  }

  lemma NextAnnounce(c: Config, h: Host, r: (Word, Word))
    requires Calm(h) && (h.thread.pc.AnnounceWait? || h.thread.pc.Announcing?)
    ensures var u := Prompt(c, h, r); var i := if h.thread.pc.Announcing? then h.thread.pc.i + 1 else 0;
            && u.clock == h.thread.deadline && u.nic.address == h.nic.address && u.auto.candidate == h.auto.candidate
            && if i < c.announceNum then
                 && Calm(u) && u.thread.pc == Announcing(i)
                 && u.thread.deadline == u.clock + c.announceInterval
               else
                 AtRest(u)
  {
  }

  /** From an announcement to the bound wait. */
  lemma {:induction false} AnnouncingTimes(c: Config, h: Host, rs: seq<(Word, Word)>)
    requires Calm(h) && h.thread.pc.Announcing? && h.thread.pc.i < c.announceNum
    requires |rs| == c.announceNum - h.thread.pc.i
    ensures var u := Prompts(c, h, rs);
            && CalmThroughout(c, h, rs)
            && AtRest(u)
            && u.nic.address == h.nic.address && u.auto.candidate == h.auto.candidate
            && u.clock == h.thread.deadline + Intervals(|rs| - 1, c.announceInterval)
    decreases |rs|
  {
    NextAnnounce(c, h, rs[0]);
    if rs[1..] != [] {
      AnnouncingTimes(c, Prompt(c, h, rs[0]), rs[1..]);
    }
  }

  lemma BoundTimes(c: Config, h: Host, rs: seq<(Word, Word)>)
    requires Calm(h) && h.thread.pc.AnnounceWait? && h.thread.deadline == h.clock + c.announceWait
    requires |rs| == c.announceNum + 1
    ensures var u := Prompts(c, h, rs);
            && CalmThroughout(c, h, rs)
            && AtRest(u)
            && u.nic.address == h.nic.address && u.auto.candidate == h.auto.candidate
            && u.clock == h.clock + c.announceWait + Intervals(c.announceNum, c.announceInterval)
  {
    NextAnnounce(c, h, rs[0]);
    if rs[1..] != [] {
      AnnouncingTimes(c, Prompt(c, h, rs[0]), rs[1..]);
    }
  }

  /** After the claim an undisturbed attempt ends in the bound wait, at exactly this tick. */
  lemma UndisturbedBound(c: Config, h: Host, rs: seq<(Word, Word)>)
    requires Calm(h) && h.thread.pc.AnnounceWait? && h.thread.deadline == h.clock + c.announceWait
    requires |rs| == c.announceNum + 1
    ensures var u := Prompts(c, h, rs);
            && CalmThroughout(c, h, rs)
            && AtRest(u)
            && u.nic.address == h.nic.address && u.auto.candidate == h.auto.candidate
            && u.clock == h.clock + c.announceWait + c.announceNum * c.announceInterval
  {
    BoundTimes(c, h, rs);
    IntervalsProduct(c.announceNum, c.announceInterval);
  }

  // ----- states that runs lead to -----

  ghost predicate LeadsTo(c: Config, t: Traced, u: Traced) {
    exists ls :: Exec(c, t, ls) == u
  }

  lemma LeadsNext(c: Config, t: Traced, u: Traced, l: Label)
    requires LeadsTo(c, t, u)
    ensures LeadsTo(c, t, Next(c, u, l))
  {
    var ls :| Exec(c, t, ls) == u;
    ExecAppend(c, t, ls, l);
  }

  lemma LeadsPrompts(c: Config, t: Traced, u: Traced, rs: seq<(Word, Word)>) returns (v: Traced)
    requires LeadsTo(c, t, u) && CalmThroughout(c, u.h, rs)
    ensures LeadsTo(c, t, v) && v.h == Prompts(c, u.h, rs)
  {
    var ls :| Exec(c, t, ls) == u;
    var more := PromptsLabels(c, u.h, rs);
    PromptsAreRun(c, u, rs);
    ExecConcat(c, t, ls, more);
    v := Exec(c, u, more);
    assert Exec(c, t, ls + more) == v;
  }

  function Zeros(n: nat): (rs: seq<(Word, Word)>)
    ensures |rs| == n
  {
    if n == 0 then [] else [(0, 0)] + Zeros(n - 1)
  }
}
