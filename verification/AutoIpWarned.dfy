/** What an owner does about a pending conflict event: it gives the address up within two runs of
    its thread exactly when its thread is past the claim and not back in the loop that waits for
    the interface to be cleared; in that loop it never does, and runs get there. */
module AutoIpWarned {
  import opened Common
  import opened AutoIpHost
  import opened AutoIpRuns
  import opened AutoIpTiming
  import opened AutoIpLink

  // ----- two runs of the thread -----

  ghost predicate GivesUpInTwo(c: Config, h: Host, r: (Word, Word), s: (Word, Word)) {
    var u := Resume(c, h, r.0, r.1).host;
    u.nic.address == 0 || (Runnable(u) && Resume(c, u, s.0, s.1).host.nic.address == 0)
  }

  /** An owner with its event pending gives the address up within two runs of its thread, whatever
      random words it draws, if and only if its thread is at a wait past the claim. */
  lemma WarnedOwnerReleases(c: Config, h: Host, x: Word, r: (Word, Word), s: (Word, Word))
    requires WaitInv(h) && LinkLocal(x) && Owns(h, x) && Pending(h) && Runnable(h)
    ensures GivesUpInTwo(c, h, r, s) <==> InUse(h)
  {
    if InUse(h) {
      WarnedRun(c, h, x, r);
      var u := Resume(c, h, r.0, r.1).host;
      if u.nic.address != 0 {
        WarnedRun(c, u, x, s);
      }
    }
  }

  /** One run of an owner in use whose event is pending: it gives up, or holds the signal. */
  lemma WarnedRun(c: Config, h: Host, x: Word, r: (Word, Word))
    requires WaitInv(h) && LinkLocal(x) && Owns(h, x) && Pending(h) && Runnable(h) && InUse(h)
    ensures var u := Resume(c, h, r.0, r.1).host;
            && (h.thread.wake.Signalled? ==> u.nic.address == 0)
            && (u.nic.address == 0 || (WaitInv(u) && Owns(u, x) && InUse(u) && u.thread.wake.Signalled? && Runnable(u)))
  {
    WaitInvRun(c, h, r.0, r.1);
  }

  // ----- over runs -----

  /** Neither the application nor another address manager intervenes. */
  ghost predicate LeftAlone(ls: seq<Label>) {
    forall l :: l in ls ==> !l.Start? && !l.Outside?
  }

  /** How often the thread has run. */
  ghost function RunsIn(c: Config, t: Traced, ls: seq<Label>): nat
    decreases |ls|
  {
    if ls == [] then 0
    else
      var front, l := ls[..|ls| - 1], ls[|ls| - 1];
      RunsIn(c, t, front) + (if l.Run? && Enabled(Exec(c, t, front).h, l) then 1 else 0)
  }

  ghost predicate GivesUpDuring(c: Config, t: Traced, ls: seq<Label>) {
    exists n :: 0 <= n <= |ls| && Exec(c, t, ls[..n]).h.nic.address == 0
  }

  /** An owner past the claim that has been warned and has run n times since. */
  ghost predicate Warned(h: Host, x: Word, n: nat) {
    WaitInv(h) && Owns(h, x) && Pending(h) && InUse(h) && (n >= 1 ==> h.thread.wake.Signalled?)
  }

  lemma WarnedStep(c: Config, h: Host, l: Label, x: Word, n: nat)
    requires LinkLocal(x) && Warned(h, x, n) && n <= 1 && Enabled(h, l) && !l.Start? && !l.Outside?
    ensures var u := Apply(c, h, l).host; var m := if l.Run? then n + 1 else n;
            u.nic.address == 0 || (Warned(u, x, m) && m <= 1)
  {
    WaitInvStep(c, h, l);
    if l.Run? {
      WarnedRun(c, h, x, (l.r1, l.r2));
    }
  }

  lemma LeftAloneFront(ls: seq<Label>)
    requires LeftAlone(ls) && ls != []
    ensures LeftAlone(ls[..|ls| - 1]) && !ls[|ls| - 1].Start? && !ls[|ls| - 1].Outside?
  {
    assert ls[|ls| - 1] in ls;
  }

  /** In every run that leaves a warned owner alone, by the second time its thread runs it has
      given the address up. */
  lemma {:induction false} WarnedOwnerLetsGo(c: Config, t: Traced, ls: seq<Label>, x: Word)
    requires WaitInv(t.h) && LinkLocal(x) && Owns(t.h, x) && Pending(t.h) && InUse(t.h) && LeftAlone(ls)
    ensures GivesUpDuring(c, t, ls) || (RunsIn(c, t, ls) <= 1 && Warned(Exec(c, t, ls).h, x, RunsIn(c, t, ls)))
    ensures RunsIn(c, t, ls) >= 2 ==> GivesUpDuring(c, t, ls)
    decreases |ls|
  {
    if ls != [] {
      var front, l := ls[..|ls| - 1], ls[|ls| - 1];
      LeftAloneFront(ls);
      WarnedOwnerLetsGo(c, t, front, x);
      if GivesUpDuring(c, t, front) {
        var n :| 0 <= n <= |front| && Exec(c, t, front[..n]).h.nic.address == 0;
        assert front[..n] == ls[..n];
      } else {
        assert ls[..|ls|] == ls;
        var h := Exec(c, t, front).h;
        if Enabled(h, l) {
          WarnedStep(c, h, l, x, RunsIn(c, t, front));
        }
      }
    }
  }

  /** Sleeping until somebody clears the interface, with a conflict raised. */
  ghost predicate Deaf(h: Host, x: Word) {
    Owns(h, x) && h.auto.event && (h.thread.pc.Top? || h.thread.pc.Parked?)
  }

  /** In no run that leaves it alone does such an owner give the address up: the loop it is in never
      looks at the event. */
  lemma {:induction false} DeafOwnerKeeps(c: Config, t: Traced, ls: seq<Label>, x: Word)
    requires Deaf(t.h, x) && LeftAlone(ls)
    ensures Deaf(Exec(c, t, ls).h, x)
    decreases |ls|
  {
    if ls != [] {
      LeftAloneFront(ls);
      DeafOwnerKeeps(c, t, ls[..|ls| - 1], x);
    }
  }

  // ----- on the link -----

  /** Nobody starts host i or sets its interface; the rest of the link does as it likes. */
  ghost predicate LeftAloneOn(ls: seq<LinkLabel>, i: nat) {
    forall l :: l in ls && l.Local? && l.i == i ==> !l.l.Start? && !l.l.Outside?
  }

  /** How often the thread of host i has run. */
  ghost function RunsOn(c: Config, k: Link, ls: seq<LinkLabel>, i: nat): nat
    requires WellAddressed(k)
    decreases |ls|
  {
    if ls == [] then 0
    else
      var front, l := ls[..|ls| - 1], ls[|ls| - 1];
      RunsOn(c, k, front, i)
      + (if l.Local? && l.i == i && l.l.Run? && LinkEnabled(LinkExec(c, k, front), l) then 1 else 0)
  }

  ghost predicate GivesUpOn(c: Config, k: Link, ls: seq<LinkLabel>, i: nat)
    requires WellAddressed(k) && i < |k.hosts|
  {
    exists n :: 0 <= n <= |ls| && LinkExec(c, k, ls[..n]).hosts[i].nic.address == 0
  }

  /** What a step of the link is to host i. */
  lemma LinkStepOf(c: Config, u: Link, l: LinkLabel, i: nat) returns (hl: Option<Label>)
    requires WellAddressed(u) && LinkEnabled(u, l) && i < |u.hosts|
    ensures hl.None? ==> LinkNext(c, u, l).hosts[i] == u.hosts[i]
    ensures hl.Some? ==>
              && Enabled(u.hosts[i], hl.value) && LinkNext(c, u, l).hosts[i] == Apply(c, u.hosts[i], hl.value).host
              && (l == Local(i, hl.value) || hl.value == Tick || hl.value == Notify)
    ensures l.Local? && l.i == i ==> hl == Some(l.l)
  {
    var p := ProjectStep(u, l, i);
    ProjectStepRuns(c, u, l, i, []);
    hl := if p == [] then None else Some(p[0]);
  }

  lemma LeftAloneOnFront(ls: seq<LinkLabel>, i: nat)
    requires LeftAloneOn(ls, i) && ls != []
    ensures LeftAloneOn(ls[..|ls| - 1], i)
    ensures var l := ls[|ls| - 1]; l.Local? && l.i == i ==> !l.l.Start? && !l.l.Outside?
  {
    assert ls[|ls| - 1] in ls;
  }

  /** On any link, in every run that leaves a warned owner alone, by the second time its thread runs it
      has given the address up. */
  lemma {:induction false} WarnedOwnerLetsGoOn(c: Config, k: Link, ls: seq<LinkLabel>, i: nat, x: Word)
    requires WellAddressed(k) && i < |k.hosts| && LinkLocal(x) && Warned(k.hosts[i], x, 0) && LeftAloneOn(ls, i)
    ensures GivesUpOn(c, k, ls, i)
            || (RunsOn(c, k, ls, i) <= 1 && Warned(LinkExec(c, k, ls).hosts[i], x, RunsOn(c, k, ls, i)))
    decreases |ls|
  {
    if ls != [] {
      var front, l := ls[..|ls| - 1], ls[|ls| - 1];
      LeftAloneOnFront(ls, i);
      WarnedOwnerLetsGoOn(c, k, front, i, x);
      var u := LinkExec(c, k, front);
      if GivesUpOn(c, k, front, i) {
        var n :| 0 <= n <= |front| && LinkExec(c, k, front[..n]).hosts[i].nic.address == 0;
        assert front[..n] == ls[..n];
      } else if LinkEnabled(u, l) {
        assert ls[..|ls|] == ls;
        var hl := LinkStepOf(c, u, l, i);
        if hl.Some? {
          WarnedStep(c, u.hosts[i], hl.value, x, RunsOn(c, k, front, i));
        }
      }
    }
  }

  lemma {:induction false} DeafOwnerKeepsOn(c: Config, k: Link, ls: seq<LinkLabel>, i: nat, x: Word)
    requires WellAddressed(k) && i < |k.hosts| && Deaf(k.hosts[i], x) && LeftAloneOn(ls, i)
    ensures Deaf(LinkExec(c, k, ls).hosts[i], x)
    decreases |ls|
  {
    if ls != [] {
      var front, l := ls[..|ls| - 1], ls[|ls| - 1];
      LeftAloneOnFront(ls, i);
      DeafOwnerKeepsOn(c, k, front, i, x);
      var u := LinkExec(c, k, front);
      if LinkEnabled(u, l) {
        var hl := LinkStepOf(c, u, l, i);
      }
    }
  }

  /** However the link goes on, by the second time the thread of host i runs it gives the address up. */
  ghost predicate WillLetGo(c: Config, u: Link, i: nat)
    requires WellAddressed(u) && i < |u.hosts|
  {
    forall ls :: LeftAloneOn(ls, i) && RunsOn(c, u, ls, i) >= 2 ==> GivesUpOn(c, u, ls, i)
  }

  ghost predicate WillKeep(c: Config, u: Link, i: nat, x: Word)
    requires WellAddressed(u) && i < |u.hosts|
  {
    forall ls :: LeftAloneOn(ls, i) ==> Owns(LinkExec(c, u, ls).hosts[i], x)
  }

  lemma WarnedFate(c: Config, u: Link, i: nat, x: Word)
    requires WellAddressed(u) && i < |u.hosts|
    requires WaitInv(u.hosts[i]) && LinkLocal(x) && Owns(u.hosts[i], x) && Pending(u.hosts[i])
    ensures if InUse(u.hosts[i]) then WillLetGo(c, u, i) else WillKeep(c, u, i, x)
  {
    if InUse(u.hosts[i]) {
      forall ls | LeftAloneOn(ls, i) && RunsOn(c, u, ls, i) >= 2 ensures GivesUpOn(c, u, ls, i) {
        WarnedOwnerLetsGoOn(c, u, ls, i, x);
      }
    } else {
      forall ls | LeftAloneOn(ls, i) ensures Owns(LinkExec(c, u, ls).hosts[i], x) {
        DeafOwnerKeepsOn(c, u, ls, i, x);
      }
    }
  }

  /** What becomes of two owners with no warning in flight between them, in every settled run of the link:
      one of them is warned, and however the link goes on while that one is left alone, it lets go by its second run,
      unless it is caught in the loop that never looks. */
  lemma QuietOwnersPart(c: Config, k: Link, ls: seq<LinkLabel>, a: nat, b: nat, x: Word)
    requires Fresh(k) && SettledRun(c, k, ls) && a < |k.hosts| && b < |k.hosts| && a != b
    requires var u := LinkExec(c, k, ls); !Coming(u.net, a, b, x) && Owns(u.hosts[a], x) && Owns(u.hosts[b], x)
    ensures var u := LinkExec(c, k, ls);
            exists i :: (i == a || i == b) && Pending(u.hosts[i]) &&
              if InUse(u.hosts[i]) then WillLetGo(c, u, i) else WillKeep(c, u, i, x)
  {
    var u := LinkExec(c, k, ls);
    OwnedIsLocal(c, k, ls, a, x);
    FreshInv(c, k);
    LinkInvExec(c, k, ls);
    Exclusion(c, k, ls, a, b, x);
    var i := if Pending(u.hosts[a]) then a else b;
    WarnedFate(c, u, i, x);
  }

  // ----- and runs get there -----

  /** A created host, started with x, comes to rest as its owner. */
  lemma ReachesRest(c: Config, t: Traced, x: Word) returns (u: Traced)
    requires Created(t.h) && t.h.nic.address == 0 && START_ADDRESS <= x <= END_ADDRESS
    ensures LeadsTo(c, t, u) && Owns(u.h, x) && AtRest(u.h)
  {
    assert Exec(c, t, []) == t;
    LeadsNext(c, t, t, Start(x));
    var t1 := Next(c, t, Start(x));
    LeadsNext(c, t, t1, Run(0, 0));
    var t2 := Next(c, t1, Run(0, 0));
    RegistrationIsCalm(c, t1.h, (0, 0));
    UndisturbedClaim(c, t2.h, Zeros(c.probeNum + 1));
    var t3 := LeadsPrompts(c, t, t2, Zeros(c.probeNum + 1));
    UndisturbedBound(c, t3.h, Zeros(c.announceNum + 1));
    u := LeadsPrompts(c, t, t3, Zeros(c.announceNum + 1));
  }

  /** Started with another address and then with its own again, an owner at rest parks deaf. */
  lemma StartTwiceParks(c: Config, t: Traced, u: Traced, x: Word, y: Word)
    requires LeadsTo(c, t, u) && Owns(u.h, x) && AtRest(u.h) && Startable(x) && Startable(y) && x != y
    ensures exists v :: LeadsTo(c, t, v) && Deaf(v.h, x) && !v.h.thread.suspended && v.h.thread.pc.Parked?
  {
    LeadsNext(c, t, u, Start(y));
    var u1 := Next(c, u, Start(y));
    LeadsNext(c, t, u1, Run(0, 0));
    var u2 := Next(c, u1, Run(0, 0));
    LeadsNext(c, t, u2, Run(0, 0));
    var u3 := Next(c, u2, Run(0, 0));
    LeadsNext(c, t, u3, Start(x));
    assert Deaf(Next(c, u3, Start(x)).h, x);
  }

  /** For every setting and every two AutoIP addresses, a run from creation ends with an owner that
      has its event pending, is not stopped, and keeps the address in every run that leaves it alone. */
  lemma WarnedOwnerMayStay(c: Config, t: Traced, x: Word, y: Word)
    requires Created(t.h) && t.h.nic.address == 0 && START_ADDRESS <= x <= END_ADDRESS && Startable(y) && x != y
    ensures exists v :: LeadsTo(c, t, v) && Owns(v.h, x) && v.h.auto.event && !v.h.thread.suspended
              && forall ls :: LeftAlone(ls) ==> Owns(Exec(c, v, ls).h, x)
  {
    var u := ReachesRest(c, t, x);
    StartTwiceParks(c, t, u, x, y);
    var v :| LeadsTo(c, t, v) && Deaf(v.h, x) && !v.h.thread.suspended && v.h.thread.pc.Parked?;
    forall ls | LeftAlone(ls) ensures Owns(Exec(c, v, ls).h, x) {
      DeafOwnerKeeps(c, v, ls, x);
    }
  }
}
