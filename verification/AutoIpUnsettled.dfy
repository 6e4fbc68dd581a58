/** What an interface cleared in the last probe wait does to exclusion: one such clear is enough to
    break it, on some link that agrees with everything the host has seen; any other step is harmless. */
module AutoIpUnsettled {
  import opened Common
  import opened AutoIpHost
  import opened AutoIpRuns
  import opened AutoIpTiming
  import opened AutoIpLink
  import opened AutoIpRace

  // ----- a clear that breaks exclusion -----

  /** In its last probe wait for x, not warned, and behind another address. */
  ghost predicate Covered(c: Config, h: Host, x: Word) {
    && LastWait(c, h) && !Pending(h) && h.auto.candidate == x
    && START_ADDRESS <= x <= END_ADDRESS && h.nic.address != 0 && h.nic.address != x
  }

  /** A clear from there leads, without another, to two unwarned owners of x. */
  ghost predicate ClearBreaks(c: Config, v: Link, p: nat, r: nat, x: Word, z: Link)
    requires WellAddressed(v)
  {
    && p < |v.hosts| && r < |v.hosts| && p != r && LinkEnabled(v, Local(p, Outside(0)))
    && Reaches(c, LinkNext(c, v, Local(p, Outside(0))), z, 0)
    && |z.hosts| == |v.hosts| && NoneBetween(z.net, p, r) && Unwarned(z, p, r, x)
  }

  lemma ClaimAfterTimeout(c: Config, h: Host, x: Word)
    requires LastWait(c, h) && h.thread.wake.TimedOut? && h.nic.address == 0 && h.auto.candidate == x != 0
    requires !Pending(h)
    ensures Runnable(h)
    ensures var o := Resume(c, h, 0, 0); o.sent == None && Owns(o.host, x) && !Pending(o.host)
  {
  }

  lemma CoverThenClear(c: Config, v: Link, p: nat, r: nat, x: Word) returns (z: Link)
    requires WellAddressed(v) && p < |v.hosts| && r < |v.hosts| && p != r && NoneBetween(v.net, p, r)
    requires Covered(c, v.hosts[p], x) && Owns(v.hosts[r], x) && !Pending(v.hosts[r])
    requires v.hosts[p].clock >= v.hosts[p].thread.deadline
    ensures ClearBreaks(c, v, p, r, x, z)
  {
    var w := LinkNext(c, v, Local(p, Outside(0)));
    var h := SetAddress(v.hosts[p], 0);
    assert v.net + [] == v.net;
    assert w == Link(v.hosts[p := h], v.net);
    ReachesItself(c, w);
    var timedOut := h.(thread := h.thread.(wake := TimedOut));
    var w' := Link(v.hosts[p := timedOut], v.net);
    if h.thread.wake.Blocked? {
      QuietReaches(c, w, w, 0, p, Expire);
      assert w'.hosts == w.hosts[p := timedOut];
    } else {
      assert w' == w;
    }
    ClaimAfterTimeout(c, timedOut, x);
    RunReaches(c, w, w', 0, p);
    var o := Resume(c, timedOut, 0, 0);
    z := Link(w'.hosts[p := o.host], v.net);
  }

  /** While p is covered, an idle host comes to own the address p has probed for; then p is cleared. */
  lemma IdleHostTakesOver(c: Config, k: Link, u: Link, n: nat, p: nat, r: nat, x: Word)
    returns (v: Link, m: nat, z: Link)
    requires WellAddressed(k) && Reaches(c, k, u, n) && WellAddressed(u)
    requires p < |u.hosts| && r < |u.hosts| && p != r && NoneBetween(u.net, p, r)
    requires Covered(c, u.hosts[p], x) && Idle(u.hosts[r])
    ensures Reaches(c, k, v, n) && WellAddressed(v) && |v.hosts| == |u.hosts| && p < |v.hosts|
    ensures v.hosts[p] == Later(u.hosts[p], m) && ClearBreaks(c, v, p, r, x, z)
  {
    var h := RaceBegins(c, k, u, n, r, x);
    var w, m1 := RaceIsWon(c, k, Link(u.hosts[r := h], u.net), n, p, r, x);
    var due := w.hosts[p].thread.deadline;
    var m2 := if w.hosts[p].clock >= due then 0 else due - w.hosts[p].clock;
    TimeReaches(c, k, w, n, m2);
    v, m := Link(AllLater(w.hosts, m2), w.net), m1 + m2;
    z := CoverThenClear(c, v, p, r, x);
  }

  // ----- one clear on two hosts -----

  ghost predicate OneClearBreaks(c: Config, k: Link, x: Word, before: seq<LinkLabel>, after: seq<LinkLabel>)
    requires WellAddressed(k) && |k.hosts| == 2
  {
    && ClearsIn(before) == 0 && ClearsIn(after) == 0
    && !Settled(c, LinkExec(c, k, before).hosts[0], Outside(0))
    && var z := LinkExec(c, k, before + [Local(0, Outside(0))] + after);
       Unwarned(z, 0, 1, x) && z.net == []
  }

  lemma {:induction false} LinkExecConcat(c: Config, k: Link, ls: seq<LinkLabel>, more: seq<LinkLabel>)
    requires WellAddressed(k)
    ensures LinkExec(c, k, ls + more) == LinkExec(c, LinkExec(c, k, ls), more)
    decreases |more|
  {
    if more == [] {
      assert ls + more == ls;
    } else {
      var front, l := more[..|more| - 1], more[|more| - 1];
      LinkExecConcat(c, k, ls, front);
      ConcatStep(c, k, ls, front, l);
      assert more == front + [l];
    }
  }

  lemma ConcatStep(c: Config, k: Link, ls: seq<LinkLabel>, front: seq<LinkLabel>, l: LinkLabel)
    requires WellAddressed(k) && LinkExec(c, k, ls + front) == LinkExec(c, LinkExec(c, k, ls), front)
    ensures LinkExec(c, k, ls + (front + [l])) == LinkExec(c, LinkExec(c, k, ls), front + [l])
  {
    assert ls + (front + [l]) == ls + front + [l];
    LinkExecAppend(c, k, ls + front, l);
    LinkExecAppend(c, LinkExec(c, k, ls), front, l);
  }

  lemma AroundOne(c: Config, k: Link, ls: seq<LinkLabel>, l: LinkLabel, more: seq<LinkLabel>)
    requires WellAddressed(k)
    ensures LinkExec(c, k, ls + [l] + more) == LinkExec(c, LinkNext(c, LinkExec(c, k, ls), l), more)
  {
    LinkExecAppend(c, k, ls, l);
    LinkExecConcat(c, k, ls + [l], more);
  }

  /** Both hosts to the point where the clear does its harm. */
  lemma BothReach(c: Config, k: Link, x: Word, y: Word) returns (v: Link, z: Link)
    requires Fresh(k) && |k.hosts| == 2 && k.hosts[0].nic.address == 0 && k.hosts[1].nic.address == 0
    requires START_ADDRESS <= x <= END_ADDRESS && y != 0 && !LinkLocal(y)
    ensures Reaches(c, k, v, 0) && WellAddressed(v) && |v.hosts| == 2 && !Settled(c, v.hosts[0], Outside(0))
    ensures ClearBreaks(c, v, 0, 1, x, z)
  {
    var u := CoverFirst(c, k, x, y);
    var m;
    v, m, z := IdleHostTakesOver(c, k, u, 0, 0, 1, x);
  }

  /** The first host to its last wait, and its interface covered. */
  lemma CoverFirst(c: Config, k: Link, x: Word, y: Word) returns (u: Link)
    requires Fresh(k) && |k.hosts| == 2 && k.hosts[0].nic.address == 0 && k.hosts[1].nic.address == 0
    requires START_ADDRESS <= x <= END_ADDRESS && y != 0 && !LinkLocal(y)
    ensures Reaches(c, k, u, 0) && WellAddressed(u) && |u.hosts| == 2 && NoneBetween(u.net, 0, 1)
    ensures Covered(c, u.hosts[0], x) && Idle(u.hosts[1])
  {
    ReachesItself(c, k);
    var h := RaceBegins(c, k, k, 0, 0, x);
    var w, m := RaceToLast(c, k, Link(k.hosts[0 := h], k.net), 0, 1, 0, x);
    QuietReaches(c, k, w, 0, 0, Outside(y));
    u := Link(w.hosts[0 := SetAddress(w.hosts[0], y)], w.net);
  }

  lemma TwoHostsQuiet(u: Link)
    requires WellAddressed(u) && |u.hosts| == 2
    ensures NoneBetween(u.net, 0, 1) ==> u.net == []
  {
    if u.net != [] {
      assert u.net[0] in u.net;
      assert Between(u.net[0], 0, 1);
    }
  }

  /** With no restriction on clears exclusion fails, for every setting and every address, in a run from
      a fresh link of two hosts in which an interface is cleared just once, in the last probe wait: the
      prober's interface carries another address while the other host probes for x and claims it, and
      is cleared before the prober's thread gets to run again. Then both own x, no event is pending,
      and nothing is on the wire. */
  lemma UnsettledBreaksExclusion(c: Config, k: Link, x: Word, y: Word)
    requires Fresh(k) && |k.hosts| == 2 && k.hosts[0].nic.address == 0 && k.hosts[1].nic.address == 0
    requires START_ADDRESS <= x <= END_ADDRESS && y != 0 && !LinkLocal(y)
    ensures exists before, after :: OneClearBreaks(c, k, x, before, after)
  {
    var v, z := BothReach(c, k, x, y);
    var w := LinkNext(c, v, Local(0, Outside(0)));
    var before :| ReachesBy(c, k, v, 0, before);
    var after :| ReachesBy(c, w, z, 0, after);
    AroundOne(c, k, before, Local(0, Outside(0)), after);
    TwoHostsQuiet(z);
    assert OneClearBreaks(c, k, x, before, after);
  }

  // ----- a link with one host more -----

  /** A message for address 0 comes from address 0: nobody is asked for it by anyone who has one. */
  predicate Proper(arp: Arp) {
    arp.target == 0 ==> arp.sender == 0
  }

  lemma SentIsProper(c: Config, h: Host, l: Label)
    ensures var sent := Apply(c, h, l).sent; sent.Some? ==> Proper(sent.value)
  {
    if l.Run? && AtHead(h) {
      LoopHeadShape(c, h, l.r1, l.r2);
    }
  }

  /** Created, not started, on an interface without an address. */
  ghost predicate Asleep(h: Host) {
    Idle(h) && h.nic.probeAddress == 0
  }

  /** A frame for the sleeping last host arrives and leaves nothing behind. */
  lemma AsleepHears(c: Config, k: Link, hosts: seq<Host>, e: Host, net: seq<Frame>, n: nat, from: nat, arp: Arp)
    requires var u := Link(hosts + [e], net + [Frame(from, |hosts|, arp)]);
             WellAddressed(k) && WellAddressed(u) && Reaches(c, k, u, n)
    requires Asleep(e) && Proper(arp) && from < |hosts|
    ensures Reaches(c, k, Link(hosts + [e], net), n)
  {
    var r := |hosts|;
    var f := Frame(from, r, arp);
    LastArrives(c, k, hosts + [e], net, n, f);
    if arp.request && arp.target == 0 {
      var g := Frame(r, from, Arp(false, 0, 0));
      LastArrives(c, k, hosts + [e], net, n, g);
    }
    assert net + [] == net;
  }

  /** The newest frame arrives at a host that does not change. */
  lemma LastArrives(c: Config, k: Link, hosts: seq<Host>, net: seq<Frame>, n: nat, f: Frame)
    requires var u := Link(hosts, net + [f]); WellAddressed(k) && WellAddressed(u) && Reaches(c, k, u, n)
    requires f.to < |hosts| && Receive(hosts[f.to], f.arp, false).host == hosts[f.to]
    ensures Reaches(c, k, Link(hosts, net + Answer(f, Receive(hosts[f.to], f.arp, false).reply, |hosts|)), n)
    ensures WellAddressed(Link(hosts, net))
  {
    var u := Link(hosts, net + [f]);
    assert forall g :: g in net ==> g in u.net;
    assert f in u.net;
    ReachesNext(c, k, u, n, Deliver(|net|, false));
    assert u.net[..|net|] + u.net[|net| + 1..] == net;
    assert hosts[f.to := hosts[f.to]] == hosts;
  }

  ghost function Joined(u: Link, e: Host): Link {
    Link(u.hosts + [e], u.net)
  }

  /** A broadcast on the larger link, once the sleeping host has heard it. */
  lemma BroadcastJoined(c: Config, k: Link, u: Link, e: Host, n: nat, net: seq<Frame>, from: nat, arp: Arp)
    requires var w := Link(u.hosts + [e], net + Broadcast(from, arp, |u.hosts| + 1));
             WellAddressed(k) && WellAddressed(w) && Reaches(c, k, w, n)
    requires Asleep(e) && Proper(arp) && from < |u.hosts|
    ensures Reaches(c, k, Link(u.hosts + [e], net + Broadcast(from, arp, |u.hosts|)), n)
  {
    var r := |u.hosts|;
    assert net + Broadcast(from, arp, r + 1) == net + Broadcast(from, arp, r) + [Frame(from, r, arp)];
    AsleepHears(c, k, u.hosts, e, net + Broadcast(from, arp, r), n, from, arp);
  }

  lemma JoinedLocal(c: Config, k: Link, u: Link, e: Host, n: nat, i: nat, l: Label)
    requires WellAddressed(k) && WellAddressed(u) && Reaches(c, k, Joined(u, e), n) && Asleep(e)
    requires LinkEnabled(u, Local(i, l)) && Settled(c, u.hosts[i], l)
    ensures Reaches(c, k, Joined(LinkApply(c, u, Local(i, l)), e), if l == Outside(0) then n + 1 else n)
  {
    var m := if l == Outside(0) then n + 1 else n;
    var v, sent := StepJoined(c, k, u, e, n, i, l);
    if sent.Some? {
      BroadcastJoined(c, k, v, e, m, v.net, i, sent.value);
    }
  }

  /** A local step on the larger link, before the sleeping host has heard of it. */
  lemma StepJoined(c: Config, k: Link, u: Link, e: Host, n: nat, i: nat, l: Label)
    returns (v: Link, sent: Option<Arp>)
    requires WellAddressed(k) && WellAddressed(u) && Reaches(c, k, Joined(u, e), n)
    requires LinkEnabled(u, Local(i, l)) && Settled(c, u.hosts[i], l)
    ensures var w := Link(v.hosts + [e], v.net + Sent(i, sent, |v.hosts| + 1));
            Reaches(c, k, w, if l == Outside(0) then n + 1 else n) && WellAddressed(w)
    ensures i < |v.hosts| && (sent.Some? ==> Proper(sent.value))
    ensures LinkApply(c, u, Local(i, l)) == Link(v.hosts, v.net + Sent(i, sent, |v.hosts|))
  {
    var o := Apply(c, u.hosts[i], l);
    v, sent := Link(u.hosts[i := o.host], u.net), o.sent;
    SentIsProper(c, u.hosts[i], l);
    var w := Joined(u, e);
    ReachesNext(c, k, w, n, Local(i, l));
    LinkStaysAddressed(c, w, Local(i, l));
    assert w.hosts[i := o.host] == u.hosts[i := o.host] + [e];
  }

  lemma JoinedTime(c: Config, k: Link, u: Link, e: Host, n: nat)
    requires WellAddressed(k) && WellAddressed(u) && Reaches(c, k, Joined(u, e), n) && Asleep(e)
    ensures Reaches(c, k, Joined(LinkApply(c, u, Time), Later(e, 1)), n)
  {
    ReachesNext(c, k, Joined(u, e), n, Time);
    assert Tock(u.hosts + [e]) == Tock(u.hosts) + [Later(e, 1)];
  }

  /** A delivery on the larger link, before the sleeping host has heard the answer. */
  lemma DeliveredJoined(c: Config, k: Link, u: Link, e: Host, n: nat, j: nat, defends: bool)
    returns (v: Link, f: Frame, reply: Reply)
    requires WellAddressed(k) && WellAddressed(u) && Reaches(c, k, Joined(u, e), n) && j < |u.net|
    ensures var w := Link(v.hosts + [e], v.net + Answer(f, reply, |v.hosts| + 1));
            Reaches(c, k, w, n) && WellAddressed(w)
    ensures f.to < |v.hosts| && (reply.Defend? ==> Proper(reply.arp))
    ensures LinkApply(c, u, Deliver(j, defends)) == Link(v.hosts, v.net + Answer(f, reply, |v.hosts|))
  {
    f := u.net[j];
    assert f in u.net;
    var r := Receive(u.hosts[f.to], f.arp, defends);
    v, reply := Link(u.hosts[f.to := r.host], u.net[..j] + u.net[j + 1..]), r.reply;
    var w := Joined(u, e);
    ReachesNext(c, k, w, n, Deliver(j, defends));
    LinkStaysAddressed(c, w, Deliver(j, defends));
    assert w.hosts[f.to := r.host] == u.hosts[f.to := r.host] + [e];
  }

  lemma AnswerJoined(c: Config, k: Link, u: Link, e: Host, n: nat, f: Frame, reply: Reply)
    requires var w := Link(u.hosts + [e], u.net + Answer(f, reply, |u.hosts| + 1));
             WellAddressed(k) && WellAddressed(w) && Reaches(c, k, w, n)
    requires Asleep(e) && f.to < |u.hosts| && (reply.Defend? ==> Proper(reply.arp))
    ensures Reaches(c, k, Link(u.hosts + [e], u.net + Answer(f, reply, |u.hosts|)), n)
  {
    if reply.Defend? {
      BroadcastJoined(c, k, u, e, n, u.net, f.to, reply.arp);
    }
  }

  lemma JoinedDeliver(c: Config, k: Link, u: Link, e: Host, n: nat, j: nat, defends: bool)
    requires WellAddressed(k) && WellAddressed(u) && Reaches(c, k, Joined(u, e), n) && Asleep(e) && j < |u.net|
    ensures Reaches(c, k, Joined(LinkApply(c, u, Deliver(j, defends)), e), n)
  {
    var v, f, reply := DeliveredJoined(c, k, u, e, n, j, defends);
    AnswerJoined(c, k, v, e, n, f, reply);
  }

  /** Every settled run of a link is one of the link with a sleeping host added. */
  lemma {:induction false} RunsJoin(c: Config, k: Link, ls: seq<LinkLabel>, e: Host)
    returns (e': Host, n: nat)
    requires WellAddressed(k) && SettledRun(c, k, ls) && Asleep(e)
    ensures Asleep(e') && WellAddressed(Joined(k, e))
    ensures Reaches(c, Joined(k, e), Joined(LinkExec(c, k, ls), e'), n)
    decreases |ls|
  {
    if ls == [] {
      e', n := e, 0;
      ReachesItself(c, Joined(k, e));
    } else {
      var front, l := ls[..|ls| - 1], ls[|ls| - 1];
      var u := LinkExec(c, k, front);
      e', n := RunsJoin(c, k, front, e);
      if LinkEnabled(u, l) {
        match l {
          case Local(i, hl) =>
            JoinedLocal(c, Joined(k, e), u, e', n, i, hl);
            n := if hl == Outside(0) then n + 1 else n;
          case Time =>
            JoinedTime(c, Joined(k, e), u, e', n);
            e' := Later(e', 1);
          case Deliver(j, defends) => JoinedDeliver(c, Joined(k, e), u, e', n, j, defends);
        }
      }
    }
  }

  // ----- the rule is exact -----

  ghost predicate OccursAt(c: Config, h: Host, k: Link, ls: seq<LinkLabel>, i: nat) {
    Fresh(k) && SettledRun(c, k, ls) && i < |k.hosts| && LinkExec(c, k, ls).hosts[i] == h
  }

  /** Some settled run of a link brings a host into this state. */
  ghost predicate Occurs(c: Config, h: Host) {
    exists k, ls, i :: OccursAt(c, h, k, ls, i)
  }

  /** The host in this state, m ticks later, takes the step, and settled steps lead on to two unwarned
      owners of x. */
  ghost predicate EndangersAt(c: Config, h: Host, l: Label, k: Link, ls: seq<LinkLabel>, i: nat, m: nat,
                              more: seq<LinkLabel>, a: nat, b: nat, x: Word)
  {
    && OccursAt(c, Later(h, m), k, ls, i) && LinkEnabled(LinkExec(c, k, ls), Local(i, l))
    && SettledRun(c, LinkNext(c, LinkExec(c, k, ls), Local(i, l)), more)
    && a < |k.hosts| && b < |k.hosts| && a != b
    && Unwarned(LinkExec(c, k, ls + [Local(i, l)] + more), a, b, x)
  }

  ghost predicate Endangers(c: Config, h: Host, l: Label) {
    exists k, ls, i, m, more, a, b, x :: EndangersAt(c, h, l, k, ls, i, m, more, a, b, x)
  }

  lemma SettledIsSafe(c: Config, h: Host, l: Label, k: Link, ls: seq<LinkLabel>, i: nat, m: nat,
                      more: seq<LinkLabel>, a: nat, b: nat, x: Word)
    requires Settled(c, h, l)
    ensures !EndangersAt(c, h, l, k, ls, i, m, more, a, b, x)
  {
    if EndangersAt(c, h, l, k, ls, i, m, more, a, b, x) {
      var u := LinkExec(c, k, ls);
      FreshInv(c, k);
      LinkInvExec(c, k, ls);
      LinkInvStep(c, u, Local(i, l));
      LinkInvExec(c, LinkNext(c, u, Local(i, l)), more);
      AroundOne(c, k, ls, Local(i, l), more);
      OwnedIsLocal(c, k, ls + [Local(i, l)] + more, a, x);
      InvExcludes(c, LinkExec(c, k, ls + [Local(i, l)] + more), a, b, x);
    }
  }

  /** In a settled run a host in its last probe wait, its interface not clear, is covered. */
  lemma OccurringIsCovered(c: Config, h: Host, k: Link, ls: seq<LinkLabel>, i: nat)
    requires OccursAt(c, h, k, ls, i) && LastWait(c, h) && h.nic.address != 0 && !Pending(h)
    ensures Covered(c, h, h.auto.candidate)
  {
    FreshInv(c, k);
    LinkInvExec(c, k, ls);
    assert HostInv(h);
    LinkRunsProject(c, k, ls, i);
    ClaimsInRange(c, Traced(k.hosts[i], []), Project(c, k, ls, i));
  }

  const NEWCOMER := Host(ControlBlock(0, false, 0, 0, 0, 0, false), Thread(Top, Blocked, 0, true, false),
                         Interface(0, 0, false, 0), 0)

  lemma UnsettledIsUnsafe(c: Config, h: Host, l: Label, k: Link, ls: seq<LinkLabel>, i: nat)
    requires OccursAt(c, h, k, ls, i) && !Settled(c, h, l)
    ensures Endangers(c, h, l)
  {
    var x, u, k' := h.auto.candidate, LinkExec(c, k, ls), Joined(k, NEWCOMER);
    OccurringIsCovered(c, h, k, ls, i);
    var e, n := RunsJoin(c, k, ls, NEWCOMER);
    var r := |u.hosts|;
    var v, m, z := IdleHostTakesOver(c, k', Joined(u, e), n, i, r, x);
    var w := LinkNext(c, v, Local(i, l));
    var before :| ReachesBy(c, k', v, n, before);
    var after :| ReachesBy(c, w, z, 0, after);
    AroundOne(c, k', before, Local(i, l), after);
    assert EndangersAt(c, h, l, k', before, i, m, after, i, r, x);
  }

  /** The rule of settled runs is exact. For a host in any state that settled runs bring it into, a step
      can never lead to two unwarned owners if and only if it is settled: otherwise a link on which the
      host has seen just the same, but which has one host more, goes wrong. */
  lemma SettledIsExact(c: Config, h: Host, l: Label)
    requires Occurs(c, h) && Enabled(h, l) && !l.Tick?
    ensures Settled(c, h, l) <==> !Endangers(c, h, l)
  {
    if Settled(c, h, l) {
      forall k, ls, i, m, more, a, b, x ensures !EndangersAt(c, h, l, k, ls, i, m, more, a, b, x) {
        SettledIsSafe(c, h, l, k, ls, i, m, more, a, b, x);
      }
    } else {
      var k, ls, i :| OccursAt(c, h, k, ls, i);
      UnsettledIsUnsafe(c, h, l, k, ls, i);
    }
  }
}
