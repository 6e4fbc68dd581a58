/** Runs of a link built step by step: how a host comes to own an address next to one that hears
    nothing of it. */
module AutoIpRace {
  import opened Common
  import opened AutoIpHost
  import opened AutoIpRuns
  import opened AutoIpTiming
  import opened AutoIpLink

  // ----- reachable links -----

  predicate IsClear(l: LinkLabel) {
    l.Local? && l.l == Outside(0)
  }

  /** How often an interface is cleared from outside. */
  function ClearsIn(ls: seq<LinkLabel>): nat {
    if ls == [] then 0 else ClearsIn(ls[..|ls| - 1]) + (if IsClear(ls[|ls| - 1]) then 1 else 0)
  }

  ghost predicate ReachesBy(c: Config, k: Link, u: Link, n: nat, ls: seq<LinkLabel>)
    requires WellAddressed(k)
  {
    SettledRun(c, k, ls) && ClearsIn(ls) == n && LinkExec(c, k, ls) == u
  }

  /** A settled run with n clears leads from k to u. */
  ghost predicate Reaches(c: Config, k: Link, u: Link, n: nat)
    requires WellAddressed(k)
  {
    exists ls :: ReachesBy(c, k, u, n, ls)
  }

  lemma ReachesItself(c: Config, k: Link)
    requires WellAddressed(k)
    ensures Reaches(c, k, k, 0)
  {
    assert ReachesBy(c, k, k, 0, []);
  }

  lemma LinkExecAppend(c: Config, k: Link, ls: seq<LinkLabel>, l: LinkLabel)
    requires WellAddressed(k)
    ensures LinkExec(c, k, ls + [l]) == LinkNext(c, LinkExec(c, k, ls), l)
  {
    assert (ls + [l])[..|ls + [l]| - 1] == ls;
  }

  lemma SettledAppend(c: Config, k: Link, ls: seq<LinkLabel>, l: LinkLabel)
    requires WellAddressed(k) && SettledRun(c, k, ls) && SettledStep(c, LinkExec(c, k, ls), l)
    ensures SettledRun(c, k, ls + [l])
  {
    assert (ls + [l])[..|ls + [l]| - 1] == ls;
  }

  lemma ClearsAppend(ls: seq<LinkLabel>, l: LinkLabel)
    ensures ClearsIn(ls + [l]) == ClearsIn(ls) + (if IsClear(l) then 1 else 0)
  {
    assert (ls + [l])[..|ls + [l]| - 1] == ls;
  }

  lemma ReachesByNext(c: Config, k: Link, u: Link, n: nat, ls: seq<LinkLabel>, l: LinkLabel, v: Link)
    requires WellAddressed(k) && ReachesBy(c, k, u, n, ls) && SettledStep(c, u, l) && WellAddressed(u)
    requires v == LinkNext(c, u, l)
    ensures ReachesBy(c, k, v, if IsClear(l) then n + 1 else n, ls + [l])
  {
    LinkExecAppend(c, k, ls, l);
    SettledAppend(c, k, ls, l);
    ClearsAppend(ls, l);
  }

  lemma ReachesNext(c: Config, k: Link, u: Link, n: nat, l: LinkLabel)
    requires WellAddressed(k) && Reaches(c, k, u, n) && WellAddressed(u) && LinkEnabled(u, l) && SettledStep(c, u, l)
    ensures Reaches(c, k, LinkApply(c, u, l), if IsClear(l) then n + 1 else n)
  {
    var ls :| ReachesBy(c, k, u, n, ls);
    ReachesByNext(c, k, u, n, ls, l, LinkApply(c, u, l));
  }

  // ----- time and the thread -----

  function Later(h: Host, n: nat): Host {
    h.(clock := h.clock + n)
  }

  function AllLater(hosts: seq<Host>, n: nat): (later: seq<Host>)
    ensures |later| == |hosts| && forall i :: 0 <= i < |hosts| ==> later[i] == Later(hosts[i], n)
  {
    if hosts == [] then [] else [Later(hosts[0], n)] + AllLater(hosts[1..], n)
  }

  lemma TockLater(hosts: seq<Host>, m: nat)
    ensures Tock(AllLater(hosts, m)) == AllLater(hosts, m + 1)
  {
  }

  lemma {:induction false} TimeReaches(c: Config, k: Link, u: Link, n: nat, m: nat)
    requires WellAddressed(k) && Reaches(c, k, u, n) && WellAddressed(u)
    ensures Reaches(c, k, Link(AllLater(u.hosts, m), u.net), n)
    decreases m
  {
    if m == 0 {
      assert AllLater(u.hosts, 0) == u.hosts;
    } else {
      TimeReaches(c, k, u, n, m - 1);
      ReachesNext(c, k, Link(AllLater(u.hosts, m - 1), u.net), n, Time);
      TockLater(u.hosts, m - 1);
    }
  }

  lemma RunReaches(c: Config, k: Link, u: Link, n: nat, i: nat)
    requires WellAddressed(k) && Reaches(c, k, u, n) && WellAddressed(u) && i < |u.hosts| && Runnable(u.hosts[i])
    ensures var o := Resume(c, u.hosts[i], 0, 0);
            Reaches(c, k, Link(u.hosts[i := o.host], u.net + Sent(i, o.sent, |u.hosts|)), n)
  {
    ReachesNext(c, k, u, n, Local(i, Run(0, 0)));
  }

  /** A local step that sends nothing. */
  lemma QuietReaches(c: Config, k: Link, u: Link, n: nat, i: nat, l: Label)
    requires WellAddressed(k) && Reaches(c, k, u, n) && WellAddressed(u)
    requires LinkEnabled(u, Local(i, l)) && !l.Run? && Settled(c, u.hosts[i], l)
    ensures Reaches(c, k, Link(u.hosts[i := Apply(c, u.hosts[i], l).host], u.net),
                    if l == Outside(0) then n + 1 else n)
  {
    ReachesNext(c, k, u, n, Local(i, l));
    assert u.net + [] == u.net;
  }

  function TimedOutAt(h: Host): Host {
    h.(clock := h.thread.deadline, thread := h.thread.(wake := TimedOut))
  }

  lemma ExpiryReaches(c: Config, k: Link, u: Link, n: nat, i: nat) returns (w: Link, m: nat)
    requires WellAddressed(k) && Reaches(c, k, u, n) && WellAddressed(u) && i < |u.hosts| && Calm(u.hosts[i])
    ensures Reaches(c, k, w, n) && w == Link(AllLater(u.hosts, m)[i := TimedOutAt(u.hosts[i])], u.net)
  {
    var h := u.hosts[i];
    m := h.thread.deadline - h.clock;
    TimeReaches(c, k, u, n, m);
    var later := Link(AllLater(u.hosts, m), u.net);
    QuietReaches(c, k, later, n, i, Expire);
    w := Link(later.hosts[i := TimedOutAt(h)], u.net);
  }

  /** Host i, blocked with a timeout, has it pass and runs; the others only age. */
  lemma TimeoutReaches(c: Config, k: Link, u: Link, n: nat, i: nat) returns (v: Link, m: nat)
    requires WellAddressed(k) && Reaches(c, k, u, n) && WellAddressed(u) && i < |u.hosts| && Calm(u.hosts[i])
    ensures Reaches(c, k, v, n)
    ensures var o := Resume(c, TimedOutAt(u.hosts[i]), 0, 0);
            v.hosts == AllLater(u.hosts, m)[i := o.host] && v.net == u.net + Sent(i, o.sent, |u.hosts|)
  {
    var w;
    w, m := ExpiryReaches(c, k, u, n, i);
    assert WellAddressed(w) && Runnable(w.hosts[i]);
    RunReaches(c, k, w, n, i);
    var o := Resume(c, w.hosts[i], 0, 0);
    v := Link(w.hosts[i := o.host], w.net + Sent(i, o.sent, |u.hosts|));
    assert v.hosts == AllLater(u.hosts, m)[i := o.host];
  }

  // ----- one host races, another hears nothing -----

  /** In the race for x: about to probe, or waiting after a probe that nobody answered. */
  ghost predicate Racing(c: Config, h: Host, x: Word) {
    && Calm(h) && h.nic.address == 0 && h.auto.candidate == x
    && (h.thread.pc.ProbeDelay? || (h.thread.pc.Probing? && h.thread.pc.i < c.probeNum))
  }

  /** Steps to the claim. */
  ghost function Rank(c: Config, h: Host): int {
    if h.thread.pc.Probing? then c.probeNum - h.thread.pc.i else c.probeNum + 1
  }

  lemma RaceStep(c: Config, h: Host, x: Word)
    requires Racing(c, h, x) && x != 0 && Rank(c, h) > 1
    ensures var o := Resume(c, TimedOutAt(h), 0, 0);
            && Racing(c, o.host, x) && o.host.thread.pc.Probing? && Rank(c, o.host) == Rank(c, h) - 1
            && o.sent == Some(Arp(true, 0, x))
  {
    if h.thread.pc.ProbeDelay? {
      FirstProbe(c, h, (0, 0));
    } else {
      NextProbe(c, h, (0, 0));
    }
  }

  lemma RaceEnds(c: Config, h: Host, x: Word)
    requires Racing(c, h, x) && x != 0 && Rank(c, h) == 1
    ensures var o := Resume(c, TimedOutAt(h), 0, 0); o.sent == None && Owns(o.host, x) && !Pending(o.host)
  {
    LastProbe(c, h, (0, 0));
  }

  /** A probe for x means nothing to the host: it is not probing, and its interface carries no x. */
  predicate Ignores(h: Host, x: Word) {
    h.nic.address != x && (h.nic.address == 0 ==> h.nic.probeAddress == 0)
  }

  predicate Between(f: Frame, p: nat, r: nat) {
    (f.from == p && f.to == r) || (f.from == r && f.to == p)
  }

  ghost predicate NoneBetween(net: seq<Frame>, p: nat, r: nat) {
    forall f :: f in net ==> !Between(f, p, r)
  }

  ghost predicate OnlyProbesBetween(net: seq<Frame>, p: nat, r: nat, x: Word) {
    forall f :: f in net && Between(f, p, r) ==> f == Frame(r, p, Arp(true, 0, x))
  }

  /** The probes from r arrive at p, which ignores them. */
  lemma {:induction false} ProbesUnheard(c: Config, k: Link, u: Link, n: nat, p: nat, r: nat, x: Word)
    returns (net: seq<Frame>)
    requires WellAddressed(k) && Reaches(c, k, u, n) && WellAddressed(u)
    requires p < |u.hosts| && p != r && x != 0 && Ignores(u.hosts[p], x) && OnlyProbesBetween(u.net, p, r, x)
    ensures Reaches(c, k, Link(u.hosts, net), n) && WellAddressed(Link(u.hosts, net)) && NoneBetween(net, p, r)
    decreases |u.net|
  {
    var probe := Frame(r, p, Arp(true, 0, x));
    if j :| 0 <= j < |u.net| && u.net[j] == probe {
      var rest := u.net[..j] + u.net[j + 1..];
      assert forall f :: f in rest ==> f in u.net;
      ReachesNext(c, k, u, n, Deliver(j, false));
      assert u.hosts[p := u.hosts[p]] == u.hosts && rest + [] == rest;
      net := ProbesUnheard(c, k, Link(u.hosts, rest), n, p, r, x);
    } else {
      net := u.net;
    }
  }

  lemma {:induction false} RaceToLast(c: Config, k: Link, u: Link, n: nat, p: nat, r: nat, x: Word)
    returns (v: Link, m: nat)
    requires WellAddressed(k) && Reaches(c, k, u, n) && WellAddressed(u)
    requires p < |u.hosts| && r < |u.hosts| && p != r && x != 0
    requires Racing(c, u.hosts[r], x) && Ignores(u.hosts[p], x) && NoneBetween(u.net, p, r)
    ensures Reaches(c, k, v, n) && WellAddressed(v) && |v.hosts| == |u.hosts| && NoneBetween(v.net, p, r)
    ensures Racing(c, v.hosts[r], x) && Rank(c, v.hosts[r]) == 1 && v.hosts[p] == Later(u.hosts[p], m)
    decreases Rank(c, u.hosts[r])
  {
    if Rank(c, u.hosts[r]) == 1 {
      v, m := u, 0;
    } else {
      RaceStep(c, u.hosts[r], x);
      var w, m1 := TimeoutReaches(c, k, u, n, r);
      assert WellAddressed(w) && OnlyProbesBetween(w.net, p, r, x);
      var net := ProbesUnheard(c, k, w, n, p, r, x);
      var m2;
      v, m2 := RaceToLast(c, k, Link(w.hosts, net), n, p, r, x);
      m := m1 + m2;
    }
  }

  lemma RaceIsWon(c: Config, k: Link, u: Link, n: nat, p: nat, r: nat, x: Word) returns (v: Link, m: nat)
    requires WellAddressed(k) && Reaches(c, k, u, n) && WellAddressed(u)
    requires p < |u.hosts| && r < |u.hosts| && p != r && x != 0
    requires Racing(c, u.hosts[r], x) && Ignores(u.hosts[p], x) && NoneBetween(u.net, p, r)
    ensures Reaches(c, k, v, n) && WellAddressed(v) && |v.hosts| == |u.hosts| && NoneBetween(v.net, p, r)
    ensures Owns(v.hosts[r], x) && !Pending(v.hosts[r]) && v.hosts[p] == Later(u.hosts[p], m)
  {
    var w, m1 := RaceToLast(c, k, u, n, p, r, x);
    RaceEnds(c, w.hosts[r], x);
    var m2;
    v, m2 := TimeoutReaches(c, k, w, n, r);
    assert v.net == w.net;
    m := m1 + m2;
  }

  /** At the head of the loop, not started or started, with a clear interface. */
  predicate Idle(h: Host) {
    h.thread.pc.Top? && h.nic.address == 0
  }

  lemma RaceBegins(c: Config, k: Link, u: Link, n: nat, r: nat, x: Word) returns (h: Host)
    requires WellAddressed(k) && Reaches(c, k, u, n) && WellAddressed(u) && r < |u.hosts| && Idle(u.hosts[r])
    requires START_ADDRESS <= x <= END_ADDRESS
    ensures Reaches(c, k, Link(u.hosts[r := h], u.net), n) && Racing(c, h, x)
  {
    QuietReaches(c, k, u, n, r, Start(x));
    var started := Apply(c, u.hosts[r], Start(x)).host;
    var w := Link(u.hosts[r := started], u.net);
    RunReaches(c, k, w, n, r);
    RegistrationIsCalm(c, started, (0, 0));
    h := Resume(c, started, 0, 0).host;
    assert w.hosts[r := h] == u.hosts[r := h] && u.net + [] == u.net;
  }
}
