/** Any number of AutoIP hosts on one link, with the ARP layer that carries their probes and
    announcements. The medium loses nothing, but may delay and reorder frames as it likes. */
module AutoIpLink {
  import opened Common
  import opened AutoIpHost
  import opened AutoIpRuns

  /** An ARP message on its way from one host's interface to another's. */
  datatype Frame = Frame(from: nat, to: nat, arp: Arp)

  datatype Link = Link(hosts: seq<Host>, net: seq<Frame>)

  datatype Reply = NoReply | Respond(arp: Arp) | Defend(arp: Arp)

  datatype Received = Received(host: Host, reply: Reply)

  function Notified(h: Host): Host {
    if h.nic.handler then SetEvent(h) else h
  }

  /** _nx_arp_packet_receive for a message from another host: a conflict with the address being
      probed, a conflict with the configured address, or a request for it. The defence timer is
      left open: `defends` says whether it has run out. */
  function Receive(h: Host, arp: Arp, defends: bool): Received {
    var mine, probed := h.nic.address, h.nic.probeAddress;
    if mine == 0 && probed != 0 && (arp.sender == probed || (arp.sender == 0 && arp.target == probed)) then
      Received(Notified(h), NoReply)
    else if arp.sender != 0 && arp.sender == mine then
      Received(Notified(h), if defends && probed != mine then Defend(Arp(true, mine, arp.sender)) else NoReply)
    else if arp.request && arp.target == mine then
      Received(h, Respond(Arp(false, mine, arp.sender)))
    else
      Received(h, NoReply)
  }

  /** One frame for every host below n other than the sender. */
  function Broadcast(from: nat, arp: Arp, n: nat): (frames: seq<Frame>)
    ensures forall f :: f in frames <==> f.from == from && f.arp == arp && f.to < n && f.to != from
  {
    if n == 0 then [] else Broadcast(from, arp, n - 1) + (if n - 1 == from then [] else [Frame(from, n - 1, arp)])
  }

  datatype LinkLabel =
    | Local(i: nat, l: Label)               // a step of host i other than time passing
    | Time                                  // one tick everywhere
    | Deliver(k: nat, defends: bool)        // frame k arrives

  predicate LinkEnabled(k: Link, l: LinkLabel) {
    match l
    case Local(i, hl) =>
      i < |k.hosts| && !hl.Tick? && Enabled(k.hosts[i], hl)
    case Time => true
    case Deliver(j, _) => j < |k.net|
  }

  ghost predicate WellAddressed(k: Link) {
    forall f :: f in k.net ==> f.from < |k.hosts| && f.to < |k.hosts| && f.from != f.to
  }

  function Tock(hosts: seq<Host>): (ticked: seq<Host>)
    ensures |ticked| == |hosts|
    ensures forall i :: 0 <= i < |hosts| ==> ticked[i] == hosts[i].(clock := hosts[i].clock + 1)
  {
    if hosts == [] then [] else [hosts[0].(clock := hosts[0].clock + 1)] + Tock(hosts[1..])
  }

  function Sent(i: nat, sent: Option<Arp>, n: nat): seq<Frame> {
    match sent
    case None => []
    case Some(arp) => Broadcast(i, arp, n)
  }

  function Answer(f: Frame, reply: Reply, n: nat): seq<Frame> {
    match reply
    case NoReply => []
    case Respond(arp) => [Frame(f.to, f.from, arp)]
    case Defend(arp) => Broadcast(f.to, arp, n)
  }

  function LinkApply(c: Config, k: Link, l: LinkLabel): Link
    requires LinkEnabled(k, l) && WellAddressed(k)
  {
    match l
    case Local(i, hl) =>
      var o := Apply(c, k.hosts[i], hl);
      Link(k.hosts[i := o.host], k.net + Sent(i, o.sent, |k.hosts|))
    case Time => Link(Tock(k.hosts), k.net)
    case Deliver(j, defends) =>
      var f := k.net[j];
      var r := Receive(k.hosts[f.to], f.arp, defends);
      Link(k.hosts[f.to := r.host], k.net[..j] + k.net[j + 1..] + Answer(f, r.reply, |k.hosts|))
  }

  lemma LinkStaysAddressed(c: Config, k: Link, l: LinkLabel)
    requires LinkEnabled(k, l) && WellAddressed(k)
    ensures WellAddressed(LinkApply(c, k, l)) && |LinkApply(c, k, l).hosts| == |k.hosts|
  {
    if l.Deliver? {
      assert k.net[l.k] in k.net;
    }
  }

  function LinkNext(c: Config, k: Link, l: LinkLabel): (k': Link)
    requires WellAddressed(k)
    ensures WellAddressed(k') && |k'.hosts| == |k.hosts|
  {
    if LinkEnabled(k, l) then
      LinkStaysAddressed(c, k, l);
      LinkApply(c, k, l)
    else
      k
  }

  /** A run of the link. */
  function LinkExec(c: Config, k: Link, ls: seq<LinkLabel>): (k': Link)
    requires WellAddressed(k)
    ensures WellAddressed(k') && |k'.hosts| == |k.hosts|
    decreases |ls|
  {
    if ls == [] then k else LinkNext(c, LinkExec(c, k, ls[..|ls| - 1]), ls[|ls| - 1])
  }

  /** The next timeout of the thread may put its candidate on the interface, if that is still clear. */
  predicate LastWait(c: Config, h: Host) {
    h.thread.pc.Probing? && h.thread.pc.i + 1 >= c.probeNum && !h.thread.suspended && !h.auto.restart
  }

  /** Nobody clears an interface during the last probe wait, unless its host is warned already. */
  predicate Settled(c: Config, h: Host, l: Label) {
    l == Outside(0) && LastWait(c, h) && h.nic.address != 0 ==> Pending(h)
  }

  ghost predicate SettledStep(c: Config, k: Link, l: LinkLabel) {
    l.Local? && LinkEnabled(k, l) ==> Settled(c, k.hosts[l.i], l.l)
  }

  /** A run in which outsiders keep to that. */
  ghost predicate SettledRun(c: Config, k: Link, ls: seq<LinkLabel>)
    requires WellAddressed(k)
    decreases |ls|
  {
    ls != [] ==>
      && SettledRun(c, k, ls[..|ls| - 1])
      && SettledStep(c, LinkExec(c, k, ls[..|ls| - 1]), ls[|ls| - 1])
  }

  /** Hosts with AutoIP created, nothing on the wire. */
  ghost predicate Fresh(k: Link) {
    k.net == [] && forall i :: 0 <= i < |k.hosts| ==> Created(k.hosts[i])
  }

  // ----- exclusion -----

  /** What each host keeps to itself. */
  ghost predicate HostInv(h: Host) {
    && WaitInv(h)
    && (h.thread.pc.Probing? || h.thread.pc.ProbeDelay? || LinkLocal(h.nic.address) ==> h.nic.handler)
    && (h.thread.pc.Probing? && !h.auto.restart ==> h.nic.probeAddress == h.auto.candidate)
    && (LinkLocal(h.nic.address) && (h.thread.pc.Top? || h.thread.pc.Parked?) ==>
          h.auto.candidate != h.nic.address || h.auto.event)
  }

  /** In the race for x: on the interface, or about to be put there. */
  ghost predicate Contends(c: Config, h: Host, x: Word) {
    || h.nic.address == x
    || (LastWait(c, h) && h.nic.address == 0 && h.auto.candidate == x)
  }

  /** Warned of a conflict, or no longer treating the address as its own. */
  ghost predicate Yields(h: Host, x: Word) {
    Pending(h) || (h.nic.address == x && (h.thread.pc.Top? || h.thread.pc.Parked?))
  }

  /** A message that makes a contender for x take notice: it comes from x, or probes for x. */
  ghost predicate Hot(arp: Arp, x: Word) {
    arp.sender == x || (arp.sender == 0 && arp.target == x && arp.request)
  }

  ghost predicate Coming(net: seq<Frame>, a: nat, b: nat, x: Word) {
    exists f :: f in net && Hot(f.arp, x) && ((f.from == a && f.to == b) || (f.from == b && f.to == a))
  }

  ghost predicate PairInv(c: Config, k: Link, a: nat, b: nat, x: Word)
    requires a < |k.hosts| && b < |k.hosts|
  {
    Contends(c, k.hosts[a], x) && Contends(c, k.hosts[b], x) ==>
      Yields(k.hosts[a], x) || Yields(k.hosts[b], x) || Coming(k.net, a, b, x)
  }

  ghost predicate LinkInv(c: Config, k: Link) {
    && WellAddressed(k)
    && (forall i :: 0 <= i < |k.hosts| ==> HostInv(k.hosts[i]))
    && (forall a, b, x :: 0 <= a < |k.hosts| && 0 <= b < |k.hosts| && a != b && LinkLocal(x) ==> PairInv(c, k, a, b, x))
  }

  lemma HostInvRun(c: Config, h: Host, r1: Word, r2: Word)
    requires HostInv(h) && Runnable(h)
    ensures HostInv(Resume(c, h, r1, r2).host)
  {
    WaitInvRun(c, h, r1, r2);
    if AtHead(h) {
      HostInvHead(c, h, r1, r2);
    } else {
      HostInvBody(c, h, r1, r2);
    }
  }

  lemma HostInvHead(c: Config, h: Host, r1: Word, r2: Word)
    requires HostInv(h) && AtHead(h)
    requires WaitInv(Resume(c, h, r1, r2).host)
    ensures HostInv(Resume(c, h, r1, r2).host)
  {
  }

  lemma HostInvBody(c: Config, h: Host, r1: Word, r2: Word)
    requires HostInv(h) && Runnable(h) && !AtHead(h)
    requires WaitInv(Resume(c, h, r1, r2).host)
    ensures HostInv(Resume(c, h, r1, r2).host)
  {
  }

  lemma HostInvStep(c: Config, h: Host, l: Label)
    requires HostInv(h) && Enabled(h, l)
    ensures HostInv(Apply(c, h, l).host)
  {
    match l
    case Run(r1, r2) => HostInvRun(c, h, r1, r2);
    case _ =>
  }

  /** After a step a contender has just probed for x, or is warned, or was one before and unwarned. */
  ghost predicate StaysWarned(c: Config, h: Host, o: Outcome, x: Word) {
    Contends(c, o.host, x) ==>
      || (o.sent.Some? && Hot(o.sent.value, x))
      || Yields(o.host, x)
      || (Contends(c, h, x) && !Yields(h, x))
  }

  lemma StaysWarnedRun(c: Config, h: Host, r1: Word, r2: Word, x: Word)
    requires HostInv(h) && Runnable(h) && LinkLocal(x)
    ensures StaysWarned(c, h, Resume(c, h, r1, r2), x)
  {
    if AtHead(h) {
      StaysWarnedHead(c, h, r1, r2, x);
    } else {
      StaysWarnedBody(c, h, r1, r2, x);
    }
  }

  lemma StaysWarnedHead(c: Config, h: Host, r1: Word, r2: Word, x: Word)
    requires HostInv(h) && LinkLocal(x) && AtHead(h)
    ensures StaysWarned(c, h, Resume(c, h, r1, r2), x)
  {
  }

  lemma StaysWarnedBody(c: Config, h: Host, r1: Word, r2: Word, x: Word)
    requires HostInv(h) && Runnable(h) && LinkLocal(x)
    requires !AtHead(h)
    ensures StaysWarned(c, h, Resume(c, h, r1, r2), x)
  {
  }

  lemma StaysWarnedStep(c: Config, h: Host, l: Label, x: Word)
    requires HostInv(h) && Enabled(h, l) && Settled(c, h, l) && LinkLocal(x)
    ensures StaysWarned(c, h, Apply(c, h, l), x)
  {
    match l
    case Run(r1, r2) => StaysWarnedRun(c, h, r1, r2, x);
    case _ =>
  }

  /** A hot message warns the contender that receives it, or is answered by one. */
  lemma HotIsHeard(c: Config, h: Host, arp: Arp, defends: bool, x: Word)
    requires HostInv(h) && Contends(c, h, x) && LinkLocal(x) && Hot(arp, x)
    ensures var r := Receive(h, arp, defends);
            Pending(r.host) || (r.reply.Respond? && Hot(r.reply.arp, x))
  {
  }

  lemma ReceiveKeeps(c: Config, h: Host, arp: Arp, defends: bool, x: Word)
    requires HostInv(h)
    ensures var u := Receive(h, arp, defends).host;
            HostInv(u) && (Contends(c, u, x) ==> Contends(c, h, x)) && (Yields(h, x) ==> Yields(u, x))
  {
  }

  lemma PairInvLocal(c: Config, k: Link, i: nat, l: Label, a: nat, b: nat, x: Word)
    requires LinkInv(c, k) && LinkEnabled(k, Local(i, l)) && Settled(c, k.hosts[i], l)
    requires a < |k.hosts| && b < |k.hosts| && a != b && LinkLocal(x)
    ensures var u := LinkApply(c, k, Local(i, l)); |u.hosts| == |k.hosts| && PairInv(c, u, a, b, x)
  {
    assert PairInv(c, k, a, b, x);
    var o := Apply(c, k.hosts[i], l);
    StaysWarnedStep(c, k.hosts[i], l, x);
    var net := k.net + Sent(i, o.sent, |k.hosts|);
    assert forall f :: f in k.net ==> f in net;
    if (i == a || i == b) && o.sent.Some? && Hot(o.sent.value, x) {
      var f := Frame(i, if i == a then b else a, o.sent.value);
      assert f in Broadcast(i, o.sent.value, |k.hosts|);
      assert f in net;
      assert Coming(net, a, b, x);
    }
  }

  lemma PairInvDeliver(c: Config, k: Link, j: nat, defends: bool, a: nat, b: nat, x: Word)
    requires LinkInv(c, k) && j < |k.net| && a < |k.hosts| && b < |k.hosts| && a != b && LinkLocal(x)
    ensures var u := LinkApply(c, k, Deliver(j, defends)); |u.hosts| == |k.hosts| && PairInv(c, u, a, b, x)
  {
    assert PairInv(c, k, a, b, x);
    var f := k.net[j];
    assert f in k.net;
    var r := Receive(k.hosts[f.to], f.arp, defends);
    var u := LinkApply(c, k, Deliver(j, defends));
    ReceiveKeeps(c, k.hosts[f.to], f.arp, defends, x);
    if Contends(c, u.hosts[a], x) && Contends(c, u.hosts[b], x) && Coming(k.net, a, b, x) {
      var g :| g in k.net && Hot(g.arp, x) && ((g.from == a && g.to == b) || (g.from == b && g.to == a));
      if g == f {
        HotIsHeard(c, k.hosts[f.to], f.arp, defends, x);
        if r.reply.Respond? {
          assert Frame(f.to, f.from, r.reply.arp) in u.net;
        }
      } else {
        OthersStay(k.net, j, g);
        assert g in u.net;
      }
    }
  }

  lemma OthersStay(net: seq<Frame>, j: nat, g: Frame)
    requires j < |net| && g in net && g != net[j]
    ensures g in net[..j] + net[j + 1..]
  {
    assert net == net[..j] + [net[j]] + net[j + 1..];
  }

  lemma LinkInvStep(c: Config, k: Link, l: LinkLabel)
    requires LinkInv(c, k) && LinkEnabled(k, l) && SettledStep(c, k, l)
    ensures LinkInv(c, LinkApply(c, k, l))
  {
    LinkStaysAddressed(c, k, l);
    var u := LinkApply(c, k, l);
    match l {
      case Local(i, hl) =>
        HostInvStep(c, k.hosts[i], hl);
        forall a, b, x | 0 <= a < |u.hosts| && 0 <= b < |u.hosts| && a != b && LinkLocal(x)
          ensures PairInv(c, u, a, b, x)
        {
          PairInvLocal(c, k, i, hl, a, b, x);
        }
      case Time =>
        forall a, b, x | 0 <= a < |u.hosts| && 0 <= b < |u.hosts| && a != b && LinkLocal(x)
          ensures PairInv(c, u, a, b, x)
        {
          assert PairInv(c, k, a, b, x);
        }
      case Deliver(j, defends) =>
        ReceiveKeeps(c, k.hosts[k.net[j].to], k.net[j].arp, defends, 0);
        forall a, b, x | 0 <= a < |u.hosts| && 0 <= b < |u.hosts| && a != b && LinkLocal(x)
          ensures PairInv(c, u, a, b, x)
        {
          PairInvDeliver(c, k, j, defends, a, b, x);
        }
    }
  }

  lemma FreshInv(c: Config, k: Link)
    requires Fresh(k)
    ensures LinkInv(c, k)
  {
  }

  lemma {:induction false} LinkInvExec(c: Config, k: Link, ls: seq<LinkLabel>)
    requires LinkInv(c, k) && SettledRun(c, k, ls)
    ensures LinkInv(c, LinkExec(c, k, ls))
    decreases |ls|
  {
    if ls != [] {
      LinkInvExec(c, k, ls[..|ls| - 1]);
      var u := LinkExec(c, k, ls[..|ls| - 1]);
      if LinkEnabled(u, ls[|ls| - 1]) {
        LinkInvStep(c, u, ls[|ls| - 1]);
      }
    }
  }

  // ----- the link seen from one host -----

  /** The steps of host j in a run of the link. */
  function Project(c: Config, k: Link, ls: seq<LinkLabel>, j: nat): seq<Label>
    requires WellAddressed(k) && j < |k.hosts|
    decreases |ls|
  {
    if ls == [] then []
    else
      var u, l := LinkExec(c, k, ls[..|ls| - 1]), ls[|ls| - 1];
      Project(c, k, ls[..|ls| - 1], j) + (if LinkEnabled(u, l) then ProjectStep(u, l, j) else [])
  }

  function ProjectStep(u: Link, l: LinkLabel, j: nat): seq<Label>
    requires WellAddressed(u) && LinkEnabled(u, l) && j < |u.hosts|
  {
    match l
    case Local(i, hl) => if i == j then [hl] else []
    case Time => [Tick]
    case Deliver(m, defends) =>
      assert u.net[m] in u.net;
      if u.net[m].to == j && Receive(u.hosts[j], u.net[m].arp, defends).host != u.hosts[j] then [Notify] else []
  }

  lemma ProjectStepRuns(c: Config, u: Link, l: LinkLabel, j: nat, log: seq<Act>)
    requires WellAddressed(u) && LinkEnabled(u, l) && j < |u.hosts|
    ensures var p := ProjectStep(u, l, j);
            && |LinkApply(c, u, l).hosts| == |u.hosts| && |p| <= 1
            && (p == [] ==> LinkApply(c, u, l).hosts[j] == u.hosts[j])
            && (p != [] ==> Next(c, Traced(u.hosts[j], log), p[0]).h == LinkApply(c, u, l).hosts[j])
  {
    if l.Deliver? {
      assert u.net[l.k] in u.net;
    }
  }

  /** Every run of the link is, for each host, a run of that host: what holds of all runs of a host
      holds of every host on every link. */
  lemma {:induction false} LinkRunsProject(c: Config, k: Link, ls: seq<LinkLabel>, j: nat)
    requires WellAddressed(k) && j < |k.hosts|
    ensures Exec(c, Traced(k.hosts[j], []), Project(c, k, ls, j)).h == LinkExec(c, k, ls).hosts[j]
    decreases |ls|
  {
    if ls != [] {
      var front := ls[..|ls| - 1];
      LinkRunsProject(c, k, front, j);
      var u, l := LinkExec(c, k, front), ls[|ls| - 1];
      var t := Exec(c, Traced(k.hosts[j], []), Project(c, k, front, j));
      if LinkEnabled(u, l) {
        ProjectStepRuns(c, u, l, j, t.log);
        var p := ProjectStep(u, l, j);
        var q := Project(c, k, front, j) + p;
        if p == [] {
          assert q == Project(c, k, front, j);
        } else {
          assert q[..|q| - 1] == Project(c, k, front, j);
          assert q[|q| - 1] == p[0];
        }
      } else {
        assert Project(c, k, front, j) + [] == Project(c, k, front, j);
      }
    }
  }

  // ----- answers and defences -----

  /** The sender uses the address that the interface carries; or, if it carries none, uses or probes for
      the one being probed. */
  predicate InConflict(nic: Interface, arp: Arp) {
    var x := if nic.address != 0 then nic.address else nic.probeAddress;
    x != 0 && (arp.sender == x || (arp.sender == 0 && arp.target == x && nic.address == 0))
  }

  /** A message raises the event exactly if it is in conflict and the handler is registered, is answered
      exactly if it asks for the address without being in conflict, and is defended against exactly if it
      is in conflict with an address that is not being probed, when the timer allows. */
  lemma ReceiveLaw(h: Host, arp: Arp, defends: bool)
    ensures var r := Receive(h, arp, defends); var x := h.nic.address;
            && r.host == (if InConflict(h.nic, arp) && h.nic.handler then SetEvent(h) else h)
            && (r.reply.Respond? <==> arp.request && arp.target == x && !InConflict(h.nic, arp))
            && (r.reply.Defend? <==> defends && x != 0 && h.nic.probeAddress != x && InConflict(h.nic, arp))
            && (!r.reply.NoReply? ==> r.reply.arp.sender == x)
            && (r.reply.Respond? ==> !r.reply.arp.request && r.reply.arp.target == arp.sender)
            && (r.reply.Defend? ==> r.reply.arp.request && r.reply.arp.target == x)
  {
  }

  /** A request for an address an interface carries, from a host that uses another, is taken off the wire
      and answered to its sender alone, and no event is raised. */
  lemma RequestIsAnswered(c: Config, k: Link, j: nat, defends: bool, y: Word)
    requires WellAddressed(k) && j < |k.net| && y != 0
    requires var f := k.net[j]; f in k.net && f.arp.request && f.arp.target == y != f.arp.sender
                                && k.hosts[f.to].nic.address == y
    ensures var f := k.net[j]; var u := LinkApply(c, k, Deliver(j, defends));
            && u.hosts == k.hosts
            && u.net == k.net[..j] + k.net[j + 1..] + [Frame(f.to, f.from, Arp(false, y, f.arp.sender))]
  {
    var f := k.net[j];
    assert k.hosts[f.to := k.hosts[f.to]] == k.hosts;
  }

  /** In every run of the link an AutoIP address is defended from its first announcement on, and not before:
      when a message from another user of it arrives, every other host is sent an announcement. */
  lemma DefendedOnceAnnounced(c: Config, k: Link, ls: seq<LinkLabel>, j: nat, x: Word)
    requires Fresh(k) && LinkLocal(x)
    requires var u := LinkExec(c, k, ls);
             j < |u.net| && u.net[j] in u.net && u.net[j].arp.sender == x && u.hosts[u.net[j].to].nic.address == x
    ensures var u := LinkExec(c, k, ls); var b := u.net[j].to; var pc := u.hosts[b].thread.pc;
            var v := LinkApply(c, u, Deliver(j, true));
            && (pc.Announcing? || (pc.Bound? && c.announceNum > 0) ==>
                  forall i :: 0 <= i < |u.hosts| && i != b ==> Frame(b, i, Arp(true, x, x)) in v.net)
            && (pc.AnnounceWait? ==> v.net == u.net[..j] + u.net[j + 1..])
  {
    var u := LinkExec(c, k, ls);
    var f := u.net[j];
    LinkRunsProject(c, k, ls, f.to);
    ProvenWhenAnnounced(c, Traced(k.hosts[f.to], []), Project(c, k, ls, f.to));
    var r := Receive(u.hosts[f.to], f.arp, true);
    var v := LinkApply(c, u, Deliver(j, true));
    if r.reply.Defend? {
      forall i | 0 <= i < |u.hosts| && i != f.to ensures Frame(f.to, i, Arp(true, x, x)) in v.net {
        assert Frame(f.to, i, r.reply.arp) in Broadcast(f.to, r.reply.arp, |u.hosts|);
      }
    }
  }

  // ----- exclusion, for every run -----

  /** Whatever a host owns lies in the local range. */
  lemma OwnedIsLocal(c: Config, k: Link, ls: seq<LinkLabel>, j: nat, x: Word)
    requires Fresh(k) && j < |k.hosts| && Owns(LinkExec(c, k, ls).hosts[j], x)
    ensures START_ADDRESS <= x <= END_ADDRESS
  {
    LinkRunsProject(c, k, ls, j);
    ClaimsInRange(c, Traced(k.hosts[j], []), Project(c, k, ls, j));
  }

  /** Two hosts own the address, and neither knows nor is about to hear. */
  ghost predicate Unwarned(u: Link, a: nat, b: nat, x: Word)
    requires a < |u.hosts| && b < |u.hosts|
  {
    && Owns(u.hosts[a], x) && Owns(u.hosts[b], x)
    && !Pending(u.hosts[a]) && !Pending(u.hosts[b]) && !Coming(u.net, a, b, x)
  }

  lemma InvExcludes(c: Config, u: Link, a: nat, b: nat, x: Word)
    requires LinkInv(c, u) && a < |u.hosts| && b < |u.hosts| && a != b && LinkLocal(x)
    ensures !Unwarned(u, a, b, x)
  {
    assert PairInv(c, u, a, b, x);
  }

  /** Link-wide exclusion. In every settled run of any number of hosts, two hosts own the same address
      only while at least one of them has a conflict event pending, or a frame is in flight between them
      that comes from it or probes for it; so whenever the wire is quiet, the event is pending. */
  lemma {:induction false} Exclusion(c: Config, k: Link, ls: seq<LinkLabel>, a: nat, b: nat, x: Word)
    requires Fresh(k) && SettledRun(c, k, ls) && a < |k.hosts| && b < |k.hosts| && a != b
    ensures !Unwarned(LinkExec(c, k, ls), a, b, x)
  {
    var u := LinkExec(c, k, ls);
    if Owns(u.hosts[a], x) {
      OwnedIsLocal(c, k, ls, a, x);
      FreshInv(c, k);
      LinkInvExec(c, k, ls);
      InvExcludes(c, u, a, b, x);
    }
  }
}
