# Verified models of three NetX Duo components

A Dafny project about the parts of NetX Duo whose behaviour is hardest to see by reading one function.

- **AutoIP** (`AutoIpHost`, `AutoIpThread`, `AutoIpRuns`, `AutoIpTiming`, `AutoIpStarts`, `AutoIpLink`, `AutoIpRace`,
  `AutoIpUnsettled`, `AutoIpWarned`): the thread that claims an IPv4 link-local address (RFC 3927). `AutoIpHost` is one host as a transition function, with one
  program counter per blocking call. `AutoIpThread` is the instance as an object whose methods assign its fields as the C
  code does, each proved to take exactly one step of that function and to record it. `AutoIpRuns` and `AutoIpTiming` prove
  what holds over every run of a host, `AutoIpStarts` what starts, stops and conflict callbacks do to it; `AutoIpLink` puts any number of hosts on a link together with the ARP receive code,
  proves that two hosts do not own one address unwarned, and proves that every run of the link is, for each host, a run of
  that host, so that the results about one host hold there too. `AutoIpRace` and `AutoIpUnsettled` show that the one assumption
  of that proof is exact, `AutoIpWarned` what a warned owner does.
- **SNMP** (`SnmpCompare`, `SnmpOrder`, `Mib`): the textual comparison of object identifiers, proved to be lexicographic
  order exactly up to a bound on the components, and GETNEXT over a MIB table with what a walk of it visits.
- **Azure IoT over MQTT** (`PacketBuffer`, `PacketChain`, `MqttFraming`, `PublishPacket`, `PacketIds`, `ResourceList`):
  in-place compaction of a packet chain, PUBLISH headers and their decoder, packet identifiers, the resource list.

`dafny verify dfyconfig.toml` checks everything.

## How the model is set up

- *AutoIP steps.* Application calls, the ARP callback, timer expiry, outside address changes and the passing of ticks
  happen between segments of the thread, where it is blocked, and also right after it clears an address, where the
  address-change callback runs. A wait's outcome is fixed when the timer or the event ends it, and read when the thread
  next runs, so an event may arrive in between. On the object, `SetInterface`, `ClockTick` and `TimerExpiry` are the steps
  of its environment. A start supplies 0 or an address of 169.254.1.0 - 169.254.254.255, as the
  interface documents; outsiders set addresses outside 169.254.0.0/16, or 0.
- *AutoIP settings.* The `NX_AUTO_IP_*` macros are a record of numbers, times in ticks; every theorem holds for every
  setting in which the probe wait, probe number and probe maximum are positive. The pseudo-random numbers are inputs.
- *Logs.* Run theorems speak of a log of what the application and the thread do; `LogIsFaithful` ties its entries to the
  state in both directions.
- *The link.* Frames are delivered one at a time, to one host at a time, in any order and after any delay, during which
  threads run on.
  The exclusion theorems are about *settled* runs: nobody clears an interface during the last probe wait of a round, unless
  the host is warned, stopped or started anew; clears in earlier waits are free, since another probe follows. This cannot be
  relaxed. A single clear in a last wait breaks exclusion on a link of two hosts, for every setting
  (`UnsettledBreaksExclusion`): the interface is covered by another address while the second host, quicker than the first
  one's thread, probes for the address and claims it. More generally, for a host in any state that settled runs bring it
  into, a step can never lead to two unwarned owners if and only if it is settled (`SettledIsExact`).
- *MIB table.* Names are strings without their terminating NUL. A get callback is represented by its status and whether it
  reports the end of the MIB.
- *Packets.* Pointers into a buffer are offsets from `nx_packet_data_start`. A released packet is recorded in a sequence.

## Where the code differs from its description

- `_nx_auto_ip_get_address` is described as returning an error when there is no valid address. When candidate and interface
  are both 0 it returns success with address 0 (`GetAddress`); a created instance does so until its first start,
  while its interface is at 0 (`UnstartedAnswersZero`).
- Two hosts can come to own one address unwarned, until one of them announces it: a claim only tests that the interface is
  clear when the last wait ends (nx_auto_ip.c:963-1013), and a message for the address probed is not taken as a conflict
  while the interface carries another address (nx_arp_packet_receive.c:159-162). The input is in `UnsettledBreaksExclusion`,
  the exact condition in `SettledIsExact`.
- A conflict is not always answered. The loop that waits for the interface to be cleared (nx_auto_ip.c:849-857) never looks
  at the event, and a conflict taken while candidate and interface differ is dropped (nx_auto_ip.c:1069-1095). Started with
  another address and then again with its own, a bound host sleeps in that loop as owner, its event pending, for as long as
  nobody sets the interface or starts it again (`WarnedOwnerMayStay`). A warned owner gives its address up within two runs
  of its thread exactly when the thread is past the claim and not in that loop (`WarnedOwnerReleases`).
- A start that comes while the thread sleeps for the rate limit is forgotten: the thread goes on with an address it derives
  itself (nx_auto_ip.c:886-900, `StartsAreForgotten`). In general a start is taken up, the thread left alone, exactly if the
  interface is clear or the thread is about to clear it, and it is not in that sleep (`StartIsTakenUp`).
- `nx_snmp_object_compare` counts the first differing digit of a component twice and computes modulo 2^32. Below 400000000
  the order is still right; 400000000 is taken to precede 300000000 (`LimitFails`, `CompareLimit`).
- A GET matches every entry whose name is a textual prefix of the one requested (`ScanSuccess`), as 1.3.6.1.7 is of
  1.3.6.1.71 (`SuccessOnPrefix`, `GetFindsPrefix`); an entry is found by its own name exactly when no such entry stands
  before it (`GetFindsEntry`).
- The sample MIB table is not sorted, so a walk never visits `ifDescr`, `atPhysAddress`, `ifLastChange`, `ifInOctets` or
  `ifInUcastPkts` (`ShippedWalkSkips`).
- The comment in `nx_azure_iot_mqtt_packet_adjust` says the prepend pointer will not point to the start of the data; the
  code makes it point there, and `AdjustPreservesBytes` says so.
- The four-byte Remaining Length holds the packet length modulo 2^28; it is read back correctly if and only if the length
  is below 2^28 (`HeaderReads`).

## Model

| member | source | states |
|---|---|---|
| `AutoIpThread.AutoIp.constructor` | addons/auto_ip/nx_auto_ip.c:151-203 | a created instance is zeroed and not started |
| `AutoIpThread.AutoIp.EventGet` | addons/auto_ip/nx_auto_ip.c:961 | a pending event is consumed at once, otherwise the thread blocks until its deadline |
| `AutoIpThread.AutoIp.Start` | addons/auto_ip/nx_auto_ip.c:520-538 | the candidate is replaced, the restart flag and the event are raised, waking a thread that waits for it, the thread resumed; nothing else changes |
| `AutoIpThread.AutoIp.Stop` | addons/auto_ip/nx_auto_ip.c:626-637 | the thread is suspended, every field kept |
| `AutoIpThread.AutoIp.Conflict` | addons/auto_ip/nx_auto_ip.c:1136-1147 | the event is raised, waking a waiting thread |
| `AutoIpThread.AutoIp.GetAddress` | addons/auto_ip/nx_auto_ip.c:396-426 | a nonzero answer is an owned address and every owned address is answered; 0 is a success exactly when neither candidate nor interface is set |
| `AutoIpThread.UnstartedAnswersZero` | addons/auto_ip/nx_auto_ip.c:396-426 | in every run without a start, an interface at 0 is answered with success and 0, any other with the error, though nothing is owned |
| `AutoIpThread.AutoIp.EnterLoop` | addons/auto_ip/nx_auto_ip.c:839-896 | the loop head takes the one step the transition system allows: park, restart, answer the conflict or go on |
| `AutoIpThread.AutoIp.AnswerConflict` | addons/auto_ip/nx_auto_ip.c:875-896 | the conflict is counted; beyond the maximum the thread sleeps first, otherwise the candidate is dropped and a new one registered |
| `AutoIpThread.AutoIp.DeriveAndRegister` | addons/auto_ip/nx_auto_ip.c:898-935 | a candidate is derived if there is none, the handler registered, events cleared, the first delay drawn |
| `AutoIpThread.AutoIp.SendProbe` | addons/auto_ip/nx_auto_ip.c:938-961 | one probe for the candidate, counted, then the wait |
| `AutoIpThread.AutoIp.ContinueProbing` | addons/auto_ip/nx_auto_ip.c:963-1016 | after a probe wait: conflict, give up, next probe, or claim |
| `AutoIpThread.AutoIp.SendAnnounce` | addons/auto_ip/nx_auto_ip.c:1019-1034 | one announcement of the interface address, counted, then the wait; after the last, the endless wait |
| `AutoIpThread.AutoIp.ContinueAnnouncing` | addons/auto_ip/nx_auto_ip.c:1036-1064 | a conflict clears whatever address the interface has |
| `AutoIpThread.AutoIp.LateConflict` | addons/auto_ip/nx_auto_ip.c:1069-1096 | after the endless wait the address is given up if it is still the candidate, otherwise left |
| `AutoIpThread.AutoIp.RunThread` | addons/auto_ip/nx_auto_ip.c:808-1097 | the thread from any blocking call to the next takes exactly the transition system's step, sends exactly its message and records the step |
| `AutoIpThread.InstanceKeeps` | addons/auto_ip/nx_auto_ip.c:808-1097 | after any sequence of starts, stops, conflict callbacks, runs of the thread and steps of the environment, an instance is at the end of a run, and all invariants of runs hold of it |
| `AutoIpStarts.NobodySleepsOnAnEvent` | addons/auto_ip/nx_auto_ip.c:839-1097 | in every run no thread is blocked on an event that is raised, and one not suspended has a next step except in the endless wait with nothing raised |
| `AutoIpStarts.StartWakes` | addons/auto_ip/nx_auto_ip.c:530-534 | after a start the event is pending, the thread has a next step, and one that waited for the event can run |
| `AutoIpStarts.CallbackWakes` | addons/auto_ip/nx_auto_ip.c:1136-1147 | after a conflict callback the event is pending, and a thread that waited for it can run unless it is suspended |
| `AutoIpStarts.NoConflictInvented` | addons/auto_ip/nx_auto_ip.c:923-1146 | in every run the conflicts taken and those still pending are no more than the starts and callbacks that raised the event |
| `AutoIpStarts.StopHolds` | addons/auto_ip/nx_auto_ip.c:626-637 | after a stop, over every run without a start, the thread stays where it is, its fields keep their values and nothing is logged |
| `AutoIpStarts.StartsAreHonoured` | addons/auto_ip/nx_auto_ip.c:524-536 | in every run the restart flag is up exactly while the last start is unconsumed; when it is consumed the address supplied is registered next, or a derived one if that was 0, unless a conflict was answered since |
| `AutoIpStarts.StartIsTakenUp` | addons/auto_ip/nx_auto_ip.c:845-1095 | a start is consumed within three segments of the thread, left alone, and what it supplied registered, if and only if the interface is clear or about to be cleared by the thread, which is not in the rate-limit sleep |
| `AutoIpStarts.StartsAreForgotten` | addons/auto_ip/nx_auto_ip.c:886-900 | for every setting whose maximum the conflict count can exceed, a run leads to a state in which whatever a start supplies is dropped for a derived address |
| `AutoIpRuns.LogIsFaithful` | addons/auto_ip/nx_auto_ip.c:839-1095 | every log entry means what it says, and every claim, restart, counted conflict, derivation, registration, probe, announcement, quiet wait, consumed conflict and defence of a segment is logged |
| `AutoIpRuns.ProbeBeforeClaim` | addons/auto_ip/nx_auto_ip.c:937-1013 | in every run, every claim directly follows the full number of probes of exactly that address, each wait quiet, with no start, conflict or other probe between them |
| `AutoIpRuns.SegmentsSend` | addons/auto_ip/nx_auto_ip.c:838-1095 | a segment sends a probe for the candidate exactly if it ends waiting after a probe, an announcement of the interface address exactly if it ends waiting after one, logged either way; and changes the interface only by a claim, by a conflict with an address in use, and by its probes and announcements |
| `AutoIpRuns.ProvenWhenAnnounced` | common/src/nx_arp_announce_send.c:106-119 | in every run an AutoIP address on the interface counts as being probed until its first announcement, and not after |
| `AutoIpRuns.DerivedInRange` | addons/auto_ip/nx_auto_ip.c:904-914 | for every random word and MAC word the derived address is in 169.254.1.0 .. 169.254.254.254 |
| `AutoIpRuns.DerivationIsOnto` | addons/auto_ip/nx_auto_ip.c:904-914 | every such address is derived from some random word, whatever the MAC word |
| `AutoIpRuns.DerivationIsOntoByMac` | addons/auto_ip/nx_auto_ip.c:904-914 | and for some MAC word, whatever the random word |
| `AutoIpRuns.SameAddressDerived` | addons/auto_ip/nx_auto_ip.c:904-914 | two sums of random and MAC word that do not wrap derive the same address if and only if they differ by a multiple of 65023 |
| `AutoIpRuns.NearbyHostsDiffer` | addons/auto_ip/nx_auto_ip.c:904-914 | hosts with the same random word and MAC words less than 65023 apart derive different addresses |
| `AutoIpRuns.ClaimsInRange` | addons/auto_ip/nx_auto_ip.c:899-1013 | in every run, every installed address is nonzero and was derived by the thread, in 169.254.1.0 .. 169.254.254.254, or supplied by a start, before it was claimed |
| `AutoIpRuns.EventPersists` | addons/auto_ip/nx_auto_ip.c:926-1067 | a raised event stays raised until an event wait or the clear at registration takes it |
| `AutoIpRuns.NoConflictLost` | addons/auto_ip/nx_auto_ip.c:860-926 | in every run, after a consumed conflict the next registration is of a freshly derived address, the interface rid of the old one, unless a restart came between |
| `AutoIpTiming.RateLimitBound` | addons/auto_ip/nx_auto_ip.c:875-896 | in any run without a start, n answered conflicts (n below 2^32) have taken at least n minus the maximum rate-limit intervals of real time |
| `AutoIpTiming.RateLimitSince` | addons/auto_ip/nx_auto_ip.c:860-896 | the same over every run, counted from the last consumed restart, which sets the count to 0; and the thread sleeps for the limit only beyond the maximum |
| `AutoIpTiming.RateLimitWaits` | addons/auto_ip/nx_auto_ip.c:875-935 | a conflict beyond the maximum keeps the thread from its next registration for exactly the limit |
| `AutoIpTiming.ParkedPolls` | addons/auto_ip/nx_auto_ip.c:849-857 | a parked thread looks at a nonzero interface every probe maximum |
| `AutoIpTiming.IntervalsTaken` | addons/auto_ip/nx_auto_ip.c:947-955 | the wait after a probe takes every value from the minimum up to the maximum that a random word reaches, and is the minimum if that is not below the maximum |
| `AutoIpTiming.DelaysTaken` | addons/auto_ip/nx_auto_ip.c:931-935 | the delay before the first probe takes every value below the probe wait |
| `AutoIpTiming.CountersAddUp` | addons/auto_ip/nx_auto_ip.c:938-1079 | in every reachable state: probes cover all claims, announcements are covered by claims, defences by announcements |
| `AutoIpTiming.CountersTellTheLog` | addons/auto_ip/nx_auto_ip.c:938-1079 | in every run the probe, announcement and defence counters equal the numbers of probes, announcements and defences logged |
| `AutoIpTiming.RegistrationIsCalm` | addons/auto_ip/nx_auto_ip.c:839-935 | every registration leaves the thread less than the probe wait away from its first probe, with no event outstanding, and no restart either unless one came during a rate-limit sleep |
| `AutoIpTiming.PromptIsRun` | addons/auto_ip/nx_auto_ip.c:931-1034 | an undisturbed step is a run of the host: ticks to the deadline, the timer, the thread |
| `AutoIpTiming.PromptsAreRun` | addons/auto_ip/nx_auto_ip.c:931-1067 | so is any sequence of undisturbed steps |
| `AutoIpTiming.UndisturbedClaim` | addons/auto_ip/nx_auto_ip.c:931-1013 | an undisturbed attempt claims its candidate no earlier than probe number times probe minimum and strictly before the probe wait plus probe number times probe maximum |
| `AutoIpTiming.UndisturbedBound` | addons/auto_ip/nx_auto_ip.c:1013-1067 | after the claim it reaches the bound wait at exactly the announce wait plus announce number times announce interval |
| `AutoIpLink.HotIsHeard` | common/src/nx_arp_packet_receive.c:159-366 | a probe for x or a message from x warns any contender for x that receives it, or is answered by a message from x |
| `AutoIpLink.StaysWarnedStep` | addons/auto_ip/nx_auto_ip.c:839-1097 | no settled step of a host makes it a contender unwarned, except sending a probe |
| `AutoIpLink.LinkInvStep` | common/src/nx_arp_packet_receive.c:72-366 | every settled step of the link keeps the pairwise invariant: of two contenders one is warned or about to be |
| `AutoIpLink.LinkRunsProject` | addons/auto_ip/nx_auto_ip.c:808-1097 | every run of the link is, for each host, a run of that host |
| `AutoIpLink.OwnedIsLocal` | addons/auto_ip/nx_auto_ip.c:899-1013 | whatever a host owns in any run of the link is in 169.254.1.0 .. 169.254.254.255 |
| `AutoIpLink.ReceiveLaw` | common/src/nx_arp_packet_receive.c:159-366 | a message raises the event exactly if it is in conflict and the handler registered, is answered exactly if it asks for the address without conflict, and defended against exactly if in conflict with an address not being probed, when the timer allows |
| `AutoIpLink.RequestIsAnswered` | common/src/nx_arp_packet_receive.c:302-366 | a request for a carried address is taken off the wire and answered to its sender alone, changing no host |
| `AutoIpLink.DefendedOnceAnnounced` | common/src/nx_arp_packet_receive.c:186-210 | in every run of a link, a conflicting message is answered to every other host from the first announcement of the address on, and not before |
| `AutoIpLink.Exclusion` | addons/auto_ip/nx_auto_ip.c:923-1146 | for any number of hosts and any run in which no unwarned host's interface is cleared in its last probe wait, frames delayed and reordered at will, two hosts own the same address only while one of them has a conflict event pending or a frame that raises it is in flight between them |
| `AutoIpUnsettled.RunsJoin` | common/src/nx_arp_packet_receive.c:159-366 | every settled run of a link is also one of the link with a host more, created and not started |
| `AutoIpUnsettled.SettledIsExact` | common/src/nx_arp_packet_receive.c:159-188 | for a host in any state reached in a settled run, a step can lead, by settled steps, to two unwarned owners on some link if and only if it clears the interface in the last wait of an unwarned round |
| `AutoIpUnsettled.UnsettledBreaksExclusion` | common/src/nx_arp_packet_receive.c:159-188 | for every setting and address a run from a fresh link of two hosts with a single clear, in the last probe wait, ends with both owning the address, no event pending and no frame in flight |
| `AutoIpWarned.WarnedOwnerReleases` | addons/auto_ip/nx_auto_ip.c:1019-1096 | an owner with its event pending gives the address up within two runs of its thread if and only if the thread waits between claim and loop head |
| `AutoIpWarned.WarnedOwnerLetsGo` | addons/auto_ip/nx_auto_ip.c:1019-1096 | over every run without start or outside address, such a thread has given the address up by its second run |
| `AutoIpWarned.DeafOwnerKeeps` | addons/auto_ip/nx_auto_ip.c:845-857 | in no such run does an owner at the loop head or parked there give it up |
| `AutoIpWarned.WarnedOwnerMayStay` | addons/auto_ip/nx_auto_ip.c:845-857 | for every setting and two addresses a run from creation leads to an owner with its event pending that keeps the address in every such run |
| `AutoIpWarned.WarnedOwnerLetsGoOn` | addons/auto_ip/nx_auto_ip.c:1019-1096 | the same over every run of a link that leaves that host alone |
| `AutoIpWarned.QuietOwnersPart` | addons/auto_ip/nx_auto_ip.c:845-1096 | of two owners with no warning in flight between them, in every settled run of a link, one is warned and, however the link goes on, lets go by its second run, or is parked and keeps the address |
| `SnmpCompare.FinishComponent` | addons/snmp/nxd_snmp.c:9737-9760 | the rest of a component is accumulated, including again the digit already read |
| `SnmpCompare.ObjectCompare` | addons/snmp/nxd_snmp.c:9585-9787 | the loop computes the recursive comparison |
| `SnmpCompare.DoublingKeepsOrder` | addons/snmp/nxd_snmp.c:9733-9764 | counting the first differing digit twice does not change which of two numbers is larger |
| `SnmpOrder.CompareIsLexicographic` | addons/snmp/nxd_snmp.c:9694-9787 | for components below 400000000, "next entry" is answered exactly when the requested identifier is lexicographically smaller |
| `SnmpOrder.CompareLimit` | addons/snmp/nxd_snmp.c:9721-9764 | that bound is exact: the comparison is right on all components below B if and only if B is at most 400000000 |
| `SnmpOrder.LimitFails` | addons/snmp/nxd_snmp.c:9743-9764 | the failing pair: 400000000 against 300000000 |
| `SnmpOrder.ScanSuccess` | addons/snmp/nxd_snmp.c:9773-9779 | "success" is answered exactly when the actual name is a textual prefix of the requested one |
| `SnmpOrder.CompareStatus` | addons/snmp/nxd_snmp.c:9585-9787 | when each of the four answers is given: too long, textual prefix, before, or neither |
| `SnmpOrder.SuccessOnPrefix` | addons/snmp/nxd_snmp.c:9773-9779 | "success" for the requested 1.3.6.1.71 against the entry 1.3.6.1.7 |
| `Mib.ObjectName.Copy` | addons/snmp/nxd_snmp.c:9879-9907 | the name is overwritten unless the source is too long |
| `Mib.GetProcessing` | samples/demo_netxduo_snmp.c:283-341 | GET answers from the first entry whose name is a prefix of the request, or reports no such name |
| `Mib.GetFindsEntry` | samples/demo_netxduo_snmp.c:294-303 | a GET for an entry's own name finds it if and only if no earlier entry's name is a textual prefix of it |
| `Mib.GetFindsPrefix` | samples/demo_netxduo_snmp.c:294-303 | the entry 1.3.6.1.71 behind 1.3.6.1.7 is not found by its name |
| `Mib.GetNextProcessing` | samples/demo_netxduo_snmp.c:346-418 | GETNEXT overwrites the name with the first entry after it, or the value of one that reports the end of the MIB, and answers with that entry's status or no access; or refuses with no such name and leaves the name |
| `Mib.WalkVisitsRecords` | samples/demo_netxduo_snmp.c:356-388 | a walk ends and visits, in order and once each, exactly the entries greater than its start and than every earlier entry |
| `Mib.WalkIsCompleteIffSorted` | samples/demo_netxduo_snmp.c:356-388 | from below all entries, a walk visits the whole table if and only if the table is strictly sorted |
| `Mib.FirstIsFirstAfter` | samples/demo_netxduo_snmp.c:359-375 | on a table of comparable names the textual search is the lexicographic one |
| `Mib.BufferWalks` | samples/demo_netxduo_snmp.c:346-418 | the n-th GETNEXT leaves the n-th visited name in the buffer and answers with its entry's status; a GETNEXT is refused if and only if the walk is over |
| `Mib.EndOfMibMoves` | samples/demo_netxduo_snmp.c:398-404 | an entry that reports the end of the MIB sends the walk on from its value |
| `Mib.ShippedWalkSkips` | samples/demo_snmp_helper.h:72-103 | no walk of the sample table, from anywhere, visits the five entries after atNetworkAddress and before ipForwarding |
| `Mib.ShippedText` | samples/demo_snmp_helper.h:77-103 | the identifiers modelled are the ones the names of the table spell |
| `Mib.ShippedNamesSkipped` | samples/demo_snmp_helper.h:72-103 | no GETNEXT of a walk of that table leaves one of those five names in the buffer |
| `PacketBuffer.AdjustPreservesBytes` | addons/azure_iot/nx_azure_iot.c:421-492 | compaction keeps the message; the head starts its buffer and is alone, or full and followed by a nonempty packet that starts its own |
| `PacketBuffer.AdjustIsGreedy` | addons/azure_iot/nx_azure_iot.c:449-491 | n packets are released if and only if their data fits into the head together with its own; released and remaining packets make up the chain |
| `PacketBuffer.AbsorbConserves` | addons/azure_iot/nx_azure_iot.c:485-490 | the packets behind the first that does not fit are untouched and in order |
| `PacketBuffer.AdjustIsIdempotent` | addons/azure_iot/nx_azure_iot.c:421-492 | a second compaction changes nothing and releases nothing |
| `PacketChain.MemMoveDown` | addons/azure_iot/nx_azure_iot.c:436 | an overlapping move to the start of the buffer moves the old bytes |
| `PacketChain.MoveDown` | addons/azure_iot/nx_azure_iot.c:475-479 | the live bytes, but the first ones skipped, start the buffer |
| `PacketChain.TakeWhole` | addons/azure_iot/nx_azure_iot.c:460-489 | a packet that fits is appended to the head and unlinked, all others kept |
| `PacketChain.TakePart` | addons/azure_iot/nx_azure_iot.c:470-479 | one that does not fills the head and keeps the rest at the start of its buffer |
| `PacketChain.AbsorbRest` | addons/azure_iot/nx_azure_iot.c:449-491 | the loop over the heap chain computes Absorb in place |
| `PacketChain.PacketAdjust` | addons/azure_iot/nx_azure_iot.c:421-492 | the heap chain becomes exactly what Adjust makes of its values; the packets released are those it counts, in order, unlinked, their contents kept |
| `MqttFraming.RemainingLengthRule` | addons/mqtt/nxd_mqtt_client.c:189-235 | the reader accepts exactly the length fields of one to four bytes whose frame lies within the data, reads their base-128 value, and calls malformed exactly four bytes marked as continued |
| `MqttFraming.HeaderReads` | addons/azure_iot/nx_azure_iot.c:74-90 | the decoder reads back the length modulo 2^28 whatever follows, so the true length if and only if it is below 2^28 |
| `MqttFraming.DecodeFrame` | addons/mqtt/nxd_mqtt_client.c:1170-1231 | decoding a headered packet gives back QoS, topic, identifier and payload; its first byte says PUBLISH, that QoS, not a duplicate, not retained |
| `MqttFraming.DecodesExactly` | addons/mqtt/nxd_mqtt_client.c:1180-1231 | a body is decoded to a message if and only if it is that message's encoding |
| `MqttFraming.FramingIsUnique` | addons/azure_iot/nx_azure_iot.c:48-97 | the concatenation of any headered packets splits into exactly those packets |
| `MqttFraming.StreamDecodes` | addons/mqtt/nxd_mqtt_client.c:2134-2151 | and the i-th of them is dispatched as a PUBLISH and decodes to the i-th message |
| `MqttFraming.StreamIsInjective` | addons/azure_iot/nx_azure_iot.c:48-97 | two sequences of messages that make the same stream are the same |
| `PublishPacket.WriteHeader` | addons/azure_iot/nx_azure_iot.c:60-90 | the stores write exactly the seven header bytes, which `MqttFraming.DecodeFrame` and `HeaderReads` read back |
| `PublishPacket.HeaderAdd` | addons/azure_iot/nx_azure_iot.c:48-97 | success exactly if seven bytes are free in front of the data; otherwise nothing changes |
| `PublishPacket.PacketGet` | addons/azure_iot/nx_azure_iot.c:334-352 | seven bytes are reserved in front of the data, or nothing changes |
| `PublishPacket.PublishMqttPacket` | addons/azure_iot/nx_azure_iot.c:354-382 | the packet is headered and the identifier passed on is the one in the two bytes, or 0 at QoS 0 |
| `PublishPacket.HeaderOnlyInFront` | addons/azure_iot/nx_azure_iot.c:60-94 | only the seven bytes in front of the data change |
| `PublishPacket.ReservationSuffices` | addons/azure_iot/nx_azure_iot.c:334-352 | a packet whose reservation is intact passes the room check, and the length read back is the new packet length less five |
| `PublishPacket.PublishedIsFrame` | addons/azure_iot/nx_azure_iot.c:48-97 | a message's content becomes exactly its frame |
| `PacketIds.MqttClient.PacketIdGet` | addons/azure_iot/nx_azure_iot.c:384-419 | a failed call changes nothing; a successful one hands out the counter in two bytes and advances it past zero; the call is recorded |
| `PacketIds.BytesRebuildId` | addons/azure_iot/nx_azure_iot.c:367-370 | the two bytes rebuild the identifier |
| `PacketIds.IdsCycle` | addons/azure_iot/nx_azure_iot.c:384-419 | over any series of attempts the k-th success hands out the k-th identifier of the cycle 1 .. 65535 |
| `PacketIds.ClientIdsCycle` | addons/azure_iot/nx_azure_iot.c:384-419 | whatever calls a client has had, the identifiers it handed out are 1 .. 65535 over and over, one for each success |
| `PacketIds.IdsAreDistinct` | addons/azure_iot/nx_azure_iot.c:407-414 | no identifier is zero, any 65535 successive ones are distinct, and the next one repeats |
| `ResourceList.AzureIot.Add` | addons/azure_iot/nx_azure_iot.c:190-197 | an absent resource becomes the first of the list |
| `ResourceList.AzureIot.Remove` | addons/azure_iot/nx_azure_iot.c:199-227 | exactly the resource is taken out, or not found is reported exactly if it is absent and nothing changes |
| `ResourceList.AzureIot.UnlinkAfter` | addons/azure_iot/nx_azure_iot.c:219-223 | bypassing a node removes it from the sequence |
| `ResourceList.AzureIot.Find` | addons/azure_iot/nx_azure_iot.c:176-185 | the loop finds the resource owning the client, or there is none |
| `ResourceList.ResourceSearch` | addons/azure_iot/nx_azure_iot.c:166-188 | null exactly if nothing is created, the client is null, or no resource owns it |
| `ResourceList.RunsStayDistinct` | addons/azure_iot/nx_azure_iot.c:190-227 | over any run that adds only what is absent, nothing is listed twice, and a resource is listed exactly if it was added and not removed since |
| `ResourceList.RemoveUndoesAdd` | addons/azure_iot/nx_azure_iot.c:190-227 | removing what was just added restores the list |
| `ResourceList.RemoveKeepsOrder` | addons/azure_iot/nx_azure_iot.c:215-224 | removing one resource keeps the order of the others |

## Left out

- Preemption of the AutoIP thread between two blocking calls, and waiting for the IP mutex: the thread is taken to run undisturbed from one sleep or event wait to the next.
- ARP packets that cannot be allocated or are lost; the gratuitous response handler; the ARP cache. The ARP defence timer is left open, either outcome is allowed.
- The test of nx_arp_packet_receive.c that the sender's hardware address is not its own: hosts on a link have distinct hardware addresses, and AutoIpLink.Exclusion holds for such links.
- AutoIpLink.Exclusion: says nothing of runs in which an interface is cleared in the last probe wait of an unwarned round, where the code fails; `SettledIsExact` and `UnsettledBreaksExclusion` say how.
- How soon a thread runs after its timer, and how long a frame takes: neither is bounded, in the failing runs either.
- The AutoIP callback's single static instance pointer: there is one instance per host.
- 32-bit wrap of the AutoIP statistics counters and of the tick products; the conflict count does wrap.
- AutoIpTiming.UndisturbedClaim: speaks of attempts that are not disturbed and threads that run as soon as their timer expires.
- The `_nxe_` parameter checks, `nx_auto_ip_set_interface` and `nx_auto_ip_delete`: a single reading settles them.
- SNMP object values, SET, the user name callback, the IPv6 entries of the sample table, and encoding: a get callback is its answer only.
- SnmpOrder.CompareIsLexicographic: names are canonical decimal text; what the comparison does with other strings is in `Compare` but not characterised further.
- `nx_packet_last`, which compaction never updates.
- MQTT messages other than PUBLISH, QoS 2, the DUP and RETAIN flags, transmission and retransmission.
- Failure of `_nxd_mqtt_client_publish_packet_send`: its status is passed through.
- ResourceList.AzureIot.Add: adding a resource that is already listed, which the code does not check and which would close the list into a cycle, is excluded; so it is from ResourceList.RunsStayDistinct.
- TLS setup, certificate checks, HMAC, logging and cloud registration in the Azure IoT client.
