/**
 The XDP filter, nhp/ebpf/xdp/nhp_ebpf_xdp.c: whitelist tables with expiry times, and connection tracking
 as a cache of their decisions. The egress program, tc_egress.c, adds whitelist entries.
 */
module Xdp {
  import opened Bytes

  const IPPROTO_ICMP: nat := 1
  const IPPROTO_TCP: nat := 6
  const IPPROTO_UDP: nat := 17
  const KEY_EXPIRE_TIME: nat := 180_000_000_000

  datatype EthType = Arp | IPv4 | IPv6 | OtherEth

  /**
   A frame as the program reads it. The Fits fields say which bounds checks against data_end succeed. Ports
   are read right behind a header without options, and TCP's destination once more behind the options.
   */
  datatype Packet = Packet(
    ethFits: bool, ethType: EthType, ipFits: bool, version: nat, ihl: nat, saddr: nat, daddr: nat, protocol: nat,
    l4Fits: bool, sport: nat, dport: nat, tcpFits: bool, tcpDest: nat,
    icmpFits: bool, icmpType: nat, icmpCode: nat)

  datatype Tuple = Tuple(daddr: nat, saddr: nat, dport: nat, sport: nat, nexthdr: nat, flags: nat)

  datatype Conn = Conn(timestamp: uint64, lastTimestamp: uint64, ttl: uint64, rxPackets: nat, txPackets: nat)

  datatype Rule = Rule(allowed: nat, expireTime: uint64)

  /** The keys of the five whitelist tables and of the ICMP table. */
  datatype Key =
    | SppKey(src: nat, dst: nat, dport: nat, protocol: nat)
    | SdKey(src: nat, dst: nat)
    | SrcPortKey(src: nat, dport: nat)
    | PortListKey(src: nat, minPort: nat, maxPort: nat)
    | ProtocolPortKey(dport: nat, protocol: nat)
    | IcmpKey(src: nat, dst: nat)

  /** All BPF maps: the whitelists as one map over tagged keys, and conn_track. */
  datatype Maps = Maps(rules: map<Key, Rule>, track: map<Tuple, Conn>)

  /** Two readings of the clock in one run: the one kept as now, and the next one. */
  datatype Clock = Clock(now: uint64, later: uint64)

  /** why is not visible to the kernel: it records which part of the program let the packet through. */
  datatype Verdict = Drop | Pass(why: Why)

  datatype Why = Unfiltered | ByIcmpRule | ByTrack | ByRule(expireTime: uint64)

  // ---- The program ----

  predicate Ported(p: Packet) {
    p.protocol == IPPROTO_TCP || p.protocol == IPPROTO_UDP
  }

  /** Other protocols than TCP and UDP leave the port fields and the protocol field at zero. */
  function TupleOf(p: Packet): Tuple {
    if Ported(p) then Tuple(p.daddr, p.saddr, p.dport, p.sport, p.protocol, 0)
    else Tuple(p.daddr, p.saddr, 0, 0, 0, 0)
  }

  /** reverseTuple. */
  function Reverse(t: Tuple): Tuple {
    Tuple(t.saddr, t.daddr, t.sport, t.dport, t.nexthdr, if t.flags == 0 then 1 else 0)
  }

  /** check_conn_expiry; the 64-bit sum wraps. */
  predicate Expired(c: Conn, time: uint64) {
    time > (c.timestamp + c.ttl) % U64
  }

  predicate AlwaysPasses(p: Packet) {
    || (p.protocol == IPPROTO_TCP && p.tcpDest == 22)
    || (p.protocol == IPPROTO_UDP && (p.dport == 67 || p.dport == 68 || p.sport == 53))
  }

  /** The bounds checks that are made before any table is consulted. */
  predicate Malformed(p: Packet) {
    || !p.ipFits || p.ihl < 5
    || (Ported(p) && !p.l4Fits)
    || (p.protocol == IPPROTO_TCP && !p.tcpFits)
    || (p.protocol == IPPROTO_ICMP && !p.icmpFits)
  }

  predicate IsEcho(p: Packet) {
    p.protocol == IPPROTO_ICMP && p.icmpType == 8 && p.icmpCode == 0
  }

  predicate IsEchoReply(p: Packet) {
    p.protocol == IPPROTO_ICMP && p.icmpType == 0 && p.icmpCode == 0
  }

  /** The whitelist keys of a packet, in the order in which the program consults them. */
  function RuleKeys(p: Packet): seq<Key> {
    var t := TupleOf(p);
    [SppKey(p.saddr, p.daddr, t.dport, p.protocol), SdKey(p.saddr, p.daddr), SrcPortKey(p.saddr, t.dport),
     PortListKey(p.saddr, 0, 65535), ProtocolPortKey(t.dport, p.protocol)]
  }

  function NewConn(clock: Clock, expireTime: uint64): Conn
    requires clock.now <= expireTime
  {
    Conn(clock.later, clock.later, expireTime - clock.now, 1, 0)
  }

  /** The first entry that has expired or allows the packet decides; an expired one is deleted. */
  function Consult(m: Maps, t: Tuple, keys: seq<Key>, clock: Clock): (Maps, Verdict)
    decreases |keys|
  {
    if keys == [] then (m, Drop)
    else if keys[0] !in m.rules then Consult(m, t, keys[1..], clock)
    else
      var rule := m.rules[keys[0]];
      if rule.expireTime < clock.now then (m.(rules := m.rules - {keys[0]}), Drop)
      else if rule.allowed == 1 then
        (m.(track := m.track[t := NewConn(clock, rule.expireTime)]), Pass(ByRule(rule.expireTime)))
      else Consult(m, t, keys[1..], clock)
  }

  /** A tracked packet: forward hits count as sent, reversed ones as received. */
  function Hit(m: Maps, t: Tuple, reversed: bool, clock: Clock): (Maps, Verdict)
    requires t in m.track
  {
    var c := m.track[t];
    if Expired(c, clock.later) then (m.(track := m.track - {t}), Drop)
    else
      var counted := if reversed then c.(rxPackets := (c.rxPackets + 1) % U32)
                     else c.(txPackets := (c.txPackets + 1) % U32);
      (m.(track := m.track[t := counted.(lastTimestamp := clock.later)]), Pass(ByTrack))
  }

  function Filter(m: Maps, p: Packet, clock: Clock): (Maps, Verdict) {
    var t := TupleOf(p);
    if t in m.track then Hit(m, t, false, clock)
    else if Reverse(t) in m.track then Hit(m, Reverse(t), true, clock)
    else Consult(m, t, RuleKeys(p), clock)
  }

  /** xdp_white_prog. */
  function Run(m: Maps, p: Packet, clock: Clock): (Maps, Verdict) {
    if !p.ethFits then (m, Drop)
    else if p.ethType.Arp? || p.ethType.IPv6? then (m, Pass(Unfiltered))
    else if p.ethType.OtherEth? then (m, Drop)
    else if Malformed(p) then (m, Drop)
    else if AlwaysPasses(p) then (m, Pass(Unfiltered))
    else if IsEchoReply(p) then (m, Pass(Unfiltered))
    else if IsEcho(p) then
      var key := IcmpKey(p.saddr, p.daddr);
      if key !in m.rules then (m, Drop)
      else if m.rules[key].expireTime < clock.later then (m.(rules := m.rules - {key}), Drop)
      else if m.rules[key].allowed == 1 then (m, Pass(ByIcmpRule))
      else Filter(m, p, clock)
    else Filter(m, p, clock)
  }

  // ---- Runs ----

  /**
   What happens to the maps: packets, and everything else. User space and the egress program may change the
   rules at will; the kernel may evict tracked connections, but nothing besides the program adds or changes any.
   */
  datatype Event = Arrives(p: Packet, clock: Clock) | Changes(rules: map<Key, Rule>, evicted: set<Tuple>)

  function StateAt(events: seq<Event>, n: nat): Maps
    requires n <= |events|
  {
    if n == 0 then Maps(map[], map[])
    else
      var m := StateAt(events, n - 1);
      match events[n - 1]
      case Arrives(p, clock) => Run(m, p, clock).0
      case Changes(rules, evicted) => Maps(rules, m.track - evicted)
  }

  function VerdictAt(events: seq<Event>, n: nat): Verdict
    requires n < |events| && events[n].Arrives?
  {
    Run(StateAt(events, n), events[n].p, events[n].clock).1
  }

  /** How a single run treats the tracked connections. */
  lemma RunOnTrack(m: Maps, p: Packet, clock: Clock)
    ensures var (m', v) := Run(m, p, clock);
            match v
            case Pass(ByRule(e)) => clock.now <= e && m'.track == m.track[TupleOf(p) := NewConn(clock, e)]
            case _ =>
              && (forall k :: k in m'.track ==>
                    k in m.track && m'.track[k].timestamp == m.track[k].timestamp && m'.track[k].ttl == m.track[k].ttl)
  {
    hide TupleOf, RuleKeys, Malformed, AlwaysPasses;
    ConsultOnTrack(m, TupleOf(p), RuleKeys(p), clock);
  }

  lemma {:induction false} ConsultOnTrack(m: Maps, t: Tuple, keys: seq<Key>, clock: Clock)
    ensures var (m', v) := Consult(m, t, keys, clock);
            match v
            case Drop => m'.track == m.track
            case Pass(why) =>
              why.ByRule? && clock.now <= why.expireTime && m'.track == m.track[t := NewConn(clock, why.expireTime)]
    decreases |keys|
  {
    if keys != [] {
      ConsultOnTrack(m, t, keys[1..], clock);
    }
  }

  /** The j-th packet had this tuple and was let through by an entry; what it stored runs out at end. */
  ghost predicate Admitted(events: seq<Event>, j: nat, t: Tuple, end: int)
    requires j < |events|
  {
    && events[j].Arrives? && TupleOf(events[j].p) == t
    && VerdictAt(events, j).Pass? && VerdictAt(events, j).why.ByRule?
    && end == VerdictAt(events, j).why.expireTime + (events[j].clock.later - events[j].clock.now)
  }

  /** Every tracked connection was put there for a whitelisted packet, and is stored in forward direction. */
  lemma {:induction false} TrackedWasAdmitted(events: seq<Event>, n: nat, t: Tuple) returns (j: nat)
    requires n <= |events| && t in StateAt(events, n).track
    ensures var c := StateAt(events, n).track[t];
            j < n && t.flags == 0 && Admitted(events, j, t, c.timestamp + c.ttl)
  {
    hide Run;
    var m := StateAt(events, n - 1);
    match events[n - 1]
    case Changes(_, _) => j := TrackedWasAdmitted(events, n - 1, t);
    case Arrives(p, clock) =>
      RunOnTrack(m, p, clock);
      var v := VerdictAt(events, n - 1);
      if v.Pass? && v.why.ByRule? && t == TupleOf(p) {
        j := n - 1;
      } else {
        j := TrackedWasAdmitted(events, n - 1, t);
      }
  }

  /**
   A packet that passes on connection tracking had an earlier packet with the same tuple which matched a
   whitelist entry that had not expired by now; the slack is the time that passed between two readings of the
   clock in that earlier run.
   */
  lemma TrackRespectsExpiry(events: seq<Event>, n: nat) returns (j: nat)
    requires n < |events| && events[n].Arrives? && VerdictAt(events, n) == Pass(ByTrack)
    ensures j < n && events[j].Arrives? && TupleOf(events[j].p) == TupleOf(events[n].p)
    ensures VerdictAt(events, j).Pass? && VerdictAt(events, j).why.ByRule?
    ensures events[n].clock.later
         <= VerdictAt(events, j).why.expireTime + (events[j].clock.later - events[j].clock.now)
  {
    var m, p, clock := StateAt(events, n), events[n].p, events[n].clock;
    var t := TupleOf(p);
    PassByTrackIsHit(m, p, clock);
    ReversedIsNeverTracked(events, n, p);
    hide Run;
    j := TrackedWasAdmitted(events, n, t);
    WrapsDown(m.track[t].timestamp + m.track[t].ttl);
  }

  lemma WrapsDown(v: nat)
    ensures v % U64 <= v
  {
  }

  lemma PassByTrackIsHit(m: Maps, p: Packet, clock: Clock)
    requires Run(m, p, clock).1 == Pass(ByTrack)
    ensures TupleOf(p) in m.track || Reverse(TupleOf(p)) in m.track
    ensures TupleOf(p) in m.track ==> !Expired(m.track[TupleOf(p)], clock.later)
  {
    hide TupleOf, RuleKeys, Malformed, AlwaysPasses, Reverse;
    ConsultOnTrack(m, TupleOf(p), RuleKeys(p), clock);
  }

  /** The lookup of the reversed tuple never finds anything: entries are only stored with the ingress flag. */
  lemma ReversedIsNeverTracked(events: seq<Event>, n: nat, p: Packet)
    requires n <= |events|
    ensures Reverse(TupleOf(p)) !in StateAt(events, n).track
  {
    if Reverse(TupleOf(p)) in StateAt(events, n).track {
      var j := TrackedWasAdmitted(events, n, Reverse(TupleOf(p)));
    }
  }

  /** A tuple names its protocol and ports only for TCP and UDP: all else between two hosts shares one entry. */
  lemma SameTupleIff(p: Packet, q: Packet)
    ensures TupleOf(p) == TupleOf(q) <==>
            && p.saddr == q.saddr && p.daddr == q.daddr
            && (if Ported(p) && Ported(q) then p.protocol == q.protocol && p.sport == q.sport && p.dport == q.dport
                else !Ported(p) && !Ported(q))
  {
  }

  // ---- What the filter lets through, in terms of the packet's fields ----

  /** A frame that reaches the tables: well-formed IPv4, and its headers as long as its protocol needs. */
  predicate WellFormed(p: Packet) {
    && p.ethFits && p.ethType.IPv4? && p.ipFits && p.ihl >= 5
    && (p.protocol == 6 || p.protocol == 17 ==> p.l4Fits)
    && (p.protocol == 6 ==> p.tcpFits)
    && (p.protocol == 1 ==> p.icmpFits)
  }

  /** ssh, DHCP, answers to DNS queries, and answers to echo requests need no rule. */
  predicate NeedsNoRule(p: Packet) {
    || (p.protocol == 6 && p.tcpDest == 22)
    || (p.protocol == 17 && (p.dport == 67 || p.dport == 68 || p.sport == 53))
    || (p.protocol == 1 && p.icmpType == 0 && p.icmpCode == 0)
  }

  /** The echo requests have a table of their own. */
  predicate EchoRequest(p: Packet) {
    p.protocol == 1 && p.icmpType == 8 && p.icmpCode == 0
  }

  /** Without any rule and any tracked connection: ARP, IPv6, and what needs no rule. Nothing is stored for it. */
  lemma PassesWithoutRulesIff(p: Packet, clock: Clock)
    ensures Run(Maps(map[], map[]), p, clock).0 == Maps(map[], map[])
    ensures Run(Maps(map[], map[]), p, clock).1.Pass?
       <==> p.ethFits && (p.ethType.Arp? || p.ethType.IPv6? || (WellFormed(p) && NeedsNoRule(p)))
  {
    NoRuleDrops(Maps(map[], map[]), TupleOf(p), RuleKeys(p), clock);
    hide TupleOf, RuleKeys;
  }

  lemma {:induction false} NoRuleDrops(m: Maps, t: Tuple, keys: seq<Key>, clock: Clock)
    requires forall i :: 0 <= i < |keys| ==> keys[i] !in m.rules
    ensures Consult(m, t, keys, clock) == (m, Drop)
    decreases |keys|
  {
    if keys != [] {
      assert forall i :: 0 <= i < |keys| - 1 ==> keys[1..][i] == keys[i + 1];
      NoRuleDrops(m, t, keys[1..], clock);
    }
  }

  /** Those packets pass whatever is in the tables, and leave them as they are. */
  lemma NoTableMatters(m: Maps, p: Packet, clock: Clock)
    requires p.ethFits && (p.ethType.Arp? || p.ethType.IPv6? || (WellFormed(p) && NeedsNoRule(p)))
    ensures Run(m, p, clock).0 == m && Run(m, p, clock).1.Pass?
  {
  }

  /** And malformed or foreign frames never pass, whatever is in the tables. */
  lemma MalformedNeverPasses(m: Maps, p: Packet, clock: Clock)
    requires !(p.ethFits && (p.ethType.Arp? || p.ethType.IPv6? || WellFormed(p)))
    ensures Run(m, p, clock) == (m, Drop)
  {
  }

  /** The destination port that the tables know a packet by. */
  function RulePort(p: Packet): nat {
    if p.protocol == 6 || p.protocol == 17 then p.dport else 0
  }

  /** The five keys under which a rule can stand for a packet, in the order in which they are consulted. */
  predicate StandsFor(key: Key, p: Packet, i: nat) {
    match i
    case 0 => key == SppKey(p.saddr, p.daddr, RulePort(p), p.protocol)
    case 1 => key == SdKey(p.saddr, p.daddr)
    case 2 => key == SrcPortKey(p.saddr, RulePort(p))
    case 3 => key == PortListKey(p.saddr, 0, 65535)
    case 4 => key == ProtocolPortKey(RulePort(p), p.protocol)
    case _ => false
  }

  /** The packet has to be looked up in the tables. */
  predicate NeedsRule(p: Packet) {
    WellFormed(p) && !NeedsNoRule(p) && !EchoRequest(p)
  }

  predicate Untracked(m: Maps, p: Packet) {
    TupleOf(p) !in m.track && Reverse(TupleOf(p)) !in m.track
  }

  lemma KeysAre(p: Packet, i: nat, key: Key)
    ensures StandsFor(key, p, i) <==> i < |RuleKeys(p)| && RuleKeys(p)[i] == key
  {
    if i == 0 { } else if i == 1 { } else if i == 2 { } else if i == 3 { } else if i == 4 { }
  }

  /** Consulting keys that come before the one that decides. */
  lemma {:induction false} FirstDecides(m: Maps, t: Tuple, keys: seq<Key>, clock: Clock, i: nat)
    requires i < |keys| && keys[i] in m.rules
    requires m.rules[keys[i]].expireTime < clock.now || m.rules[keys[i]].allowed == 1
    requires forall j :: 0 <= j < i && keys[j] in m.rules ==>
               m.rules[keys[j]].expireTime >= clock.now && m.rules[keys[j]].allowed != 1
    ensures Consult(m, t, keys, clock) == (
              var rule := m.rules[keys[i]];
              if rule.expireTime < clock.now then (m.(rules := m.rules - {keys[i]}), Drop)
              else (m.(track := m.track[t := Conn(clock.later, clock.later, rule.expireTime - clock.now, 1, 0)]),
                    Pass(ByRule(rule.expireTime))))
    decreases |keys|
  {
    if i > 0 {
      assert forall j :: 0 <= j < |keys| - 1 ==> keys[1..][j] == keys[j + 1];
      FirstDecides(m, t, keys[1..], clock, i - 1);
    }
  }

  /**
   An untracked packet that needs a rule: the first of its five keys whose entry has expired or allows it decides. An
   expired entry is deleted, even if a later one would allow the packet; an allowing one is tracked until it expires.
   */
  lemma FirstRuleDecides(m: Maps, p: Packet, clock: Clock, i: nat, key: Key)
    requires NeedsRule(p) && Untracked(m, p) && StandsFor(key, p, i) && key in m.rules
    requires m.rules[key].expireTime < clock.now || m.rules[key].allowed == 1
    requires forall j, k :: 0 <= j < i && StandsFor(k, p, j) && k in m.rules ==>
               m.rules[k].expireTime >= clock.now && m.rules[k].allowed != 1
    ensures m.rules[key].expireTime < clock.now ==> Run(m, p, clock) == (m.(rules := m.rules - {key}), Drop)
    ensures m.rules[key].expireTime >= clock.now ==>
              Run(m, p, clock) == (
                m.(track := m.track[TupleOf(p) :=
                     Conn(clock.later, clock.later, m.rules[key].expireTime - clock.now, 1, 0)]),
                Pass(ByRule(m.rules[key].expireTime)))
  {
    var keys := RuleKeys(p);
    KeysAre(p, i, key);
    forall j | 0 <= j < i && keys[j] in m.rules
      ensures m.rules[keys[j]].expireTime >= clock.now && m.rules[keys[j]].allowed != 1
    {
      KeysAre(p, j, keys[j]);
    }
    hide RuleKeys, StandsFor, Consult;
    FirstDecides(m, TupleOf(p), keys, clock, i);
    RunConsults(m, p, clock);
  }

  lemma RunConsults(m: Maps, p: Packet, clock: Clock)
    requires NeedsRule(p) && Untracked(m, p)
    ensures Run(m, p, clock) == Consult(m, TupleOf(p), RuleKeys(p), clock)
  {
    hide RuleKeys, TupleOf, Consult;
  }

  /** With a single rule in the tables, an untracked packet that needs one passes exactly if that rule stands for it. */
  lemma PassesByOneRuleIff(m: Maps, p: Packet, clock: Clock, key: Key, expireTime: uint64)
    requires NeedsRule(p) && Untracked(m, p) && m.rules == map[key := Rule(1, expireTime)]
    ensures Run(m, p, clock).1.Pass?
       <==> (StandsFor(key, p, 0) || StandsFor(key, p, 1) || StandsFor(key, p, 2) || StandsFor(key, p, 3) || StandsFor(key, p, 4))
            && clock.now <= expireTime
  {
    hide Run, TupleOf, Reverse, NeedsRule;
    if i: nat :| i < 5 && StandsFor(key, p, i) {
      OnlyOnce(key, p, i);
      FirstRuleDecides(m, p, clock, i, key);
    } else {
      assert !StandsFor(key, p, 0) && !StandsFor(key, p, 1) && !StandsFor(key, p, 2);
      assert !StandsFor(key, p, 3) && !StandsFor(key, p, 4);
      NoKeyStands(m, p, clock, key);
    }
  }

  lemma OnlyOnce(key: Key, p: Packet, i: nat)
    requires StandsFor(key, p, i)
    ensures forall j: nat :: StandsFor(key, p, j) ==> j == i
  {
  }

  lemma NoKeyStands(m: Maps, p: Packet, clock: Clock, key: Key)
    requires NeedsRule(p) && Untracked(m, p) && m.rules.Keys == {key}
    requires forall i: nat :: i < 5 ==> !StandsFor(key, p, i)
    ensures Run(m, p, clock) == (m, Drop)
  {
    var keys := RuleKeys(p);
    assert |keys| == 5;
    forall i | 0 <= i < |keys| ensures keys[i] !in m.rules {
      KeysAre(p, i, keys[i]);
    }
    hide RuleKeys, StandsFor, Consult, TupleOf;
    NoRuleDrops(m, TupleOf(p), keys, clock);
    RunConsults(m, p, clock);
  }

  /**
   A tracked packet that needs a rule passes exactly until its connection's time is over, when the connection is
   dropped; before that only its counter and the time of its last packet change.
   */
  lemma TrackedPassesUntilExpiry(m: Maps, p: Packet, clock: Clock)
    requires NeedsRule(p) && TupleOf(p) in m.track
    requires m.track[TupleOf(p)].timestamp + m.track[TupleOf(p)].ttl < U64
    ensures var t := TupleOf(p);
            var c := m.track[t];
            Run(m, p, clock) == (
              if clock.later <= c.timestamp + c.ttl
              then (m.(track := m.track[t := Conn(c.timestamp, clock.later, c.ttl, c.rxPackets, (c.txPackets + 1) % U32)]),
                    Pass(ByTrack))
              else (m.(track := m.track - {t}), Drop))
  {
    hide RuleKeys, TupleOf, Consult;
  }

  /** An echo request passes exactly with an unexpired entry of its own that allows it; without one it is dropped. */
  lemma EchoRequestPasses(m: Maps, p: Packet, clock: Clock)
    requires WellFormed(p) && EchoRequest(p)
    ensures var key := IcmpKey(p.saddr, p.daddr);
            && (key !in m.rules ==> Run(m, p, clock) == (m, Drop))
            && (key in m.rules && m.rules[key].expireTime < clock.later ==>
                  Run(m, p, clock) == (m.(rules := m.rules - {key}), Drop))
            && (key in m.rules && m.rules[key].expireTime >= clock.later && m.rules[key].allowed == 1 ==>
                  Run(m, p, clock) == (m, Pass(ByIcmpRule)))
  {
    hide RuleKeys, TupleOf, Consult;
  }

  // ---- Egress ----

  /** The entry that tc_egress_prog adds for an outgoing packet, with the ports as that program reads them. */
  function EgressRules(m: Maps, p: Packet, now: uint64): map<Key, Rule> {
    var ported := Ported(p);
    if !p.ethFits || !p.ethType.IPv4? || !p.ipFits || p.ihl < 5 || p.version != 4
       || (ported && !p.l4Fits) || !(ported || p.protocol == IPPROTO_ICMP) then m.rules
    else
      m.rules[SppKey(p.daddr, p.saddr, if ported then p.sport else 0, p.protocol)
              := Rule(1, (now + KEY_EXPIRE_TIME) % U64)]
  }

  /** Which outgoing packets add an entry, and which one: TCP, UDP and ICMP, keyed by the port they were sent from. */
  lemma EgressAddsIff(m: Maps, p: Packet, now: uint64)
    requires now + 180_000_000_000 < U64
    ensures var key := SppKey(p.daddr, p.saddr, if p.protocol == 1 then 0 else p.sport, p.protocol);
            var adds := p.ethFits && p.ethType.IPv4? && p.ipFits && p.ihl >= 5 && p.version == 4
                        && (p.protocol == 1 || ((p.protocol == 6 || p.protocol == 17) && p.l4Fits));
            EgressRules(m, p, now) == if adds then m.rules[key := Rule(1, now + 180_000_000_000)] else m.rules
  {
  }

  /** An answer: addresses and ports the other way round. */
  predicate Answers(p: Packet, q: Packet) {
    q.saddr == p.daddr && q.daddr == p.saddr && q.sport == p.dport && q.dport == p.sport && q.protocol == p.protocol
  }

  /**
   After an outgoing TCP or UDP packet, a well-formed answer that is not tracked yet passes exactly as long as
   the entry lasts, and is tracked from then on until that same moment.
   */
  lemma EgressAdmitsAnswers(m: Maps, p: Packet, sent: uint64, q: Packet, clock: Clock)
    requires Ported(p)
    requires p.ethFits && p.ethType.IPv4? && p.ipFits && p.ihl >= 5 && p.version == 4 && p.l4Fits
    requires q.ethFits && q.ethType.IPv4? && !Malformed(q) && !AlwaysPasses(q) && Answers(p, q)
    requires TupleOf(q) !in m.track && Reverse(TupleOf(q)) !in m.track
    requires sent + KEY_EXPIRE_TIME < U64
    ensures var m1 := m.(rules := EgressRules(m, p, sent));
            var (m', v) := Run(m1, q, clock);
            && (v.Pass? <==> clock.now <= sent + KEY_EXPIRE_TIME)
            && (v.Pass? ==> TupleOf(q) in m'.track
                            && (clock.later == clock.now ==>
                                m'.track[TupleOf(q)].timestamp + m'.track[TupleOf(q)].ttl == sent + KEY_EXPIRE_TIME))
  {
    var m1 := m.(rules := EgressRules(m, p, sent));
    var key := SppKey(q.saddr, q.daddr, q.dport, q.protocol);
    assert key == SppKey(p.daddr, p.saddr, p.sport, p.protocol);
    assert RuleKeys(q)[0] == key;
    assert m1.rules[key] == Rule(1, sent + KEY_EXPIRE_TIME);
    assert Run(m1, q, clock) == Consult(m1, TupleOf(q), RuleKeys(q), clock);
  }

  // ---- The maps as the program updates them ----

  class XdpMaps {
    var rules: map<Key, Rule>
    var track: map<Tuple, Conn>

    constructor ()
      ensures View() == Maps(map[], map[])
    {
      rules, track := map[], map[];
    }

    function View(): Maps
      reads this
    {
      Maps(rules, track)
    }

    /** The lookup of one direction: the verdict, if there is an entry. */
    method Lookup(t: Tuple, reversed: bool, clock: Clock) returns (v: Option<Verdict>)
      modifies this`track
      ensures t !in old(track) ==> v == None && track == old(track)
      ensures t in old(track) ==> (View(), v) == (Hit(old(View()), t, reversed, clock).0, Some(Hit(old(View()), t, reversed, clock).1))
    {
      if t !in track { return None; }
      var c := track[t];
      if Expired(c, clock.later) {
        track := track - {t};
        return Some(Drop);
      }
      if reversed {
        c := c.(rxPackets := (c.rxPackets + 1) % U32);
      } else {
        c := c.(txPackets := (c.txPackets + 1) % U32);
      }
      c := c.(lastTimestamp := clock.later);
      track := track[t := c];
      v := Some(Pass(ByTrack));
    }

    method ConsultRules(t: Tuple, keys: seq<Key>, clock: Clock) returns (v: Verdict)
      modifies this
      ensures (View(), v) == Consult(old(View()), t, keys, clock)
    {
      var i := 0;
      assert keys[0..] == keys;
      while i < |keys|
        invariant i <= |keys| && View() == old(View())
        invariant Consult(View(), t, keys, clock) == Consult(View(), t, keys[i..], clock)
      {
        assert keys[i..][0] == keys[i] && keys[i..][1..] == keys[i + 1..];
        if keys[i] in rules {
          var rule := rules[keys[i]];
          if rule.expireTime < clock.now {
            rules := rules - {keys[i]};
            return Drop;
          }
          if rule.allowed == 1 {
            track := track[t := NewConn(clock, rule.expireTime)];
            return Pass(ByRule(rule.expireTime));
          }
        }
        i := i + 1;
      }
      v := Drop;
    }

    method FilterPacket(p: Packet, clock: Clock) returns (v: Verdict)
      modifies this
      ensures (View(), v) == Filter(old(View()), p, clock)
    {
      var key := TupleOf(p);
      var tracked := Lookup(key, false, clock);
      if tracked.Some? { return tracked.value; }
      key := Reverse(key);
      tracked := Lookup(key, true, clock);
      if tracked.Some? { return tracked.value; }
      assert Reverse(key) == TupleOf(p);
      v := ConsultRules(Reverse(key), RuleKeys(p), clock);
    }

    method XdpWhiteProg(p: Packet, clock: Clock) returns (v: Verdict)
      modifies this
      ensures (View(), v) == Run(old(View()), p, clock)
    {
      hide Filter, Malformed, AlwaysPasses;
      if !p.ethFits { return Drop; }
      match p.ethType {
        case Arp => return Pass(Unfiltered);
        case IPv4 =>
        case IPv6 => return Pass(Unfiltered);
        case OtherEth => return Drop;
      }
      if Malformed(p) { return Drop; }
      if AlwaysPasses(p) { return Pass(Unfiltered); }
      if IsEchoReply(p) { return Pass(Unfiltered); }
      if IsEcho(p) {
        var key := IcmpKey(p.saddr, p.daddr);
        if key !in rules { return Drop; }
        if rules[key].expireTime < clock.later {
          rules := rules - {key};
          return Drop;
        }
        if rules[key].allowed == 1 { return Pass(ByIcmpRule); }
      }
      v := FilterPacket(p, clock);
    }
  }
}
