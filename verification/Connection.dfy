/**
 Per-connection state, nhp/core/udpconn.go and nhp/core/responder.go: the replay, flood and stale checks
 with their threat counter, and the cookies handed out under overload.
 */
module Connection {
  import opened Bytes

  const MILLISECOND: int := 1_000_000
  const SECOND: int := 1_000_000_000
  const MINIMAL_RECV_INTERVAL: int := 20 * MILLISECOND
  const STALE_AFTER: int := 600 * SECOND
  const THREAT_COUNT_BEFORE_BLOCK: int := 1
  const COOKIE_SIZE: nat := 32
  const COOKIE_REGENERATE_TIME: int := 120 * SECOND
  const COOKIE_ROUND_TRIP_TIME: int := 20 * MILLISECOND

  type int32 = x: int | -0x8000_0000 <= x <= 0x7fff_ffff

  function WrapI32(v: int): int32 {
    (v + 0x8000_0000) % 0x1_0000_0000 - 0x8000_0000
  }

  // ---- Time checks ----

  datatype Verdict = Pass | Replay | Flood | Stale

  /** sendTime is the sender's authenticated clock, now the local receive time, both in nanoseconds. */
  datatype Arrival = Arrival(sendTime: int64, now: int64, exempt: bool)

  /** exempt is the negation of shouldCheckRecvAttack. The int64 arithmetic wraps as Go's does. */
  function Judge(last: int64, a: Arrival): Verdict {
    if !a.exempt && a.sendTime < last then Replay
    else if !a.exempt && a.sendTime < WrapI64(last + MINIMAL_RECV_INTERVAL) then Flood
    else if a.sendTime < WrapI64(a.now - STALE_AFTER) then Stale
    else Pass
  }

  datatype Guard = Guard(last: int64, threat: int32)

  /** The guard after one packet, and whether it raised the block signal. */
  function Step(g: Guard, closed: bool, a: Arrival): (Guard, bool) {
    if Judge(g.last, a).Pass? then (Guard(a.sendTime, 0), false)
    else
      var threat := WrapI32(g.threat + 1);
      if threat > THREAT_COUNT_BEFORE_BLOCK && !closed then (g.(threat := THREAT_COUNT_BEFORE_BLOCK), true)
      else (g.(threat := threat), false)
  }

  /** The guard after a whole run of packets, processed one at a time. */
  function After(g: Guard, closed: bool, run: seq<Arrival>): Guard {
    if run == [] then g
    else Step(After(g, closed, run[..|run| - 1]), closed, run[|run| - 1]).0
  }

  /** Whether the i-th packet of a run passes. */
  predicate Passes(g: Guard, closed: bool, run: seq<Arrival>, i: nat)
    requires i < |run|
  {
    Judge(After(g, closed, run[..i]).last, run[i]).Pass?
  }

  /** The drops at the end of a run, back to the last packet that passed. */
  function Streak(g: Guard, closed: bool, run: seq<Arrival>): nat {
    if run == [] || Passes(g, closed, run, |run| - 1) then 0
    else 1 + Streak(g, closed, run[..|run| - 1])
  }

  predicate Spaced(last: int, sent: int) {
    last == sent || last >= sent + MINIMAL_RECV_INTERVAL
  }

  lemma JudgeKeepsSpacing(last: int64, a: Arrival, sent: int64)
    requires Spaced(last, sent) && sent <= I64_MAX - MINIMAL_RECV_INTERVAL
    requires !a.exempt && Judge(last, a).Pass?
    ensures a.sendTime >= sent + MINIMAL_RECV_INTERVAL
  {
  }

  /** Between two indices the exempt packets that pass do not set the stored time back behind the i-th packet's. */
  predicate NoRewind(g: Guard, closed: bool, run: seq<Arrival>, i: nat, j: nat)
    requires i < j <= |run|
  {
    forall k :: i < k < j && run[k].exempt && Passes(g, closed, run, k) ==> Spaced(run[k].sendTime, run[i].sendTime)
  }

  lemma PassesInPrefix(g: Guard, closed: bool, run: seq<Arrival>, n: nat, k: nat)
    requires k < n <= |run|
    ensures Passes(g, closed, run[..n], k) <==> Passes(g, closed, run, k)
  {
    assert run[..n][..k] == run[..k];
  }

  lemma NoRewindInPrefix(g: Guard, closed: bool, run: seq<Arrival>, i: nat, j: nat, n: nat)
    requires i < n <= j <= |run| && NoRewind(g, closed, run, i, j)
    ensures NoRewind(g, closed, run[..n], i, n)
  {
    hide Passes;
    forall k | i < k < n && run[..n][k].exempt && Passes(g, closed, run[..n], k)
      ensures Spaced(run[..n][k].sendTime, run[..n][i].sendTime)
    {
      PassesInPrefix(g, closed, run, n, k);
    }
  }

  /** Once a packet has passed, the stored time is its own or at least an interval later. */
  lemma {:induction false} LastAfterPass(g: Guard, closed: bool, run: seq<Arrival>, i: nat)
    requires i < |run| && Passes(g, closed, run, i)
    requires NoRewind(g, closed, run, i, |run|)
    requires run[i].sendTime <= I64_MAX - MINIMAL_RECV_INTERVAL
    ensures Spaced(After(g, closed, run).last, run[i].sendTime)
    decreases |run|
  {
    hide Judge;
    var n := |run| - 1;
    var before := run[..n];
    if i < n {
      PassesInPrefix(g, closed, run, n, i);
      NoRewindInPrefix(g, closed, run, i, |run|, n);
      LastAfterPass(g, closed, before, i);
      var last := After(g, closed, before).last;
      if Judge(last, run[n]).Pass? && !run[n].exempt {
        JudgeKeepsSpacing(last, run[n], run[i].sendTime);
      }
    }
  }

  /**
   Two packets that pass on one connection are at least 20 ms of sender time apart, the second one not exempt, if
   no exempt packet in between has set the stored time back; in particular no packet passes twice. The bound on the
   earlier time is exact: see PassesAgainIffNearOverflow.
   */
  lemma PassesAreSpaced(g: Guard, closed: bool, run: seq<Arrival>, i: nat, j: nat)
    requires i < j < |run| && Passes(g, closed, run, i) && Passes(g, closed, run, j)
    requires NoRewind(g, closed, run, i, j) && !run[j].exempt
    requires run[i].sendTime <= I64_MAX - MINIMAL_RECV_INTERVAL
    ensures run[j].sendTime >= run[i].sendTime + MINIMAL_RECV_INTERVAL
  {
    hide Judge, After;
    PassesInPrefix(g, closed, run, j, i);
    NoRewindInPrefix(g, closed, run, i, j, j);
    LastAfterPass(g, closed, run[..j], i);
    JudgeKeepsSpacing(After(g, closed, run[..j]).last, run[j], run[i].sendTime);
  }

  // ---- Exactly when a packet passes ----

  /** The last packet of a run that passed. */
  predicate LastPass(g: Guard, closed: bool, run: seq<Arrival>, p: nat) {
    p < |run| && Passes(g, closed, run, p) && forall k :: p < k < |run| ==> !Passes(g, closed, run, k)
  }

  /** The stored time is that of the last packet that passed, exempt or not. */
  lemma {:induction false} StoredTimeIsLastPass(g: Guard, closed: bool, run: seq<Arrival>, p: nat)
    requires LastPass(g, closed, run, p)
    ensures After(g, closed, run).last == run[p].sendTime
    decreases |run|
  {
    hide Judge;
    var n := |run| - 1;
    if p < n {
      assert !Passes(g, closed, run, n);
      forall k | p <= k < n ensures Passes(g, closed, run[..n], k) <==> Passes(g, closed, run, k) {
        PassesInPrefix(g, closed, run, n, k);
      }
      StoredTimeIsLastPass(g, closed, run[..n], p);
    }
  }

  /** An interval later; in the last 20 ms of int64 the flood check wraps around, and only replays are told apart. */
  function NextAllowed(sent: int64): int {
    if sent <= I64_MAX - 20_000_000 then sent + 20_000_000 else sent
  }

  /**
   The verdicts, for clocks after 1970: too old by ten minutes is stale, earlier than the last packet is a replay,
   and less than 20 ms after it is a flood; the last two are not asked of exempt packets, and asked first.
   */
  lemma VerdictsAre(last: int64, a: Arrival)
    requires a.now >= 0
    ensures var stale := a.sendTime as int < a.now as int - 600_000_000_000;
            var early := !a.exempt && a.sendTime as int < NextAllowed(last);
            && (Judge(last, a).Pass? <==> !stale && !early)
            && (Judge(last, a).Replay? <==> early && a.sendTime < last)
            && (Judge(last, a).Flood? <==> early && a.sendTime >= last)
            && (Judge(last, a).Stale? <==> stale && !early)
  {
  }

  /**
   After every run, a packet passes next if and only if it is at most ten minutes older than its arrival, and is exempt
   or was sent an interval after the last that passed.
   */
  lemma PassesNextIff(g: Guard, closed: bool, run: seq<Arrival>, p: nat, a: Arrival)
    requires LastPass(g, closed, run, p) && a.now >= 0
    ensures Passes(g, closed, run + [a], |run|)
       <==> a.sendTime as int >= a.now as int - 600_000_000_000 && (a.exempt || a.sendTime >= NextAllowed(run[p].sendTime))
  {
    hide After, Judge;
    StoredTimeIsLastPass(g, closed, run, p);
    VerdictsAre(run[p].sendTime, a);
    assert (run + [a])[..|run|] == run;
  }

  lemma {:induction false} NothingPassed(g: Guard, closed: bool, run: seq<Arrival>)
    requires forall k :: 0 <= k < |run| ==> !Passes(g, closed, run, k)
    ensures After(g, closed, run).last == g.last
    decreases |run|
  {
    hide Judge;
    if run != [] {
      var n := |run| - 1;
      assert !Passes(g, closed, run, n);
      forall k | 0 <= k < n ensures !Passes(g, closed, run[..n], k) {
        PassesInPrefix(g, closed, run, n, k);
      }
      NothingPassed(g, closed, run[..n]);
    }
  }

  /** The same before anything has passed, counted from the time the connection started with. */
  lemma FirstPassIff(g: Guard, closed: bool, run: seq<Arrival>, a: Arrival)
    requires (forall k :: 0 <= k < |run| ==> !Passes(g, closed, run, k)) && a.now >= 0
    ensures Passes(g, closed, run + [a], |run|)
       <==> a.sendTime as int >= a.now as int - 600_000_000_000 && (a.exempt || a.sendTime >= NextAllowed(g.last))
  {
    hide After, Judge;
    NothingPassed(g, closed, run);
    VerdictsAre(g.last, a);
    assert (run + [a])[..|run|] == run;
  }

  /** So over every run, no packet has ever passed, exempt or not, that was sent ten minutes before its arrival. */
  lemma PassesAreFresh(g: Guard, closed: bool, run: seq<Arrival>, i: nat)
    requires i < |run| && Passes(g, closed, run, i) && run[i].now >= 0
    ensures run[i].sendTime as int >= run[i].now as int - 600_000_000_000
  {
    hide After;
    VerdictsAre(After(g, closed, run[..i]).last, run[i]);
  }

  /**
   A packet that has passed, and arrives again, passes again if and only if it is not stale by then and the last packet
   to pass was sent an interval before it. Then some exempt packet has set the time back.
   */
  lemma ReplayPassesIff(g: Guard, closed: bool, run: seq<Arrival>, i: nat, p: nat, now: int64)
    requires i <= p && LastPass(g, closed, run, p) && Passes(g, closed, run, i) && now >= 0
    ensures Passes(g, closed, run + [Arrival(run[i].sendTime, now, false)], |run|)
       <==> run[i].sendTime as int >= now as int - 600_000_000_000 && run[i].sendTime >= NextAllowed(run[p].sendTime)
    ensures Passes(g, closed, run + [Arrival(run[i].sendTime, now, false)], |run|)
            && run[i].sendTime <= I64_MAX - MINIMAL_RECV_INTERVAL ==>
              exists k :: i < k <= p && run[k].exempt && Passes(g, closed, run, k) && !Spaced(run[k].sendTime, run[i].sendTime)
  {
    hide Passes;
    PassesNextIff(g, closed, run, p, Arrival(run[i].sendTime, now, false));
    StoredTimeIsLastPass(g, closed, run, p);
    if NoRewind(g, closed, run, i, |run|) && run[i].sendTime <= I64_MAX - MINIMAL_RECV_INTERVAL {
      LastAfterPass(g, closed, run, i);
    }
  }

  /** Sending the very same packet again passes exactly when the interval no longer fits in an int64. */
  lemma PassesAgainIffNearOverflow(g: Guard, closed: bool, a: Arrival)
    requires Judge(g.last, a).Pass? && !a.exempt
    ensures Judge(Step(g, closed, a).0.last, a).Pass? <==> a.sendTime > I64_MAX - MINIMAL_RECV_INTERVAL
  {
  }

  /** An exempt packet may set the stored time back, after which a packet that had passed passes again. */
  lemma ExemptPacketRewinds(now: int64, earlier: int64, newer: int64, closed: bool)
    requires STALE_AFTER <= now && now - STALE_AFTER <= earlier && MINIMAL_RECV_INTERVAL <= earlier
    requires earlier + MINIMAL_RECV_INTERVAL <= newer <= I64_MAX
    ensures var run := [Arrival(newer, now, false), Arrival(earlier, now, true), Arrival(newer, now, false)];
            Passes(Guard(0, 0), closed, run, 0) && Passes(Guard(0, 0), closed, run, 1) && Passes(Guard(0, 0), closed, run, 2)
  {
    var g, a, b := Guard(0, 0), Arrival(newer, now, false), Arrival(earlier, now, true);
    var run := [a, b, a];
    assert run[..0] == [] && run[..1] == [a] && run[..2] == [a, b];
    assert [a, b][..1] == [a] && [a][..0] == [];
    assert After(g, closed, [a]) == Guard(newer, 0);
    assert After(g, closed, [a, b]) == Guard(earlier, 0);
  }

  /**
   While the connection is open, the threat count at rest is 1 exactly during a streak of drops, and the
   block signal is raised at every drop of a streak but its first.
   */
  lemma {:induction false} ThreatIsStreak(last: int64, run: seq<Arrival>)
    ensures var g := Guard(last, 0);
            After(g, false, run).threat == (if Streak(g, false, run) == 0 then 0 else 1)
    ensures run != [] ==>
              var g, before := Guard(last, 0), run[..|run| - 1];
              Step(After(g, false, before), false, run[|run| - 1]).1
              <==> Streak(g, false, before) > 0 && !Passes(g, false, run, |run| - 1)
    decreases |run|
  {
    if run != [] {
      ThreatIsStreak(last, run[..|run| - 1]);
    }
  }

  /** Once the connection is closed nothing raises the block signal, and threats only add up. */
  lemma ClosedOnlyCounts(g: Guard, a: Arrival)
    ensures !Step(g, true, a).1
    ensures Step(g, true, a).0 == if Judge(g.last, a).Pass? then Guard(a.sendTime, 0) else Guard(g.last, WrapI32(g.threat + 1))
  {
    hide Judge;
  }

  // ---- Cookies ----

  datatype CookieStore = CookieStore(curr: bytes, prev: bytes, lastTime: int64)

  /** The difference of two times is one of int64. */
  predicate LongAfter(earlier: int64, later: int64) {
    WrapI64(later - earlier) > COOKIE_REGENERATE_TIME
  }

  predicate Rotates(s: CookieStore, now: int64) {
    LongAfter(s.lastTime, now)
  }

  /** generateCookie at time now; next is the cookie the KDF would derive there. */
  function Generate(s: CookieStore, now: int64, next: bytes): CookieStore {
    if Rotates(s, now) then CookieStore(next, s.curr, now) else s
  }

  function RoundTripEnd(s: CookieStore): int64 {
    WrapI64(s.lastTime + COOKIE_ROUND_TRIP_TIME)
  }

  /** The cookie that checkHMAC expects in a packet received at the given time. */
  function Expected(s: CookieStore, received: int64): bytes {
    if received < RoundTripEnd(s) then s.prev else s.curr
  }

  /** One knock under overload: the store may rotate, and the current cookie is sent back. */
  datatype Knock = Knock(now: int64, next: bytes)

  function StoreAfter(s: CookieStore, knocks: seq<Knock>): CookieStore {
    if knocks == [] then s
    else
      var k := knocks[|knocks| - 1];
      Generate(StoreAfter(s, knocks[..|knocks| - 1]), k.now, k.next)
  }

  /** All cookies the store has held, in order: the initial pair, then one for each rotation. */
  function Issued(s: CookieStore, knocks: seq<Knock>): (r: seq<bytes>)
    ensures |r| >= 2
  {
    if knocks == [] then [s.prev, s.curr]
    else
      var before, k := knocks[..|knocks| - 1], knocks[|knocks| - 1];
      Issued(s, before) + (if Rotates(StoreAfter(s, before), k.now) then [k.next] else [])
  }

  /** The moments of rotation. */
  function RotationTimes(s: CookieStore, knocks: seq<Knock>): seq<int64> {
    if knocks == [] then []
    else
      var before, k := knocks[..|knocks| - 1], knocks[|knocks| - 1];
      RotationTimes(s, before) + (if Rotates(StoreAfter(s, before), k.now) then [k.now] else [])
  }

  /** For clocks after 1970 the difference is the true one. */
  lemma LongAfterIsTwoMinutes(earlier: int64, later: int64)
    requires earlier >= 0 && later >= 0
    ensures LongAfter(earlier, later) <==> later as int - earlier as int > COOKIE_REGENERATE_TIME
  {
  }

  /** A knock makes a new cookie exactly if the last one is more than two minutes old, and keeps the one before. */
  lemma KnockRotatesIff(s: CookieStore, now: int64, next: bytes)
    requires now >= 0 && s.lastTime >= 0
    ensures Generate(s, now, next)
         == if now as int - s.lastTime as int > 120_000_000_000 then CookieStore(next, s.curr, now) else s
  {
  }

  /** Within 20 ms of the rotation the cookie before it is expected, and then the current one. */
  lemma ExpectedIs(s: CookieStore, received: int64)
    requires 0 <= s.lastTime <= I64_MAX - 20_000_000
    ensures Expected(s, received) == if received as int - s.lastTime as int < 20_000_000 then s.prev else s.curr
  {
  }

  /** Rotations are more than two minutes apart, whatever the knocks. */
  lemma {:induction false} RotationsAreRare(s: CookieStore, knocks: seq<Knock>)
    ensures var ts := RotationTimes(s, knocks);
            && (forall i :: 0 < i < |ts| ==> LongAfter(ts[i - 1], ts[i]))
            && StoreAfter(s, knocks).lastTime == if ts == [] then s.lastTime else ts[|ts| - 1]
    decreases |knocks|
  {
    hide LongAfter;
    if knocks != [] {
      RotationsAreRare(s, knocks[..|knocks| - 1]);
    }
  }

  lemma {:induction false} StoreHoldsLastTwo(s: CookieStore, knocks: seq<Knock>)
    ensures var all, store := Issued(s, knocks), StoreAfter(s, knocks);
            store.curr == all[|all| - 1] && store.prev == all[|all| - 2]
    decreases |knocks|
  {
    if knocks != [] {
      StoreHoldsLastTwo(s, knocks[..|knocks| - 1]);
    }
  }

  lemma {:induction false} IssuedGrows(s: CookieStore, knocks: seq<Knock>, n: nat)
    requires n <= |knocks|
    ensures Issued(s, knocks[..n]) <= Issued(s, knocks)
    decreases |knocks|
  {
    if n < |knocks| {
      var before := knocks[..|knocks| - 1];
      IssuedGrows(s, before, n);
      assert before[..n] == knocks[..n];
    } else {
      assert knocks[..n] == knocks;
    }
  }

  /** How often the store rotated after the first n knocks. */
  function RotationsSince(s: CookieStore, knocks: seq<Knock>, n: nat): int
    requires n <= |knocks|
  {
    |Issued(s, knocks)| - |Issued(s, knocks[..n])|
  }

  predicate StillWorks(s: CookieStore, knocks: seq<Knock>, n: nat, received: int64)
    requires n <= |knocks|
  {
    var early := received < RoundTripEnd(StoreAfter(s, knocks));
    RotationsSince(s, knocks, n) == if early then 1 else 0
  }

  /**
   A cookie handed out at the n-th knock is the expected one at a later time exactly if no rotation has
   happened since and the round trip after the last one is over, or if exactly one has happened and its
   round trip is still running. The "only" needs the cookies of different rotations to differ.
   */
  lemma HandedOutCookieExpected(s: CookieStore, knocks: seq<Knock>, n: nat, received: int64)
    requires 0 < n <= |knocks|
    ensures StillWorks(s, knocks, n, received) ==>
              Expected(StoreAfter(s, knocks), received) == StoreAfter(s, knocks[..n]).curr
    ensures (forall i, j :: 0 <= i < j < |Issued(s, knocks)| ==> Issued(s, knocks)[i] != Issued(s, knocks)[j]) ==>
              (Expected(StoreAfter(s, knocks), received) == StoreAfter(s, knocks[..n]).curr
               <==> StillWorks(s, knocks, n, received))
  {
    StoreHoldsLastTwo(s, knocks);
    StoreHoldsLastTwo(s, knocks[..n]);
    IssuedGrows(s, knocks, n);
    var all, k := Issued(s, knocks), |Issued(s, knocks[..n])| - 1;
    assert all[k] == StoreAfter(s, knocks[..n]).curr;
  }

  /** In particular a fresh cookie is of no use at once: within 20 ms of its rotation the one before is expected. */
  lemma FreshCookieIsEarly(s: CookieStore, k: Knock, received: int64)
    requires Rotates(s, k.now) && k.next != s.curr
    ensures var s' := Generate(s, k.now, k.next);
            s'.curr == k.next && (Expected(s', received) == s'.curr <==> received >= RoundTripEnd(s'))
  {
  }

  // ---- The connection object ----

  class ConnectionData {
    var lastRemoteSendTime: int64
    var recvThreatCount: int32
    var closed: bool
    var blockSignals: nat    // how often SendBlockSignal got past its closed check
    var cookieStore: CookieStore

    constructor ()
      ensures GuardView() == Guard(0, 0) && !closed && blockSignals == 0
      ensures cookieStore == CookieStore(Zeros(COOKIE_SIZE), Zeros(COOKIE_SIZE), 0)
    {
      lastRemoteSendTime, recvThreatCount, closed, blockSignals := 0, 0, false, 0;
      cookieStore := CookieStore(Zeros(COOKIE_SIZE), Zeros(COOKIE_SIZE), 0);
    }

    function GuardView(): Guard
      reads this
    {
      Guard(lastRemoteSendTime, recvThreatCount)
    }

    method SendBlockSignal()
      modifies this`blockSignals
      ensures blockSignals == old(blockSignals) + (if closed then 0 else 1)
    {
      if closed { return; }
      blockSignals := blockSignals + 1;
    }

    /** Threat plus one; past the limit the count is clamped and the source address is blocked. */
    method CountThreat()
      modifies this`recvThreatCount, this`blockSignals
      ensures var t := WrapI32(old(recvThreatCount) + 1);
              var block := t > THREAT_COUNT_BEFORE_BLOCK && !closed;
              && recvThreatCount == (if block then THREAT_COUNT_BEFORE_BLOCK else t)
              && blockSignals == old(blockSignals) + (if block then 1 else 0)
    {
      recvThreatCount := WrapI32(recvThreatCount + 1);
      if recvThreatCount > THREAT_COUNT_BEFORE_BLOCK && !closed {
        recvThreatCount := THREAT_COUNT_BEFORE_BLOCK;
        SendBlockSignal();
      }
    }

    /** The checks of validatePeer once the sender's time is known. */
    method CheckSendTime(a: Arrival) returns (verdict: Verdict)
      modifies this`lastRemoteSendTime, this`recvThreatCount, this`blockSignals
      ensures verdict == Judge(old(lastRemoteSendTime), a)
      ensures GuardView() == Step(old(GuardView()), closed, a).0
      ensures blockSignals == old(blockSignals) + (if Step(old(GuardView()), closed, a).1 then 1 else 0)
    {
      if !a.exempt {
        if a.sendTime < lastRemoteSendTime {
          CountThreat();
          return Replay;
        }
        if a.sendTime < WrapI64(lastRemoteSendTime + MINIMAL_RECV_INTERVAL) {
          CountThreat();
          return Flood;
        }
      }
      if a.sendTime < WrapI64(a.now - STALE_AFTER) {
        CountThreat();
        return Stale;
      }
      lastRemoteSendTime := a.sendTime;
      recvThreatCount := 0;
      return Pass;
    }

    method GenerateCookie(now: int64, next: bytes)
      modifies this`cookieStore
      ensures cookieStore == Generate(old(cookieStore), now, next)
    {
      if WrapI64(now - cookieStore.lastTime) > COOKIE_REGENERATE_TIME {
        cookieStore := cookieStore.(prev := cookieStore.curr);
        cookieStore := cookieStore.(curr := next, lastTime := now);
      }
    }

    /** HandleCookieMessage on the agent: the received bytes overwrite the front of the stored cookie. */
    method StoreCookie(cookie: bytes)
      requires |cookieStore.curr| == COOKIE_SIZE
      modifies this`cookieStore
      ensures cookieStore == old(cookieStore).(curr := cookieStore.curr) && |cookieStore.curr| == COOKIE_SIZE
      ensures |cookie| == COOKIE_SIZE ==> cookieStore.curr == cookie
    {
      var n := if |cookie| < COOKIE_SIZE then |cookie| else COOKIE_SIZE;
      cookieStore := cookieStore.(curr := cookie[..n] + cookieStore.curr[n..]);
    }
  }

  // ---- The agent's knock ----

  datatype Request = KNK | RKN

  datatype Reply = Ack | CookieRequired | OtherError

  /**
   endpoints/agent/knock.go: replies(i) is the outcome of the i-th request. However often the server asks for a
   cookie, there are at most two requests; the second one carries the cookie, and is only sent when asked for.
   */
  method SendKnock(replies: nat -> Reply) returns (sent: seq<Request>, result: Reply)
    ensures 1 <= |sent| <= 2
    ensures forall i :: 0 <= i < |sent| ==> (sent[i].RKN? <==> i > 0 && replies(i - 1).CookieRequired?)
    ensures forall i :: 0 <= i < |sent| ==> (sent[i].KNK? <==> i == 0)
    ensures result == replies(|sent| - 1)
    ensures result.CookieRequired? ==> |sent| == 2
  {
    sent, result := [KNK], replies(0);
    if result.CookieRequired? {
      sent, result := sent + [RKN], replies(1);
    }
  }
}
