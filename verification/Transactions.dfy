/**
 Local transactions, nhp/core/transaction.go and nhp/core/device.go: a request waits for a reply packet, a
 cookie message, a timeout, or the end of its connection or device, and these race with each other.
 */
module Transactions {
  import opened Bytes

  /**
   Where a request is. Added: in the map, but its Run has not started. Leaving, Closed and Reporting are the
   parts of the deferred function of Run: before its channels are closed, before its entry leaves the map, and
   before an error is reported; failed says whether there is one.
   */
  datatype Phase =
    | Queued | Added | Running | Leaving(failed: bool) | Closed(failed: bool) | Reporting(failed: bool) | Finished

  /**
   sent counts the messages put on the request's ResponseMsgCh. replyQueued is a reply packet on its way to
   decryption. lost marks a request whose answer was given up.
   */
  datatype Request = Request(trxId: uint64, expectsReply: bool, phase: Phase, replyQueued: bool, sent: nat, lost: bool)

  datatype Parcel = Packet | Cookie

  /** A routine between its lookup of a transaction, under the lock, and its send to the transaction, without it. */
  datatype Sender = Sender(r: nat, parcel: Parcel)

  /** table is localTransactionMap; crashed is the panic of a send on a closed channel, which ends the process. */
  datatype System = System(
    requests: map<nat, Request>, table: map<uint64, nat>, senders: map<nat, Sender>, crashed: bool)

  datatype Step =
    | Submit(r: nat, trxId: uint64, expectsReply: bool, queueFull: bool)
    | EncryptionFails(r: nat)
    | EncryptionSucceeds(r: nat)
    | Starts(r: nat)
    | Find(k: nat, id: uint64, parcel: Parcel)
    | Deliver(k: nat, queueFull: bool)
    | WaitFails(r: nat)            // timeout, closed connection, stopped device
    | CloseChannels(r: nat)
    | LeaveTable(r: nat)
    | Report(r: nat)
    | DecryptReply(r: nat)         // succeeds or fails: either way one message
    | Abandon(r: nat)              // the device has stopped: its queues are not read any more

  const Start: System := System(map[], map[], map[], false)

  predicate In(s: System, r: nat, p: Phase) {
    r in s.requests && s.requests[r].phase == p
  }

  predicate ChannelsClosed(p: Phase) {
    p.Closed? || p.Reporting? || p.Finished?
  }

  /** The transaction does not receive any more. */
  predicate HasLeft(p: Phase) {
    p.Leaving? || ChannelsClosed(p)
  }

  /**
   The channels are not buffered: a send goes through when Run receives it, and panics once they are closed.
   The cookie channel is made by Run: a send before that is one on a nil channel.
   */
  predicate CanSend(p: Phase, parcel: Parcel) {
    p.Running? || ChannelsClosed(p) || (p.Added? && parcel.Cookie?)
  }

  predicate Enabled(s: System, step: Step) {
    && !s.crashed
    && match step
       case Submit(r, _, _, _) => r !in s.requests
       case EncryptionFails(r) => In(s, r, Queued)
       case EncryptionSucceeds(r) => In(s, r, Queued)
       case Starts(r) => In(s, r, Added)
       case Find(k, _, _) => k !in s.senders
       case Deliver(k, _) =>
         && k in s.senders && s.senders[k].r in s.requests
         && CanSend(s.requests[s.senders[k].r].phase, s.senders[k].parcel)
       case WaitFails(r) => In(s, r, Running)
       case CloseChannels(r) => r in s.requests && s.requests[r].phase.Leaving?
       case LeaveTable(r) => r in s.requests && s.requests[r].phase.Closed?
       case Report(r) => r in s.requests && s.requests[r].phase.Reporting?
       case DecryptReply(r) => r in s.requests && s.requests[r].replyQueued
       case Abandon(r) => r in s.requests && (s.requests[r].phase.Queued? || s.requests[r].replyQueued)
  }

  function Update(s: System, r: nat, q: Request): System {
    s.(requests := s.requests[r := q])
  }

  /** What a running transaction makes of a parcel; queueFull says that packetToMsgQueue drops the reply. */
  function Receive(q: Request, parcel: Parcel, queueFull: bool): Request {
    match parcel
    case Packet => q.(phase := Leaving(false), replyQueued := !queueFull, lost := queueFull)
    case Cookie => q.(phase := Leaving(false), sent := q.sent + 1)
  }

  function Next(s: System, step: Step): System
    requires Enabled(s, step)
  {
    match step
    case Submit(r, trxId, expectsReply, queueFull) =>
      Update(s, r, Request(trxId, expectsReply, if queueFull then Finished else Queued, false, 0, queueFull))
    case EncryptionFails(r) =>
      Update(s, r, s.requests[r].(phase := Finished, sent := s.requests[r].sent + 1))
    case EncryptionSucceeds(r) =>
      var q := s.requests[r];
      if q.expectsReply then Update(s, r, q.(phase := Added)).(table := s.table[q.trxId := r])
      else Update(s, r, q.(phase := Finished, lost := true))
    case Starts(r) => Update(s, r, s.requests[r].(phase := Running))
    case Find(k, id, parcel) =>
      if id in s.table then s.(senders := s.senders[k := Sender(s.table[id], parcel)]) else s
    case Deliver(k, queueFull) =>
      var q := s.requests[s.senders[k].r];
      var gone := s.(senders := s.senders - {k});
      if q.phase.Running? then Update(gone, s.senders[k].r, Receive(q, s.senders[k].parcel, queueFull))
      else if q.phase.Added? then gone    // it hangs for ever
      else s.(crashed := true)
    case WaitFails(r) => Update(s, r, s.requests[r].(phase := Leaving(true)))
    case CloseChannels(r) => Update(s, r, s.requests[r].(phase := Closed(s.requests[r].phase.failed)))
    case LeaveTable(r) =>
      var q := s.requests[r];
      Update(s, r, q.(phase := Reporting(q.phase.failed))).(table := s.table - {q.trxId})
    case Report(r) =>
      var q := s.requests[r];
      Update(s, r, q.(phase := Finished, sent := q.sent + if q.phase.failed then 1 else 0))
    case DecryptReply(r) =>
      Update(s, r, s.requests[r].(replyQueued := false, sent := s.requests[r].sent + 1))
    case Abandon(r) =>
      var q := s.requests[r];
      Update(s, r, q.(phase := if q.phase.Queued? then Finished else q.phase, replyQueued := false, lost := true))
  }

  /** The system before the n-th step of a run; a step that is not enabled does not happen. */
  function StateAt(steps: seq<Step>, n: nat): System
    requires n <= |steps|
  {
    if n == 0 then Start
    else
      var s := StateAt(steps, n - 1);
      if Enabled(s, steps[n - 1]) then Next(s, steps[n - 1]) else s
  }

  lemma RunStarts(steps: seq<Step>)
    ensures StateAt(steps, 0) == Start
  {
  }

  lemma StepAt(steps: seq<Step>, n: nat, after: System)
    requires n < |steps| && Enabled(StateAt(steps, n), steps[n]) && Next(StateAt(steps, n), steps[n]) == after
    ensures StateAt(steps, n + 1) == after
  {
  }

  lemma {:induction false} SamePrefix(a: seq<Step>, b: seq<Step>, n: nat)
    requires n <= |a| && a <= b
    ensures StateAt(a, n) == StateAt(b, n)
  {
    hide Enabled, Next;
    if n > 0 {
      SamePrefix(a, b, n - 1);
    }
  }

  lemma OneMore(steps: seq<Step>, step: Step)
    requires Enabled(StateAt(steps, |steps|), step)
    ensures StateAt(steps + [step], |steps| + 1) == Next(StateAt(steps, |steps|), step)
  {
    hide Enabled, Next;
    SamePrefix(steps, steps + [step], |steps|);
  }

  // ---- Conservation ----

  /** The messages that a request is still owed. */
  function Owed(q: Request): nat {
    (match q.phase
     case Queued => 1
     case Added => 1
     case Running => 1
     case Leaving(failed) => if failed then 1 else 0
     case Closed(failed) => if failed then 1 else 0
     case Reporting(failed) => if failed then 1 else 0
     case Finished => 0)
    + (if q.replyQueued then 1 else 0)
  }

  /** Every request is answered once, owed one answer, or its answer was given up. */
  predicate Balanced(q: Request) {
    q.sent + Owed(q) + (if q.lost then 1 else 0) == 1
  }

  predicate InTable(p: Phase) {
    p.Added? || p.Running? || p.Leaving? || p.Closed?
  }

  predicate EntryHolds(s: System, id: uint64, r: nat) {
    r in s.requests && s.requests[r].trxId == id && InTable(s.requests[r].phase)
  }

  /** A routine only ever holds a transaction that has been in the map. */
  predicate SenderHolds(s: System, r: nat) {
    r in s.requests && (InTable(s.requests[r].phase) || HasLeft(s.requests[r].phase))
  }

  ghost predicate Invariant(s: System) {
    && (forall r :: r in s.requests ==> Balanced(s.requests[r]))
    && (forall id :: id in s.table ==> EntryHolds(s, id, s.table[id]))
    && (forall k :: k in s.senders ==> SenderHolds(s, s.senders[k].r))
  }

  lemma NextKeepsBalance(s: System, step: Step, r: nat)
    requires Invariant(s) && Enabled(s, step) && r in Next(s, step).requests
    ensures Balanced(Next(s, step).requests[r])
  {
    hide EntryHolds, SenderHolds, InTable;
    if r in s.requests {
      assert Balanced(s.requests[r]);
    }
  }

  lemma NextKeepsTable(s: System, step: Step, id: uint64)
    requires Invariant(s) && Enabled(s, step) && id in Next(s, step).table
    ensures EntryHolds(Next(s, step), id, Next(s, step).table[id])
  {
    hide Balanced, SenderHolds;
  }

  lemma NextKeepsSenders(s: System, step: Step, k: nat)
    requires Invariant(s) && Enabled(s, step) && k in Next(s, step).senders
    ensures SenderHolds(Next(s, step), Next(s, step).senders[k].r)
  {
    hide Balanced;
  }

  lemma NextKeepsInvariant(s: System, step: Step)
    requires Invariant(s) && Enabled(s, step)
    ensures Invariant(Next(s, step))
  {
    hide Next, Enabled, Balanced, EntryHolds, SenderHolds;
    var s' := Next(s, step);
    forall r | r in s'.requests ensures Balanced(s'.requests[r]) {
      NextKeepsBalance(s, step, r);
    }
    forall id | id in s'.table ensures EntryHolds(s', id, s'.table[id]) {
      NextKeepsTable(s, step, id);
    }
    forall k | k in s'.senders ensures SenderHolds(s', s'.senders[k].r) {
      NextKeepsSenders(s, step, k);
    }
  }

  lemma StartHolds()
    ensures Invariant(Start)
  {
  }

  lemma {:induction false} InvariantHolds(steps: seq<Step>, n: nat)
    requires n <= |steps|
    ensures Invariant(StateAt(steps, n))
  {
    hide Invariant, Enabled, Next;
    if n == 0 {
      StartHolds();
    } else {
      InvariantHolds(steps, n - 1);
      if Enabled(StateAt(steps, n - 1), steps[n - 1]) {
        NextKeepsInvariant(StateAt(steps, n - 1), steps[n - 1]);
      }
    }
  }

  // ---- Exactly one answer ----

  /**
   The ways in which a step can lose the answer to a request: one of the two queues is full, the device has
   stopped reading them, or the request is of a type that expects no reply.
   */
  predicate GivesUp(s: System, step: Step, r: nat) {
    && Enabled(s, step)
    && match step
       case Submit(q, _, _, queueFull) => q == r && queueFull
       case EncryptionSucceeds(q) => q == r && !s.requests[r].expectsReply
       case Deliver(k, queueFull) =>
         s.senders[k] == Sender(r, Packet) && s.requests[r].phase.Running? && queueFull
       case Abandon(q) => q == r
       case _ => false
  }

  ghost predicate GivenUp(steps: seq<Step>, n: nat, r: nat)
    requires n <= |steps|
  {
    exists m :: 0 <= m < n && GivesUp(StateAt(steps, m), steps[m], r)
  }

  lemma NextLoses(s: System, step: Step, r: nat)
    requires Invariant(s) && Enabled(s, step) && r in Next(s, step).requests
    ensures Next(s, step).requests[r].lost <==> (r in s.requests && s.requests[r].lost) || GivesUp(s, step, r)
  {
    hide EntryHolds, SenderHolds;
    if r in s.requests {
      assert Balanced(s.requests[r]);
    }
  }

  lemma NotYetGivenUp(s: System, step: Step, r: nat)
    requires Enabled(s, step) && r !in Next(s, step).requests
    ensures r !in s.requests && !GivesUp(s, step, r)
  {
  }

  /** A request's answer is lost exactly if some step of the run gave it up. */
  lemma {:induction false} LostIffGivenUp(steps: seq<Step>, n: nat, r: nat)
    requires n <= |steps|
    ensures r in StateAt(steps, n).requests ==> (StateAt(steps, n).requests[r].lost <==> GivenUp(steps, n, r))
    ensures r !in StateAt(steps, n).requests ==> !GivenUp(steps, n, r)
  {
    hide Enabled, Next, GivesUp, Invariant;
    if n > 0 {
      LostIffGivenUp(steps, n - 1, r);
      var s, step := StateAt(steps, n - 1), steps[n - 1];
      InvariantHolds(steps, n - 1);
      assert GivenUp(steps, n, r) <==> GivenUp(steps, n - 1, r) || GivesUp(s, step, r);
      if !Enabled(s, step) {
        OnlyEnabledGivesUp(s, step, r);
      } else if r in Next(s, step).requests {
        NextLoses(s, step, r);
      } else {
        NotYetGivenUp(s, step, r);
      }
    }
  }

  lemma OnlyEnabledGivesUp(s: System, step: Step, r: nat)
    requires !Enabled(s, step)
    ensures !GivesUp(s, step, r)
  {
  }

  /**
   Over every interleaving, a request gets at most one message; once it is finished and nothing of it is
   queued, it has got exactly one if and only if no step of the run gave its answer up; and it is no longer
   in the table.
   */
  lemma AnsweredAtMostOnce(steps: seq<Step>, n: nat, r: nat)
    requires n <= |steps| && r in StateAt(steps, n).requests
    ensures var q := StateAt(steps, n).requests[r];
            && q.sent <= 1
            && (q.phase.Finished? && !q.replyQueued ==> (q.sent == 1 <==> !GivenUp(steps, n, r)))
            && (q.phase.Finished? ==> r !in StateAt(steps, n).table.Values)
  {
    hide Enabled, Next, GivenUp;
    InvariantHolds(steps, n);
    LostIffGivenUp(steps, n, r);
    assert Balanced(StateAt(steps, n).requests[r]);
    forall id | id in StateAt(steps, n).table ensures EntryHolds(StateAt(steps, n), id, StateAt(steps, n).table[id]) {
    }
  }

  // ---- The end of a request ----

  /** What is left to happen to a request: every step that touches it takes some of it away. */
  function Work(q: Request): nat {
    (match q.phase
     case Queued => 7
     case Added => 6
     case Running => 5
     case Leaving(_) => 3
     case Closed(_) => 2
     case Reporting(_) => 1
     case Finished => 0)
    + (if q.replyQueued then 1 else 0)
  }

  lemma StepsUseUpWork(s: System, step: Step, r: nat)
    requires Invariant(s) && Enabled(s, step) && r in s.requests
    ensures r in Next(s, step).requests
    ensures Next(s, step).requests[r] == s.requests[r] || Work(Next(s, step).requests[r]) < Work(s.requests[r])
  {
    hide EntryHolds, SenderHolds;
    assert Balanced(s.requests[r]);
  }

  /** As long as there is work left some step can take it on, whatever the other requests and routines do. */
  lemma WorkCanGoOn(s: System, r: nat) returns (step: Step)
    requires !s.crashed && r in s.requests && Work(s.requests[r]) > 0
    ensures Enabled(s, step) && Next(s, step).requests[r] != s.requests[r]
  {
    var q := s.requests[r];
    match q.phase {
      case Queued => step := EncryptionFails(r);
      case Added => step := Starts(r);
      case Running => step := WaitFails(r);
      case Leaving(_) => step := CloseChannels(r);
      case Closed(_) => step := LeaveTable(r);
      case Reporting(_) => step := Report(r);
      case Finished => step := DecryptReply(r);
    }
  }

  // ---- Sends on closed channels ----

  /** A routine has looked a transaction up that stopped receiving before the routine's send went through. */
  predicate LeftBehind(s: System, k: nat) {
    k in s.senders && s.senders[k].r in s.requests && HasLeft(s.requests[s.senders[k].r].phase)
  }

  lemma NextKeepsLeftBehind(s: System, step: Step, k: nat)
    requires Invariant(s) && Enabled(s, step) && LeftBehind(s, k)
    ensures Next(s, step).crashed || LeftBehind(Next(s, step), k)
  {
    hide EntryHolds;
    assert SenderHolds(s, s.senders[k].r);
    assert Balanced(s.requests[s.senders[k].r]);
  }

  /** Such a routine cannot get away: it is still there in every later state before the crash. */
  lemma {:induction false} LeftBehindStays(steps: seq<Step>, m: nat, n: nat, k: nat)
    requires m <= n <= |steps| && LeftBehind(StateAt(steps, m), k)
    ensures StateAt(steps, n).crashed || LeftBehind(StateAt(steps, n), k)
    decreases n - m
  {
    hide Invariant, Enabled, Next, LeftBehind;
    if m < n {
      LeftBehindStays(steps, m, n - 1, k);
      InvariantHolds(steps, n - 1);
      var s := StateAt(steps, n - 1);
      if Enabled(s, steps[n - 1]) {
        NotCrashed(s, steps[n - 1]);
        NextKeepsLeftBehind(s, steps[n - 1], k);
      }
    }
  }

  lemma NotCrashed(s: System, step: Step)
    requires Enabled(s, step)
    ensures !s.crashed
  {
  }

  /** A step crashes exactly if it is the send of a routine that was left behind. */
  lemma StepCrashesIff(s: System, step: Step)
    requires Enabled(s, step)
    ensures Next(s, step).crashed <==> step.Deliver? && LeftBehind(s, step.k)
  {
  }

  lemma {:induction false} CrashedHadLeftBehind(steps: seq<Step>, n: nat) returns (m: nat, k: nat)
    requires n <= |steps| && StateAt(steps, n).crashed
    ensures m < n && LeftBehind(StateAt(steps, m), k)
  {
    hide Enabled, Next, LeftBehind;
    var s := StateAt(steps, n - 1);
    if s.crashed {
      m, k := CrashedHadLeftBehind(steps, n - 1);
    } else {
      StepCrashesIff(s, steps[n - 1]);
      m, k := n - 1, steps[n - 1].k;
    }
  }

  /** Nothing is left to happen, unless somebody submits a new request or looks a transaction up. */
  ghost predicate Over(s: System) {
    forall step :: Enabled(s, step) ==> step.Submit? || step.Find?
  }

  /** A run that is over has left no request and no routine waiting, or it has crashed. */
  lemma OverMeansDone(s: System)
    requires Invariant(s) && Over(s) && !s.crashed
    ensures forall r :: r in s.requests ==> s.requests[r].phase.Finished? && !s.requests[r].replyQueued
    ensures s.senders == map[]
  {
    forall r | r in s.requests ensures s.requests[r].phase.Finished? && !s.requests[r].replyQueued {
      if Work(s.requests[r]) > 0 {
        var step := WorkCanGoOn(s, r);
      }
    }
    forall k | k in s.senders ensures false {
      assert SenderHolds(s, s.senders[k].r);
      assert Enabled(s, Deliver(k, false));
    }
  }

  /**
   Over every run that has come to an end, the process has crashed if and only if at some time a routine had
   looked a transaction up and the transaction left its wait before the routine's send went through.
   */
  lemma CrashIffLeftBehind(steps: seq<Step>)
    requires Over(StateAt(steps, |steps|))
    ensures StateAt(steps, |steps|).crashed
       <==> exists m, k :: 0 <= m <= |steps| && LeftBehind(StateAt(steps, m), k)
  {
    hide Enabled, Next, LeftBehind, Over, Invariant;
    var s := StateAt(steps, |steps|);
    if s.crashed {
      var m, k := CrashedHadLeftBehind(steps, |steps|);
    } else if m, k :| 0 <= m <= |steps| && LeftBehind(StateAt(steps, m), k) {
      LeftBehindStays(steps, m, |steps|, k);
      InvariantHolds(steps, |steps|);
      OverMeansDone(s);
      HoldsSender(s, k);
    }
  }

  lemma HoldsSender(s: System, k: nat)
    requires LeftBehind(s, k)
    ensures k in s.senders
  {
  }

  /** A new request that comes to wait. */
  lemma Waiting(steps: seq<Step>, n: nat, r: nat, id: uint64)
    requires n + 3 <= |steps| && steps[n] == Submit(r, id, true, false)
    requires steps[n + 1] == EncryptionSucceeds(r) && steps[n + 2] == Starts(r)
    requires var s := StateAt(steps, n); !s.crashed && r !in s.requests
    ensures var s := StateAt(steps, n);
            StateAt(steps, n + 3)
            == s.(requests := s.requests[r := Request(id, true, Running, false, 0, false)], table := s.table[id := r])
  {
    hide StateAt;
    var s, q := StateAt(steps, n), Request(id, true, Queued, false, 0, false);
    StepAt(steps, n, Update(s, r, q));
    StepAt(steps, n + 1, Update(s, r, q.(phase := Added)).(table := s.table[id := r]));
    StepAt(steps, n + 2, Update(s, r, q.(phase := Running)).(table := s.table[id := r]));
  }

  lemma LooksUp(steps: seq<Step>, n: nat, k: nat, id: uint64)
    requires n < |steps| && steps[n] == Find(k, id, Packet)
    requires var s := StateAt(steps, n); !s.crashed && k !in s.senders && id in s.table
    ensures var s := StateAt(steps, n);
            StateAt(steps, n + 1) == s.(senders := s.senders[k := Sender(s.table[id], Packet)])
  {
  }

  lemma TimesOut(steps: seq<Step>, n: nat, r: nat)
    requires n + 3 <= |steps| && steps[n] == WaitFails(r)
    requires steps[n + 1] == CloseChannels(r) && steps[n + 2] == LeaveTable(r)
    requires !StateAt(steps, n).crashed && In(StateAt(steps, n), r, Running)
    ensures var s := StateAt(steps, n);
            StateAt(steps, n + 3) == s.(requests := s.requests[r := s.requests[r].(phase := Reporting(true))],
                                        table := s.table - {s.requests[r].trxId})
  {
    hide StateAt;
    var s := StateAt(steps, n);
    var q := s.requests[r];
    StepAt(steps, n, Update(s, r, q.(phase := Leaving(true))));
    StepAt(steps, n + 1, Update(s, r, q.(phase := Closed(true))));
    StepAt(steps, n + 2, Update(s, r, q.(phase := Reporting(true))).(table := s.table - {q.trxId}));
  }

  lemma Sends(steps: seq<Step>, n: nat, k: nat)
    requires n < |steps| && steps[n] == Deliver(k, false)
    requires var s := StateAt(steps, n);
             && !s.crashed && k in s.senders && s.senders[k].r in s.requests
             && ChannelsClosed(s.requests[s.senders[k].r].phase)
    ensures StateAt(steps, n + 1).crashed
  {
  }

  /** The shortest such run: a reply is looked up, the wait times out, and then the reply is sent on. */
  function LateReply(id: uint64): seq<Step> {
    [Submit(0, id, true, false), EncryptionSucceeds(0), Starts(0), Find(0, id, Packet),
     WaitFails(0), CloseChannels(0), LeaveTable(0), Deliver(0, false)]
  }

  lemma LateReplyCrashes(id: uint64)
    ensures StateAt(LateReply(id), 8).crashed
  {
    hide Next, Enabled, StateAt;
    var steps := LateReply(id);
    assert steps[0] == Submit(0, id, true, false) && steps[1] == EncryptionSucceeds(0) && steps[2] == Starts(0);
    assert steps[3] == Find(0, id, Packet) && steps[7] == Deliver(0, false);
    assert steps[4] == WaitFails(0) && steps[5] == CloseChannels(0) && steps[6] == LeaveTable(0);
    hide LateReply;
    RunStarts(steps);
    Waiting(steps, 0, 0, id);
    LooksUp(steps, 3, 0, id);
    TimesOut(steps, 4, 0);
    Sends(steps, 7, 0);
  }

  // ---- Finding the transaction of a reply ----

  /** A lookup of the request's id finds this very request. */
  predicate Findable(s: System, r: nat)
    requires r in s.requests
  {
    s.requests[r].trxId in s.table && s.table[s.requests[r].trxId] == r
  }

  /** The step puts another request in the place of one that is in the map, or removes it as its own. */
  predicate Displaces(s: System, step: Step, r: nat) {
    && Enabled(s, step) && r in s.requests && InTable(s.requests[r].phase)
    && match step
       case EncryptionSucceeds(q) => q != r && s.requests[q].expectsReply && s.requests[q].trxId == s.requests[r].trxId
       case LeaveTable(q) => q != r && s.requests[q].trxId == s.requests[r].trxId
       case _ => false
  }

  ghost predicate Displaced(steps: seq<Step>, n: nat, r: nat)
    requires n <= |steps|
  {
    exists m :: 0 <= m < n && Displaces(StateAt(steps, m), steps[m], r)
  }

  predicate NotInTableYet(s: System, r: nat) {
    r !in s.requests || s.requests[r].phase.Queued?
  }

  lemma NextFindable(s: System, step: Step, r: nat)
    requires Invariant(s) && Enabled(s, step) && r in s.requests && InTable(s.requests[r].phase)
    requires r in Next(s, step).requests && InTable(Next(s, step).requests[r].phase)
    ensures Findable(Next(s, step), r) <==> Findable(s, r) && !Displaces(s, step, r)
  {
    hide Balanced, SenderHolds, EntryHolds;
  }

  lemma EntersFindable(s: System, step: Step, r: nat)
    requires Enabled(s, step) && r in Next(s, step).requests && InTable(Next(s, step).requests[r].phase)
    ensures r in s.requests && (InTable(s.requests[r].phase) || (NotInTableYet(s, r) && Findable(Next(s, step), r)))
  {
  }

  lemma NotYetStays(s: System, step: Step, r: nat)
    requires Enabled(s, step) && NotInTableYet(Next(s, step), r)
    ensures NotInTableYet(s, r)
  {
  }

  lemma NotYetIsNotDisplaced(s: System, step: Step, r: nat)
    requires NotInTableYet(s, r)
    ensures !Displaces(s, step, r)
  {
  }

  lemma {:induction false} NothingDisplacesYet(steps: seq<Step>, n: nat, r: nat)
    requires n <= |steps| && NotInTableYet(StateAt(steps, n), r)
    ensures !Displaced(steps, n, r)
  {
    hide Enabled, Next, Displaces, NotInTableYet;
    if n > 0 {
      var s, step := StateAt(steps, n - 1), steps[n - 1];
      if Enabled(s, step) {
        NotYetStays(s, step, r);
      }
      NotYetIsNotDisplaced(s, step, r);
      NothingDisplacesYet(steps, n - 1, r);
    }
  }

  /** Only a step that happens displaces. */
  lemma DisplacesIsEnabled(s: System, step: Step, r: nat)
    requires !Enabled(s, step)
    ensures !Displaces(s, step, r)
  {
  }

  /**
   Over every run: a request that is in the map's care can be found by its reply if and only if no other request
   with its id has entered the map, or has left it, since it entered itself.
   */
  lemma {:induction false} FindableIffNotDisplaced(steps: seq<Step>, n: nat, r: nat)
    requires n <= |steps| && r in StateAt(steps, n).requests && InTable(StateAt(steps, n).requests[r].phase)
    ensures Findable(StateAt(steps, n), r) <==> !Displaced(steps, n, r)
  {
    hide Enabled, Next, Displaces, Findable, Invariant, NotInTableYet;
    var s, step := StateAt(steps, n - 1), steps[n - 1];
    assert Displaced(steps, n, r) <==> Displaced(steps, n - 1, r) || Displaces(s, step, r);
    if !Enabled(s, step) {
      FindableIffNotDisplaced(steps, n - 1, r);
      DisplacesIsEnabled(s, step, r);
    } else {
      EntersFindable(s, step, r);
      if InTable(s.requests[r].phase) {
        FindableIffNotDisplaced(steps, n - 1, r);
        InvariantHolds(steps, n - 1);
        NextFindable(s, step, r);
      } else {
        NothingDisplacesYet(steps, n - 1, r);
        NotYetIsNotDisplaced(s, step, r);
      }
    }
  }

  lemma NextKeepsId(s: System, step: Step, r: nat)
    requires Enabled(s, step) && r in s.requests
    ensures r in Next(s, step).requests && Next(s, step).requests[r].trxId == s.requests[r].trxId
  {
  }

  lemma {:induction false} IdStays(steps: seq<Step>, m: nat, n: nat, r: nat)
    requires m <= n <= |steps| && r in StateAt(steps, m).requests
    ensures r in StateAt(steps, n).requests && StateAt(steps, n).requests[r].trxId == StateAt(steps, m).requests[r].trxId
    decreases n - m
  {
    hide Enabled, Next;
    if m < n {
      IdStays(steps, m, n - 1, r);
      if Enabled(StateAt(steps, n - 1), steps[n - 1]) {
        NextKeepsId(StateAt(steps, n - 1), steps[n - 1], r);
      }
    }
  }

  /** No other request carries the same transaction id. */
  ghost predicate OwnId(s: System, r: nat)
    requires r in s.requests
  {
    forall q :: q in s.requests && q != r ==> s.requests[q].trxId != s.requests[r].trxId
  }

  lemma DisplacerSharesId(s: System, step: Step, r: nat) returns (q: nat)
    requires Displaces(s, step, r)
    ensures r in s.requests && q in s.requests && q != r && s.requests[q].trxId == s.requests[r].trxId
  {
    q := step.r;
  }

  /** In particular a reply finds every request in the map's care whose id is its own. */
  lemma RepliesFindTheirRequest(steps: seq<Step>, n: nat, r: nat)
    requires n <= |steps| && r in StateAt(steps, n).requests && InTable(StateAt(steps, n).requests[r].phase)
    requires OwnId(StateAt(steps, n), r)
    ensures Findable(StateAt(steps, n), r)
  {
    hide Displaces, StateAt, Findable;
    FindableIffNotDisplaced(steps, n, r);
    if m :| 0 <= m < n && Displaces(StateAt(steps, m), steps[m], r) {
      var q := DisplacerSharesId(StateAt(steps, m), steps[m], r);
      IdStays(steps, m, n, q);
      IdStays(steps, m, n, r);
    }
  }

  /**
   Ids can collide, since a reply that is itself a request runs under the peer's id. The first of two requests
   to finish then takes the other one's entry away: that one waits, and no reply will find it.
   */
  function Collision(id: uint64): seq<Step> {
    [Submit(0, id, true, false), EncryptionSucceeds(0), Starts(0),
     Submit(1, id, true, false), EncryptionSucceeds(1), Starts(1),
     WaitFails(0), CloseChannels(0), LeaveTable(0)]
  }

  lemma CollidingIdsHideARequest(id: uint64)
    ensures In(StateAt(Collision(id), 9), 1, Running) && id !in StateAt(Collision(id), 9).table
  {
    hide Next, Enabled, StateAt;
    var steps := Collision(id);
    assert steps[0] == Submit(0, id, true, false) && steps[1] == EncryptionSucceeds(0) && steps[2] == Starts(0);
    assert steps[3] == Submit(1, id, true, false) && steps[4] == EncryptionSucceeds(1) && steps[5] == Starts(1);
    assert steps[6] == WaitFails(0) && steps[7] == CloseChannels(0) && steps[8] == LeaveTable(0);
    hide Collision;
    RunStarts(steps);
    Waiting(steps, 0, 0, id);
    Waiting(steps, 3, 1, id);
    TimesOut(steps, 6, 0);
  }

  // ---- The device's fields, as the atomic sections update them ----

  /** What ends the wait of Run: a routine's send, or a failure. */
  datatype Wake = By(k: nat, queueFull: bool) | Failure

  class Device {
    var requests: map<nat, Request>
    var localTransactionMap: map<uint64, nat>
    var senders: map<nat, Sender>

    constructor ()
      ensures View() == Start
    {
      requests, localTransactionMap, senders := map[], map[], map[];
    }

    function View(): System
      reads this
    {
      System(requests, localTransactionMap, senders, false)
    }

    method AddLocalTransaction(r: nat)
      requires Enabled(View(), EncryptionSucceeds(r)) && requests[r].expectsReply
      modifies this
      ensures View() == Next(old(View()), EncryptionSucceeds(r))
    {
      localTransactionMap := localTransactionMap[requests[r].trxId := r];
      requests := requests[r := requests[r].(phase := Added)];
    }

    /**
     What it finds runs under the id and has not left the map. Whatever the run that led here, a request in the
     map's care is what its id finds if and only if no other request has displaced it.
     */
    method FindLocalTransaction(id: uint64, ghost steps: seq<Step>) returns (r: Option<nat>)
      requires View() == StateAt(steps, |steps|)
      ensures r.Some? ==> r.value in requests && requests[r.value].trxId == id && InTable(requests[r.value].phase)
      ensures r == if id in localTransactionMap then Some(localTransactionMap[id]) else None
      ensures forall q :: q in requests && requests[q].trxId == id && InTable(requests[q].phase) ==>
                (r == Some(q) <==> !Displaced(steps, |steps|, q))
    {
      InvariantHolds(steps, |steps|);
      if id in localTransactionMap {
        r := Some(localTransactionMap[id]);
        assert EntryHolds(View(), id, r.value);
      } else {
        r := None;
      }
      forall q | q in requests && requests[q].trxId == id && InTable(requests[q].phase)
        ensures r == Some(q) <==> !Displaced(steps, |steps|, q)
      {
        FindableIffNotDisplaced(steps, |steps|, q);
      }
    }

    /** A routine looks up the transaction of its parcel. Without one the parcel takes the general way. */
    method LookUp(k: nat, id: uint64, parcel: Parcel, ghost steps: seq<Step>) returns (found: bool)
      requires View() == StateAt(steps, |steps|) && Enabled(View(), Find(k, id, parcel))
      modifies this`senders
      ensures View() == StateAt(steps + [Find(k, id, parcel)], |steps| + 1) && found == (k in senders)
      ensures found ==> senders[k].r in requests && requests[senders[k].r].trxId == id
      ensures found ==> senders == old(senders)[k := Sender(senders[k].r, parcel)]
      ensures !found ==> senders == old(senders)
      ensures !found ==>
                forall q :: q in requests && requests[q].trxId == id && InTable(requests[q].phase) ==>
                  Displaced(steps, |steps|, q)
    {
      hide StateAt, Displaced;
      var r := FindLocalTransaction(id, steps);
      found := r.Some?;
      if found {
        senders := senders[k := Sender(r.value, parcel)];
      }
      OneMore(steps, Find(k, id, parcel));
    }

    /** The select of Run, once one of its channels is ready. */
    method Select(r: nat, wake: Wake)
      requires In(View(), r, Running)
      requires wake.By? ==> wake.k in senders && senders[wake.k].r == r
      modifies this`requests, this`senders
      ensures View() == Next(old(View()), WakeStep(r, wake))
    {
      var q := requests[r];
      match wake {
        case By(k, queueFull) =>
          match senders[k].parcel {
            case Packet => q := q.(phase := Leaving(false), replyQueued := !queueFull, lost := queueFull);
            case Cookie => q := q.(phase := Leaving(false), sent := q.sent + 1);
          }
          senders := senders - {k};
        case Failure => q := q.(phase := Leaving(true));
      }
      requests := requests[r := q];
    }

    /** The deferred function: first the channels are closed. */
    method Close(r: nat)
      requires Enabled(View(), CloseChannels(r))
      modifies this`requests
      ensures View() == Next(old(View()), CloseChannels(r))
    {
      requests := requests[r := requests[r].(phase := Closed(requests[r].phase.failed))];
    }

    /** Then the map entry goes, under the lock. */
    method RemoveLocalTransaction(r: nat)
      requires Enabled(View(), LeaveTable(r))
      modifies this`requests, this`localTransactionMap
      ensures View() == Next(old(View()), LeaveTable(r))
    {
      var q := requests[r];
      localTransactionMap := localTransactionMap - {q.trxId};
      requests := requests[r := q.(phase := Reporting(q.phase.failed))];
    }

    /** Then an error is put on the response channel, if there was one. */
    method ReportError(r: nat)
      requires Enabled(View(), Report(r))
      modifies this`requests
      ensures View() == Next(old(View()), Report(r))
    {
      var q := requests[r];
      if q.phase.failed {
        q := q.(sent := q.sent + 1);
      }
      requests := requests[r := q.(phase := Finished)];
    }

    /**
     LocalTransaction.Run from its select to its end: the request has its one message, or its reply is on the way
     to decryption, or the full queue has dropped it; its id is free again, and no other request has changed.
     */
    method Run(r: nat, wake: Wake)
      requires Invariant(View()) && In(View(), r, Running)
      requires wake.By? ==> wake.k in senders && senders[wake.k].r == r
      modifies this
      ensures Invariant(View())
      ensures requests.Keys == old(requests).Keys && forall q :: q in requests && q != r ==> requests[q] == old(requests)[q]
      ensures requests[r].phase.Finished? && requests[r].trxId !in localTransactionMap
      ensures requests[r].sent == 1 <==> wake.Failure? || old(senders)[wake.k].parcel.Cookie?
      ensures requests[r].replyQueued <==> wake.By? && old(senders)[wake.k].parcel.Packet? && !wake.queueFull
      ensures requests[r].lost <==> wake.By? && old(senders)[wake.k].parcel.Packet? && wake.queueFull
    {
      hide Next, Enabled, Invariant;
      SelectLeaves(View(), r, wake);
      NextKeepsInvariant(View(), WakeStep(r, wake));
      Select(r, wake);
      CleanUpLeaves(View(), r);
      Close(r);
      RemoveLocalTransaction(r);
      ReportError(r);
    }
  }

  function WakeStep(r: nat, wake: Wake): Step {
    match wake
    case By(k, queueFull) => Deliver(k, queueFull)
    case Failure => WaitFails(r)
  }

  /** What the select leaves of a request, and of the others. */
  lemma SelectLeaves(s: System, r: nat, wake: Wake)
    requires Invariant(s) && In(s, r, Running) && !s.crashed
    requires wake.By? ==> wake.k in s.senders && s.senders[wake.k].r == r
    ensures Enabled(s, WakeStep(r, wake))
    ensures var s', packet := Next(s, WakeStep(r, wake)), wake.By? && s.senders[wake.k].parcel.Packet?;
            && !s'.crashed && s'.requests.Keys == s.requests.Keys
            && (forall q :: q in s.requests && q != r ==> s'.requests[q] == s.requests[q])
            && s'.requests[r] == s.requests[r].(phase := Leaving(wake.Failure?), replyQueued := packet && !wake.queueFull,
                                                lost := packet && wake.queueFull,
                                                sent := if wake.By? && !packet then 1 else 0)
  {
    assert Balanced(s.requests[r]);
    hide EntryHolds, SenderHolds;
  }

  /** And what the deferred function leaves. */
  lemma CleanUpLeaves(s: System, r: nat)
    requires Invariant(s) && r in s.requests && s.requests[r].phase.Leaving? && !s.crashed
    ensures Enabled(s, CloseChannels(r)) && Enabled(Next(s, CloseChannels(r)), LeaveTable(r))
    ensures Enabled(Next(Next(s, CloseChannels(r)), LeaveTable(r)), Report(r))
    ensures var s' := Next(Next(Next(s, CloseChannels(r)), LeaveTable(r)), Report(r));
            && Invariant(s') && s'.requests.Keys == s.requests.Keys && s.requests[r].trxId !in s'.table
            && (forall q :: q in s.requests && q != r ==> s'.requests[q] == s.requests[q])
            && s'.requests[r] == s.requests[r].(phase := Finished,
                                                sent := s.requests[r].sent + if s.requests[r].phase.failed then 1 else 0)
  {
    var s1 := Next(s, CloseChannels(r));
    var s2 := Next(s1, LeaveTable(r));
    hide Invariant;
    NextKeepsInvariant(s, CloseChannels(r));
    NextKeepsInvariant(s1, LeaveTable(r));
    NextKeepsInvariant(s2, Report(r));
  }
}
