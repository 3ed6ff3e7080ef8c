/**
 What `update` and the boot-verification loop of `restart` guarantee, stated
 about the specification functions of module VirtualMachineClient.
 */
module ClientProperties {
  import opened Text
  import opened VirtualMachineClient

  // ---------------------------------------------------------------- update

  /** Apart from `location`, the request carries exactly the caller's properties. */
  lemma UpdateKeepsOtherProperties(vm: VmIdentifier, properties: map<string, Value>)
    ensures Update(vm, properties).body - {LocationKey} == properties - {LocationKey}
  {
  }

  // ----------------------------------------------------------- power state

  /** The power states are the marked status codes, each as often as the view holds it. */
  lemma {:induction false} PowerStatesFilter(statuses: seq<string>)
    ensures forall code :: multiset(PowerStates(statuses))[code]
                           == if IsPowerStateCode(code) then multiset(statuses)[code] else 0
    ensures forall i :: 0 <= i < |PowerStates(statuses)| ==> OccursIn(PowerStateMarker, PowerStates(statuses)[i])
  {
    if statuses != [] {
      PowerStatesFilter(statuses[1..]);
      assert statuses == [statuses[0]] + statuses[1..];
      ContainsIsOccurrence(statuses[0], PowerStateMarker);
    }
  }

  /** A view with one marked status yields at least one power state. */
  lemma {:induction false} MarkedStatusIsFound(statuses: seq<string>, i: nat)
    requires i < |statuses| && IsPowerStateCode(statuses[i])
    ensures |PowerStates(statuses)| >= 1
  {
    if i > 0 {
      MarkedStatusIsFound(statuses[1..], i - 1);
    }
  }

  /** A view with two marked statuses yields more than one power state. */
  lemma {:induction false} TwoMarkedStatusesAreAmbiguous(statuses: seq<string>, i: nat, j: nat)
    requires i < j < |statuses|
    requires IsPowerStateCode(statuses[i]) && IsPowerStateCode(statuses[j])
    ensures |PowerStates(statuses)| >= 2
  {
    if i == 0 {
      MarkedStatusIsFound(statuses[1..], j - 1);
    } else {
      TwoMarkedStatusesAreAmbiguous(statuses[1..], i - 1, j - 1);
    }
  }

  /** A view without marked statuses yields no power state. */
  lemma {:induction false} UnmarkedViewHasNoPowerState(statuses: seq<string>)
    requires forall i :: 0 <= i < |statuses| ==> !IsPowerStateCode(statuses[i])
    ensures PowerStates(statuses) == []
  {
    if statuses != [] {
      UnmarkedViewHasNoPowerState(statuses[1..]);
    }
  }

  /**
   A poll whose view does not hold exactly one power state ends the loop at
   once with the power-state error: after its clock reading, sleep and fetch,
   nothing else is called.
   */
  lemma InconsistentViewFailsAtOnce(w: BootWait, k: nat, j: nat, now: int)
    requires now < w.deadline
    requires |PowerStates(w.views(k).statuses)| != 1
    ensures WaitForBoot(w, k, j, now)
            == (PowerStateError(w.views(k).statuses),
                [ReadClock(now), Slept(PollInterval), FetchedInstanceView(w.views(k).statuses)])
  {
    var polled := [ReadClock(now), Slept(PollInterval), FetchedInstanceView(w.views(k).statuses)];
    assert polled + [] == polled;
  }

  /**
   A poll whose view reports the machine running, and whose uptime read then
   puts the boot after `beforeRestart`, ends the loop at once with success.
   */
  lemma FreshUptimeVerifiesAtOnce(w: BootWait, k: nat, j: nat, now: int, seconds: nat)
    requires now < w.deadline
    requires IsRunning(w.views(k).statuses) && w.probes(j).result == Uptime(seconds)
    requires BootedAfter(now + PollInterval + w.views(k).duration + w.probes(j).duration, seconds, w.beforeRestart)
    ensures WaitForBoot(w, k, j, now)
            == (Ok, [ReadClock(now), Slept(PollInterval), FetchedInstanceView(w.views(k).statuses),
                     ProbedUptime(Uptime(seconds), now + PollInterval + w.views(k).duration + w.probes(j).duration)])
  {
    var statuses := w.views(k).statuses;
    var polled := [ReadClock(now), Slept(PollInterval), FetchedInstanceView(statuses)]
                  + [ProbedUptime(Uptime(seconds), now + PollInterval + w.views(k).duration + w.probes(j).duration)];
    var p := Poll(w, k, j, now);
    assert p.calls == polled;
    assert p.decision == Verified;
    assert WaitForBoot(w, k, j, now) == (Ok, p.calls);
    assert polled == [polled[0], polled[1], polled[2], polled[3]];
  }

  /**
   A poll whose view reports the machine running, and whose uptime read fails
   with anything but a refused connection, ends the loop at once with that
   error, its exit code and its message unchanged.
   */
  lemma ProbeErrorFailsAtOnce(w: BootWait, k: nat, j: nat, now: int, exitCode: int, message: string)
    requires now < w.deadline
    requires IsRunning(w.views(k).statuses) && w.probes(j).result == CommandError(exitCode, message)
    requires !IsTransientProbeError(exitCode, message)
    ensures WaitForBoot(w, k, j, now)
            == (ProbeError(exitCode, message),
                [ReadClock(now), Slept(PollInterval), FetchedInstanceView(w.views(k).statuses),
                 ProbedUptime(CommandError(exitCode, message), now + PollInterval + w.views(k).duration + w.probes(j).duration)])
  {
    var statuses := w.views(k).statuses;
    var polled := [ReadClock(now), Slept(PollInterval), FetchedInstanceView(statuses)]
                  + [ProbedUptime(CommandError(exitCode, message), now + PollInterval + w.views(k).duration + w.probes(j).duration)];
    var p := Poll(w, k, j, now);
    assert p.calls == polled;
    assert p.decision == Fail(ProbeError(exitCode, message));
    assert WaitForBoot(w, k, j, now) == (ProbeError(exitCode, message), p.calls);
    assert polled == [polled[0], polled[1], polled[2], polled[3]];
  }

  /**
   A poll whose view reports the machine running but whose uptime read is
   refused, or shows a boot no later than `beforeRestart`, leaves the loop to
   go on with the next view and the next probe, at the clock reading after
   that read. Applied once per poll, as long as each poll starts before the
   deadline, this is how `n` refused connections followed by a fresh uptime
   end in success on poll `n + 1`.
   */
  lemma UnsettledProbePollsAgain(w: BootWait, k: nat, j: nat, now: int)
    requires now < w.deadline && IsRunning(w.views(k).statuses)
    requires match w.probes(j).result
             case Uptime(seconds) =>
               !BootedAfter(now + PollInterval + w.views(k).duration + w.probes(j).duration, seconds, w.beforeRestart)
             case CommandError(exitCode, message) => IsTransientProbeError(exitCode, message)
    ensures var probed := now + PollInterval + w.views(k).duration + w.probes(j).duration;
            var next := WaitForBoot(w, k + 1, j + 1, probed);
            WaitForBoot(w, k, j, now)
            == (next.0, [ReadClock(now), Slept(PollInterval), FetchedInstanceView(w.views(k).statuses),
                         ProbedUptime(w.probes(j).result, probed)] + next.1)
  {
    var probed := now + PollInterval + w.views(k).duration + w.probes(j).duration;
    var polled := [ReadClock(now), Slept(PollInterval), FetchedInstanceView(w.views(k).statuses)]
                  + [ProbedUptime(w.probes(j).result, probed)];
    var p := Poll(w, k, j, now);
    assert p.calls == polled;
    assert p.decision == Continue && p.nextView == k + 1 && p.nextProbe == j + 1 && p.clock == probed;
    assert polled == [polled[0], polled[1], polled[2], polled[3]];
  }

  /**
   A poll whose view holds one power state other than running leaves the loop
   to go on with the next view, the same probe, and the clock reading after
   the fetch, without probing.
   */
  lemma StoppedMachinePollsAgain(w: BootWait, k: nat, j: nat, now: int)
    requires now < w.deadline
    requires |PowerStates(w.views(k).statuses)| == 1 && !IsRunning(w.views(k).statuses)
    ensures var fetched := now + PollInterval + w.views(k).duration;
            var next := WaitForBoot(w, k + 1, j, fetched);
            WaitForBoot(w, k, j, now)
            == (next.0, [ReadClock(now), Slept(PollInterval), FetchedInstanceView(w.views(k).statuses)] + next.1)
  {
    var polled := [ReadClock(now), Slept(PollInterval), FetchedInstanceView(w.views(k).statuses)];
    var p := Poll(w, k, j, now);
    assert p.calls == polled + [] == polled;
    assert p.decision == Continue && p.nextView == k + 1 && p.nextProbe == j && p.clock == now + PollInterval + w.views(k).duration;
    var next := WaitForBoot(w, k + 1, j, p.clock);
    assert WaitForBoot(w, k, j, now) == (next.0, p.calls + next.1);
  }

  // ------------------------------------------------------ the loop's trace

  /** The result a single call settles the loop with, if it settles it. */
  function Verdict(call: Call, beforeRestart: int): (v: Option<RestartResult>) {
    match call
    case FetchedInstanceView(statuses) =>
      if |PowerStates(statuses)| != 1 then Some(PowerStateError(statuses)) else None
    case ProbedUptime(Uptime(seconds), at) =>
      if BootedAfter(at, seconds, beforeRestart) then Some(Ok) else None
    case ProbedUptime(CommandError(exitCode, message), _) =>
      if IsTransientProbeError(exitCode, message) then None else Some(ProbeError(exitCode, message))
    case _ => None
  }

  /** The result of a loop that made `calls`: the verdict of its last call, else the boot timeout. */
  function Settled(calls: seq<Call>, w: BootWait): (result: RestartResult) {
    if calls != [] && Verdict(calls[|calls| - 1], w.beforeRestart).Some? then
      Verdict(calls[|calls| - 1], w.beforeRestart).value
    else BootTimeout(w.vm, w.bootTimeout)
  }

  /**
   The order the loop calls in: every clock reading but the last right before
   a 15-second sleep, every sleep right after a clock reading and right before
   a fetch, every fetch right after a sleep, a probe right after a fetch
   exactly when that fetch's power state is running, and no second restart.
   */
  ghost predicate InCallOrder(calls: seq<Call>) {
    forall i {:trigger calls[i]} :: 0 <= i < |calls| ==>
      && calls[i] != RestartIssued
      && (calls[i].ReadClock? ==> i + 1 == |calls| || calls[i + 1] == Slept(PollInterval))
      && (calls[i].Slept? ==>
            calls[i] == Slept(PollInterval) && i > 0 && calls[i - 1].ReadClock?
            && i + 1 < |calls| && calls[i + 1].FetchedInstanceView?)
      && (calls[i].FetchedInstanceView? ==>
            i > 0 && calls[i - 1] == Slept(PollInterval)
            && (IsRunning(calls[i].statuses) ==> i + 1 < |calls| && calls[i + 1].ProbedUptime?))
      && (calls[i].ProbedUptime? ==>
            i > 0 && calls[i - 1].FetchedInstanceView? && IsRunning(calls[i - 1].statuses))
  }

  /** The number of instance views fetched. */
  function Fetches(calls: seq<Call>): (n: nat) {
    if calls == [] then 0
    else (if calls[0].FetchedInstanceView? then 1 else 0) + Fetches(calls[1..])
  }

  lemma {:induction false} FetchesAppend(a: seq<Call>, b: seq<Call>)
    ensures Fetches(a + b) == Fetches(a) + Fetches(b)
  {
    if a == [] {
      assert a + b == b;
    } else {
      assert (a + b)[1..] == a[1..] + b;
      FetchesAppend(a[1..], b);
    }
  }

  lemma InCallOrderAppend(a: seq<Call>, b: seq<Call>)
    requires InCallOrder(a) && InCallOrder(b)
    requires a == [] || !(a[|a| - 1].Slept? || a[|a| - 1].ReadClock?)
    requires b == [] || b[0].ReadClock?
    ensures InCallOrder(a + b)
  {
  }

  /**
   One poll: its calls are in order, begin with the clock reading that let it
   start, read the clock no more, fetch one view, leave every call but the
   last unsettled, and its last call's verdict is the poll's decision.
   */
  lemma PollCalls(w: BootWait, k: nat, j: nat, now: int)
    ensures var p := Poll(w, k, j, now);
            && InCallOrder(p.calls)
            && |p.calls| >= 3 && p.calls[0] == ReadClock(now)
            && (forall i :: 0 < i < |p.calls| ==> !p.calls[i].ReadClock?)
            && !p.calls[|p.calls| - 1].Slept?
            && Fetches(p.calls) == 1
            && (forall i :: 0 <= i < |p.calls| - 1 ==> Verdict(p.calls[i], w.beforeRestart).None?)
            && Verdict(p.calls[|p.calls| - 1], w.beforeRestart)
               == match p.decision
                  case Continue => None
                  case Verified => Some(Ok)
                  case Fail(error) => Some(error)
  {
    var p := Poll(w, k, j, now);
    var statuses := w.views(k).statuses;
    if IsRunning(statuses) {
      assert p.calls == [ReadClock(now), Slept(PollInterval), FetchedInstanceView(statuses), p.calls[3]];
      assert Fetches(p.calls) == Fetches(p.calls[1..]) == Fetches(p.calls[2..]) == 1 + Fetches(p.calls[3..]);
      assert Fetches(p.calls[3..]) == Fetches(p.calls[4..]);
    } else {
      assert p.calls == [ReadClock(now), Slept(PollInterval), FetchedInstanceView(statuses)];
      assert Fetches(p.calls) == Fetches(p.calls[1..]) == Fetches(p.calls[2..]) == 1 + Fetches(p.calls[3..]);
    }
  }

  /** The loop's calls are in order and start with the clock reading `now`. */
  lemma {:induction false} WaitForBootInCallOrder(w: BootWait, k: nat, j: nat, now: int)
    ensures var calls := WaitForBoot(w, k, j, now).1;
            InCallOrder(calls) && calls[0] == ReadClock(now)
    decreases w.deadline - now
  {
    if now < w.deadline {
      var p := Poll(w, k, j, now);
      PollCalls(w, k, j, now);
      if p.decision.Continue? {
        WaitForBootInCallOrder(w, p.nextView, p.nextProbe, p.clock);
        InCallOrderAppend(p.calls, WaitForBoot(w, p.nextView, p.nextProbe, p.clock).1);
      }
    }
  }

  /**
   No call but the last settles the loop, and the loop's result is what its
   last call settles it with, or the boot timeout naming the machine and the
   configured duration when no call settles it.
   */
  lemma {:induction false} WaitForBootSettles(w: BootWait, k: nat, j: nat, now: int)
    ensures var (result, calls) := WaitForBoot(w, k, j, now);
            && (forall i :: 0 <= i < |calls| - 1 ==> Verdict(calls[i], w.beforeRestart).None?)
            && result == Settled(calls, w)
    decreases w.deadline - now
  {
    if now < w.deadline {
      var p := Poll(w, k, j, now);
      PollCalls(w, k, j, now);
      if p.decision.Continue? {
        var rest := WaitForBoot(w, p.nextView, p.nextProbe, p.clock);
        WaitForBootSettles(w, p.nextView, p.nextProbe, p.clock);
        var calls := p.calls + rest.1;
        forall i | 0 <= i < |calls| - 1
          ensures Verdict(calls[i], w.beforeRestart).None?
        {
          if i >= |p.calls| {
            assert calls[i] == rest.1[i - |p.calls|];
          } else {
            assert calls[i] == p.calls[i];
          }
        }
        assert calls[|calls| - 1] == rest.1[|rest.1| - 1];
      }
    }
  }

  /**
   The loop gives up only once time is out: every clock reading the loop
   condition compares is before the deadline exactly when polling goes on
   after it, and the loop ends in the boot timeout exactly when its last call
   is such a reading, which is then at or past the deadline. So a poll that
   does not settle the loop is always followed by another clock reading, and
   by another poll while time is left.
   */
  lemma {:induction false} WaitForBootRunsToDeadline(w: BootWait, k: nat, j: nat, now: int)
    ensures var (result, calls) := WaitForBoot(w, k, j, now);
            && calls != []
            && (forall i :: 0 <= i < |calls| && calls[i].ReadClock? ==> (calls[i].at < w.deadline <==> i < |calls| - 1))
            && (result.BootTimeout? <==> calls[|calls| - 1].ReadClock?)
    decreases w.deadline - now
  {
    if now < w.deadline {
      var p := Poll(w, k, j, now);
      PollCalls(w, k, j, now);
      if p.decision.Continue? {
        var rest := WaitForBoot(w, p.nextView, p.nextProbe, p.clock);
        WaitForBootRunsToDeadline(w, p.nextView, p.nextProbe, p.clock);
        var calls := p.calls + rest.1;
        forall i | 0 <= i < |calls| && calls[i].ReadClock?
          ensures calls[i].at < w.deadline <==> i < |calls| - 1
        {
          if i >= |p.calls| {
            assert calls[i] == rest.1[i - |p.calls|];
          } else {
            assert calls[i] == p.calls[i];
          }
        }
        assert calls[|calls| - 1] == rest.1[|rest.1| - 1];
      } else {
        assert p.calls[|p.calls| - 1] != p.calls[0];
      }
    }
  }

  /**
   The loop polls at least once exactly when it starts before the deadline,
   and since every poll sleeps 15 seconds, it starts no poll after the
   deadline: `n` polls take more than `15 * (n - 1)` seconds.
   */
  lemma {:induction false} WaitForBootPollBound(w: BootWait, k: nat, j: nat, now: int)
    ensures var calls := WaitForBoot(w, k, j, now).1;
            && (Fetches(calls) == 0 <==> now >= w.deadline)
            && (Fetches(calls) > 0 ==> PollInterval * (Fetches(calls) - 1) < w.deadline - now)
    decreases w.deadline - now
  {
    if now < w.deadline {
      var p := Poll(w, k, j, now);
      PollCalls(w, k, j, now);
      if p.decision.Continue? {
        var rest := WaitForBoot(w, p.nextView, p.nextProbe, p.clock);
        WaitForBootPollBound(w, p.nextView, p.nextProbe, p.clock);
        FetchesAppend(p.calls, rest.1);
      }
    }
  }

  // ------------------------------------------------------------- restart

  /**
   A successful wait ends with an uptime read, right after a fetch that
   reports the machine running, that puts the boot strictly after the clock
   reading taken before the restart was issued.
   */
  lemma VerifiedRebootIsCorroborated(w: BootWait, k: nat, j: nat, now: int)
    requires WaitForBoot(w, k, j, now).0 == Ok
    ensures var calls := WaitForBoot(w, k, j, now).1;
            && |calls| >= 2
            && calls[|calls| - 2].FetchedInstanceView? && IsRunning(calls[|calls| - 2].statuses)
            && calls[|calls| - 1].ProbedUptime? && calls[|calls| - 1].result.Uptime?
            && BootedAfter(calls[|calls| - 1].at, calls[|calls| - 1].result.seconds, w.beforeRestart)
  {
    var calls := WaitForBoot(w, k, j, now).1;
    WaitForBootInCallOrder(w, k, j, now);
    WaitForBootSettles(w, k, j, now);
    assert calls != [] && Verdict(calls[|calls| - 1], w.beforeRestart) == Some(Ok);
  }

  /** `restart` that waits after a completed restart operation is the restart followed by the wait from `start`. */
  lemma RestartThenWait(vm: VmIdentifier, sshClient: SshClient, bootTimeout: int, provider: Provider, beforeRestart: int)
    requires provider.restart.Completed?
    ensures var start := beforeRestart + provider.restart.duration;
            var rest := WaitForBoot(BootWaitFor(vm, sshClient, bootTimeout, provider, beforeRestart, start), 0, 0, start);
            RestartOutcome(vm, provider, beforeRestart, true, Some(sshClient), bootTimeout) == (rest.0, [RestartIssued] + rest.1)
  {
  }

  /**
   `restart` when it waits for boot and its restart operation completes: it
   issues the restart first and exactly once, then calls in loop order; it
   raises only the loop's own errors; and a boot timeout of zero or less
   fetches no instance view.
   */
  lemma RestartWaitGuarantees(vm: VmIdentifier, sshClient: SshClient, bootTimeout: int,
                              provider: Provider, beforeRestart: int)
    requires provider.restart.Completed?
    ensures var (result, calls) := RestartOutcome(vm, provider, beforeRestart, true, Some(sshClient), bootTimeout);
            && calls != [] && calls[0] == RestartIssued
            && InCallOrder(calls[1..])
            && (result.Ok? || result.PowerStateError? || result.ProbeError? || result == BootTimeout(vm, bootTimeout))
            && (Fetches(calls) == 0 <==> bootTimeout <= 0)
  {
    var start := beforeRestart + provider.restart.duration;
    var w := BootWaitFor(vm, sshClient, bootTimeout, provider, beforeRestart, start);
    var rest := WaitForBoot(w, 0, 0, start);
    RestartThenWait(vm, sshClient, bootTimeout, provider, beforeRestart);
    assert ([RestartIssued] + rest.1)[1..] == rest.1;
    WaitForBootInCallOrder(w, 0, 0, start);
    WaitForBootPollBound(w, 0, 0, start);
    FetchesAppend([RestartIssued], rest.1);
  }

  /**
   `restart` when it waits for boot and its restart operation completes
   returns success exactly when its last call is an uptime read that shows a
   boot after `beforeRestart`.
   */
  lemma RestartSucceedsOnlyOnFreshUptime(vm: VmIdentifier, sshClient: SshClient, bootTimeout: int,
                                         provider: Provider, beforeRestart: int)
    requires provider.restart.Completed?
    ensures var (result, calls) := RestartOutcome(vm, provider, beforeRestart, true, Some(sshClient), bootTimeout);
            result == Ok <==>
              |calls| >= 3 && calls[|calls| - 1].ProbedUptime? && calls[|calls| - 1].result.Uptime?
              && BootedAfter(calls[|calls| - 1].at, calls[|calls| - 1].result.seconds, beforeRestart)
  {
    var start := beforeRestart + provider.restart.duration;
    var w := BootWaitFor(vm, sshClient, bootTimeout, provider, beforeRestart, start);
    var rest := WaitForBoot(w, 0, 0, start);
    var calls := [RestartIssued] + rest.1;
    RestartThenWait(vm, sshClient, bootTimeout, provider, beforeRestart);
    WaitForBootInCallOrder(w, 0, 0, start);
    assert calls[|calls| - 1] == rest.1[|rest.1| - 1];
    if rest.0 == Ok {
      VerifiedRebootIsCorroborated(w, 0, 0, start);
    } else {
      WaitForBootSettles(w, 0, 0, start);
    }
  }

  /**
   `restart` when it waits for boot and its restart operation completes times
   out exactly when its last call is a clock reading at or past `start +
   boot_timeout`, where `start` is when the restart operation completed, and
   every earlier clock reading of the loop is before that deadline.
   */
  lemma RestartTimesOutOnlyAtDeadline(vm: VmIdentifier, sshClient: SshClient, bootTimeout: int,
                                      provider: Provider, beforeRestart: int)
    requires provider.restart.Completed?
    ensures var (result, calls) := RestartOutcome(vm, provider, beforeRestart, true, Some(sshClient), bootTimeout);
            var deadline := beforeRestart + provider.restart.duration + bootTimeout;
            && |calls| >= 2
            && (result.BootTimeout? <==> calls[|calls| - 1].ReadClock? && calls[|calls| - 1].at >= deadline)
            && (forall i :: 1 <= i < |calls| - 1 && calls[i].ReadClock? ==> calls[i].at < deadline)
  {
    var start := beforeRestart + provider.restart.duration;
    var w := BootWaitFor(vm, sshClient, bootTimeout, provider, beforeRestart, start);
    var rest := WaitForBoot(w, 0, 0, start);
    var calls := [RestartIssued] + rest.1;
    RestartThenWait(vm, sshClient, bootTimeout, provider, beforeRestart);
    WaitForBootRunsToDeadline(w, 0, 0, start);
    assert calls[|calls| - 1] == rest.1[|rest.1| - 1];
    forall i | 1 <= i < |calls| - 1 && calls[i].ReadClock?
      ensures calls[i].at < w.deadline
    {
      assert calls[i] == rest.1[i - 1];
    }
  }
}
