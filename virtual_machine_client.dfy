/**
 A client for one virtual machine: the `update` request it sends and the
 `restart` operation with its boot-verification loop.

 Every collaborator of the client is an explicit input. The provider's
 restart operation is an `Operation` that completes after some time or fails.
 The provider's instance views are numbered by fetch, and the guest's uptime
 probes are numbered by call. Time is whole seconds: it starts at the clock
 reading taken just before the restart is issued and advances by the duration
 of each remote step and by the fixed sleep of each poll.
 */
module VirtualMachineClient {
  import opened Text

  /** Substring that marks a status code as a power state. */
  const PowerStateMarker: string := "PowerState"
  /** The power state of a machine that is up. */
  const PowerStateRunning: string := "PowerState/running"
  /** Exit code of the SSH client when it cannot reach the guest. */
  const SshUnreachableExitCode: int := 255
  /** Text of a probe error raised while the guest refuses SSH connections. */
  const ConnectionRefused: string := "Connection refused"
  /** Seconds slept at the start of every poll. */
  const PollInterval: nat := 15
  /** Seconds `restart` waits for the boot when the caller names no timeout: five minutes. */
  const DefaultBootTimeout: int := 300
  /** Property that every update request must carry. */
  const LocationKey: string := "location"

  datatype Option<T> = None | Some(value: T)

  /** Immutable handle on the target machine. */
  datatype VmIdentifier = VmIdentifier(
    subscription: string,
    resourceGroup: string,
    name: string,
    location: string,
    cloud: string)

  /** A property value of the machine's resource model. */
  datatype Value =
    | Str(s: string)
    | Num(n: int)
    | Bool(b: bool)
    | Null
    | List(items: seq<Value>)
    | Object(fields: map<string, Value>)

  /** The request body handed to the provider's create-or-update operation. */
  datatype UpdateRequest = CreateOrUpdate(resourceGroup: string, vmName: string, body: map<string, Value>)

  /** Outcome of an asynchronous provider operation: it completes after `duration` seconds, or fails. */
  datatype Operation = Completed(duration: nat) | Failed(reason: string)

  /** One fetched instance view: its status codes, and the seconds the fetch took. */
  datatype InstanceView = InstanceView(statuses: seq<string>, duration: nat)

  /** What the uptime command on the guest yields: whole seconds since boot, or a command error. */
  datatype ProbeResult = Uptime(seconds: nat) | CommandError(exitCode: int, message: string)

  /** One run of the uptime command: its result and the seconds it took. */
  datatype Probe = Probe(result: ProbeResult, duration: nat)

  /** The guest's SSH channel: the result of its `i`-th uptime command. */
  datatype SshClient = SshClient(runs: nat -> Probe)

  /** The cloud provider: the restart operation and the `i`-th instance view fetched. */
  datatype Provider = Provider(restart: Operation, instanceViews: nat -> InstanceView)

  /** How `restart` ends: it returns, or raises one of the errors of the source. */
  datatype RestartResult =
    | Ok
    | ValueError
    | RestartFailed(reason: string)
    | PowerStateError(statuses: seq<string>)
    | ProbeError(exitCode: int, message: string)
    | BootTimeout(vm: VmIdentifier, bootTimeout: int)

  /**
   The remote calls, clock readings and sleeps of `restart`, in the order they
   happen. `ReadClock(at)` is a reading that the loop condition compares with
   `start + boot_timeout`.
   */
  datatype Call =
    | RestartIssued
    | ReadClock(at: int)
    | Slept(seconds: nat)
    | FetchedInstanceView(statuses: seq<string>)
    | ProbedUptime(result: ProbeResult, at: int)

  /** The verdict on one poll. */
  datatype Decision = Continue | Verified | Fail(error: RestartResult)

  /** The fixed data of one boot-verification loop. */
  datatype BootWait = BootWait(
    vm: VmIdentifier,
    bootTimeout: int,
    beforeRestart: int,
    deadline: int,
    views: nat -> InstanceView,
    probes: nat -> Probe)

  // ---------------------------------------------------------------- update

  /**
   The request `update` sends: a copy of the caller's properties with
   `location` set to the machine's location. The caller's map is a value and
   so cannot be changed by the call.
   */
  function Update(vm: VmIdentifier, properties: map<string, Value>): (req: UpdateRequest)
    ensures req.resourceGroup == vm.resourceGroup && req.vmName == vm.name
    ensures req.body.Keys == properties.Keys + {LocationKey}
    ensures req.body[LocationKey] == Str(vm.location)
    ensures forall key :: key in properties && key != LocationKey ==> req.body[key] == properties[key]
  {
    CreateOrUpdate(vm.resourceGroup, vm.name, properties[LocationKey := Str(vm.location)])
  }

  // ----------------------------------------------------------- power state

  /** A status code counts as a power state when it contains the marker. */
  predicate IsPowerStateCode(code: string) {
    Contains(code, PowerStateMarker)
  }

  /** The status codes that are power states, in their original order. */
  function PowerStates(statuses: seq<string>): (powerStates: seq<string>)
  {
    if statuses == [] then []
    else (if IsPowerStateCode(statuses[0]) then [statuses[0]] else []) + PowerStates(statuses[1..])
  }

  /** The view holds exactly one power state and it is `PowerState/running`. */
  predicate IsRunning(statuses: seq<string>) {
    var powerStates := PowerStates(statuses);
    |powerStates| == 1 && powerStates[0] == PowerStateRunning
  }

  /** The guest booted after the restart was issued: `now - uptime` is strictly later. */
  predicate BootedAfter(now: int, uptime: nat, beforeRestart: int) {
    now - uptime > beforeRestart
  }

  /** A probe error that only says the guest does not accept SSH connections yet. */
  predicate IsTransientProbeError(exitCode: int, message: string) {
    exitCode == SshUnreachableExitCode && Contains(message, ConnectionRefused)
  }

  /**
   The verdict on one poll, from the fetched statuses, the probe result and
   the clock reading taken after the probe. The probe is only consulted when
   the machine is running.
   */
  function Classify(statuses: seq<string>, probe: ProbeResult, now: int, beforeRestart: int): (d: Decision)
    ensures d == Verified <==> IsRunning(statuses) && probe.Uptime? && BootedAfter(now, probe.seconds, beforeRestart)
    ensures d == Fail(PowerStateError(statuses)) <==> |PowerStates(statuses)| != 1
    ensures !IsRunning(statuses) && |PowerStates(statuses)| == 1 ==> d == Continue
    ensures IsRunning(statuses) && probe.CommandError? ==>
      d == if IsTransientProbeError(probe.exitCode, probe.message) then Continue
           else Fail(ProbeError(probe.exitCode, probe.message))
    ensures d.Fail? ==> d.error == PowerStateError(statuses) || (probe.CommandError? && d.error == ProbeError(probe.exitCode, probe.message))
  {
    var powerStates := PowerStates(statuses);
    if |powerStates| != 1 then Fail(PowerStateError(statuses))
    else if powerStates[0] != PowerStateRunning then Continue
    else match probe
      case Uptime(seconds) =>
        if BootedAfter(now, seconds, beforeRestart) then Verified else Continue
      case CommandError(exitCode, message) =>
        if IsTransientProbeError(exitCode, message) then Continue else Fail(ProbeError(exitCode, message))
  }

  // ------------------------------------------------------------- restart

  /** What one poll yields: its verdict, its calls, and where the next poll starts. */
  datatype PollResult = PollResult(decision: Decision, calls: seq<Call>, nextView: nat, nextProbe: nat, clock: int)

  /**
   One poll from the `k`-th fetch, the `j`-th probe and the clock reading
   `now` that let the loop go on: sleep, fetch the instance view and, when the
   machine is running, probe the guest's uptime and read the clock again.
   */
  function Poll(w: BootWait, k: nat, j: nat, now: int): (p: PollResult)
    ensures p.clock >= now + PollInterval
  {
    var view := w.views(k);
    var fetched := now + PollInterval + view.duration;
    var probe := w.probes(j);
    var probed := fetched + probe.duration;
    var running := IsRunning(view.statuses);
    PollResult(
      Classify(view.statuses, probe.result, probed, w.beforeRestart),
      [ReadClock(now), Slept(PollInterval), FetchedInstanceView(view.statuses)] + (if running then [ProbedUptime(probe.result, probed)] else []),
      k + 1,
      if running then j + 1 else j,
      if running then probed else fetched)
  }

  /**
   The boot-verification loop from its `k`-th fetch, `j`-th probe and clock
   reading `now`: the loop's result and the calls it makes. It raises only the
   power-state error, the probe error or the boot timeout, and it gives up at
   once, with no poll, when `now` is already past the deadline.
   */
  function WaitForBoot(w: BootWait, k: nat, j: nat, now: int): (r: (RestartResult, seq<Call>))
    ensures r.0.Ok? || r.0.PowerStateError? || r.0.ProbeError? || r.0 == BootTimeout(w.vm, w.bootTimeout)
    ensures now >= w.deadline <==> r.1 == [ReadClock(now)]
    decreases w.deadline - now
  {
    if now >= w.deadline then (BootTimeout(w.vm, w.bootTimeout), [ReadClock(now)])
    else
      var p := Poll(w, k, j, now);
      match p.decision
      case Verified => (Ok, p.calls)
      case Fail(error) => (error, p.calls)
      case Continue =>
        var rest := WaitForBoot(w, p.nextView, p.nextProbe, p.clock);
        (rest.0, p.calls + rest.1)
  }

  /** The loop data of a restart whose operation completed at `start`. */
  function BootWaitFor(vm: VmIdentifier, sshClient: SshClient, bootTimeout: int, provider: Provider,
                       beforeRestart: int, start: int): (w: BootWait)
  {
    BootWait(vm, bootTimeout, beforeRestart, start + bootTimeout, provider.instanceViews, sshClient.runs)
  }

  /**
   What `restart` does, as a function of its arguments and its environment:
   `beforeRestart` is the clock reading taken before the restart is issued.
   It calls nothing exactly when it has to wait without an SSH client, and
   then it raises `ValueError`; otherwise its first call issues the restart.
   */
  function RestartOutcome(vm: VmIdentifier, provider: Provider, beforeRestart: int, waitForBoot: bool,
                          sshClient: Option<SshClient> := None, bootTimeout: int := DefaultBootTimeout)
    : (r: (RestartResult, seq<Call>))
    ensures r.1 == [] <==> waitForBoot && sshClient.None?
    ensures r.0 == ValueError <==> r.1 == []
    ensures r.1 != [] ==> r.1[0] == RestartIssued
  {
    if waitForBoot && sshClient.None? then (ValueError, [])
    else match provider.restart
      case Failed(reason) => (RestartFailed(reason), [RestartIssued])
      case Completed(duration) =>
        if !waitForBoot then (Ok, [RestartIssued])
        else
          var start := beforeRestart + duration;
          var rest := WaitForBoot(BootWaitFor(vm, sshClient.value, bootTimeout, provider, beforeRestart, start), 0, 0, start);
          (rest.0, [RestartIssued] + rest.1)
  }

  /**
   One iteration of the boot-verification loop: sleep, fetch the instance
   view, pick out its power state and, when it is running, read the guest's
   uptime and decide whether the restart is verified.
   */
  method PollOnce(w: BootWait, k: nat, j: nat, now: int) returns (p: PollResult)
    ensures p == Poll(w, k, j, now)
  {
    var clock := now + PollInterval;
    var calls := [ReadClock(now), Slept(PollInterval)];
    var view := w.views(k);
    clock := clock + view.duration;
    calls := calls + [FetchedInstanceView(view.statuses)];
    var powerStates := PowerStates(view.statuses);
    if |powerStates| != 1 {
      return PollResult(Fail(PowerStateError(view.statuses)), calls, k + 1, j, clock);
    }
    if powerStates[0] != PowerStateRunning {
      return PollResult(Continue, calls, k + 1, j, clock);
    }
    var probe := w.probes(j);
    clock := clock + probe.duration;
    calls := calls + [ProbedUptime(probe.result, clock)];
    p := PollResult(Classify(view.statuses, probe.result, clock, w.beforeRestart), calls, k + 1, j + 1, clock);
  }

  /**
   Restarts the machine and, when `waitForBoot` holds, polls until the
   provider reports it running and the guest's uptime shows a boot after the
   restart was issued.
   */
  method Restart(vm: VmIdentifier, provider: Provider, beforeRestart: int, waitForBoot: bool,
                 sshClient: Option<SshClient> := None, bootTimeout: int := DefaultBootTimeout)
    returns (result: RestartResult, calls: seq<Call>)
    ensures (result, calls) == RestartOutcome(vm, provider, beforeRestart, waitForBoot, sshClient, bootTimeout)
    ensures waitForBoot && sshClient.None? ==> result == ValueError && calls == []
    ensures !waitForBoot ==> calls == [RestartIssued] && (result == Ok <==> provider.restart.Completed?)
    ensures provider.restart.Failed? && !(waitForBoot && sshClient.None?) ==>
              result == RestartFailed(provider.restart.reason) && calls == [RestartIssued]
  {
    ghost var expected := RestartOutcome(vm, provider, beforeRestart, waitForBoot, sshClient, bootTimeout);
    if waitForBoot && sshClient.None? {
      return ValueError, [];
    }
    calls := [RestartIssued];
    if provider.restart.Failed? {
      return RestartFailed(provider.restart.reason), calls;
    }
    if !waitForBoot {
      return Ok, calls;
    }
    var start := beforeRestart + provider.restart.duration;
    var w := BootWaitFor(vm, sshClient.value, bootTimeout, provider, beforeRestart, start);
    var now, k, j := start, 0, 0;
    while now < start + bootTimeout
      invariant expected == (WaitForBoot(w, k, j, now).0, calls + WaitForBoot(w, k, j, now).1)
      decreases start + bootTimeout - now
    {
      var p := PollOnce(w, k, j, now);
      ghost var rest := WaitForBoot(w, p.nextView, p.nextProbe, p.clock);
      assert (calls + p.calls) + rest.1 == calls + (p.calls + rest.1);
      calls := calls + p.calls;
      match p.decision {
        case Verified => return Ok, calls;
        case Fail(error) => return error, calls;
        case Continue => k, j, now := p.nextView, p.nextProbe, p.clock;
      }
    }
    calls := calls + [ReadClock(now)];
    result := BootTimeout(vm, bootTimeout);
  }
}
