# Virtual machine client: restart with boot verification

This project models `VirtualMachineClient` from the WALinuxAgent end-to-end test library in Dafny and proves what
it guarantees. The class drives one Azure virtual machine. Its only logic beyond forwarding calls is in two places:

- `update` adds the machine's `location` to a copy of the caller's properties.
- `restart` issues the restart operation and can then wait for the boot. The wait is a loop that polls the
  instance view. It also reads the guest's uptime over SSH and accepts the restart only when the machine reports
  `PowerState/running` and its computed boot time is strictly later than the clock reading taken before the
  restart was issued.

Files:

- `text.dfy` (module `Text`): Python's substring test `sub in s`, proved equal to "some window of `s` equals `sub`".
- `virtual_machine_client.dfy` (module `VirtualMachineClient`) holds:
  - the data model;
  - the `update` request;
  - power-state extraction;
  - the per-poll decision `Classify`;
  - the specification functions `Poll`, `WaitForBoot` and `RestartOutcome`;
  - the methods `PollOnce` and `Restart`, which mirror the source's loop and are proved equal to those functions.
- `client_properties.dfy` (module `ClientProperties`): lemmas about the specification functions of `update` and `restart`.

The environment is explicit:

- The restart operation is an `Operation`. It either completes after some seconds or fails. This stands for the
  async-operation helper together with its `timeout` argument.
- Instance views are numbered by fetch (`nat -> InstanceView`). Uptime probes are numbered by call (`nat -> Probe`).
  Each one records how long it took.
- Time is counted in whole seconds, starting from the reading taken before the restart (`beforeRestart`). Time moves
  forward by the restart operation's duration, the 15-second sleep of each poll, and the duration of each fetch and
  probe. Durations can be zero, so the clock readings are non-decreasing. The loop ends because every poll sleeps.
- `restart` returns a `RestartResult` and the list of `Call`s it made: restart issued, the clock reading that the
  loop condition compares with `start + boot_timeout`, slept, instance view fetched, and uptime probed together with
  the clock reading after the probe.

## Model

| member | source | states |
|---|---|---|
| `Text.Contains` | tests_e2e/tests/lib/virtual_machine_client.py:154-171 | Python's `in` on strings, as a left-to-right scan of the windows of the string. It has no contract of its own. Its partner `Text.ContainsIsOccurrence` states its meaning. |
| `Text.ContainsIsOccurrence` | tests_e2e/tests/lib/virtual_machine_client.py:154 | The substring test used for the `PowerState` marker and for "Connection refused" is true exactly when the text occurs somewhere in the string. |
| `VirtualMachineClient.Update` | tests_e2e/tests/lib/virtual_machine_client.py:97-107 | The request goes to the machine's resource group and name. Its body has the caller's keys plus `location`. `location` is set to the identifier's location, and every other key keeps the caller's value. |
| `ClientProperties.UpdateKeepsOtherProperties` | tests_e2e/tests/lib/virtual_machine_client.py:98-99 | The map form of `Update`'s ensures on keys and values: if `location` is removed from both, the body sent equals the caller's mapping. |
| `VirtualMachineClient.PowerStates` | tests_e2e/tests/lib/virtual_machine_client.py:154 | The list comprehension that keeps the status codes containing `PowerState`. It has no contract of its own. `ClientProperties.PowerStatesFilter` and the three lemmas after it state what it yields. |
| `ClientProperties.PowerStatesFilter` | tests_e2e/tests/lib/virtual_machine_client.py:154 | The extracted power states are exactly the status codes that contain `PowerState`, each with its multiplicity in the view. Every extracted code contains the marker. |
| `ClientProperties.MarkedStatusIsFound` | tests_e2e/tests/lib/virtual_machine_client.py:154 | A view with a status containing the marker yields at least one power state. |
| `ClientProperties.TwoMarkedStatusesAreAmbiguous` | tests_e2e/tests/lib/virtual_machine_client.py:154-156 | Two statuses at different positions that both contain the marker yield two or more power states, so the view fails the one-power-state check. |
| `ClientProperties.UnmarkedViewHasNoPowerState` | tests_e2e/tests/lib/virtual_machine_client.py:154-156 | A view with no status containing the marker yields no power state, so it fails the one-power-state check. |
| `ClientProperties.InconsistentViewFailsAtOnce` | tests_e2e/tests/lib/virtual_machine_client.py:150-156 | A poll whose view does not hold exactly one power state ends the wait with the power-state error carrying the statuses. Its calls are only the loop condition's clock reading, the sleep and that fetch: no probe and no further poll. |
| `ClientProperties.FreshUptimeVerifiesAtOnce` | tests_e2e/tests/lib/virtual_machine_client.py:157-168 | A poll whose view reports `PowerState/running` and whose uptime read then puts the boot strictly after `before_restart` ends the wait with success. Its calls are exactly the clock reading, the sleep, that fetch and that uptime read. |
| `ClientProperties.ProbeErrorFailsAtOnce` | tests_e2e/tests/lib/virtual_machine_client.py:157-174 | A poll whose view reports running and whose uptime read fails with anything but exit code 255 and "Connection refused" ends the wait with that error, its exit code and message unchanged, after four calls. |
| `ClientProperties.UnsettledProbePollsAgain` | tests_e2e/tests/lib/virtual_machine_client.py:157-172 | A poll whose view reports running but whose uptime read is refused, or shows a boot no later than `before_restart`, continues with the next view and the next probe at the clock reading after that read. Applied once per poll, and only while each of those polls starts before `start + boot_timeout`, it gives `n` refused connections and then success on poll `n + 1`. |
| `ClientProperties.StoppedMachinePollsAgain` | tests_e2e/tests/lib/virtual_machine_client.py:154-158 | A poll whose single power state is not running continues with the next view and the same probe, without probing. |
| `VirtualMachineClient.IsTransientProbeError` | tests_e2e/tests/lib/virtual_machine_client.py:170-172 | The test for a probe error that the loop absorbs: exit code 255 and a text containing "Connection refused". It has no contract of its own. `VirtualMachineClient.Classify` states what the loop does with it. |
| `VirtualMachineClient.Classify` | tests_e2e/tests/lib/virtual_machine_client.py:154-174 | Decision table for one poll. It is verified exactly when the machine is running, the probe read an uptime, and `now - uptime > before_restart`. It is the power-state error exactly when the view does not hold one power state. A power state other than running continues, whatever the probe. A probe error while running continues when it is transient (exit code 255 and "Connection refused"). Otherwise it fails with that exit code and message unchanged. |
| `VirtualMachineClient.Poll` | tests_e2e/tests/lib/virtual_machine_client.py:151-153 | Every poll sleeps 15 seconds before anything else, so the next poll starts at least 15 seconds later. |
| `VirtualMachineClient.PollOnce` | tests_e2e/tests/lib/virtual_machine_client.py:151-174 | One loop iteration, written as statements: sleep, fetch, extract, and probe only when running. The verdict comes from `Classify`. It is proved equal to `Poll`. |
| `VirtualMachineClient.WaitForBoot` | tests_e2e/tests/lib/virtual_machine_client.py:149-175 | The loop as a recursive function. It raises only the power-state error, the probe error or the boot timeout naming the machine and `boot_timeout`. It makes no poll, only the failing clock reading, exactly when the clock is already at or past the deadline. |
| `VirtualMachineClient.RestartOutcome` | tests_e2e/tests/lib/virtual_machine_client.py:120-175 | The whole of `restart` as a function. It calls nothing exactly when it must wait without an SSH client, and that is exactly when it raises `ValueError`. Otherwise its first call issues the restart. |
| `VirtualMachineClient.Restart` | tests_e2e/tests/lib/virtual_machine_client.py:120-175 | The method with its `while` loop is proved equal to `RestartOutcome`. Waiting without an SSH client raises `ValueError` with no call made. A failed restart operation is reported, and its calls are only the restart issued. Without waiting, it returns right after the restart, with no fetch or probe, and succeeds exactly when the operation completed. As in the source, `ssh_client` defaults to none and `boot_timeout` to five minutes. |
| `ClientProperties.PollCalls` | tests_e2e/tests/lib/virtual_machine_client.py:150-174 | One poll begins with the clock reading that let it start, then sleeps, and reads the loop clock no more. It fetches exactly one view. Only its last call can settle the loop, and that call's verdict is the poll's decision. |
| `ClientProperties.WaitForBootInCallOrder` | tests_e2e/tests/lib/virtual_machine_client.py:150-174 | The wait starts with a clock reading, and every sleep follows one. It fetches right after every sleep and never restarts again. A probe follows a fetch exactly when that fetch reports running: a running fetch is always followed by a probe, and nothing else is. |
| `ClientProperties.WaitForBootSettles` | tests_e2e/tests/lib/virtual_machine_client.py:150-175 | No call before the last one settles the loop: not-running views, stale uptimes and refused connections are absorbed. The result is the verdict of the last call, or otherwise the boot timeout naming the machine and the configured `boot_timeout`. |
| `ClientProperties.WaitForBootRunsToDeadline` | tests_e2e/tests/lib/virtual_machine_client.py:150-175 | Every clock reading of the loop condition is before the deadline exactly when polling continues after it. The wait ends in the boot timeout exactly when its last call is such a reading, which is then at or past `start + boot_timeout`. So the loop never gives up while time is left, for example after some refused connections or stale uptimes. |
| `ClientProperties.WaitForBootPollBound` | tests_e2e/tests/lib/virtual_machine_client.py:149-153 | The wait polls at least once exactly when it starts before `start + boot_timeout`. With `n` polls, `15 * (n - 1)` is less than the time left at the start. |
| `ClientProperties.VerifiedRebootIsCorroborated` | tests_e2e/tests/lib/virtual_machine_client.py:158-168 | A successful wait ends with a fetch whose single power state is `PowerState/running`. That fetch is followed by an uptime read that puts the boot strictly after `before_restart`. |
| `ClientProperties.RestartWaitGuarantees` | tests_e2e/tests/lib/virtual_machine_client.py:137-175 | When waiting with an SSH client and the restart completes, the restart is issued first and only once, and the remaining calls follow loop order. The only results are success, the power-state error, the probe error and the boot timeout. A `boot_timeout` of zero or less fetches no instance view. |
| `ClientProperties.RestartSucceedsOnlyOnFreshUptime` | tests_e2e/tests/lib/virtual_machine_client.py:158-168 | When waiting with an SSH client and the restart completes, `restart` succeeds exactly when its last call is an uptime read showing a boot strictly after `before_restart`. |
| `ClientProperties.RestartTimesOutOnlyAtDeadline` | tests_e2e/tests/lib/virtual_machine_client.py:149-175 | When waiting with an SSH client and the restart completes, `restart` times out exactly when its last call is a clock reading at or past the restart's completion time plus `boot_timeout`. Every earlier loop-condition reading is before that deadline. |

## Left out

- Construction of the SDK clients, credentials and cloud endpoints (lines 46-60): foreign library calls.
- `get_model`, `get_extensions` and `reapply` (lines 62-70, 83-91, 111-118): thin wrappers over SDK calls and helpers that are not part of this model. `get_instance_view` is modelled only as the numbered instance views it returns.
- A failing `get_instance_view` (lines 77, 153): in the model a fetch never fails. In the source, once `execute_with_retry` gives up, its error leaves the loop and `restart` raises it.
- `execute_with_retry` and `_execute_async_operation` are not part of this model. The restart operation's success, failure or timeout is an input. For `update`, only the request it sends is modelled, not the completion of the update operation.
- `time.sleep`, `datetime.utcnow()` and the SSH command. The clock is the sum of the step durations given as inputs plus the fixed sleeps, so clock readings never go backwards. The first loop-condition reading is taken to equal `start`.
- Floating point: uptime, boot timeout and times are whole seconds, and the `float()` parse of the uptime text (line 165) is not modelled. Exceptions other than `CommandError` raised by the probe are not modelled.
- The `timeout` arguments of `restart` and `update` and their defaults (lines 93, 125): the restart operation's completion or failure is an input, and the update's completion is not modelled. The defaults of `ssh_client` and `boot_timeout` (lines 123-124) are modelled as default arguments of `Restart` and `RestartOutcome`.
- A status whose `code` is `None`, or an instance view whose `statuses` is `None`: at line 154 either would raise `TypeError`. In the model the statuses are a list of strings, so neither case can arise.
- `CommandError`'s text: `message` stands for the whole of `str(e)`, which is the string searched for "Connection refused".
- Python aliasing: the caller's dict is a Dafny `map`, which is a value, so "the caller's mapping is not modified" holds by construction and gets no lemma of its own.
- The `json.dumps` of the statuses in the power-state error message (line 156). The SDK's status objects may not be serialisable, in which case the source raises a `TypeError` instead of its own exception. The wait aborts at that poll either way. The model's `PowerStateError(statuses)` always carries the status codes. The SDK is not part of this model.
- Logging, exception texts and `__str__` (lines 177-178): diagnostics only.
