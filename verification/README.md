# nl80211test: the wireless interface lifecycle, modelled in Dafny

This project models the wireless-interface coordinator of `nl80211test`,
together with the helpers that coordinator relies on:

- `InterfaceManagerNl80211::Init` reads the interface list and checks that
  it spans exactly two physical radios. It then switches power save off on
  every interface and splits the list by the TI chipset's OUI (D0-B5-C2).
  It insists on one interface per radio. The TI interface's name becomes
  the AP name and the other interface's name becomes the monitor name.
- `InterfaceManagerNl80211::CreateInterfaces` prepares `sta0` and the AP
  interface on the TI radio, each with a random address under the TI OUI.
  It re-reads the list and deletes the TI radio's leftovers. It then
  prepares `mon0` on the other radio, deletes that radio's leftovers and
  re-reads the list.
- `OneInterface` is the record built for each interface the kernel reports.
- `Terminator` stops every instance of a program by name: SIGTERM, up to
  ten count-only polls, SIGKILL, up to eight polls, and a last SIGKILL.
- `ChannelSetterNl80211` converts a channel number to its frequency and
  sends one nl80211 `SET_WIPHY` request.
- `IfIoctls` holds the socket ioctls: open and close, read and write the
  interface flags, bring an interface up or down, set a hardware address
  and switch power save off.

The kernel (nl80211 and the ioctls) is not modelled. It is an oracle that
answers each call given everything that happened before, so one value
covers every behaviour a kernel or driver could show. A run of the
coordinator is the trace of the calls it made together with their answers.

The main proved properties:

- Every bring-up `CreateInterfaces` issues comes after a power-save-off on
  the same interface. Nothing recreates that interface or brings it up in
  between. This is the ordering rule that keeps the TI firmware alive.
- A failed list read, create or bring-up ends `CreateInterfaces` at once,
  and so does a failed bring-down of a role interface being reused. Failed
  power-save-off and MAC calls are only logged, and so are the cleanup
  loops' failures; there a failed bring-down is still followed by the
  delete. A run that succeeds therefore had every list read, create and
  bring-up succeed. The first call of each stage, and what its failure
  leads to, are stated exactly.
- `sta0` and the AP interface are created only on the TI radio, as station
  and access point. The only monitor interface is `mon0`, created on the
  radio picked from the list that the first re-read returned.
- `sta0` is assigned the generated station address exactly when its
  bring-down or create was accepted. A successful run also assigned the AP
  interface the successor address, and no other address is ever assigned.
- The cleanup loops delete exactly the leftovers on the right radio, in
  list order.
- `Terminate` is one uniform loop over a 21-pass signal schedule.
- The channel-to-frequency mapping round-trips up to its 32-bit wrap-around.
- With a kernel that reads back the flags written to it, a successful
  bring-up is visible to the next flags read.

Modules:

| file | module | models |
|---|---|---|
| `common.dfy` | `Common` | machine integer types, `Option`, `Result` |
| `one_interface.dfy` | `InterfaceRecord` | `OneInterface`, `strncpy`, C strings |
| `kernel.dfy` | `Kernel` | the calls the coordinator makes, the kernel oracle, traces |
| `interface_manager.dfy` | `InterfaceManager` | `Init`, `CategorizeInterfaceList`, `GetInterfaceByPhyAndName` |
| `interface_creation.dfy` | `InterfaceCreation` | `CreateInterfaces` |
| `terminator.dfy` | `Terminator` | `KillInstancesOf`, `Terminate` |
| `channel_setter.dfy` | `ChannelSetter` | `ChannelToFrequency`, `SetChannel` |
| `if_ioctls.dfy` | `IfIoctls` | `Open`, `Close`, flags, `SetMacAddress`, `SetWirelessPowerSaveOff` |

Facts about the code that the model keeps:

- `Init` only switches power save off on each interface
  (`InterfaceManagerNl80211.cpp:76-87`). It brings no interface down.
- `InterfaceManagerNl80211.h:60` initialises `m_apName` to `"ap0"`. A
  successful `Init` copies the TI interface's name into it
  (`InterfaceManagerNl80211.cpp:110`), so `CreateInterfaces` prepares the
  AP interface under that name, for example `wlan0`.
- `CreateInterfaces` names `sta0`, the AP interface and `mon0` itself
  (`InterfaceManagerNl80211.cpp:298-316`, `355-370`, `454-470`). It learns
  about the interfaces only from the two list re-reads
  (`InterfaceManagerNl80211.cpp:399-404`, `503-508`).
- When no interface lies off the TI radio, the code logs it and uses
  phy 1 (`InterfaceManagerNl80211.cpp:434-451`).
- The station is looked up and created as `m_staName`
  (`InterfaceManagerNl80211.cpp:298`, `310`) but brought down by the
  literal `"sta0"` (`InterfaceManagerNl80211.cpp:302`).
  `InterfaceManagerNl80211.h` declares no `m_staName`, so the model uses
  `sta0` throughout.

## Model

| member | source | states |
|---|---|---|
| InterfaceRecord.NewInterface | nl80211test-1.0.0/src/OneInterface.h:22-33 | The record keeps phy, type, frequency and reported MAC length. Its name reads back as the argument's C string cut to 16 characters, the 17th byte is a terminator, and the MAC is the first six bytes given. |
| InterfaceRecord.StrNCopy | nl80211test-1.0.0/src/OneInterface.h:30 | `strncpy` writes exactly n characters: the source string's characters, then NUL padding. |
| InterfaceRecord.CString | nl80211test-1.0.0/src/OneInterface.h:20 | A name buffer reads as the longest NUL-free prefix, stopping at the first NUL. |
| InterfaceRecord.CStringOfTerminated | nl80211test-1.0.0/src/OneInterface.h:30-31 | A NUL-free string followed by a terminator reads back as itself. |
| InterfaceRecord.NameFitsBuffer | nl80211test-1.0.0/src/OneInterface.h:20-31 | A record whose 17th name byte is NUL has a name of at most 16 characters. |
| InterfaceManager.DistinctPhysFrom | nl80211test-1.0.0/src/InterfaceManagerNl80211.cpp:56-66 | The find/push_back loop keeps the vector duplicate-free, keeps its prefix, and adds exactly the phys of the list. |
| InterfaceManager.DistinctPhys | nl80211test-1.0.0/src/InterfaceManagerNl80211.cpp:56-66 | The `phys` vector holds every phy of the list once and nothing else. |
| InterfaceManager.DistinctPhysCount | nl80211test-1.0.0/src/InterfaceManagerNl80211.cpp:56-75 | The count Init compares with two is the number of distinct radios. |
| InterfaceManager.Categorize | nl80211test-1.0.0/src/InterfaceManagerNl80211.cpp:127-146 | Interfaces in the TI part carry the OUI and those in the other part do not. Together the parts are as long as the list, and `found` holds iff the TI part is non-empty. |
| InterfaceManager.CategorizePermutes | nl80211test-1.0.0/src/InterfaceManagerNl80211.cpp:130-144 | The two parts together are a permutation of the list: nothing is lost or duplicated. |
| InterfaceManager.CategorizeFound | nl80211test-1.0.0/src/InterfaceManagerNl80211.cpp:129-145 | The categorizer returns true iff some interface of the list has the TI OUI. |
| InterfaceManager.GetInterfaceByPhyAndName | nl80211test-1.0.0/src/InterfaceManagerNl80211.cpp:148-162 | It returns no interface iff none has that phy and name. Otherwise it returns the first one that does. |
| InterfaceManager.PowerSaveSweep | nl80211test-1.0.0/src/InterfaceManagerNl80211.cpp:76-87 | Init issues one power-save-off per interface, in list order, whatever each answer. |
| InterfaceManager.ChooseRoles | nl80211test-1.0.0/src/InterfaceManagerNl80211.cpp:88-113 | A list with no TI interface fails with NoTiPhy. Success holds iff the list is two interfaces of which exactly one is TI. The AP name is then the TI one's name and the monitor name the other's. |
| InterfaceManager.Init | nl80211test-1.0.0/src/InterfaceManagerNl80211.cpp:47-120 | An unreadable list fails after one call. A phy count other than two fails with that count after one call. Otherwise the power-save sweep follows and the verdict is the role choice. |
| InterfaceManager.InitSucceeds | nl80211test-1.0.0/src/InterfaceManagerNl80211.cpp:47-120 | Init succeeds iff the list is readable, spans two phys and holds one TI and one other interface. The names it publishes are those two interfaces' names. |
| InterfaceManager.CategorizePair | nl80211test-1.0.0/src/InterfaceManagerNl80211.cpp:98-107 | One TI and one other interface is the same as a two-element list that disagrees on the OUI test. |
| InterfaceManager.InitSuccessTopology | nl80211test-1.0.0/src/InterfaceManagerNl80211.cpp:67-107 | After a successful Init the two role interfaces sit on the two different radios. |
| InterfaceManager.RolesOnDistinctPhys | nl80211test-1.0.0/src/InterfaceManagerNl80211.cpp:67-113 | Two phys and a successful role choice force a two-element list whose TI and other interfaces have different phys. |
| InterfaceManager.InitIgnoresPowerSaveAnswers | nl80211test-1.0.0/src/InterfaceManagerNl80211.cpp:78-87 | Power-save failures are only logged: two kernels that agree on the list give the same Init verdict. |
| InterfaceCreation.StationMac | nl80211test-1.0.0/src/InterfaceManagerNl80211.cpp:289-293 | The station address is the TI OUI followed by the three random bytes. |
| InterfaceCreation.ApMac | nl80211test-1.0.0/src/InterfaceManagerNl80211.cpp:387 | The AP address keeps five octets and increments the last modulo 256. |
| InterfaceCreation.GeneratedMacsDistinct | nl80211test-1.0.0/src/InterfaceManagerNl80211.cpp:383-388 | Both generated addresses carry the TI OUI, and the AP's differs from the station's for every random draw, 255 included. |
| InterfaceCreation.GuardedIsPowerSaveFirst | nl80211test-1.0.0/src/InterfaceManagerNl80211.cpp:317-348 | A bring-up directly preceded by its power-save-off, with at most a MAC assignment between, satisfies the ordering rule. |
| InterfaceCreation.Reuse | nl80211test-1.0.0/src/InterfaceManagerNl80211.cpp:298-316 | A role interface already listed on the phy is brought down; otherwise it is created. |
| InterfaceCreation.Activate | nl80211test-1.0.0/src/InterfaceManagerNl80211.cpp:317-348 | The sequence is power-save-off, then the MAC assignment when one is given, then bring-up. All three address the same name, and only the bring-up's failure is an error. |
| InterfaceCreation.PrepareVif | nl80211test-1.0.0/src/InterfaceManagerNl80211.cpp:295-348 | The reuse-or-create call comes first; that its refusal stops the run is stated by `PrepareVifFirstCall`. The power-save rule holds, only that name is touched, and no list read or delete happens. Success ends with a successful bring-up. |
| InterfaceCreation.PrepareVifMacOk | nl80211test-1.0.0/src/InterfaceManagerNl80211.cpp:339-391 | Preparing a role interface assigns only that role's generated address, never in monitor mode. |
| InterfaceCreation.RoleStage | nl80211test-1.0.0/src/InterfaceManagerNl80211.cpp:295-397 | `sta0` and then the AP interface are prepared under the power-save rule. No address other than the two generated ones is assigned. A failure ends at a fatal call. Success means both bring-ups succeeded, `sta0` was assigned `staMac` and the AP interface `ApMac(staMac)`. |
| InterfaceCreation.Doomed | nl80211test-1.0.0/src/InterfaceManagerNl80211.cpp:415-419 | The leftovers are exactly the listed interfaces on the phy whose names are not kept. |
| InterfaceCreation.DeleteLoop | nl80211test-1.0.0/src/InterfaceManagerNl80211.cpp:415-430 | For each leftover, in list order, exactly one bring-down and one delete are issued, whatever the answers. |
| InterfaceCreation.PairsDeleteOnly | nl80211test-1.0.0/src/InterfaceManagerNl80211.cpp:486-501 | A cleanup loop deletes no interface other than its leftovers. |
| InterfaceCreation.OtherPhy | nl80211test-1.0.0/src/InterfaceManagerNl80211.cpp:434-451 | `found` holds iff some interface is off the TI radio. The phy is then that of the first such interface; otherwise it falls back to 1. |
| InterfaceCreation.MonitorAndClean | nl80211test-1.0.0/src/InterfaceManagerNl80211.cpp:453-508 | `mon0` is prepared with no MAC assignment under the power-save rule, and its radio is cleaned. Success needs the final list read and a successful `mon0` bring-up. |
| InterfaceCreation.MonitorAndCleanTargets | nl80211test-1.0.0/src/InterfaceManagerNl80211.cpp:486-508 | It deletes only the monitor radio's leftovers. When the run reaches the final read, whether that read succeeds or fails, each leftover is brought down and deleted, in order, just before it. |
| InterfaceCreation.PrepareVifErrors | nl80211test-1.0.0/src/InterfaceManagerNl80211.cpp:298-348 | A refused bring-down reports BringDownFailed and a refused create CreateFailed. After an accepted one, the only error is BringUpFailed. |
| InterfaceCreation.MonitorStage | nl80211test-1.0.0/src/InterfaceManagerNl80211.cpp:399-510 | The list is re-read. If it is unreadable, that one read is the whole stage and the failure is RelistFailed. Otherwise the TI radio is cleaned and the monitor is prepared. No MAC is assigned, and success implies a successful `mon0` bring-up. |
| InterfaceCreation.MonitorStageCleanup | nl80211test-1.0.0/src/InterfaceManagerNl80211.cpp:411-501 | Only the TI radio's leftovers (except the AP and `sta0`) and the monitor radio's leftovers (except `mon0`) are deleted. The TI leftovers are handled in order right after the re-read. |
| InterfaceCreation.CreateInterfaces | nl80211test-1.0.0/src/InterfaceManagerNl80211.cpp:269-511 | Every bring-up follows a power-save-off on the same name, with no create or earlier bring-up of it in between. Every failure ends at a fatal call that failed; success ends with a successful list read. No address other than the two generated ones is assigned. Success means `sta0`, the AP and `mon0` were all brought up successfully, `sta0` was assigned `StationMac(r3, r4, r5)` and the AP interface its successor. |
| InterfaceCreation.PrepareVifFirstCall | nl80211test-1.0.0/src/InterfaceManagerNl80211.cpp:295-348 | The first call is the bring-down or create that the listing calls for, and a refusal of it is the whole run and an error. Afterwards only non-decisive calls fail without ending the run. The only create is of that name on that phy in that mode. |
| InterfaceCreation.RoleStageFailures | nl80211test-1.0.0/src/InterfaceManagerNl80211.cpp:295-397 | The stage starts with `sta0`'s bring-down or create on the TI radio as a station, and a refusal of it ends the stage with an error. Only non-decisive calls fail without ending it. On success every decisive call succeeded, and so did the AP's bring-down or create. |
| InterfaceCreation.RoleStageTargets | nl80211test-1.0.0/src/InterfaceManagerNl80211.cpp:298-393 | The stage reads no list and deletes nothing. It creates only `sta0` as a station and the AP interface as an access point, both on the TI radio, and brings down only those two. |
| InterfaceCreation.MonitorAndCleanFailures | nl80211test-1.0.0/src/InterfaceManagerNl80211.cpp:453-508 | The part starts with `mon0`'s bring-down or create on the monitor radio in monitor mode, and a refusal of it ends the run with a failure. Only non-decisive calls fail without ending it. |
| InterfaceCreation.MonitorAndCleanCreates | nl80211test-1.0.0/src/InterfaceManagerNl80211.cpp:454-470 | The only interface created is `mon0`, on the monitor radio, in monitor mode. |
| InterfaceCreation.MonitorStageFailures | nl80211test-1.0.0/src/InterfaceManagerNl80211.cpp:399-508 | The stage starts with a list read that succeeds iff the list is readable. Only non-decisive calls fail without ending it. |
| InterfaceCreation.MonitorStageCreates | nl80211test-1.0.0/src/InterfaceManagerNl80211.cpp:434-470 | A create happens only after a readable re-read. It is `mon0` in monitor mode on the radio OtherPhy picks from that list. |
| InterfaceCreation.MonitorStageMonitorCreates | nl80211test-1.0.0/src/InterfaceManagerNl80211.cpp:399-470 | Every monitor-mode create in the stage is `mon0`, on the radio OtherPhy picks from the first list re-read before it. |
| InterfaceCreation.CreateInterfacesFirstCall | nl80211test-1.0.0/src/InterfaceManagerNl80211.cpp:295-316 | The run starts with `sta0`'s bring-down or create on the TI radio as a station. A refusal of it is the whole run and a failure. |
| InterfaceCreation.CreateInterfacesFailures | nl80211test-1.0.0/src/InterfaceManagerNl80211.cpp:269-511 | Only non-decisive calls (power-save-off, MAC, cleanup bring-downs followed by their delete, cleanup deletes) fail without ending the run. A run whose last call failed is a failure. |
| InterfaceCreation.CreateInterfacesSucceeds | nl80211test-1.0.0/src/InterfaceManagerNl80211.cpp:269-511 | A successful run had every list read, create and bring-up succeed. |
| InterfaceCreation.CreateInterfacesRoleCreates | nl80211test-1.0.0/src/InterfaceManagerNl80211.cpp:298-370 | Every create not in monitor mode is `sta0` as a station or the AP interface as an access point, both on the TI radio. |
| InterfaceCreation.CreateInterfacesMonitorCreates | nl80211test-1.0.0/src/InterfaceManagerNl80211.cpp:399-470 | Every monitor-mode create is `mon0`, on the radio OtherPhy picks from the first list re-read before it. |
| InterfaceCreation.PrepareVifAssignsMac | nl80211test-1.0.0/src/InterfaceManagerNl80211.cpp:298-348 | The given address is assigned to the interface iff the kernel accepts its bring-down or create, whatever the power-save-off or bring-up answer. |
| InterfaceCreation.RoleStageStationMac | nl80211test-1.0.0/src/InterfaceManagerNl80211.cpp:298-341 | `sta0` is assigned `staMac` iff the kernel accepts `sta0`'s bring-down or create. |
| InterfaceCreation.CreateInterfacesStationMac | nl80211test-1.0.0/src/InterfaceManagerNl80211.cpp:289-341 | `sta0` is assigned the address built from the three random bytes iff the kernel accepts `sta0`'s bring-down or create. |
| Terminator.DecimalText | nl80211test-1.0.0/src/Terminator.cpp:19 | A non-negative pid is written as its digits without leading zeros; a negative one starts with '-'. |
| Terminator.AtoiDecimalText | nl80211test-1.0.0/src/Terminator.cpp:79 | `atoi` reads back every non-negative pid written in decimal. |
| Terminator.DigitsRoundTrip | nl80211test-1.0.0/src/Terminator.cpp:79 | The value of the decimal digits of n is n. |
| Terminator.StatusName | nl80211test-1.0.0/src/Terminator.cpp:52-67 | An unopenable status file gives no name. Otherwise there is none iff no line starts with "Name:", and the name is the value of the first such line. |
| Terminator.Matching | nl80211test-1.0.0/src/Terminator.cpp:31-93 | The pass never selects more entries than the directory holds. |
| Terminator.MatchingSelects | nl80211test-1.0.0/src/Terminator.cpp:31-75 | The entries a pass counts are exactly the digit-named entries, other than the caller's own, whose status names the program. |
| Terminator.PidsAt | nl80211test-1.0.0/src/Terminator.cpp:79 | Each signalled pid is `atoi` of its entry's name, position by position. |
| Terminator.CountAndSignal | nl80211test-1.0.0/src/Terminator.cpp:31-93 | The loop counts exactly the matching entries. It signals those pids in directory order when the signal is non-negative, and none otherwise. |
| Terminator.KillInstancesOf | nl80211test-1.0.0/src/Terminator.cpp:9-98 | It returns false with a zero count iff `/proc` cannot be opened. Otherwise it returns the count and kills of the reference pass `Sweep`. |
| Terminator.Sweep | nl80211test-1.0.0/src/Terminator.cpp:9-98 | A pass fails iff `/proc` is missing. Its count is the number of matches, and it signals their pids exactly when the signal is non-negative. |
| Terminator.CountIgnoresSignal | nl80211test-1.0.0/src/Terminator.cpp:77-90 | The count does not depend on the signal, and a signalling pass signals as many processes as it counts. |
| Terminator.IgnoredPidNeverSignalled | nl80211test-1.0.0/src/Terminator.cpp:19-42 | The caller's own pid is never signalled when the directory names are canonical decimal. |
| Terminator.Step | nl80211test-1.0.0/src/Terminator.cpp:104-115 | One pass is recorded. A failed pass ends with false, a zero count ends with true, and otherwise the run goes on. |
| Terminator.Polls | nl80211test-1.0.0/src/Terminator.cpp:121-136 | At most `left` polls are made, and a run still going after them has made exactly `left`. |
| Terminator.FinalKill | nl80211test-1.0.0/src/Terminator.cpp:171-185 | The last SIGKILL pass always decides the run. |
| Terminator.KillStage | nl80211test-1.0.0/src/Terminator.cpp:139-185 | The SIGKILL stage decides the run within 1 to 10 passes. |
| Terminator.Terminate | nl80211test-1.0.0/src/Terminator.cpp:100-186 | Terminate always ends after 1 to 21 passes. |
| Terminator.Escalation | nl80211test-1.0.0/src/Terminator.cpp:100-186 | Reference loop over the schedule. Pass i uses the schedule's signal on its own snapshot, and every pass but the last still finds processes. The verdict is true iff the last pass counted zero; a last pass that still counts means the schedule is spent. |
| Terminator.EscalationStep | nl80211test-1.0.0/src/Terminator.cpp:121-136 | On a poll slot the reference loop takes one count-only pass and continues unless it was decisive. |
| Terminator.PollsAreEscalation | nl80211test-1.0.0/src/Terminator.cpp:121-169 | Either poll loop is the reference loop run over its count-only slots. |
| Terminator.FinalKillIsEscalation | nl80211test-1.0.0/src/Terminator.cpp:171-185 | The last SIGKILL is the reference loop's final slot. |
| Terminator.KillStageIsEscalation | nl80211test-1.0.0/src/Terminator.cpp:139-185 | The SIGKILL stage is the reference loop from slot 11. |
| Terminator.TerminateIsEscalation | nl80211test-1.0.0/src/Terminator.cpp:100-186 | Terminate equals the reference loop over the whole schedule. |
| Terminator.TerminateFollowsSchedule | nl80211test-1.0.0/src/Terminator.cpp:100-186 | There are 1 to 21 passes on the schedule SIGTERM, 10 polls, SIGKILL, 8 polls, SIGKILL, and all but the last found processes. The result is true iff the last pass counted zero. False means `/proc` failed or all 21 passes ran. |
| ChannelSetter.ChannelToFrequency | nl80211test-1.0.0/src/ChannelSetterNl80211.cpp:29-40 | Channels below 14 map to 2407 + 5c, channel 14 to 2484, and later channels to 5000 + 5c, wrapping modulo 2^32 past 858992459. |
| ChannelSetter.DsssBand | nl80211test-1.0.0/src/ChannelSetterNl80211.cpp:31-34 | Channels 1 to 13 lie between 2412 and 2472 MHz, 5 MHz apart. |
| ChannelSetter.FrequencyToChannel | nl80211test-1.0.0/src/ChannelSetterNl80211.cpp:29-40 | The inverse mapping: any channel it returns maps back to the frequency. |
| ChannelSetter.FrequencyRoundTrip | nl80211test-1.0.0/src/ChannelSetterNl80211.cpp:29-40 | Every channel up to the wrap is recovered from its frequency. |
| ChannelSetter.ChannelToFrequencyIncreasing | nl80211test-1.0.0/src/ChannelSetterNl80211.cpp:29-40 | Up to the wrap, a higher channel has a strictly higher frequency, across band boundaries. |
| ChannelSetter.ChannelToFrequencyWraps | nl80211test-1.0.0/src/ChannelSetterNl80211.cpp:39 | Channel 858992460 wraps to 4 MHz, below channel 15's frequency. |
| ChannelSetter.SetChannel | nl80211test-1.0.0/src/ChannelSetterNl80211.cpp:42-78 | One to five netlink steps are taken, and the result is true iff the last step was an accepted send. |
| ChannelSetter.RunPlan | nl80211test-1.0.0/src/ChannelSetterNl80211.cpp:62-77 | Reference runner: the plan's steps in order, stopping at the first refusal, succeeding iff all were accepted. |
| ChannelSetter.SetChannelFollowsPlan | nl80211test-1.0.0/src/ChannelSetterNl80211.cpp:42-78 | SetChannel is the reference runner on SET_WIPHY, ifindex, the channel's frequency, NO_HT, send. |
| ChannelSetter.SetChannelSteps | nl80211test-1.0.0/src/ChannelSetterNl80211.cpp:62-77 | The steps issued are a prefix of the plan, and every step but the last was accepted. |
| ChannelSetter.SetChannelSendsOnlyComplete | nl80211test-1.0.0/src/ChannelSetterNl80211.cpp:62-77 | Nothing is sent unless setup and all three attributes were accepted, and success means all five steps ran. |
| IfIoctls.Close | nl80211test-1.0.0/src/IfIoctls.cpp:29-37 | It always returns true. A positive descriptor is closed and replaced by -1; any other is left alone. |
| IfIoctls.Open | nl80211test-1.0.0/src/IfIoctls.cpp:14-27 | A held descriptor is released first, then a new socket is taken; true iff it is non-negative. |
| IfIoctls.OpenIssuesNothing | nl80211test-1.0.0/src/IfIoctls.cpp:14-27 | Opening issues no ioctl. |
| IfIoctls.IssueAndClose | nl80211test-1.0.0/src/IfIoctls.cpp:64-89 | Open, one request, close: the only ioctl issued is that request, with its answer. |
| IfIoctls.OpenIssueClose | nl80211test-1.0.0/src/IfIoctls.cpp:64-89 | A failed open returns false with no ioctl. Otherwise exactly one request is issued and its answer returned. The socket is closed on every path. |
| IfIoctls.GetFlags | nl80211test-1.0.0/src/IfIoctls.cpp:39-62 | At most one SIOCGIFFLAGS is issued, and a flags word is returned iff it succeeded. The socket is closed on every path. |
| IfIoctls.WithUp | nl80211test-1.0.0/src/IfIoctls.cpp:99 | The up bit is set and every other bit kept. |
| IfIoctls.WithoutUp | nl80211test-1.0.0/src/IfIoctls.cpp:111 | The up bit is cleared and every other bit kept. |
| IfIoctls.BringInterfaceUp | nl80211test-1.0.0/src/IfIoctls.cpp:91-101 | A failed read returns false. Otherwise the flags read, with the up bit set, are written back. |
| IfIoctls.BringInterfaceDown | nl80211test-1.0.0/src/IfIoctls.cpp:103-113 | A failed read returns false. Otherwise the flags read, with the up bit cleared, are written back. |
| IfIoctls.UpDownRequests | nl80211test-1.0.0/src/IfIoctls.cpp:91-113 | The requests are the read and, only if it succeeded, one write of the modified flags whose answer is the result. |
| IfIoctls.SignExtend | nl80211test-1.0.0/src/IfIoctls.cpp:59 | The `short` flags become an `int` in the 16-bit signed range that agrees with them modulo 2^16. |
| IfIoctls.GetInterfaceFlags | nl80211test-1.0.0/src/IfIoctls.cpp:115-127 | On failure everything is zero or false. On success the raw flags are the word read, sign-extended, `isUp` holds iff IFF_UP is set, and `isRunning` iff IFF_RUNNING is set. |
| IfIoctls.WriteIsVisible | nl80211test-1.0.0/src/IfIoctls.cpp:64-89 | With a coherent kernel, a successful flags write is what the next successful read returns. |
| IfIoctls.UpIsVisible | nl80211test-1.0.0/src/IfIoctls.cpp:91-127 | With a coherent kernel, after a successful bring-up the interface reads as up with its other flags unchanged. |
| IfIoctls.DownIsVisible | nl80211test-1.0.0/src/IfIoctls.cpp:103-127 | With a coherent kernel, after a successful bring-down the interface reads as down with its other flags unchanged. |
| IfIoctls.SetMacAddress | nl80211test-1.0.0/src/IfIoctls.cpp:170-205 | At most one SIOCSIFHWADDR is issued, with the name and address given, and its answer is the result. The family is Radiotap (803) iff the interface is in monitor mode and Ethernet (1) otherwise. |
| IfIoctls.IssueAndKeep | nl80211test-1.0.0/src/IfIoctls.cpp:215-228 | Open and one request, with no close: the only ioctl issued is that request, with its answer. |
| IfIoctls.SetWirelessPowerSaveOff | nl80211test-1.0.0/src/IfIoctls.cpp:209-234 | A failed open issues no ioctl and returns false. Otherwise the only ioctl is one power-save-off on the name, and its answer is the result. On success the socket stays open; on failure it is closed. |
| IfIoctls.NextOpenReleasesPowerSaveSocket | nl80211test-1.0.0/src/IfIoctls.cpp:14-17 | The socket the power-save call leaves open is closed by the next Open before a new one is taken. |
| IfIoctls.CloseKeepsDescriptorZero | nl80211test-1.0.0/src/IfIoctls.cpp:29-36 | Descriptor 0 counts as no descriptor and is never closed. |

## Left out

- The nl80211 and ioctl system calls, `/proc`, sockets and the kernel's state are oracles given as parameters. Every property holds for every answer they could give.
- `rand()` is three byte parameters. `srand(time())`, the sleeps between Terminator passes and all logging are left out; the sleeps become distinct `/proc` snapshots per pass.
- The singleton (`GetInstance`), the name getters, `LogInterfaceList`, main.cpp, Log.cpp, TextColor.h and HostapdManager.h are not part of this model.
- `Nl80211InterfaceAdmin` (`GetInterfaceList`, `Create*Interface`, `DeleteInterface`) and the `Nl80211Base` message helpers are not part of this model. Their calls are oracle calls.
- `IfIoctls::SetIpAddressAndNetmask` and `IfIoctls::GetFrequency`, and `ChannelSetterNl80211::OpenConnection`, `OpenConnection2`, `SetChannel2`, `CloseConnection` and `CloseConnection2`: none is called by the modelled operations. The netlink connection is part of the oracle.
- The `ifr_name` copy with `strncpy(…, SHX_IFNAMESIZE)`: IfIoctls.h, which defines the size, is not part of this model, so requests carry the whole name.
- `IfIoctls.SetFlags` has no contract of its own. It is `OpenIssueClose` with SIOCSIFFLAGS, whose contract states it.
- In `CreateInterfaces` the ioctl calls are single kernel calls. `IfIoctls` models their socket handling separately.
- `Init` is modelled on a manager whose TI and other lists start empty. A repeated Init would append to the lists kept from the earlier one.
- `Terminator.NameValue`: a status line of exactly "Name:" makes `substr(6)` throw `out_of_range` in C++. The model reads it as the empty name.
- `Terminator.Atoi`: only the leading-digit form `atoi` meets here is modelled, because only names starting with a digit reach it. Leading blanks, signs and overflow are not modelled.
- `Terminator.IgnoredPidNeverSignalled`: this requires canonical decimal names in `/proc`, as the kernel writes them. A name such as `0123` would compare unequal to the pid text and still `atoi` to the pid.
- `ChannelSetter.FrequencyRoundTrip` and `ChannelSetter.ChannelToFrequencyIncreasing` hold only up to channel 858992459. Past it the `uint32_t` product wraps (`ChannelToFrequencyWraps`).
- `IfIoctls.UpIsVisible`, `IfIoctls.DownIsVisible` and `IfIoctls.WriteIsVisible` assume a coherent kernel, one that reads back the last flags written. A real driver may change flags on its own.
- `InterfaceCreation.MonitorStageCleanup` does not restate the monitor radio's bring-down/delete pairs. `InterfaceCreation.MonitorAndCleanTargets` states them for the part of the run they belong to.
- `InterfaceRecord.StrNCopy` and `InterfaceRecord.NewInterface`: names are sequences of Dafny characters, not bytes, so the cut at 16 counts code points. A name with multi-byte UTF-8 characters is cut later than `strncpy` would cut it, and never inside a character.
