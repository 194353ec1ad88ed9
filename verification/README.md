# Verified model of the audio device framework

This project models the stateful core of the firmware framework of a Bluetooth
audio device in Dafny and proves what that core is for: a firmware update that
delivers exactly the image bytes, USB transfers that are never lost or
reported twice, a power manager that never sleeps under somebody's lock, a
backup store that behaves like a map, allocators and caches whose books
balance, and rate controllers that stay in range over every run.

Each part comes in two layers.

* A specification layer of datatypes and functions. Protocols are state machines
  over their steps, and the main theorems quantify over every run, every
  interleaving, every host answer or every byte buffer.
* Where the source updates things in place, a class or a method with the
  source's fields, arrays, linked nodes and loops. Its methods are proved equal to the
  specification functions, so the theorems hold for them.

Where a promised property turned out to fail, the code is kept as it is, and a
lemma states the exact condition under which the property holds.

| files | component |
|---|---|
| `Basics` | bytes, options and the clock's range, shared by all |
| `OtaBytes`, `OtaDevice`, `OtaHost`, `OtaExact`, `OtaLeftover`, `OtaBackend` | firmware update over Bluetooth: frames, the device's read loop, honest hosts, exactness, leftover frames |
| `OtaStorage` | chunked flash storage under the update |
| `UsbTransfer`, `UsbPreempt`, `UsbTransferPool` | the pool of USB device transfers, with the handlers whole and with the work handler preempted |
| `UsbControl`, `UsbControlEndpoint` | packets on USB endpoint 0 |
| `UsbHostConfig` | parsing a USB configuration on the host side |
| `Standby`, `StandbyManager` | wake locks and the standby state machine |
| `EsdStore`, `EsdManager` | the scene store that survives an electrostatic reset |
| `SlotBits`, `SlotArray`, `MemInfo`, `MemPools` | slot allocator and memory accounting of the resource manager |
| `ResCache`, `ResCacheList` | reference-counted scene and text buffers |
| `UiRegion` | rectangle arithmetic |
| `TwsAps`, `TwsPlayer` | playback rate of a pair of earbuds |
| `Aps` | playback rate of a single device, running average |
| `AppSwitch` | the application switcher |
| `PcmStaging` | staging of short writes in front of the DAC |

## Findings

Properties that do not hold without a condition, and that condition:

* A read over Bluetooth does not drain the link before it opens its window, and
  packet numbers restart with every request. With complete frames left over from an
  earlier exchange, a read is exact with every honest host if and only if one of them is
  refused, or they fill the window with just the right bytes, or the answer fits behind
  them: no data frame is among them, or a multiple of 256 whose bytes the range begins
  with and repeats (`OtaLeftover.LeftoverExactIff`; `OtaExact.StaleFrameAccepted` is the simplest
  failure).
  A successful read leaves the link empty for the next one (`OtaExact.ReadExact`).
* Endpoint 0: a request handed to the upper layer leaves a mark until its packet is taken.
  If it is never answered, the device drops everything after the first packet of the
  next IN transfer (`UsbControl.InTransferExact` is an if-and-only-if on that mark). A
  zero-length flag left by an aborted transfer adds a packet to the next status stage
  (`UsbControl.StatusStageEnds`).
* A request that is refused, or whose length is beyond the buffer, only stalls: a length an
  earlier setup announced stays, and data that follow are still collected for it
  (`UsbControl.SetupWaits`, `UsbControl.TooLongStalls`).
* An error of the controller is never reported as success by whole handlers
  (`UsbTransfer.RunReports`). With the work handler preempted it can be: if an interrupt
  meets the error between the handler's test and its read, exactly if that read is short
  or fills the buffer (`UsbPreempt.ErrorOverruled`); as long as nothing ends the transfer
  in between it is not (`UsbPreempt.PreemptedTidy`).
* A suspend that a lock taken by the application or a service cuts short ends in S1, with
  everybody told to suspend and nobody told to resume (`Standby.Suspends`).
* Two transfers outstanding on one endpoint hide each other; reachability survives a
  start exactly if none was outstanding (`UsbTransfer.StartReachable`). A slot started without
  a callback is never given back (`UsbTransfer.NullCallbackLeaks`).
* The scene store restores what was saved if and only if the first entry under the tag
  has that length, or there is none and the store is open; a tag first saved with another
  length breaks it (`EsdStore.SaveRestoreLaw`, `EsdStore.GrowthIsLost`). Tag 0 reads as present
  while the store is empty (`EsdStore.StoreIsMap`). An entry that fills the store exactly puts its
  end mark one byte past it (`EsdManager.Manager.SaveScene`).
* The slot counter stays exact on a free only for slots in use, and callers' data stay
  disjoint exactly if it fits one slot (`SlotArray.Slots.FreeAt`, `SlotArray.SlotsDisjoint`).
* The early return of the rectangle subtraction is wrong exactly for a single pixel at
  the corner of an empty region (`UiRegion.SubtractExact`, `UiRegion.SizesAddUp`).
* The clean check of a flash range skips a last chunk of one to three bytes, and its
  answer is right on every content if and only if there is no such chunk
  (`OtaStorage.CleanIsExact`). On SD it gets through an erased range if and only if it reads on
  sector boundaries (`OtaStorage.EraseThenClean`).
* The rate monitor of a pair changes the rate against its target if and only if the current
  level is outside its bounds on that side. In a pair this happens exactly on an alignment
  excursion outward from an outermost base level, whose level the monitor takes for the
  base (`TwsAps.AgainstSignIff`, `TwsAps.MisledIff`, `TwsAps.ExcursionMisleads`).
* The application switcher ends its walk exactly if it is forced, has at most one
  application, finds a plugged one, or is asked to go where it is (`AppSwitch.EndsIff`).

## Model

| member | source | states |
|---|---|---|
| OtaBytes.TlvRoundTrip | framework/ota/ota_backend_bt.c:184-288 | unpacking a packed type-length-value field followed by anything gives the field and the rest |
| OtaBytes.LittleEndian | framework/ota/ota_backend_bt.c:184-236 | two and four byte numbers are least significant byte first |
| OtaBytes.RequestRoundTrip | framework/ota/ota_backend_bt.c:482-518 | a host that reads the request by tags, with the numbers of the protocol, recovers offset, length and mask |
| OtaDevice.ReadInside | framework/ota/ota_backend_bt.c:746-792 | for any bytes from any host, no write of a read leaves the caller's buffer |
| OtaDevice.Process | framework/ota/ota_backend_bt.c:642-698 | whatever the bytes, one command keeps the received count within the requested length and the window where it was; a successful one consumes at least a header |
| OtaDevice.ProcessInside | framework/ota/ota_backend_bt.c:642-698 | whatever the bytes, one command writes only inside the window |
| OtaDevice.SegmentLength | framework/ota/ota_backend_bt.c:520-562 | a data command with the next packet number takes its parameters less number and checksum, in 16 bits: a checksum command of one to four bytes asks for 65532 to 65535 bytes; any other number is refused after one byte |
| OtaDevice.ResultTaken | framework/ota/ota_backend_bt.c:459-480 | a negotiation result takes one value byte, or none if it announces none, and counts only under type 1 |
| OtaDevice.HeaderTaken | framework/ota/ota_backend_bt.c:642-698 | a header of another service or type is an error; an unknown command is passed over without its parameters |
| OtaDevice.NegotiationFirst | framework/ota/ota_backend_bt.c:482-492 | before the negotiation has ended a read fails at once and touches nothing |
| OtaHost.FrameNumbers | framework/ota/ota_backend_bt.c:25-51 | each host frame begins with the service, command and type numbers of the protocol and its own length |
| OtaHost.DataFrameRead | framework/ota/ota_backend_bt.c:520-590 | a complete data frame is stored at the next position exactly if its packet number is next, it fits the window and its checksum matches; otherwise the command fails |
| OtaHost.OtherFrameRead | framework/ota/ota_backend_bt.c:327-480 | a complete negotiation frame is consumed whole, changes nothing of the transfer, and sets features, update type and the negotiated flag exactly as it says |
| OtaHost.ParamsRead | framework/ota/ota_backend_bt.c:327-415 | the parameter loop of an upgrade request consumes exactly the packed parameters and notes features and update type as the last ones named |
| OtaHost.CutFrameFails | framework/ota/ota_backend_bt.c:642-698 | a frame cut short anywhere makes the command fail, and unless it was to be refused anyway nothing of it stays in the link |
| OtaExact.ReadExact | framework/ota/ota_backend_bt.c:746-792 | with an honest host and nothing but connection and upgrade frames in the link, success means the whole buffer equals the image range and the link is empty again, across renegotiations and the drained retry |
| OtaExact.ReadFinishes | framework/ota/ota_backend_bt.c:746-792 | with an empty link and a host that answers in full, the read succeeds |
| OtaExact.RetryOnce | framework/ota/ota_backend_bt.c:763-790 | with a host that answers in full, a failed command is made up for exactly once, after draining the link |
| OtaExact.ReadRecovers | framework/ota/ota_backend_bt.c:746-792 | rubbish in front of the answer costs a request, but the read succeeds |
| OtaExact.StaleFrameAccepted | framework/ota/ota_backend_bt.c:482-518 | one leftover data frame of the right size and number becomes the result, whatever the host answers |
| OtaLeftover.LeftoverExactIff | framework/ota/ota_backend_bt.c:482-792 | with complete frames left in the link, a read is exact with every honest host if and only if one is refused, they fill the window with the right bytes, or the answer fits behind them (none carries data, or a multiple of 256 whose bytes the range begins with and repeats) |
| OtaLeftover.StaleFrameIff | framework/ota/ota_backend_bt.c:482-792 | for one leftover data frame: if and only if it is not acceptable or is the answer |
| OtaLeftover.HarmlessIsExact | framework/ota/ota_backend_bt.c:746-792 | the forward direction, host by host |
| OtaLeftover.SpoilingHost | framework/ota/ota_backend_bt.c:520-590 | behind leftover data frames that do not fill the window harmlessly, some honest host makes a wrong buffer pass |
| OtaLeftover.ShiftedExact | framework/ota/ota_backend_bt.c:746-792 | an honest answer put behind bytes that the range begins with and repeats still ends in the right buffer, across cuts, renegotiations and the retry |
| OtaBackend.Backend.GetRxData | framework/ota/ota_backend_bt.c:123-140 | the polling loop returns the next bytes of the stream, or fails after taking all of a short one |
| OtaBackend.Backend.SkipRxData | framework/ota/ota_backend_bt.c:142-158 | the byte-wise loop skips as many bytes as asked or fails at the end |
| OtaBackend.Backend.DropAllRxData | framework/ota/ota_backend_bt.c:160-182 | the link is empty afterwards |
| OtaBackend.Backend.StoreSegment | framework/ota/ota_backend_bt.c:558-590 | copying a segment in place, an incomplete one as far as it came, refines the specified store |
| OtaBackend.Backend.ImageData | framework/ota/ota_backend_bt.c:520-590 | the data handler refines its specification, with the 16-bit wrap of a short checksum frame |
| OtaBackend.Backend.RequestUpgrade | framework/ota/ota_backend_bt.c:327-415 | the parameter loop refines its specification |
| OtaBackend.Backend.NegotiationResult | framework/ota/ota_backend_bt.c:459-480 | refines its specification |
| OtaBackend.Backend.ProcessCommand | framework/ota/ota_backend_bt.c:642-698 | the dispatcher refines its specification |
| OtaBackend.Backend.RequireImageData | framework/ota/ota_backend_bt.c:482-518 | opening the window and sending the request refines its specification |
| OtaBackend.Backend.Commands | framework/ota/ota_backend_bt.c:763-777 | the command loop ends in the failure, restart or finish the specification says |
| OtaBackend.Backend.Read | framework/ota/ota_backend_bt.c:746-792 | the read with its loops, restart and retry equals the specified read on memory, link and result |
| OtaStorage.WriteDefault | framework/ota/ota_storage.c:118-146 | for every segment size: success writes the whole range and nothing else, failure a prefix of it; without faults it succeeds |
| OtaStorage.ReadDefault | framework/ota/ota_storage.c:213-241 | success returns the range |
| OtaStorage.EraseNor | framework/ota/ota_storage.c:387-410 | success fills the range with 0xff and touches nothing else |
| OtaStorage.WriteSd | framework/ota/ota_storage.c:67-116 | refuses unaligned offsets; success writes the data padded with zeros to whole sectors |
| OtaStorage.ReadSd | framework/ota/ota_storage.c:160-211 | refuses unaligned offsets; success returns the range |
| OtaStorage.EraseSd | framework/ota/ota_storage.c:349-386 | success fills the range up to whole sectors with 0xff |
| OtaStorage.WriteThenRead | framework/ota/ota_storage.c:118-146 | after a finished write the range holds the data and no other byte changed |
| OtaStorage.WriteSdThenRead | framework/ota/ota_storage.c:67-116 | the same on SD, with zeros up to the end of the last sector |
| OtaStorage.IsClean | framework/ota/ota_storage.c:254-348 | if it does not fail, Clean if and only if every byte but the skipped ones is 0xff, else Dirty; when it does not fail on NOR and on SD; on SD, Clean only if it read on sector boundaries |
| OtaStorage.CheckRange | framework/ota/ota_storage.c:315-347 | the same for the chunk loop, for every chunk size |
| OtaStorage.EraseThenClean | framework/ota/ota_storage.c:254-410 | erase then check answers Clean on both kinds of device whenever both get through; without faults they do, on SD if and only if the check reads on sector boundaries |
| OtaStorage.ErasedIsClean | framework/ota/ota_storage.c:349-410 | after a write of 0xff the answer for the range or a part of it is Clean |
| OtaStorage.CleanIsExact | framework/ota/ota_storage.c:295-348 | Clean means the whole range is 0xff, on every content, if and only if no byte is skipped |
| OtaStorage.WordsNotSkipped | framework/ota/ota_storage.c:315-347 | sizes and chunks of whole words skip no byte |
| UsbTransfer.StartReachable | framework/usb/usb_device.c:1767-1824 | a start keeps every outstanding transfer reachable by its endpoint if and only if none was outstanding there |
| UsbTransfer.StepKeeps | framework/usb/usb_device.c:1650-1847 | every start, work item, endpoint event and cancel keeps the pool invariant: lookup finds the outstanding slot, moved plus remaining bytes is the length, ended transfers are queued for their callback |
| UsbTransfer.RunKeeps | framework/usb/usb_device.c:1637-1847 | the invariant holds for every order of whole handler calls |
| UsbTransfer.RunReports | framework/usb/usb_device.c:1650-1728 | from power-up each request is called back at most once; a write reported with status 0 sent all its bytes, with a zero-length packet exactly when due; a read reported with status 0 filled its buffer or ended with a short packet, all before it being full; an error of the controller is reported, never as status 0; any report counts a prefix |
| UsbTransfer.ReadGoesOn | framework/usb/usb_device.c:1683-1706 | a read stays busy exactly on whole packets that leave room; it becomes invalid exactly on an error |
| UsbTransfer.WriteGoesOn | framework/usb/usb_device.c:1664-1682 | a write is complete exactly when a turn finds nothing left, and sends a zero-length packet then unless told not to |
| UsbTransfer.EndedIsReported | framework/usb/usb_device.c:1650-1728 | running the work item of an ended transfer makes its callback and frees its slot |
| UsbTransfer.CancelEnds | framework/usb/usb_device.c:1826-1847 | a cancel ends exactly a busy transfer, and the next work item reports it as cancelled with what was moved so far |
| UsbTransfer.EventReaches | framework/usb/usb_device.c:1730-1765 | a data event moves the transfer of its endpoint on, at once or from the work queue with the same outcome; other events change nothing |
| UsbTransfer.NullCallbackLeaks | framework/usb/usb_device.c:1715-1728 | a slot without a callback stays taken in every run |
| UsbPreempt.MeanwhileCommutes | framework/usb/usb_device.c:1730-1847 | starts, cancels and interrupts act the same whether a handler is under way on a slot or still queued |
| UsbPreempt.PartRunKeeps | framework/usb/usb_device.c:1650-1728 | the invariant holds in every interleaving in which starts, cancels and interrupts fall between the status test, the endpoint access and the report of the work handler |
| UsbPreempt.PreemptedReports | framework/usb/usb_device.c:1650-1728 | so with preemption too each request is called back at most once, a write reported with status 0 sent all its bytes, and a read so reported filled its buffer or met a short packet |
| UsbPreempt.PreemptedTidy | framework/usb/usb_device.c:1650-1728 | an error is not reported as success as long as nothing ends the transfer between test and access |
| UsbPreempt.ErrorOverruled | framework/usb/usb_device.c:1650-1728 | otherwise it is: an error met by an interrupt in between is reported as status 0 exactly if the read under way is short or fills the buffer |
| UsbPreempt.PartsAreWhole | framework/usb/usb_device.c:1650-1728 | without anything in between the parts are the whole handler |
| UsbTransferPool.TransferPool.EpGetTransfer | framework/usb/usb_device.c:1637-1648 | the loop returns the first slot with that endpoint number, in use or not, and none exactly if there is none |
| UsbTransferPool.TransferPool.Transfer | framework/usb/usb_device.c:1767-1824 | starting in place refines the specified start |
| UsbTransferPool.TransferPool.PushSlot | framework/usb/usb_device.c:1650-1707 | the body of the work handler up to its report, field by field, refines its specification |
| UsbTransferPool.TransferPool.TransferWork | framework/usb/usb_device.c:1650-1728 | the work handler refines its specification |
| UsbTransferPool.TransferPool.EpCallback | framework/usb/usb_device.c:1730-1765 | the endpoint callback refines its specification |
| UsbTransferPool.TransferPool.CancelOn | framework/usb/usb_device.c:1826-1847 | cancelling refines its specification |
| UsbTransferPool.TransferPool.Drive | framework/usb/usb_device.c:1637-1847 | any sequence of handler calls is a run of the state machine |
| UsbControl.DataStageUnique | framework/usb/usb_device.c:272-280 | the packets of a proper data stage are determined by the data and the requested length |
| UsbControl.InStageSends | framework/usb/usb_device.c:429-446 | what follows the first packet completes a proper data stage and leaves all flags clear |
| UsbControl.InTransferExact | framework/usb/usb_device.c:313-446 | the handlers are asked once and the host gets min(offered, wLength) bytes in full packets with a short or empty last one exactly when offered < wLength, if and only if no upper-layer mark is left over (or one packet suffices) |
| UsbControl.OutStageCollects | framework/usb/usb_device.c:392-428 | for every packet list, what an OUT stage has collected, handled and answered |
| UsbControl.OutTransferExact | framework/usb/usb_device.c:313-428 | however the host cuts its data, the handler is called once with exactly wLength bytes, then one status packet or stall |
| UsbControl.StatusStageEnds | framework/usb/usb_device.c:429-446 | the status packet is the last one if and only if no zero-length flag is left over |
| UsbControl.EmptyOfferLeavesMark | framework/usb/usb_device.c:360-366 | an empty offer sends nothing and leaves the upper-layer mark |
| UsbControl.AbortedInLeavesZero | framework/usb/usb_device.c:368-391 | an IN transfer cut short after its setup leaves the zero-length flag |
| UsbControl.RefusedStalls | framework/usb/usb_device.c:325-356 | a refused request stalls endpoint 0x80 and sends nothing; a packet that cannot be read stalls without asking a handler |
| UsbControl.TooLongStalls | framework/usb/usb_device.c:332-347 | an announced length beyond the buffer stalls both directions, and no handler sees what follows if and only if no earlier transfer still waits for as much |
| UsbControl.SetupWaits | framework/usb/usb_device.c:349-357 | a setup that is not answered at once starts with an empty buffer; the handlers get the announced bytes once they are there |
| UsbControlEndpoint.ControlEndpoint.SendChunk | framework/usb/usb_device.c:272-280 | sending the next chunk in place refines its specification |
| UsbControlEndpoint.ControlEndpoint.PacketLost | framework/usb/usb_device.c:323-330 | refines its specification |
| UsbControlEndpoint.ControlEndpoint.SetupForHost | framework/usb/usb_device.c:313-391 | the setup of a transfer to the host refines its specification |
| UsbControlEndpoint.ControlEndpoint.SetupFromHost | framework/usb/usb_device.c:313-391 | the setup of a transfer from the host refines its specification |
| UsbControlEndpoint.ControlEndpoint.OutPacket | framework/usb/usb_device.c:392-428 | collecting a packet in the request buffer refines its specification |
| UsbControlEndpoint.ControlEndpoint.PacketTaken | framework/usb/usb_device.c:429-446 | the IN completion refines its specification |
| UsbHostConfig.WalkRoundTrip | framework/usb/usb_host.c:485-576 | walking a configuration gives back the descriptors it was put together from |
| UsbHostConfig.DescriptorRoundTrip | framework/usb/usb_host.c:507-562 | an endpoint descriptor and an interface descriptor as the USB standard lays them out are recognised; packet size and number are read back |
| UsbHostConfig.ParseIsGroup | framework/usb/usb_host.c:485-576 | parsing succeeds if and only if the left fold over the descriptors fits the limits, and then the table is that fold; the limits always hold |
| UsbHostConfig.GroupKeeps | framework/usb/usb_host.c:485-576 | the fold puts every endpoint in order under the interface begun last, merges repeated interface numbers and counts every interface descriptor as a setting of its interface |
| UsbHostConfig.AssembledConfiguration | framework/usb/usb_host.c:485-576 | assembling and parsing gives the fold of the original descriptors, exactly if it fits |
| UsbHostConfig.SettingsFit | framework/usb/usb_host.c:485-576 | each setting uses nine bytes of the buffer, which bounds the eight-bit counter |
| UsbHostConfig.HostConfig.ParseConfiguration | framework/usb/usb_host.c:485-576 | the loop on the byte buffer, reading only within its length, equals the specified parse |
| Standby.ElapsedSound | framework/system/sys_wakelock.c:230-260 | the wrapped 32-bit difference never exceeds the true one |
| Standby.IdleIsQuiet | framework/system/sys_wakelock.c:230-260 | a free lock with an idle time of at least ms was not taken or released for that long |
| Standby.IdleIsExact | framework/system/sys_wakelock.c:230-260 | the idle time is the time since the last restart, as long as that is below 2^32 ms, and zero while held |
| Standby.LockCounts | framework/system/sys_wakelock.c:47-129 | a lock counts to 65535 and down to zero, one step further stops the system; a release takes back a request to hurry |
| Standby.ApplyAllCounts | framework/system/sys_wakelock.c:47-129 | unless the system stops, a list of operations changes each count by its takes less its releases |
| Standby.TickKeeps | framework/system/sys_standby.c:387-406 | every tick, with lock traffic inside its callbacks and sleeps, keeps the invariant |
| Standby.RunKeeps | framework/system/sys_standby.c:157-406 | every run keeps the invariant that ties counters and times to the record of lock operations |
| Standby.StandbySafe | framework/system/sys_standby.c:128-406 | in every run from boot, with lock traffic and time passing in all callbacks and during sleep: S1 only with the full lock free and quiet for the idle time, or on a request to hurry that nothing has taken back; suspend and deep sleep only from there, with the counts zero and the idle times quiet; late resume only after early suspend, resume only after suspend; level and counters exact, never left in S3 |
| Standby.UnforcedSuspendWasIdle | framework/system/sys_standby.c:247-269 | at every moment of the idle time before an unforced suspend nobody held either lock |
| Standby.SuspendIsRecorded | framework/system/sys_standby.c:157-269 | a tick that reaches S2 came from S1 and recorded its suspend at that time |
| Standby.LeavesNormal | framework/system/sys_standby.c:230-245 | a tick in Normal goes to S1 if and only if nobody holds the full lock and it is idle or hurry was asked for |
| Standby.LeavesS1 | framework/system/sys_standby.c:247-269 | a tick in S1 ends in Normal if and only if the full lock is held or was released too recently without hurry; otherwise exactly when it suspends |
| Standby.Suspends | framework/system/sys_standby.c:157-183 | a suspend ends in S2 unless a lock is held after the answer of the application or the services; then it is back in S1 and nobody has been told to resume |
| Standby.WakesTo | framework/system/sys_standby.c:318-385 | a tick in S2 sleeps if and only if both locks are free, and ends in Normal unless Bluetooth woke it or the power goes off; the idle time of the lock that goes with the wake-up starts again |
| Standby.PowersOff | framework/system/sys_standby.c:98-119 | power goes off if and only if both idle times exceed the power-off time or its timer fires in S2 |
| Standby.IdleReachesDeepSleep | framework/system/sys_standby.c:230-385 | with both locks idle long enough at each of three ticks, however far apart, and nobody objecting, they lead to S1, suspend and deep sleep |
| Standby.BootReachesDeepSleep | framework/system/sys_standby.c:128-406 | from boot, with the lock released, times and mode set and nobody objecting, three ticks lead to deep sleep |
| StandbyManager.PowerManager.TakeLock | framework/system/sys_wakelock.c:47-82 | taking a lock refines its specification |
| StandbyManager.PowerManager.ReleaseLock | framework/system/sys_wakelock.c:84-129 | releasing refines its specification, with the loop over all locks |
| StandbyManager.PowerManager.GetFreeTime | framework/system/sys_wakelock.c:230-260 | the 32-bit idle time |
| StandbyManager.PowerManager.DoEnterS1 | framework/system/sys_standby.c:128-140 | refines its specification |
| StandbyManager.PowerManager.DoExitS1 | framework/system/sys_standby.c:142-155 | refines its specification |
| StandbyManager.PowerManager.DoEnterS2 | framework/system/sys_standby.c:157-183 | refines its specification |
| StandbyManager.PowerManager.DoProcessS1 | framework/system/sys_standby.c:247-269 | refines its specification |
| StandbyManager.PowerManager.DoProcessS2 | framework/system/sys_standby.c:318-385 | the sleep loop refines its specification |
| StandbyManager.PowerManager.WorkHandle | framework/system/sys_standby.c:387-406 | the periodic work refines one tick |
| EsdStore.SaveThenRestore | framework/system/esd_manager.c:103-173 | what a saved value is restored as, in each case of the two scans |
| EsdStore.SaveRestoreLaw | framework/system/esd_manager.c:103-173 | every value of that length comes back if and only if the first entry under the tag has that length, or there is none and the store is open |
| EsdStore.ScansAgree | framework/system/esd_manager.c:115-169 | the saving and the restoring scan stop at the same entry exactly in that case |
| EsdStore.GrowthIsLost | framework/system/esd_manager.c:103-173 | a longer value saved later under the same tag is not restored |
| EsdStore.SaveFits | framework/system/esd_manager.c:109-111 | a save is refused if and only if tag, length and value do not fit behind the entries; the entries never exceed 250 bytes |
| EsdStore.EndMarkReads | framework/system/esd_manager.c:115-169 | the end mark reads as an entry without a value as long as it lies within the scan, and tag 0 does in a store never used; an empty value under that tag is not stored |
| EsdStore.SaveIsUpdate | framework/system/esd_manager.c:103-144 | with fixed lengths a save is a map update of one tag, or nothing if it does not fit |
| EsdStore.RestoreIsLookup | framework/system/esd_manager.c:146-173 | with fixed lengths a restore is a map lookup, except tag 0 in an empty store |
| EsdStore.StoreIsMap | framework/system/esd_manager.c:103-173 | after any saves a restore gives the last value accepted under that tag |
| EsdManager.ScanIsFind | framework/system/esd_manager.c:115-127 | the byte scan stops where the search over entries stops |
| EsdManager.RewriteBytes | framework/system/esd_manager.c:118-121 | copying a value over an entry rewrites just that entry of the packed store |
| EsdManager.AppendBytes | framework/system/esd_manager.c:129-137 | writing tag, length, value and end mark appends one entry |
| EsdManager.Manager.Init | framework/system/esd_manager.c:66-85 | a matching flag keeps the store over a reset, any other clears it |
| EsdManager.Manager.SaveScene | framework/system/esd_manager.c:103-144 | saving in place refines the save on entries; says exactly when the end mark spills |
| EsdManager.Manager.RestoreScene | framework/system/esd_manager.c:146-173 | restoring refines the restore on entries |
| SlotBits.TakeAdds | framework/display/simple_res_manager.c:295-378 | setting a bit adds exactly that slot to the slots in use |
| SlotBits.GiveRemoves | framework/display/simple_res_manager.c:380-423 | clearing a bit removes exactly that slot |
| SlotBits.GiveUndoesTake | framework/display/simple_res_manager.c:295-423 | freeing the slot just allocated restores the bitmap |
| SlotBits.FreeInWord | framework/display/simple_res_manager.c:331-347 | in the first word that is not all ones the lowest clear bit is the lowest free slot |
| SlotArray.SlotsDisjoint | framework/display/simple_res_manager.c:303-306 | in every state of the allocator data kept in different slots never overlap if and only if it fits one slot, and then it lies inside the array |
| SlotArray.Slots.Alloc | framework/display/simple_res_manager.c:295-378 | takes the lowest free slot and fails exactly when all are in use |
| SlotArray.Slots.FreeAt | framework/display/simple_res_manager.c:380-423 | removes the slot; the item count stays exact if and only if it was in use |
| MemInfo.AddSound | framework/display/simple_res_manager.c:425-507 | recording a block keeps all lists linked, disjoint and in allocated slots, with exact totals |
| MemInfo.DropSound | framework/display/simple_res_manager.c:509-594 | so does removing the k-th record of a list |
| MemInfo.LinkKeeps | framework/display/simple_res_manager.c:425-507 | linking behind the tail extends the chain |
| MemInfo.UnlinkKeeps | framework/display/simple_res_manager.c:509-594 | unlinking through the predecessor or the head drops just that node |
| MemPools.Pools.AddMemInfo | framework/display/simple_res_manager.c:425-507 | appends the record to its list, or leaves everything when no slot is free; totals equal the sums |
| MemPools.Pools.RemoveMemInfo | framework/display/simple_res_manager.c:509-594 | removes the first record of that pointer and frees its slot; totals equal the sums |
| MemPools.Pools.MemAlloc | framework/display/simple_res_manager.c:715-755 | what is handed out, and what is recorded of it |
| ResCache.StepKeeps | framework/display/simple_res_manager.c:817-942 | every get, try and free keeps one block per key and counts equal to acquisitions minus releases |
| ResCache.RunKeeps | framework/display/simple_res_manager.c:817-1050 | the same over every run |
| ResCache.KeyKeepsAddress | framework/display/simple_res_manager.c:892-942 | a key keeps its address through every step except the last release, which alone frees it |
| ResCacheList.BlockCache.GetBuffer | framework/display/simple_res_manager.c:817-863 | on the linked list, refines the specified get |
| ResCacheList.BlockCache.TryBuffer | framework/display/simple_res_manager.c:865-890 | refines the specified try |
| ResCacheList.BlockCache.FreeBuffer | framework/display/simple_res_manager.c:892-942 | refines the specified free, unlinking the block with its last reference |
| UiRegion.GetSize | framework/display/ui_region.c:20-23 | the 32-bit product wraps, and is the area exactly when the area fits |
| UiRegion.Intersect | framework/display/ui_region.c:120-136 | the result holds exactly the common points, and the verdict says whether there are any |
| UiRegion.IsOnIsOverlap | framework/display/ui_region.c:270-278 | regions have a common point if and only if neither is empty and the overlap test says so |
| UiRegion.SubtractExact | framework/display/ui_region.c:164-214 | the pieces cover exactly the region without the excluded part, each point once, if and only if the early return is not taken for a pixel at the corner of an empty region |
| UiRegion.PointCovered | framework/display/ui_region.c:164-214 | how often each point is covered |
| UiRegion.PiecesNotEmpty | framework/display/ui_region.c:164-214 | no piece is empty |
| UiRegion.SizesAddUp | framework/display/ui_region.c:164-214 | for all upright regions the sizes of the pieces add up to the size of the region less that of the intersection, if and only if the early return is not taken that way |
| UiRegion.SubtractInto | framework/display/ui_region.c:164-214 | the array version writes at most four pieces and nothing behind them |
| TwsAps.RequestsLeaveRoom | framework/audio/audio_tws_aps_snoop.c:357-493 | in a pair every requested level has a neighbour on both sides |
| TwsAps.NeverAcrossDefault | framework/audio/audio_tws_aps_snoop.c:459-474 | a change never passes the default level |
| TwsAps.AgainstSignIff | framework/audio/audio_tws_aps_snoop.c:387-474 | a change goes against the sign of buffered time minus target if and only if the level is outside its bounds on that side, whatever the history |
| TwsAps.ExcursionInRange | framework/audio/audio_tws_aps_snoop.c:278-342 | an excursion stays within the eight levels if and only if it does not start at the end it moves to |
| TwsAps.ExcursionTime | framework/audio/audio_tws_aps_snoop.c:69-90 | from an inner level every excursion timer lasts 1 to 9930 ms |
| TwsAps.SetBaseExact | framework/audio/audio_tws_aps_snoop.c:252-276 | a request for the present base level changes nothing; any other ends the excursion at the new level |
| TwsAps.ExcursionSymmetric | framework/audio/audio_tws_aps_snoop.c:69-90 | an excursion goes up if the bud is behind and down if it is ahead, and takes as long up from a level as down from the next |
| TwsAps.OneMillisecond | framework/audio/audio_tws_aps_snoop.c:69-90 | how long a difference of one millisecond takes to make up, by level and sample rate |
| TwsAps.SmallAndLarge | framework/audio/audio_tws_aps_snoop.c:278-320 | differences below 3 us end an excursion, those above 3 ms change nothing |
| TwsAps.ElapsedSound | framework/audio/audio_tws_aps_snoop.c:495-547 | the difference of two 32-bit times never exceeds the true one |
| TwsAps.StepKeeps | framework/audio/audio_tws_aps_snoop.c:95-547 | every step of either bud keeps the alignment invariant of both |
| TwsAps.RunKeeps | framework/audio/audio_tws_aps_snoop.c:95-547 | in every run of a pair each bud is at its base level or one level away on an excursion, within the eight levels, with sound timers and requests |
| TwsAps.ChangeIff | framework/audio/audio_tws_aps_snoop.c:387-474 | within the bounds: exactly when a change is asked for, after which wait, and to which level |
| TwsAps.CountSaturates | framework/audio/audio_tws_aps_snoop.c:405-409 | the history counts looks on one side of the target, up to two |
| TwsAps.RunFollows | framework/audio/audio_tws_aps_snoop.c:252-547 | in every run each bud has carried out all requests made so far except those still on their way to it |
| TwsAps.PairAgrees | framework/audio/audio_tws_aps_snoop.c:252-547 | two buds with no request on its way have the same base level, the one asked for last |
| TwsAps.RunSound | framework/audio/audio_tws_aps_snoop.c:357-547 | in every run, in any roles: each change is judged by the highest of the buffered times seen since the look before it, any two changes of one bud are 300 ms or more apart, none passes the default, and one goes against the target exactly from outside the bounds on that side |
| TwsAps.LookJudges | framework/audio/audio_tws_aps_snoop.c:508-538 | a bud judges its buffer exactly 300 ms or more after the last look and then starts over; a slave only reports, every three seconds |
| TwsAps.LookReaches | framework/audio/audio_tws_aps_snoop.c:495-547 | a look touches only the bud that looks; its request is queued at every bud and recorded |
| TwsAps.StreamWaits | framework/audio/audio_tws_aps_snoop.c:553-572 | after a stream starts there is no look for 300 ms, and before 600 ms a look asks for a change only inward from a bound |
| TwsAps.MisledIff | framework/audio/audio_tws_aps_snoop.c:357-493 | in a pair a look goes against the target if and only if the bud is on an excursion outward from an outermost base level and the buffer lies on that side |
| TwsAps.ExcursionMisleads | framework/audio/audio_tws_aps_snoop.c:357-547 | a run of two fresh buds in which an excursion makes the master ask for a faster rate on a low buffer |
| TwsPlayer.Player.StopAligning | framework/audio/audio_tws_aps_snoop.c:105-119 | refines its specification |
| TwsPlayer.Player.SetBaseLevel | framework/audio/audio_tws_aps_snoop.c:252-276 | refines its specification |
| TwsPlayer.Player.NotifyTimeDiff | framework/audio/audio_tws_aps_snoop.c:278-342 | refines its specification |
| TwsPlayer.Player.MonitorRate | framework/audio/audio_tws_aps_snoop.c:357-493 | the step-by-step monitor refines the specified decision, history and time stamp |
| TwsPlayer.Player.MonitorMaster | framework/audio/audio_tws_aps_snoop.c:495-547 | the periodic look refines its specification |
| Aps.RunKeeps | framework/audio/audio_aps.c:152-222 | in every run the fast status means current = destination = maximum, the slow one minimum, the default one destination = default |
| Aps.TickStatus | framework/audio/audio_aps.c:179-221 | a tick ends fast if and only if the buffer is above the upper mark, or it was fast and the buffer is above the middle; slow likewise |
| Aps.TickSteps | framework/audio/audio_aps.c:45-74 | on the way to the default level the level moves one step a tick |
| Aps.Converges | framework/audio/audio_aps.c:45-74 | in the band the distance to the default level falls by one each tick, to zero |
| Aps.Hysteresis | framework/audio/audio_aps.c:152-222 | leaving an extreme status and coming back takes a swing of more than half the band, in every run |
| Aps.HysteresisTight | framework/audio/audio_aps.c:176-206 | half the band and one microsecond is enough |
| Aps.AverageConserves | framework/audio/audio_aps.c:224-229 | over any run 16·average + remainder changes by the inputs less the previous averages, and any interval holding the inputs and the first average holds all averages |
| Aps.AverageOnce | framework/audio/audio_record.c:579-581 | one step keeps the remainder below sixteen, on the average's side of zero, and the average within any such interval |
| Aps.Monitor.MonitorSetAps | framework/audio/audio_aps.c:45-74 | refines its specification |
| Aps.Monitor.MonitorNormal | framework/audio/audio_aps.c:152-222 | the tick refines its specification and keeps the invariant |
| Aps.GetAverage | framework/audio/audio_aps.c:224-229 | the three assignments compute the specified mean |
| AppSwitch.CountUpdate | framework/system/app_switcher.c:193-233 | plugging one application in or out changes the number plugged by one |
| AppSwitch.LockedIff | framework/system/app_switcher.c:235-269 | a reason locks the switcher if and only if it was given and has not been taken back since, in every sequence of lock calls |
| AppSwitch.MatchesIff | framework/system/app_switcher.c:139-147 | a name matches character by character as far as it goes |
| AppSwitch.AheadFromNowhere | framework/system/app_switcher.c:128-134 | with no current application the walk counts from index 255 |
| AppSwitch.TargetsCover | framework/system/app_switcher.c:128-138 | the first app_num targets of a walk visit every application |
| AppSwitch.SelectsFirst | framework/system/app_switcher.c:128-169 | with an application plugged in, the walk ends within app_num hops at the first plugged one in its direction |
| AppSwitch.EndsIff | framework/system/app_switcher.c:128-169 | the exact condition under which the walk ends |
| AppSwitch.Switcher.constructor | framework/system/app_switcher.c:271-296 | nothing plugged, no current application |
| AppSwitch.Switcher.SetPlugged | framework/system/app_switcher.c:193-233 | plugs every application matching the name in or out; the counter equals the number plugged |
| AppSwitch.Switcher.SetLock | framework/system/app_switcher.c:235-251 | refines its specification |
| AppSwitch.Switcher.SetForceLock | framework/system/app_switcher.c:253-269 | refines its specification |
| AppSwitch.Switcher.Guarded | framework/system/app_switcher.c:92-126 | a call is held if and only if the switcher is force-locked, the wanted application runs, or without force it is locked or nothing but the current application is plugged in |
| AppSwitch.Switcher.FindByName | framework/system/app_switcher.c:139-147 | finds the last application matching the name that may be entered, exactly if there is one |
| AppSwitch.Switcher.SwitchToName | framework/system/app_switcher.c:75-191 | a switch by name enters the last application that matches and may be entered; it refuses, changing nothing, only if there is none or it is the current one |
| AppSwitch.Switcher.Walk | framework/system/app_switcher.c:128-169 | the jump loop chooses what the specified walk chooses, or refuses exactly when it has no first move |
| AppSwitch.Switcher.SwitchMode | framework/system/app_switcher.c:75-191 | which guard keeps the current application, when it refuses, and that otherwise the first plugged application is entered |
| PcmStaging.RunIsFifo | framework/audio/pcm_buffer_stream.c:51-154 | after any writes and flushes, transferred then staged bytes are all that went in, in order; transfers are at least 16 bytes and at most 15 bytes are staged |
| PcmStaging.FlushDelivers | framework/audio/pcm_buffer_stream.c:137-154 | a flush leaves nothing staged |
| PcmStaging.FlushPads | framework/audio/pcm_buffer_stream.c:137-154 | a flush makes one transfer of 16 bytes, the staged ones and then zeros, or none if nothing is staged |
| PcmStaging.WriteKeeps | framework/audio/pcm_buffer_stream.c:51-89 | a write appends its data to the stream |
| PcmStaging.Stream.PcmWrite | framework/audio/pcm_buffer_stream.c:51-89 | the staging buffer updated in place refines the specified write |
| PcmStaging.Stream.PcmFlush | framework/audio/pcm_buffer_stream.c:137-154 | refines the specified flush |

## Left out

- Hardware, drivers, logging, stored properties and display output: devices appear as byte arrays, packet lists, queues and answers given by the environment.
- The contents of acknowledgements the update sends, failures while sending them, and the callbacks for the update type; the link is a queue of received bytes and a host is a finite list of answers, so every host is silent in the end.
- OtaBackend.Backend.DropAllRxData: everything the host has sent so far is there to be dropped; bytes that arrive later than the waiting time are not modelled.
- OtaLeftover.LeftoverExactIff: a leftover negotiation result and a leftover frame cut short are not covered.
- OtaBackend.Backend.Read: offsets and sizes stay below 2^31, as the signed arguments of the source do.
- OtaStorage.IsClean: a zero buffer size on NOR flash never ends in the source, and an empty SD range with an odd buffer size has no buffer to look at; both are excluded by its requires.
- OtaStorage.ReadSd: the sectors behind an odd size are read and dropped; that copy is not modelled.
- Short FIFO writes on endpoint 0 are not modelled.
- UsbTransfer.RunKeeps: takes each handler as one step. The work handler takes no lock; UsbPreempt lets starts, cancels and interrupts fall between its parts.
- UsbPreempt.PartRunKeeps: one thread is in the work handler at a time, and the access to the endpoint together with the bookkeeping after it is one part.
- UsbControlEndpoint.ControlEndpoint.OutPacket: requires that what is left of the stage fits the request buffer, which the setup of a transfer from the host establishes; standard, class and vendor requests themselves are answers of the environment.
- Clearing the NAK of a read endpoint, and draining data that arrive while no transfer is outstanding.
- UsbTransfer.StepKeeps: callers follow the interface, that is a callback is given and at most one transfer is outstanding per endpoint; StartReachable and NullCallbackLeaks show why.
- UsbHostConfig.HostConfig.ParseConfiguration: class-specific descriptors are skipped by the walk and not kept.
- The power-off timer's length, the message-queue lock around suspend and the drivers' suspend work; lock traffic and time are interleaved at every callback and during every sleep of a tick, not at every instruction.
- EsdManager.Manager.SaveScene: negative lengths are not modelled.
- Bitmap buffers, preloading, compact buffers, and the other slot users of the resource manager: they use the same lists and slots.
- ResCache.RunKeeps: the heap hands out addresses that are not in use; the text cache is the same code and the same model.
- UiRegion.SubtractExact: the region to exclude is upright; fitting and moving regions are not modelled.
- TwsAps.RunKeeps: default levels 3 to 6, which include all those a paired stream uses; the restart of a stream after a large difference, an empty DAC or a decoding error is not modelled.
- TwsAps.PairAgrees: requests reach both buds in the order made, and a reset of a single bud to the default level is excluded.
- Aps.RunKeeps: the fine adjustment and the moving water marks of the low-latency mode are not modelled, the lower mark is not above the upper one, and the sums of the average stay within 32 bits.
- AppSwitch.Switcher.SwitchMode: requires something plugged unless forced (EndsIff shows that the source otherwise never returns) and a valid last index for going back; an empty list of applications is excluded.
- PcmStaging.Stream.PcmWrite: the stream starts with nothing staged; the source does not set the fill count when it creates the stream.
- Memory heaps of the media layer, codec tables, volume and policy settings, and message plumbing: finite tables or wrappers that would only add easy members.
