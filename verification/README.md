# Physical device manager: a verified model

This project models the parts of the physical device manager daemon that carry state, ordering
and concurrency, and proves what they promise. It follows the build without `WEBOS_SESSION`.

How it is laid out:

- **Command pool.** `ThreadPool` is the pool as a step relation: one step per critical section,
  and separate steps for `notify_one`, `notify_all`, spurious wake-ups and the job itself, so a
  run is any interleaving the code allows. `PdmThreadPool.dfy` is the object, each method tied to
  those steps. `CommandOwnership` puts uevent commands and the requests of the bus service on top of
  that pool and counts every delete; `CommandObjects` has the command, the manager with its pool of
  one, and the netlink adapter as objects.
- **Device lists.** `DeviceLists` is the first-match prefix search and the HID and NFC handlers on
  values; `DeviceHandlers` has them as objects that mutate a list. `DriveLookup` compares the
  two-level search for a partition with a flat one. `SubDevices` has the sub-device lists.
- **Storage device.** `StorageModel` says what each operation does to partitions, to the kernel's
  mount table, to the notices sent and to the commands run in between; every answer of the system
  is an input. `StorageObjects` has the partition and device objects, tied to it. `StorageLoops`
  says what the loops over all partitions come to, `StorageMeaning` and `ArrivalMeaning` what each
  operation does, read off the answers, the tables and the state before it and stated apart from
  how the operations are built; `StorageRuns`, `StorageNotices`, `PartitionArrival` and
  `Announcements` prove what holds of whole runs. `StorageFilling` says which device of the handler
  a uevent reaches and what it fills in, `StorageHandler` is the handler.
- **Storage concurrency.** `FsckBatch` is one batch of checking threads with its countdown,
  `Lifecycle` a device with its worker and its checking threads, `Timers` the connecting timeout.
- **Smaller parts.** `CommandTables` (argument vectors of mkfs, label and fsck), `SpaceInfo` (64-bit
  space arithmetic), `Listener` (start and stop of the netlink thread), `Base` (vocabulary).

Where a wanted property is false of the code, the code is kept and the exact condition is proved:

- A destroyed pool has drained exactly if it had a worker or never accepted a job
  (`ThreadPool.JoinedMeansDrained`; `UnmannedPoolLosesAJob` is a run that loses one).
- The barrier of a batch holds exactly if, up to the moment the last thread is counted, whoever read
  zero did so after all checks, and somebody did or not all have tested
  (`FsckBatch.BarrierExactly`, read off the order of the steps). A thread may finish before it is
  counted (`FinishesBeforeItIsCounted`, `FinishesBeforeOthersStart`).
- A failed unmount makes the next one succeed without doing anything
  (`StorageRuns.FailedUmountThenFalseSuccess`, `StorageRuns.UmountSuccessMeansGone`).
- A device that reports itself mounted after a successful enforced check and mount has all its
  partitions mounted exactly if no check was demanded, or each was mounted or timed out before; and
  any of them exactly if one was mounted or timed out before, or no check was demanded and there is
  one (`StorageLoops.EnforceExact`; `UnmountedDeviceReportsMounted` is a device with none mounted).
- A batch that overlaps with others is reported while one of its counted checks still runs exactly
  if a thread started later overtook its own counting (`FsckBatch.ReportedEarlyExactly`;
  `SecondBatchReportsFirstEarly`), and overlapping batches may share one notification
  (`TwoBatchesOneNotification`).
- The event of a partition reaches the device it is on exactly if no device earlier in the list
  claims its name (`StorageFilling.ReachesItsDeviceExactly`); a stick whose disk has not come up yet
  has no name and claims every name (`NamelessDeviceTakesPartitions`).
- The two-level search agrees with a flat one exactly if no name is shadowed
  (`DriveLookup.TwoLevelIsFlat`; in `ShadowedPartitionIsMissed` drive `sda` hides partition `sdaa1`).
- The NFC handler never clears the flag that the HID handler clears before each removal, so after
  one removal it claims every later remove event (`DeviceLists.NfcClaimsRemove`;
  `StrangerIsClaimed`).
- A disk without a partition count starts one batch per distinct name
  (`PartitionArrival.UncountedDiskRestarts`).
- Dividing block sizes first agrees with dividing last exactly if the truncated remainders stay
  below one KiB in all (`SpaceInfo.DivideLastAgainstFirst`); with blocks of 512 bytes it reports
  nothing (`HalfKiBBlocksVanish`).

## Model

| member | source | states |
|---|---|---|
| ThreadPool.NoJobWaitsBesideASleeper | inc/private/PdmThreadPool.h:64-107 | In every interleaving, while the flag is unset and somebody sleeps, queued jobs number at most the notifies still owed plus the awake idle workers; so when nothing can happen by itself the queue is empty and all sleep |
| ThreadPool.ExactlyOnceInOrder | inc/private/PdmThreadPool.h:62-79 | In every run started jobs followed by queued jobs are the accepted jobs in order, without repetition, and no job completes more often than it starts nor starts twice |
| ThreadPool.OneWorkerCompletesInOrder | src/framework/CommandManager.cpp:22-24 | With the one worker the manager asks for, completions are a prefix of acceptances |
| ThreadPool.ShutdownStep | inc/private/PdmThreadPool.h:70-73 | Once the flag is set nothing is accepted, nobody falls asleep, a refused enqueue changes nothing and every other step lowers a measure of queue, workers, owed notifies and destructor steps |
| ThreadPool.ShutdownTerminates | inc/private/PdmThreadPool.h:110-132 | After the flag any run has at most as many steps as that measure, and a run that cannot go on has joined every worker and drained, exactly if there was a worker or nothing accepted |
| ThreadPool.JoinedMeansDrained | inc/private/PdmThreadPool.h:122-131 | When the joins have returned the queue is empty and every accepted job completed once, exactly if there was a worker or nothing accepted |
| ThreadPool.UnmannedPoolLosesAJob | inc/private/PdmThreadPool.h:57-61 | A legal run of a pool of zero workers that accepts a job, joins, and never ran it |
| PdmThreadPoolObject.PdmThreadPool.constructor | inc/private/PdmThreadPool.h:57-82 | A new pool is the initial state of the protocol, so every result about runs applies to it |
| PdmThreadPoolObject.PdmThreadPool.Enqueue | inc/private/PdmThreadPool.h:97-105 | Takes the enqueue step, or the refusal exactly when the flag is set, and keeps the protocol's invariant |
| PdmThreadPoolObject.PdmThreadPool.WorkerCheck | inc/private/PdmThreadPool.h:69-76 | One evaluation of the wait predicate and what follows it is the protocol's check step |
| PdmThreadPoolObject.PdmThreadPool.Destroy | inc/private/PdmThreadPool.h:110-132 | For every schedule of the live workers it terminates, every worker has exited, and the pool is drained exactly if it had a worker or nothing accepted |
| CommandOwnership.NeverFreedTwice | src/framework/DeviceClassCommand.cpp:25-40 | In every interleaving of uevents and service requests, accepted and refused, throwing and returning, no command or payload is used or freed after it was freed, and each is freed at most once |
| CommandOwnership.ReleasedExactlyOnce | src/framework/CommandManager.cpp:26-63 | When the pool has been destroyed every uevent that entered handleEvent, every command given to sendCommand and every payload of one has been freed exactly once, exactly if the pool had a worker or accepted nothing |
| CommandOwnership.RequestsAnswered | src/framework/PdmCommand.cpp:29-34 | In every interleaving no request is answered twice, a uevent or a refused request never; once the pool has been destroyed an accepted request has been answered exactly if the device manager did not throw on it |
| CommandObjects.Command.ExecuteUevent | src/framework/DeviceClassCommand.cpp:32-40 | The event is live while handled; afterwards it is freed and forgotten, or untouched if the handler threw |
| CommandObjects.Command.ExecuteService | src/framework/PdmCommand.cpp:29-34 | The callback is made exactly once unless the device manager throws, on a live request, which stays owned even if the callback throws |
| CommandObjects.Command.Delete | src/framework/PdmCommand.cpp:36-43 | From any state execute can leave, either destructor leaves command and payload freed once |
| CommandObjects.CommandManager.constructor | src/framework/CommandManager.cpp:22-24 | The manager starts with a pool of one worker in the initial state of the protocol and no job |
| CommandObjects.CommandManager.SendCommand | src/framework/CommandManager.cpp:31-47 | Either the command becomes the last job, still owning its payload, by one enqueue and one notify step of the pool; or nothing about the pool changes and a non-null command and its payload are freed |
| CommandObjects.CommandManager.ExecuteCommand | src/framework/CommandManager.cpp:49-63 | A command and its payload are freed exactly once and a request is answered as due, whatever the execution runs into |
| CommandObjects.CommandManager.WorkerMoves | inc/private/PdmThreadPool.h:64-79 | A move of the worker is a check or finish step of the pool; a job that finishes has freed exactly its own command and payload and answered only its own request |
| CommandObjects.CommandManager.Destroy | src/framework/CommandManager.cpp:26-29 | The pool is joined and drained, every command ever accepted is gone with its payload, and each request that was still waiting was answered once unless the device manager threw on it |
| CommandObjects.PdmNetlinkClassAdapter.HandleEvent | src/framework/PdmNetlinkClassAdapter.cpp:38-72 | The event is alive afterwards exactly if there is a running manager and memory for the command, and then one new uevent command in the last job holds it |
| DeviceLists.FirstMatch | inc/private/DeviceHandler.h:64-88 | The result is a stored string that is a prefix of the key and no earlier one is; none means no stored string is |
| DeviceLists.RunOrdered | src/handlers/hid/HIDDeviceHandler.cpp:35-111 | Every run of events keeps the unwritten ordering: no earlier path is a prefix of a later one |
| DeviceLists.LookupBehavesLikeAnIndex | src/handlers/nfc/NfcDeviceHandler.cpp:34-97 | After any run from an empty handler the paths are distinct and prefix-ordered, and right after an accepted add of a path the search for it finds exactly it |
| DeviceLists.StoredPathIsFound | inc/private/DeviceHandler.h:64-75 | In an ordered list the search for any stored path finds the only entry with that path |
| DeviceLists.TwoAdds | src/handlers/hid/HIDDeviceHandler.cpp:76-90 | A device below a stored one takes over its entry, any other is stored behind it, so ordering is one-sided |
| DeviceLists.HidClaimsRemove | src/handlers/hid/HIDDeviceHandler.cpp:35-58 | A remove event is claimed exactly if a device was found or it is an input event of the class |
| DeviceLists.HidExact | src/handlers/hid/HIDDeviceHandler.cpp:35-111 | For every event and every state of the HID handler: what is dropped, stored, told and claimed, each exactly when |
| DeviceLists.NfcExact | src/handlers/nfc/NfcDeviceHandler.cpp:34-97 | The same for the NFC handler, with the flag that is only ever set |
| DeviceLists.NfcFlagIsSticky | src/handlers/nfc/NfcDeviceHandler.cpp:82-88 | The removed flag is set exactly if some earlier event of the run dropped a device |
| DeviceLists.NfcClaimsRemove | src/handlers/nfc/NfcDeviceHandler.cpp:34-48 | A remove event is claimed exactly if the class matches, a device was found now, or any earlier event ever dropped one |
| DeviceLists.StrangerIsClaimed | src/handlers/nfc/NfcDeviceHandler.cpp:36-41 | After any device came and went, the NFC handler claims the removal of a device it never had; the HID handler does not |
| DeviceHandlers.GetDeviceWithPath | inc/private/DeviceHandler.h:64-75 | The loop over device objects stops at the first prefix match of their current paths |
| DeviceHandlers.DeviceHandler.RemoveDevice | src/handlers/hid/HIDDeviceHandler.cpp:60-69 | Removing an object that occurs once takes out that position and announces its path; the rest keep their order |
| DeviceHandlers.DeviceHandler.ProcessDevice | src/handlers/hid/HIDDeviceHandler.cpp:71-111 | The objects' paths, the flag and the notices change as the handler on values does, and the list never holds an object twice |
| DeviceHandlers.DeviceHandler.HandlerEvent | src/handlers/nfc/NfcDeviceHandler.cpp:34-48 | The same for a whole event, claim included, so the results on runs hold of the objects |
| DriveLookup.TwoLevelIsFlat | src/handlers/storage/StorageDeviceHandler.cpp:285-297 | Prefix search followed by the exact search agrees with a flat exact search on every request, exactly if no partition name is shadowed by an earlier device name |
| DriveLookup.ShadowedPartitionIsMissed | inc/private/DeviceHandler.h:77-88 | Two drives on which the two searches differ |
| DriveLookup.PrefixFreeNamesSuffice | inc/private/DeviceHandler.h:77-88 | Pairwise prefix-free device names that their partitions' names extend are enough for that |
| DriveLookup.ReachesOnlyTheRequested | src/devices/storage/StorageDevice.cpp:419-430 | Without hypotheses what a request reaches is a partition of exactly the requested, non-empty name |
| StorageModel.FindPartition | src/devices/storage/StorageDevice.cpp:419-430 | The first partition of exactly that name; the empty name finds nothing |
| StorageRuns.ReportedMountedIsMounted | src/devices/storage/StorageDevice.cpp:616-668 | Whatever the system answers, every run of arrivals, mounts, unmounts, checks, formats, ejects, enforced mounts and unplugs keeps every partition that reports itself mounted in the kernel's table |
| StorageRuns.NewDeviceInv | src/devices/storage/StorageDevice.cpp:40-49 | A device without partitions, as constructed, is a start of such runs |
| Announcements.NewDeviceStarts | src/devices/storage/StorageDevice.cpp:40-49 | A device as constructed meets what the results on runs suppose at the start |
| StorageRuns.FailedUmountThenFalseSuccess | src/devices/storage/StorageDevice.cpp:616-638 | After a failed unmount the next request reports success and changes nothing while the mount stays |
| StorageRuns.UmountSuccessMeansGone | src/devices/storage/StorageDevice.cpp:620-630 | A successful unmount leaves the mount point free exactly if the partition reported itself mounted and was mounted there once, or did not and the point was free |
| StorageLoops.UmountAllExact | src/devices/storage/StorageDevice.cpp:387-396 | Success exactly if no mounted partition was busy (unless lazy) and none failed; a busy one stops nothing; each partition's new state depends on its own answers alone; the mount table loses exactly the freed points; all else about the device stands |
| StorageLoops.MountAllExact | src/devices/storage/StorageDevice.cpp:403-413 | Success exactly if every supported partition could be mounted; one that could not stops nothing; each supported one reports what became of it, unsupported ones are untouched; the table gains exactly the mounts that worked; all else about the device stands |
| StorageLoops.EnforceExact | src/devices/storage/StorageDevice.cpp:566-590 | Which partitions are mounted, which are checked and which left alone, each by its own answers; success exactly if all that was tried worked; exactly then the error reason is cleared and the device reported mounted; and exactly when, read off the device before, a success leaves all partitions mounted, and when any |
| StorageLoops.EnforcedCheckMayMountNothing | src/devices/storage/StorageDevice.cpp:576-588 | With a check demanded and none timed out, success and the mounted report come without any call on a partition |
| StorageLoops.UnmountedDeviceReportsMounted | src/devices/storage/StorageDevice.cpp:585-588 | A device whose one partition is unmounted and was never checked comes out as mounted, with nothing mounted |
| StorageLoops.EjectLeavesNothingMounted | src/devices/storage/StorageDevice.cpp:553-560 | A successful eject leaves no partition reported mounted and records the reason; a failed one leaves the reason; it succeeds exactly if every mounted partition was idle and could be unmounted |
| StorageMeaning.UmountExact | src/devices/storage/StorageDevice.cpp:616-638 | Success exactly if the partition was not mounted, or was not held by a busy drive and umount2 took it out of the table; busy exactly if it was mounted, busy and not lazily unmounted; and for each answer the partition, the table and the notices |
| StorageMeaning.MountExact | src/devices/storage/StorageDevice.cpp:640-655 | Success exactly if the directory is there and the first attempt works, or is refused and the read-only one works; and for each answer the partition, the table and the notices |
| StorageMeaning.CheckExact | src/utils/PdmFsck.cpp:80-111 | For every type and exit code: success is recorded exactly if the type has a check program and the exit is none of 1, 2 and 124; a timeout exactly if it has one and the exit is 124, and then the partition is unmounted and needs a check; otherwise a failure, with the mounted report as before |
| StorageMeaning.FsckExact | src/devices/storage/StorageDevice.cpp:657-668 | Check and mount succeeds, with one more mount and the partition mounted, exactly if the check passed and the mount worked; which command ran in which mode, and what was told around it |
| StorageMeaning.FormatExact | src/devices/storage/StorageDevice.cpp:453-476 | For every world and all answers: a write-protected disk is left alone; the unmount fails exactly if the partition was mounted and busy, refused or not in the table, and then nothing is started; otherwise its mount was gone before FORMAT_STARTED; success exactly if the resolved type has a mkfs program that exited with zero and the mount worked, and then the type, label, mounted state, one mount more than after the unmount, cleared reason and FORMAT_SUCCESS last; otherwise FORMAT_FAIL last |
| StorageMeaning.FsckDriveExact | src/devices/storage/StorageDevice.cpp:486-502 | The same for a check on request: unmount first or nothing more, success exactly if it passed and the mount worked, and what is left and told in every case |
| StorageMeaning.LabelExact | src/utils/PdmFs.cpp:169-205 | Which of the four failures is answered exactly when; the program runs exactly for a non-empty label on a type that has one, and the label is recorded exactly if it exited with zero |
| StorageMeaning.UnknownName | src/devices/storage/StorageDevice.cpp:419-430 | A format, check or label request for a name no partition has is answered so and changes nothing |
| StorageMeaning.EnforceSays | src/devices/storage/StorageDevice.cpp:566-590 | What an enforced check and mount tells, partition by partition, and the forced check commands it runs |
| StorageMeaning.NotificationExact | src/devices/storage/StorageDevice.cpp:321-343 | ADD is sent exactly if some partition timed out or is mounted, FSCK_TIMED_OUT right before it exactly if one timed out; the error reason and the mounted report in each case; nothing else changes |
| StorageMeaning.CountDownExact | src/devices/storage/StorageDevice.cpp:302-309 | One is taken off, and exactly if that gives zero what is due is announced and the timeout, if any, removed and forgotten |
| StorageMeaning.ThreadChecksExact | src/devices/storage/StorageDevice.cpp:592-597 | The first half of a checking thread checks its own partition in automatic mode, once, and touches no other |
| StorageMeaning.ThreadCountsExact | src/devices/storage/StorageDevice.cpp:592-597 | The second half counts down, once, and only after the check; then the thread has ended |
| StorageMeaning.TimerExact | src/devices/storage/StorageDevice.cpp:345-354 | A live timeout that fires is gone, forgotten and announced; one that is not live does nothing |
| StorageMeaning.DeleteExact | src/devices/storage/StorageDevice.cpp:439-447 | Each mounted partition is unmounted, busy or not, and its mount leaves the table exactly if umount2 took it; then the list and the count are empty |
| StorageMeaning.RemoveExact | src/devices/storage/StorageDevice.cpp:509-517 | A removal first lets every checking thread end, and only then unmounts and drops the partitions, in the state the threads left |
| StorageMeaning.DestroyExact | src/devices/storage/StorageDevice.cpp:50-63 | The destructor removes the timeout, if any, and drops the partitions as DeleteExact says |
| StorageRuns.FormattedPartitionIsServiceable | src/utils/PdmFs.cpp:51-84 | After a successful format the partition holds the type its mkfs vector was for and keeps its label unless a new one was given; on FLASH, HDD and EMMC, whatever was asked for, that type is supported, has a label vector and in every mode a check vector; elsewhere it is unsupported, and serviceable exactly if it is not jfs; without success nothing changed |
| StorageRuns.JoinsEndEveryThread | src/devices/storage/StorageDevice.cpp:511-512 | When the join loop is through every checking thread has done all it had to do |
| StorageRuns.FormatTouchesOnly | src/devices/storage/StorageDevice.cpp:453-476 | A format request changes no partition but those of the requested name, renames none, and an unknown name changes nothing |
| StorageRuns.FsckTouchesOnly | src/devices/storage/StorageDevice.cpp:486-502 | The same for a check request |
| StorageRuns.LabelTouchesOnly | src/devices/storage/StorageDevice.cpp:361-367 | The same for a label request |
| StorageNotices.UnpluggedNoticesPair | src/devices/storage/StorageDevice.cpp:509-533 | After any run of operations on a new device and its removal, threads that finish while joined included, observers saw no ADD and one REMOVE_BEFORE_MOUNT, or an ADD and one REMOVE that comes last; one REMOVE_UNSUPPORTED_FS exactly if UNSUPPORTED_FS_FORMAT_NEEDED was sent; and after the destructor no timeout is live |
| StorageNotices.RunKept | src/devices/storage/StorageDevice.cpp:278-354 | In every run the two flags that decide the removal notices say exactly which announcements were made, and the only live timeout is the one the device remembers |
| Announcements.EveryAnnouncementIsDue | src/devices/storage/StorageDevice.cpp:246-343 | In every run each operation announces what is due and nothing else: the countdown of the last live thread, and a write-protected arrival after its mounts, ADD exactly if some partition is mounted or timed out; an arrival without a usable file system that it has to be formatted; and the counter is always the number of threads that have not ended |
| Announcements.BatchAnnouncesOnce | src/devices/storage/StorageDevice.cpp:302-343 | While checking threads run and no partition arrives, whatever else goes on, nothing is announced until the last one counts down; then exactly once, ADD if some partition was mounted or timed out at that moment and nothing otherwise |
| Announcements.JoinAnnouncesOnce | src/devices/storage/StorageDevice.cpp:509-513 | Joining the threads of a device that is removed ends the batch with that one announcement |
| ArrivalMeaning.ArriveExact | src/devices/storage/StorageDevice.cpp:246-289 | For every partition event: a known name changes nothing; the direct mount happens exactly if all partitions are there, some is supported and the disk is write-protected, and then each supported one is as its own answers say and no thread starts; checking threads start exactly if the disk is writable, one per supported position in order, counted, with the timeout armed and nothing else changed; the format notice with its flags exactly if none is supported |
| PartitionArrival.SingleBatch | src/devices/storage/StorageDevice.cpp:246-289 | On a disk of n partitions, for named events in any order with any repeats and any requests, checks, countdowns and timeouts in between, names stay unique in order of first appearance and exactly one batch starts, at the event that brings the n-th distinct name, and none if fewer come; it is the format notice if none of the n brought a usable file system, else the direct mount on a write-protected disk and otherwise one checking thread for each that did |
| PartitionArrival.SeenOnceEach | src/devices/storage/StorageDevice.cpp:249-253 | The list of names holds each name that arrived, and no other, once |
| PartitionArrival.UncountedDiskRestarts | src/devices/storage/StorageDevice.cpp:265-265 | With a partition count of zero there are as many batches as distinct names |
| StorageObjects.DiskPartitionInfo.SetDriveStatus | src/utils/DiskPartitionInfo.cpp:54-60 | Reported mounted exactly for MOUNT_OK; nothing else changes |
| StorageObjects.DiskPartitionInfo.SetPartitionInfo | src/utils/DiskPartitionInfo.cpp:35-52 | Fills the name, and mount point, type and label only from non-empty parts |
| StorageObjects.StorageDevice.FindPartitionInList | src/devices/storage/StorageDevice.cpp:419-430 | The loop returns the object at the position the exact search gives |
| StorageObjects.StorageDevice.UmountPartition | src/devices/storage/StorageDevice.cpp:616-638 | Status, mount table and notices after the intermediate states are those of the unmount whose meaning is StorageMeaning.UmountExact |
| StorageObjects.StorageDevice.MountPartition | src/devices/storage/StorageDevice.cpp:640-655 | Likewise for a mount, with the read-only retry, whose meaning is StorageMeaning.MountExact |
| StorageObjects.StorageDevice.FsMount | src/utils/PdmFs.cpp:99-136 | Succeeds exactly on an existing directory whose first mount works or is refused and then works read-only; the table gains that one mount |
| StorageObjects.StorageDevice.FsFsck | src/utils/PdmFs.cpp:86-97 | Records what CheckExact says for every type and exit code, and runs the command of the given mode exactly if the type has one |
| StorageObjects.StorageDevice.FsckPartition | src/devices/storage/StorageDevice.cpp:657-668 | Refines the check and mount whose meaning is StorageMeaning.FsckExact |
| StorageObjects.StorageDevice.UmountAllPartition | src/devices/storage/StorageDevice.cpp:387-396 | The loop over objects refines the unmount-all whose meaning is StorageLoops.UmountAllExact |
| StorageObjects.StorageDevice.MountAllPartition | src/devices/storage/StorageDevice.cpp:403-413 | The loop over objects refines the mount-all whose meaning is StorageLoops.MountAllExact: exactly the supported partitions are mounted, each reports its own outcome, success means all worked |
| StorageObjects.StorageDevice.Eject | src/devices/storage/StorageDevice.cpp:553-560 | Refines the eject of StorageLoops.EjectLeavesNothingMounted |
| StorageObjects.StorageDevice.EnforceFsckAndMount | src/devices/storage/StorageDevice.cpp:566-590 | Refines the enforced check and mount whose meaning is StorageLoops.EnforceExact: who is mounted, who is checked, and success exactly if all of it worked |
| StorageObjects.StorageDevice.FsFormat | src/utils/PdmFs.cpp:51-84 | Resolves the file system, runs the vector of FormatArgvWrittenOut, and records type and label only on success |
| StorageObjects.StorageDevice.FormatDiskStart | src/devices/storage/StorageDevice.cpp:453-476 | Refines the format whose meaning is StorageMeaning.FormatExact |
| StorageObjects.StorageDevice.FsckOnDrive | src/devices/storage/StorageDevice.cpp:486-502 | Refines the check on request whose meaning is StorageMeaning.FsckDriveExact |
| StorageObjects.StorageDevice.SetPartitionVolumeLabel | src/utils/PdmFs.cpp:169-205 | Refines the label change whose meaning is StorageMeaning.LabelExact |
| StorageObjects.StorageDevice.DeletePartitionData | src/devices/storage/StorageDevice.cpp:439-447 | Refines the unmounting and dropping whose meaning is StorageMeaning.DeleteExact |
| StorageObjects.StorageDevice.StorageDeviceNotification | src/devices/storage/StorageDevice.cpp:321-343 | Refines the announcement whose meaning is StorageMeaning.NotificationExact, and over runs Announcements.BatchAnnouncesOnce |
| StorageObjects.StorageDevice.SpawnFsckThreads | src/devices/storage/StorageDevice.cpp:272-277 | One thread is stored for each supported partition, in list order and once each, and the counter rises by their number |
| StorageObjects.StorageDevice.FsckOnDeviceAddThread | src/devices/storage/StorageDevice.cpp:592-597 | One checking thread, undisturbed: the two halves of ThreadChecksExact and ThreadCountsExact |
| StorageObjects.StorageDevice.StorageDeviceFsckNotification | src/devices/storage/StorageDevice.cpp:302-309 | Refines the countdown whose meaning is StorageMeaning.CountDownExact; the interleaved form is FsckBatch |
| StorageObjects.StorageDevice.CancelConnectingTimeout | src/devices/storage/StorageDevice.cpp:294-300 | Removes only the id the device remembers and forgets it |
| StorageObjects.StorageDevice.NotifyStorageConnecting | src/devices/storage/StorageDevice.cpp:345-354 | A timeout that fires is dropped, forgotten and announced |
| StorageObjects.StorageDevice.SetPartitionInfo | src/devices/storage/StorageDevice.cpp:246-289 | Refines the arrival whose meaning is ArrivalMeaning.ArriveExact, and over runs PartitionArrival.SingleBatch |
| StorageObjects.StorageDevice.OnDeviceRemove | src/devices/storage/StorageDevice.cpp:509-533 | Joins every thread, which first does what it has left, then refines the removal of StorageMeaning.RemoveExact and UnpluggedNoticesPair |
| StorageObjects.StorageDevice.Destroy | src/devices/storage/StorageDevice.cpp:50-63 | Refines the destructor whose meaning is StorageMeaning.DestroyExact |
| StorageHandler.StorageDeviceHandler.Command | src/handlers/storage/StorageDeviceHandler.cpp:285-367 | A format, check or label request is served by the device found by prefix; over all devices only partitions of exactly the requested name can differ, and nothing does if the two-level search finds none |
| StorageHandler.StorageDeviceHandler.EjectDevice | src/handlers/storage/StorageDeviceHandler.cpp:300-313 | Ejects the first device with the number and no other, and then announces UNMOUNTALL whether or not it worked; without such a device it says so and nothing happens |
| StorageHandler.StorageDeviceHandler.HandlerEvent | src/handlers/storage/StorageDeviceHandler.cpp:98-120 | Which events are removals, which are routed to a device and which do nothing; what is claimed; and the list never exceeds its limit |
| StorageHandler.StorageDeviceHandler.CheckStorageDevice | src/handlers/storage/StorageDeviceHandler.cpp:184-212 | At most one device differs, the one the event is routed to, or one is new at the end; routing is what ReachesItsDeviceExactly is about |
| StorageHandler.StorageDeviceHandler.CreateStorageDevice | src/handlers/storage/StorageDeviceHandler.cpp:214-237 | Exactly below the limit a new device, an extra card numbered below its parent, is filled from the event and appended; at the limit only the announcement is made; every known device stays as it was |
| StorageHandler.StorageDeviceHandler.DeleteStorageDevice | src/handlers/storage/StorageDeviceHandler.cpp:239-283 | Exactly the device the event is about is removed, announced and destroyed; all others stay in place; claimed exactly for a USB device that was found |
| StorageHandler.RetiredExact | src/handlers/storage/StorageDeviceHandler.cpp:239-261 | Which device a remove event retires: for a USB device the first whose path is a prefix, for a disk the first by name and only if it is an extra card, otherwise none |
| StorageHandler.WithoutBlanksExact | src/handlers/storage/StorageDeviceHandler.cpp:319-320 | A check request loses exactly its blanks |
| StorageFilling.RoutedExact | src/handlers/storage/StorageDeviceHandler.cpp:184-212 | For every list and event: which events create a device, which are filled into which device and which are ignored, by the first path and the first name that are prefixes |
| StorageFilling.ReachesItsDeviceExactly | src/handlers/storage/StorageDeviceHandler.cpp:186-210 | An event below a named device's path for a name that extends the device's goes to it exactly if no earlier device's name is a prefix of that name, and otherwise to an earlier device |
| StorageFilling.NamelessDeviceTakesPartitions | src/handlers/storage/StorageDeviceHandler.cpp:199-205 | A stick in the list without a name yet is given the partition of another stick |
| StorageFilling.UsbExact | src/devices/storage/StorageDevice.cpp:159-173 | What the event of a USB device fills in: path, number and the mark of the black list |
| StorageFilling.DiskAddExact | src/devices/storage/StorageDevice.cpp:175-199 | What the add of a disk fills in: name, write protection, type, root path and count; and exactly where there are no partitions outside a card reader it is taken for a partition |
| StorageFilling.DiskChangeExact | src/devices/storage/StorageDevice.cpp:200-236 | What any other event of a disk does: a card that went, a new count, a disk taken for a partition, or nothing, each exactly when |
| StorageFilling.BaseNameExact | src/devices/storage/StorageDevice.cpp:188-192 | The root path is extended by what follows the last slash |
| StorageFilling.PartitionExact | src/devices/storage/StorageDevice.cpp:120-122 | A partition's event is an arrival of that partition and says nothing of the device |
| StorageFilling.SkippedEvent | src/devices/storage/StorageDevice.cpp:743-753 | After a card went the next event of any kind is dropped, and only that one |
| StorageFilling.StickComesUp | src/devices/storage/StorageDevice.cpp:101-222 | After the events of a stick and of its partitioned disk the new device has the disk's name, the stick's path, the count, type, write protection and root path announced, and no partition, mount, notice or timeout yet |
| FsckBatch.CallsFromSchedule | src/devices/storage/StorageDevice.cpp:302-306 | For every schedule a notification was made exactly if some thread tested while as many had been taken off as were counted, and an early one exactly if some such test came before n checks |
| FsckBatch.BarrierExactly | src/devices/storage/StorageDevice.cpp:272-277 | For every run of a batch: when all has ended some notification was made and each followed all n checks, exactly if in the steps up to the last count (i) every test that read zero came after n checks and (ii) there was one, or fewer than n tests |
| FsckBatch.CountedFirst | src/devices/storage/StorageDevice.cpp:302-309 | If all threads are counted before the first decrements, every interleaving notifies at least once and only after all checks |
| FsckBatch.FinishesBeforeOthersStart | src/devices/storage/StorageDevice.cpp:274-275 | A run in which the notification comes before the second check has begun |
| FsckBatch.FinishesBeforeItIsCounted | src/devices/storage/StorageDevice.cpp:274-275 | A run that ends without any notification |
| FsckBatch.CallsAreTheLateReaders | src/devices/storage/StorageDevice.cpp:304-306 | There are as many notifications as threads that had not tested when the last one decremented |
| FsckBatch.NotifiesExactly | src/devices/storage/StorageDevice.cpp:302-306 | However many batches share the counter, a test notifies exactly if as many of all started threads are busy as are started and not yet counted |
| FsckBatch.ReportedEarlyExactly | src/devices/storage/StorageDevice.cpp:272-277 | A notification finds a counted thread of any batch still busy exactly if a thread started later counted down before it was counted |
| FsckBatch.SecondBatchReportsFirstEarly | src/devices/storage/StorageDevice.cpp:274-275 | A run in which a second batch reports the first while its check runs |
| FsckBatch.TwoBatchesOneNotification | src/devices/storage/StorageDevice.cpp:304-306 | A run of two overlapping batches that ends with one notification |
| Lifecycle.EveryLiveThreadIsJoined | src/devices/storage/StorageDevice.cpp:272-277 | In every run each live checking thread has a handle the join loop has still to come to, or one that is just being stored |
| Lifecycle.NoThreadOutlivesPartitions | src/devices/storage/StorageDevice.cpp:509-517 | In every run no checking thread touches a partition that has been deleted; once they are deleted every thread has ended and only the unplug goes on |
| Lifecycle.NotificationSays | src/devices/storage/StorageDevice.cpp:321-343 | The steps of one notification: what each finding has told and flagged when it returns |
| Lifecycle.NoticesPair | src/handlers/storage/StorageDeviceHandler.cpp:263-283 | The pairing of UnpluggedNoticesPair with checking threads and worker interleaved step by step, announcing and remembering being separate steps |
| Timers.TimerOwnership | src/devices/storage/StorageDevice.cpp:278-300 | In every interleaving over any devices the id is 0 or the device's only live source, only own live ids are removed, no source names a destroyed device and no callback ran on one |
| Timers.DestroyedDeviceIsForgotten | src/devices/storage/StorageDevice.cpp:50-63 | A destroyed device has no live source left |
| CommandTables.SplitArgs | src/utils/PdmUtils.cpp:214-224 | The extraction loop returns the tokens of the string |
| CommandTables.TokensAreTheWords | src/utils/PdmUtils.cpp:214-224 | Every token is a non-empty word, and together they are the characters that are not white space |
| CommandTables.SplitUndoesSpaced | src/utils/PdmUtils.cpp:214-224 | Words written with spaces and split again come back |
| CommandTables.TokensOfParts | src/utils/PdmUtils.cpp:214-224 | White space on either side of a cut separates the tokens of the parts |
| CommandTables.FormatCommand | src/utils/DiskFormat.cpp:35-58 | The built vector is the one FormatArgvWrittenOut describes |
| CommandTables.FormatArgvWrittenOut | inc/private/DiskFormat.h:33-55 | For every drive, type and label: nothing, or the words of the table, the device node, and for a label its option and the label |
| CommandTables.LabelIsOneArgument | src/utils/DiskFormat.cpp:47-55 | Two labels give vectors that differ in the last entry only, and that entry is the label, whatever it contains |
| CommandTables.FsckCommand | src/utils/PdmFsck.cpp:53-78 | The vector built by the loops is the one FsckArgvWrittenOut describes |
| CommandTables.FsckArgvWrittenOut | src/utils/PdmFsck.cpp:113-150 | For every mode, type and partition: nothing for types without a check program, or timeout unless the program has its own, the program, the words of the mode, the fixed options and the device node, in this order and each written out, program names included |
| CommandTables.FormatClosure | src/utils/PdmFs.cpp:67-84 | For every storage type, current and requested type: a mkfs vector exists exactly for FLASH, HDD, EMMC, or an unset or formattable current type; where it exists so does a check vector, and a label vector exactly for types other than jfs |
| CommandTables.SupportedExactly | src/utils/PdmFs.cpp:235-250 | The five types that are supported, and on which storage types |
| CommandTables.ResolveExact | src/utils/PdmFs.cpp:51-84 | For every storage type, current and requested type the type a format settles on, written out |
| CommandTables.LabelArgvWrittenOut | src/utils/PdmFs.cpp:156-167 | For every type, drive and label the words of the label vector, and where the device and the label stand |
| SpaceInfo.CalculateSpaceInfo | src/utils/PdmFs.cpp:252-277 | The stepwise fill gives the sizes the next three rows are about, and leaves the structure alone when statfs fails |
| SpaceInfo.ReportedExactly | src/utils/PdmFs.cpp:262-272 | Whatever the structure held: drive and free are the whole KiB, used their difference where there is one, the rate the whole percent of the drive, and what is left alone when |
| SpaceInfo.SpaceIsConsistent | src/utils/PdmFs.cpp:260-272 | When the products fit, the hundredfold does not wrap, used and free make the drive, the rate is a percentage, and used is within a KiB of exact |
| SpaceInfo.UsedGrowsAsAvailableFalls | src/utils/PdmFs.cpp:266-272 | Less space available never lowers used size or rate |
| SpaceInfo.DivideLastAgainstFirst | src/lunaIpc/PdmLunaService.cpp:1132-1133 | Dividing last is never below dividing first and equals it exactly if the truncated parts stay under a KiB in all |
| SpaceInfo.HalfKiBBlocksVanish | src/utils/PdmFs.cpp:260-267 | With 512-byte blocks dividing first always reports zero, dividing last half the blocks |
| Listener.ReleasedOnceAfterExit | src/framework/PdmNetlinkListener.cpp:53-100 | In every interleaving with any number of starts and stops, context and eventfd are released at most once and only without a running thread, never used afterwards, and all are released when the owner is done |
| Listener.LeavesWithinOneWait | src/framework/PdmNetlinkListener.cpp:186-216 | After the eventfd is written at most one more wait returns before the thread leaves |
| Listener.SignalledThreadExits | src/framework/PdmNetlinkListener.cpp:135-222 | In every run from the signal until the owner starts anew the thread takes at most the steps it had left, never more than eight, interrupted waits aside, and a run in which it can take no further step has seen it exit |
| Listener.StopAgainDoesNothing | src/framework/PdmNetlinkListener.cpp:51-79 | A stop on a listener without a thread, stopped, failed or never started, changes nothing |
| Listener.PdmNetlinkListener.StartListener | src/framework/PdmNetlinkListener.cpp:44-100 | From any state: succeeds exactly on a listener without a joinable thread when context and eventfd are there; a failed start keeps nothing it acquired; on a running listener what is held is lost, and a start that otherwise works ends the process |
| Listener.PdmNetlinkListener.StopListener | src/framework/PdmNetlinkListener.cpp:53-79 | Blocks, with nothing released, exactly if there is a joinable thread that neither could be signalled nor leaves of itself; otherwise everything held is released once |
| SubDevices.SoundListHoldsTheLastWord | src/devices/sound/SoundDevice.cpp:59-136 | For every sequence of uevents to a new device: each path occurs once; a path is in the list exactly if the last sound event of its name, a remove or a named add, is an add; and its kind is capture, playback, control or misc by the text of that event's path |
| SubDevices.VideoListHoldsTheLastWord | src/devices/video/VideoDevice.cpp:60-119 | The same for video4linux events whose capabilities contain :capture:, with the capabilities, product name and version of that add |
| SubDevices.ListRefinesMap | src/devices/sound/SoundDevice.cpp:79-114 | From any list and map that agree, every sequence of updates keeps each path once and list and map in agreement |
| SubDevices.UpdatedRepresents | src/devices/video/VideoDevice.cpp:82-108 | The same for one update: replace, append, remove or nothing |
| SubDevices.SubDeviceList.GetSubDevice | src/devices/sound/SoundDevice.cpp:130-136 | The loop finds the first object with the path, or none has it |
| SubDevices.SubDeviceList.UpdateDeviceInfo | src/devices/video/VideoDevice.cpp:60-108 | A uevent changes the objects in the list as the update it stands for changes the list, filter included |

## Left out

- Code under `WEBOS_SESSION`, the bus service with its JSON, the database, toasts, alerts, locale, logging, SMART output, plugin loading, factories and getters.
- udev, GLib, fork and exec, mount and umount2, statfs, lsof: their answers are inputs, their tables are ghost or plain state, the commands run are recorded. Mount flags, mount data and umount flags are not modelled; mounts on one mount point stack.
- The suspend and resume paths, which unmount without touching the status. The results on runs do not hold across them, nor across a card reader's media change, which frees partitions without joining; `StorageFilling` has what that change does to the device.
- `partitionLock`: its result is ignored by the code, so no mutual exclusion is claimed and none is modelled. Concurrent requests on one device are not interleaved below the level of one operation, except for the checking threads of an arrival.
- `rootPath` does not change while a device has partitions. Two devices never share a mount point in the results on runs, which are about one device.
- Unmounting every device at once, enforced mount looked up by mount name, and space-information threads. Of what an event fills into a device, serial numbers, vendor and product names, port and speed.
- MTP and PTP, CDC devices, sound control devices, and the attributes of sound and video devices other than those in their sub-device lists.
- Allocation failure inside lists, exceptions from join and from mutexes, and the handler destructors.
- StorageHandler.StorageDeviceHandler.Command: the handler keeps devices as values and calls the functions the device objects are tied to, so aliasing between the handler's list and a device object is not captured.
- Timers.TimerOwnership: arming, firing and cancelling are atomic; the race between the main loop and a worker inside one of them is not modelled.
- Starting a listener that already runs is not among the steps of `Listener`; what it does is in the contract of the object's StartListener.
- Requests whose command object could not be allocated never enter sendCommand; the payload the bus service leaks then is not modelled.
- Removing the device's directory, and what a checking thread of a card reader does after its partitions were freed without a join.
- ThreadPool.ShutdownTerminates: join of all workers is one step, and a `notify_one` after the pool is gone is not modelled.
- SpaceInfo.ReportedExactly: supposes that the products fit in 64 bits.
- SpaceInfo.SpaceIsConsistent: supposes that the products fit in 64 bits and that the structure starts zeroed, as both callers do.
