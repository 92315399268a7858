# BOOTy verification model

BOOTy is a ramdisk agent that provisions bare-metal machines: it loads kernel
modules, wipes and partitions disks, mirrors the EFI system partition, reads
its settings from vars files, ships its log lines, renews its token, stops the
network and hands over to the installed system. This project models the parts
of that agent with the most state, and proves what they promise over every
input, every run and every interleaving.

| file | models |
|---|---|
| `EspTree.dfy`, `EspMirror.dfy` | the crash-safe mirror of the EFI system partition |
| `LoadOrder.dfy`, `ModuleLoader.dfy`, `ModuleDir.dfy` | the dependency order of kernel modules, the parallel loader, and the load of a whole directory |
| `Utf8.dfy`, `LogRing.dfy`, `LogRingClass.dfy`, `RankQueues.dfy`, `LogSender.dfy` | the bounded log queue and the sender goroutine |
| `InUse.dfy`, `WipeDisks.dfy` | the in-use analysis and the wipe of all disks |
| `VersionOrder.dfy` | the order of FRR versions |
| `Handoff.dfy` | log flush, network stop, handoff and network restore at the end of a run |
| `VarLines.dfy`, `Vars.dfy`, `CommandVars.dfy` | vars files, command payloads and archive vars |
| `DeployArchive.dfy` | the swap of the deploy directories and the staged archive |
| `TokenRenewal.dfy` | the token renewal loop against the clock |
| `MirrorPair.dfy` | the choice of two disks for a mirror |
| `NvmeLayout.dfy` | the split of an NVMe controller into namespaces |
| `LoadOption.dfy` | the EFI_LOAD_OPTION encoder (section 3.1.3 of the UEFI Specification, UTF-16 as in section 2.1 of RFC 2781) |
| `Ordering.dfy`, `Basics.dfy` | string order, stable sort, shared types |

Run `dafny verify dfyconfig.toml` to check the whole project.

How the outside world enters the model:

- Every file system operation, rename, HTTP request, teardown, setup and
  external command may fail. The outcome is an open choice (`*`), or a function
  from the number of the operation to what the world does, for every such
  function.
- The clock moves forward by any amount at every request and timer.
- The loader goroutines and the log sender are state machines. A theorem about
  a run holds for every sequence of enabled steps, so for every scheduler.
- sysfs, procfs and mountinfo are given as data. A read that fails is part of
  that data.
- The handlers of the several hundred vars keys are function parameters, so
  the results hold for every set of handlers.

## Results about the code

- `swapDeployDirs` treats every "does not exist" error as an empty directory.
  When `/deploy` itself is missing it reports success and installs nothing:
  `DeployArchive.MissingDeployInstallsNothing` shows it for every archive with
  a job directory, and `DeployArchive.SwapInstallsIff` gives the exact
  condition.
- The staging trees on disk are the current one and one for each removal that
  failed, since the result of a removal is ignored. The calls and the failing
  operations determine how many removals fail (`DeployArchive.Balance`), so
  there is at most one tree exactly when none does, or one does and nothing is
  staged (`DeployArchive.Session`); `DeployArchive.LeakedTree` reaches two.
- A renewal round whose last request timed out ends the loop without the fatal
  handler: the error matches a deadline of the context, also inside the expiry
  error. `TokenRenewal.FatalIff` states over the events of any run when the
  handler runs, and `TokenRenewal.TimedOutRound` is a run where it does not.
- The token lifetime is an int64 product. For `expires_in` above 9223372036 it
  wraps, and the timer of the next round goes off too early, unless the loop
  itself was late: `TokenRenewal.TimerAfterGrant` is exact.
  `TokenRenewal.WrappedLifetime` renews a token after 0.15 seconds, and
  `TokenRenewal.NegativeLifetime` runs the fatal handler after a successful
  renewal.
- A sleep between two attempts can end past the expiry: exactly when it starts
  past it, and then it is empty (`TokenRenewal.SleepPastExpiry`). The request
  before it may have ended in time: `TokenRenewal.LateSleep` is such a run.
- A network whose setup finishes after the restore gave up on it can still be
  up at the exit. Every network has been stopped at a handoff or an exit
  exactly when no late one is up (`Handoff.AllStoppedIff`);
  `Handoff.LateNetworkAtExit` is a run where one is.
- `withVarLines` drops a legacy line that is too long for the scanner, on which
  the parse of the archive fails. `Vars.OnlyLegacyReplaced` is exact, and
  `Vars.OversizedLegacyLine` is such an archive. `archiveVarsConfig` refuses it
  before.
- Two module files whose names differ before `.ko` only in hyphens and
  underscores have one module name (`ModuleDir.OneNameTwoFiles`), and so one
  done channel that two goroutines close. The second close panics. A run of
  the loader that can go on no longer has panicked exactly when a name is
  repeated (`ModuleLoader.PanicsIffRepeated`), whatever the scheduler, and so
  `loadModuleDir` panics exactly for a directory with two such files
  (`ModuleDir.LoadModuleDir`); `ModuleDir.HyphenTwins` is one.
- The bound of the NVMe split needs no assumption about the capacity: when the
  64-bit product overflows, the namespaces only get smaller. The share is exact
  if and only if the product fits (`NvmeLayout.SizeOfShare`); a capacity of
  2^63 bytes gives zero blocks (`NvmeLayout.OverflowLosesShare`).
- A boot entry description with a NUL character is cut at it. The round trip
  holds if and only if there is none (`LoadOption.RoundTrip`,
  `LoadOption.NulIsLost`).
- `push` may evict lines and then still drop the new one. It drops it exactly
  when the lines that rank above it alone leave no room, and then it has also
  evicted all others (`LogRing.PushLoses`). `LogRing.EvictsThenDrops` loses a
  line of rank 0 and the new line of rank 1; both losses are counted.

## Model

| member | source | states |
|---|---|---|
| `EspMirror.Volume.CopyTree` | pkg/espsync/sync.go:30-62 | After every file system operation, each file that is in both the old destination and the source still holds its old or its new content, and each common directory is still there. Success leaves exactly the source without root-level staging directories, whatever the destination held. It fails only after a failed operation, or for an unsupported entry or a taken staging name. A failure before the sync phase leaves everything outside staging directories as it was, adds only to its own staging directory, and only removes from stale ones |
| `EspMirror.CrashThenCopy` | pkg/espsync/sync.go:30-62 | A run cut off after any operation, followed by a full run, ends in the same tree as one full run, and no state of the second run lost a file that the tree before the first run had in common with the source |
| `EspTree.SafeTransitive` | pkg/espsync/sync.go:30-62 | The safety promise composes over any chain of interrupted runs of one source |
| `EspMirror.Volume.CleanStaging` | pkg/espsync/sync.go:64-78 | Success leaves no path of a stale root-level staging directory and adds nothing |
| `EspMirror.Volume.CopyDir` | pkg/espsync/sync.go:120-155 | Success leaves below the staging directory exactly the mirrored part of the source; nothing outside it changes |
| `EspMirror.Volume.CopyEntry` | pkg/espsync/sync.go:157-181 | One entry of the walk with everything below it is staged; a root-level staging directory of the source is skipped and an unsupported type fails |
| `EspMirror.Volume.CopyFile` | pkg/espsync/sync.go:183-208 | The staged file ends with the whole content, written in chunks of any size, or the call fails |
| `EspMirror.Volume.PruneTree` | pkg/espsync/sync.go:249-276 | Success leaves below mirrored directories only names that the staged tree holds; it only removes unprotected paths and leaves the staged tree complete |
| `EspMirror.Volume.ReplacePath` | pkg/espsync/sync.go:283-302 | The target and everything below it equal the mirror afterwards, and no other path changes except the staged source of the rename |
| `EspMirror.Volume.SyncDir` | pkg/espsync/sync.go:210-247 | After the walk of a directory every path below it equals the mirror, and nothing outside it and its staged copy changed |
| `EspMirror.Volume.SyncTree` | pkg/espsync/sync.go:210-247 | After prune and walk the whole destination outside the staging directory equals the mirror |
| `EspMirror.Volume.Rename` | pkg/espsync/sync.go:283-302 | A rename replaces a non-directory in one step, never a directory, and keeps the tree well formed |
| `EspMirror.Volume.RemoveAll` | pkg/espsync/sync.go:64-78 | Removal entry by entry, in any order and with failures: only paths at or below the argument go, and success leaves none of them |
| `LoadOrder.LegacyLoadOrder` | main_modules.go:268-296 | The order is a permutation: a prefix where each module follows its in-directory dependencies, then a tail in file-name order where each module still misses one; the tail is empty if and only if the dependency graph without self-loops has no cycle |
| `LoadOrder.TailNeedsTail` | main_modules.go:268-296 | Each module of the tail has another dependency in the tail |
| `LoadOrder.PrefixIsLargest` | main_modules.go:268-296 | Every set of modules that can be loaded in some dependency order is inside the prefix |
| `LoadOrder.TailEmptyIffAcyclic` | main_modules.go:268-296 | For every split into an orderable prefix and a blocked tail: no tail if and only if no cycle |
| `LoadOrder.OnePass` | main_modules.go:268-296 | One pass over the pending modules computes the reference pass: the modules that become ready in order, and the ones that stay pending |
| `ModuleLoader.BuildPlan` | main_modules.go:135-158 | For every order, also one that repeats a name: each goroutine waits for exactly the channels of its dependencies whose last position is earlier and, for a device driver, of the previous device driver; only earlier positions are waited for; the semaphore holds max(cpus, 2) |
| `ModuleLoader.StepKeepsInv` | main_modules.go:135-170 | Every enabled step of any goroutine keeps the invariant of waits, starts, finishes, closes, panic and semaphore slots |
| `ModuleLoader.EveryRun` | main_modules.go:135-170 | In every interleaving: a start follows a finished load of each module it waits for, no goroutine starts, finishes or closes twice, at most capacity modules load at once, some step is enabled until all are done or one panicked, and when all are done every module started and finished |
| `ModuleLoader.EveryRunTerminates` | main_modules.go:135-170 | Every run has at most a fixed number of steps, and reaches it if and only if all goroutines closed their channel |
| `ModuleLoader.PanicsIffRepeated` | main_modules.go:159-167 | In every interleaving: a run has panicked if and only if two goroutines closed one channel, only orders that repeat a name panic, a run stops if and only if it panicked or all goroutines are done, and a run that stopped has panicked if and only if the order repeats a name |
| `ModuleLoader.DevicesSerial` | main_modules.go:135-170 | In every run of an order without repeated names a device driver starts only after every earlier device driver finished |
| `ModuleLoader.EarlierDepFinished` | main_modules.go:135-170 | In every run a module starts only after each dependency earlier in the order finished; one whose name is repeated has finished once, if all its positions are earlier |
| `ModuleLoader.NeededFinishedFirst` | main_modules.go:86-107 | Order and scheduler together: in every run of an order without repeated names a module of the orderable prefix starts only after everything that it needs finished |
| `ModuleDir.CutsAtKo` | main_modules.go:174 | The text before the first `.ko`, or the whole name without one |
| `ModuleDir.OneNameTwoFiles` | main_modules.go:173-176 | Any two files have one module name if and only if their texts before `.ko` have one length and at each place equal characters or a hyphen and an underscore |
| `ModuleDir.ReadModuleDir` | main_modules.go:111-130 | The names in file order, repeats included, and for each name the module of the last file that has it |
| `ModuleDir.HyphenTwins` | main_modules.go:159-167 | For `dm-mod.ko` and `dm_mod.ko` every run that stopped has panicked by closing one channel twice |
| `ModuleDir.RunAll` | main_modules.go:135-170 | Under any scheduler the goroutines reach a state where none can go on, by a run of enabled steps |
| `ModuleDir.RetryPass` | main_modules.go:91-106 | The loaded and the failed modules in order, and the list of the second loads, as a function of the errors of the parallel load; together they are the whole order |
| `ModuleDir.LoadModuleDir` | main_modules.go:86-107 | For every directory and every scheduler: the order is a permutation of the names, the log of the run keeps it, and it ends in a panic if and only if two files have one module name; otherwise each module is started once and a second time exactly when the first load failed on present hardware, and it is in exactly one of loaded and failed |
| `LogRingClass.BoundedRing.constructor` | pkg/caprf/loghandler.go:244-248 | Bounds of at least one line and one byte, empty and open |
| `LogRingClass.BoundedRing.PushLine` | pkg/caprf/loghandler.go:254-283 | The method with its eviction loop computes the reference push on ring values and keeps the bounds and the byte count |
| `LogRingClass.BoundedRing.FindVictim` | pkg/caprf/loghandler.go:264-270 | The linear scan finds the oldest line of the lowest queued rank |
| `LogRingClass.BoundedRing.PopLine` | pkg/caprf/loghandler.go:287-301 | The oldest line, or the end once the ring is closed and empty |
| `LogRingClass.BoundedRing.Shut` | pkg/caprf/loghandler.go:327-332 | The ring is closed and keeps its lines and counters |
| `LogRing.PushWellFormed` | pkg/caprf/loghandler.go:254-283 | After every push the ring holds at most maxLines lines and maxBytes bytes, in arrival order |
| `LogRing.PushLoses` | pkg/caprf/loghandler.go:254-283 | Every push on an open ring either ends with its own line, or, if and only if the lines of higher rank alone leave no room for it, leaves exactly those |
| `LogRing.EvictsThenDrops` | pkg/caprf/loghandler.go:261-279 | A push that evicts a line of lower rank and then drops its own; both are counted |
| `RankQueues.PushRefines` | pkg/caprf/loghandler.go:254-283 | The ring refines four FIFO queues, one per rank: push evicts from the front of the lowest non-empty queue and appends to its own |
| `RankQueues.PopRefines` | pkg/caprf/loghandler.go:287-301 | Pop takes the front of the queue whose front arrived first |
| `RankQueues.MakeRoomPerRank` | pkg/caprf/loghandler.go:261-279 | Eviction takes lines only from the front of a rank, never from a rank above the new line, from a rank only when no lower one is queued, and counts each loss |
| `RankQueues.MergeIsUnique` | pkg/caprf/loghandler.go:228-242 | The queues merged by arrival number determine the ring: nothing is lost by the abstraction |
| `Utf8.CutIsLongest` | pkg/caprf/loghandler.go:255-257 | The cut of a valid UTF-8 line is its longest valid prefix within the bound and loses at most three bytes |
| `Utf8.DroppedIsValid` | pkg/caprf/loghandler.go:255-257 | The cut of any line is valid UTF-8 |
| `LogSender.StepKeepsInv` | pkg/caprf/loghandler.go:518-533 | Every step of handler, sender, close and deadline keeps conservation, order, reports and flush state |
| `LogSender.EveryRun` | pkg/caprf/loghandler.go:491-560 | In every run, per rank: pushed = shipped + dropped + queued + in flight; delivered summaries add up to at most the drop counters; the ring stays within the bounds it was made with; the popped and the shipped lines are subsequences of the pushed ones |
| `LogSender.CompleteFlush` | pkg/caprf/loghandler.go:491-560 | When the flush ends on a closed empty ring with its summary delivered, per rank: pushed = shipped + the sum of the delivered summaries |
| `LogSender.FlushTerminates` | pkg/caprf/loghandler.go:518-533 | Once the ring is closed the sender can always step until it is done, and each of its steps comes nearer to the end |
| `InUse.Scan.MarkBusy` | pkg/disk/inuse.go:194-221 | On any device graph, also with cycles, it terminates and adds exactly the devices reachable from the start; it fails only for a reachable device whose links can not be read |
| `InUse.Scan.MarkBtrfsMembers` | pkg/disk/inuse.go:168-191 | All members of the file systems that hold the device become starts |
| `InUse.Scan.MarkMounts` | pkg/disk/inuse.go:120-164 | The starts are exactly the devices of the mounts, with btrfs members |
| `InUse.Scan.BusyDevices` | pkg/disk/inuse.go:92-116 | It succeeds if and only if everything it needs is readable, and then its keys are exactly the devices that back a mount or a swap |
| `WipeDisks.CheckNotInUse` | pkg/disk/inuse.go:37-49 | Fails if and only if the check can not be made; otherwise reports use if and only if the disk backs a mount or a swap |
| `WipeDisks.WipeAllDisks` | pkg/disk/manager.go:227-262 | A disk is touched if and only if it is not virtual, its check worked and found it unused; each disk has one fate; nil only without a failure and not when every disk was skipped; the three errors exactly when they apply |
| `WipeDisks.AllDisksResult` | pkg/disk/manager.go:265-275 | The verdict for each combination of the three counters |
| `VersionOrder.LeadingNumber` | main.go:1630-1640 | The number of the maximal digit run, saturated, and the rest after it |
| `VersionOrder.FrrVersionCmp` | main.go:1588-1608 | The loop equals the lexicographic order of canonical token sequences, and never slices an empty string |
| `VersionOrder.OrderIsPreorder` | main.go:1588-1626 | Reflexive, sign-antisymmetric and transitive on all strings; equal if and only if the tokens are equal |
| `VersionOrder.FrrVersionBelow` | main.go:1582-1584 | Below if and only if the version is known and strictly less |
| `Handoff.Agent.Stop` | main.go:668-694 | After a flush the current stop function stops its network, once; afterwards no network is in use, whatever the teardown does |
| `Handoff.Agent.Restore` | main.go:761-793 | A restore begins if and only if the last teardown has finished after the wait; without one there is no network to stop |
| `Handoff.Agent.SetUp` | main.go:795-821 | A setup that is up in time is the network in use and the one to stop; one that fails in time leaves everything as it was; one that is not in time is given up, goes on in the background, and leaves nothing to stop |
| `Handoff.Agent.StopAndRequest` | main.go:459-465 | Flush, stop and request in this order, as for kexec and reboot; no network is in use at the request |
| `Handoff.Agent.HandOff` | main.go:720-748 | Flush, stop, request, and on failure the restore unless a teardown still runs |
| `Handoff.Agent.RequestHandOff` | main.go:847-870 | After a successful handoff the exit with 0; after a failed one report, shell, flush, stop and the exit with 1, in this order |
| `Handoff.EndRun` | main.go:603-647 | Every run starts with the network up if there is one, keeps the protocol at every event, and has exactly the stages of its ending |
| `Handoff.ProtocolMeaning` | main.go:600-602 | What the protocol says event by event: before each handoff and exit every network that the run used was stopped, no network is stopped twice, a flush precedes each stop, and a restore begins only after every teardown of a stop finished |
| `Handoff.AllStoppedIff` | main.go:812-819 | At a handoff or an exit every network, also a late one, has been stopped if and only if no late one is still up |
| `Handoff.LateNetworkAtExit` | main.go:812-819 | A run that exits while a late network is up |
| `VarLines.UnquoteDoubleQuoted` | pkg/caprf/client.go:1159-1182 | The loop computes the reference unescaping |
| `VarLines.UnquoteEscaped` | pkg/caprf/client.go:1145-1182 | Quoting any value with escapes and unquoting it gives the value back |
| `VarLines.LinesConcat` | pkg/caprf/command_vars.go:29-86 | The lines of base, newline, payload are the lines of the base, at most one blank line, and the lines of the payload |
| `Vars.ReadVars` | pkg/caprf/client.go:1104-1143 | The scan loop equals the fold over the lines with presets and validation |
| `Vars.FailureConfig` | pkg/caprf/client.go:169-201 | The cheap reader equals its own fold with presets, also for a file that does not parse |
| `Vars.FailureConfigAgrees` | pkg/caprf/client.go:165-201 | For every file that parses, the cheap reader gives the legacy switch and the failure action of the full parse |
| `Vars.WithVarLines` | pkg/caprf/deploy_archive.go:170-184 | The lines of the archive without the key, then the key lines of the base |
| `Vars.OnlyLegacyReplaced` | pkg/caprf/deploy_archive.go:166-184 | For all line orders and repeats, the combined text says what the archive says with only the legacy switch replaced by the base's, if and only if no legacy line is too long for the scanner or the other lines do not parse either |
| `Vars.OversizedLegacyLine` | pkg/caprf/deploy_archive.go:166-184 | For every base that parses: an archive that does not parse and whose combined text does |
| `Vars.PayloadKeys` | pkg/caprf/command_vars.go:91-109 | Fails if and only if some line is neither blank, comment nor entry, or too long; otherwise the sorted unique keys |
| `CommandVars.ConcatIsLayered` | pkg/caprf/command_vars.go:43-57 | Parsing the concatenation is parsing the payload on top of the base |
| `CommandVars.CheckKeys` | pkg/caprf/command_vars.go:30-42 | A payload passes if and only if it is well formed, sets a key and only known ones; a refusal names exactly the unknown keys |
| `CommandVars.MergeCommandVars` | pkg/caprf/command_vars.go:29-86 | Accepted if and only if the keys pass, base and merge are valid and no fixed setting changes; the config is that of base lines followed by payload lines |
| `CommandVars.ArchiveVarsConfig` | pkg/caprf/deploy_archive.go:138-163 | The config of the archive with the legacy switch, and so the presets, of the running base, and its known keys, sorted and unique |
| `DeployArchive.Client.SwapDeployDirs` | pkg/caprf/deploy_archive.go:191-216 | For every pattern of failures: success if and only if no operation failed, and then exactly the job directories of the archive and everything else as it was; an error leaves the old tree unless a second operation fails during the restore |
| `DeployArchive.SwapInstallsIff` | pkg/caprf/deploy_archive.go:191-216 | A reported success installed the archive if and only if the deploy directory exists or the archive has no job directory |
| `DeployArchive.MissingDeployInstallsNothing` | pkg/caprf/deploy_archive.go:191-216 | Without a deploy directory and without a failing operation, the swap of any archive with a job directory reports success and has not installed it |
| `DeployArchive.Client.CommandConfig` | pkg/caprf/client.go:92-102 | Drops the staged archive of an earlier command; it succeeds if and only if the payload is good and the staging directory could be made, and then exactly this archive is staged; for every outcome the number of operations and of failed removals follows from the failing operations |
| `DeployArchive.Client.Stage` | pkg/caprf/deploy_archive.go:68-106 | A good archive is staged if and only if the directory could be made; a bad one leaves its tree if and only if the operation after the one that made it fails |
| `DeployArchive.Client.Apply` | pkg/caprf/deploy_archive.go:111-122 | Installs the staged archive if and only if no operation of the swap fails, nothing when none is staged, and unstages it; its tree stays if and only if the operation after the swap fails |
| `DeployArchive.Client.Discard` | pkg/caprf/deploy_archive.go:126-131 | Nothing is staged afterwards, and the tree stays if and only if its removal fails |
| `DeployArchive.Session` | pkg/caprf/deploy_archive.go:68-131 | Over every sequence of calls and every pattern of failures: each installation is an apply right after the command that carried its archive; all such applies install when nothing fails; the deploy directory is the result of the installations unless two operations failed; operations, failed removals and what is staged are the ones that the calls and the failing operations determine, and the staging trees are one per failed removal and one more if a command is staged |
| `DeployArchive.LeakedTree` | pkg/caprf/deploy_archive.go:126-131 | A failed removal, then a new command: two staging trees |
| `TokenRenewal.CappedBackoff` | pkg/auth/manager.go:132-140 | The loop gives min(base * 2^attempt, cap) for every attempt, without leaving int64 |
| `TokenRenewal.RenewMargin` | pkg/auth/manager.go:145-150 | At most half of the lifetime, also for a wrapped negative one, and not negative for a lifetime that is not |
| `TokenRenewal.LifetimeFits` | pkg/auth/manager.go:348-349 | The lifetime is the granted number of seconds if and only if it is at most 9223372036; otherwise it is negative or less than half of it |
| `TokenRenewal.AttemptBeforeExpiry` | pkg/auth/manager.go:367-370 | In every run each attempt starts before the expiry of the token it renews |
| `TokenRenewal.AttemptsNumbered` | pkg/auth/manager.go:360-389 | In every run a round has at most the allowed attempts, numbered from zero |
| `TokenRenewal.SleepPastExpiry` | pkg/auth/manager.go:380-386 | In every run a sleep is the backoff cut at the expiry; it ends past the expiry if and only if it starts past it, and then it is empty |
| `TokenRenewal.LateSleep` | pkg/auth/manager.go:380-386 | A run whose request ends a second before the expiry and whose sleep after it starts and ends four seconds past it |
| `TokenRenewal.FatalIff` | pkg/auth/manager.go:274-290 | At every event of every run: the fatal handler runs if and only if there is one, all attempts of the round failed or the token expired, and the last attempt did not time out; the loop stops if and only if it was canceled or such a last attempt timed out |
| `TokenRenewal.EndIsLast` | pkg/auth/manager.go:274-290 | Nothing happens after the fatal handler or the stop |
| `TokenRenewal.TimerAfterGrant` | pkg/auth/manager.go:264-272 | The timer after a grant goes off at half of the granted lifetime or later if and only if the lifetime fits into int64 or the loop itself came that late |
| `TokenRenewal.Spaced` | pkg/auth/manager.go:142-150 | In every run a token whose lifetime fits into int64 is not renewed before half of it has passed |
| `TokenRenewal.TimedOutRound` | pkg/auth/manager.go:276-279 | A run with a handler whose only request times out and that stops quietly |
| `TokenRenewal.WrappedLifetime` | pkg/auth/manager.go:348-349 | A run that renews a token granted for 18446744074 seconds after 0.15 seconds |
| `TokenRenewal.NegativeLifetime` | pkg/auth/manager.go:348-349 | A run where a grant of 9223372037 seconds counts as expired and the handler runs |
| `TokenRenewal.TokenManager.constructor` | pkg/auth/manager.go:117-128 | Non-positive retries and backoff become the defaults |
| `TokenRenewal.TokenManager.Renew` | pkg/auth/manager.go:296-355 | One request; a grant replaces token, lifetime and expiry, any other reply leaves them |
| `TokenRenewal.TokenManager.Pause` | pkg/auth/manager.go:380-386 | The sleep of the run, or the cancellation exactly when the context ends |
| `TokenRenewal.TokenManager.RenewWithRetry` | pkg/auth/manager.go:360-389 | The loop goes through the events of one round; its error matches a context error if and only if the round was canceled or its last attempt timed out |
| `TokenRenewal.TokenManager.RenewLoop` | pkg/auth/manager.go:258-294 | The loop goes through the events of the run, and ends or completes the given number of rounds |
| `TokenRenewal.Renewal` | pkg/auth/manager.go:258-389 | For every policy, handler, first token and world the loops produce the run that the other theorems speak of, for any number of rounds |
| `MirrorPair.IdentitiesOverlap` | pkg/disk/mirror.go:120-131 | True if and only if the lists share an identity |
| `MirrorPair.Scan` | pkg/disk/mirror.go:56-71 | The nested scan with its early break finds the best pair of the sorted candidates or proves that there is none |
| `MirrorPair.DetectMirrorPair` | pkg/disk/mirror.go:44-72 | Agrees with exhaustive search: a pair if and only if two candidates have equal size and sector size, different devices and no common identity; no valid pair is larger, and among the largest it is the first in path order |
| `LoadOption.EncodeUTF16LE` | pkg/efi/vars.go:148-155 | The indexed loop writes the UTF-16LE text with its terminator |
| `LoadOption.BuildFileDevicePath` | pkg/efi/vars.go:158-188 | The device path bytes, with the clipped length field |
| `LoadOption.BuildLoadOption` | pkg/efi/vars.go:118-145 | Succeeds if and only if the loader has at most 32762 UTF-16 units; then both length fields are exact, and the bytes decode to description, backslashed path and optional data if and only if the description has no NUL |
| `LoadOption.RoundTrip` | pkg/efi/vars.go:118-188 | A decoder written from the UEFI layout inverts the encoder exactly for descriptions without NUL |
| `LoadOption.PathRoundTrip` | pkg/efi/vars.go:158-188 | The device path decodes to the loader with backslashes, for every loader that fits |
| `LoadOption.UnitsRoundTrip` | pkg/efi/vars.go:148-155 | UTF-16 with surrogate pairs decodes to the text, for all Unicode scalar values |
| `LoadOption.NulIsLost` | pkg/efi/vars.go:118-145 | A description that does not come back |
| `NvmeLayout.ValidateNamespace` | pkg/disk/nvme.go:103-117 | Accepts exactly the entries in range and gives the accepted one its block size in place |
| `NvmeLayout.ValidateController` | pkg/disk/nvme.go:77-101 | Accepts exactly the valid configurations; the entries are defaulted in place up to the first bad one |
| `NvmeLayout.SizeOfShare` | pkg/disk/nvme.go:379-385 | With the product modulo 2^64 a namespace never takes more than its share, and takes the share rounded down if and only if the product does not overflow |
| `NvmeLayout.LayoutFits` | pkg/disk/nvme.go:379-396 | For every capacity and every valid layout, no prefix of the namespaces takes more than the capacity |
| `NvmeLayout.ApplyLayout` | pkg/disk/nvme.go:378-400 | For every pattern of failing commands: the attached namespaces are the ones before the first of size zero or with a failing command; what exists, with a namespace that was created and not attached, fits the capacity and has no empty namespace; a complete layout leaves less than one block per namespace of the shares unused when the product fits |
| `NvmeLayout.Configure` | pkg/disk/nvme.go:77-101 | Validation and creation together never exceed the capacity |
| `NvmeLayout.OverflowLosesShare` | pkg/disk/nvme.go:385-388 | A capacity of 2^63 bytes wraps to zero blocks |

## Left out

- EspMirror.Volume.StatIsDir: the answer for a link is open, and a stat of an entry that the walk has just seen does not fail; what a link points to is not part of the tree.
- EspMirror.Volume.CopyTree: file modes, VFAT case folding, sync calls and the checks of the two roots are not modelled; a staging name that is taken fails the run instead of being drawn again.
- ModuleDir.ReadModuleDir: the .modinfo section and the aliases are not parsed, the dependencies are given for each file; directories, skipped files and an unreadable directory are not part of the list.
- LogSender.EveryRun: the drop counters are unbounded, not 64 bits wide, and the arrival number of a line exists only in the model.
- InUse.Scan.BusyDevices: the text of mountinfo, swaps and sysfs is not parsed, and the fake-disk switch of the tests is off.
- WipeDisks.CheckNotInUse: says nothing about the text of the reason that it reports.
- WipeDisks.WipeAllDisks: each disk is checked against the state of the world at its own check; a mount between check and wipe is not seen. An unreadable block directory is not modelled.
- Handoff.EndRun: the rescue shell, which keeps the network on purpose, is not one of the endings; the token grace timer and LLDP are not part of the log.
- Vars.OnlyLegacyReplaced: asks for a base that parses, as the caller has checked; the switch of any other base is not defined.
- Vars.ReadVars: lower-casing is modelled on ASCII; what the other keys do is open.
- DeployArchive.Session: the unpacking of the tar archive and its limits are not modelled, an archive is a tree or an error; a client without a vars file, or whose own vars do not parse, which stages nothing, is not modelled.
- TokenRenewal.RenewMargin: the 20 percent default is any value of the sign of the lifetime that does not exceed it in size below zero; floating point is not modelled.
- TokenRenewal.Renewal: replies come from the world; TLS, the JSON decoder, redaction of URLs and the request for the first token are not modelled.
- MirrorPair.DetectMirrorPair: the candidates are given; sizes and identities come from sysfs. It returns the two records instead of their paths.
- LoadOption.BuildLoadOption: strings are sequences of Unicode scalar values, so the replacement of invalid UTF-8 happens before.
- NvmeLayout.ApplyLayout: capacity and command results are given; the reset of old namespaces before it is not modelled. The JSON parser and the check for repeated controllers are not modelled.
- SecureEraseAllDisks: the same loop as WipeAllDisks with more branches, it would add no harder property.
- Network modes, BGP and netplan merging, image writing, cloud-init, firmware, drivers, crash collection, command line tools: many independent branches with little depth.
