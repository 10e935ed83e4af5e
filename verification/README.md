# JavaHost protocols, verified

JavaHost is a panel plugin that runs Java services on a host: it starts and
cancels background jobs, swaps JDK trees under running services, rewrites the
environment file of an app, rotates logs, unpacks archives, replaces webapps
and keeps backups locally and on S3-compatible storage. This project models
the parts where a wrong interleaving, a crash or an odd byte would do damage,
and proves what they promise.

Most of these parts change files and directories step by step, so most of the
model is classes and loops, each proved against a specification function;
the properties are lemmas about those functions and about whole runs. Two
parts are concurrent protocols and are modelled as state machines over single
steps. Faults are inputs: a function from the number of an external call to
what that call does, or a set of names on which removal fails.

| file | what it models |
|---|---|
| JobProtocol.dfy, JobProtocolProofs.dfy | supervisor, worker, cancellers and operating system around one meta.json without a lock |
| JobRuns.dfy | what that protocol gets done: publishing, recording a result, cancelling, losing a race |
| GroupScan.dfy | the non-atomic scan that decides whether a process group is gone |
| JobRetention.dfy | listing, pruning and clearing of job records |
| JdkUpdate.dfy | the staged JDK swap, its recovery handler, removal, reinstallation, and runs of them with crashes |
| AppEnvCodec.dfy, AppEnvStore.dfy | the app.env text format; the two merges and their interleaving under the lock |
| PortRewrite.dfy | moving a restored instance to a new port, against reading the port |
| BackupNames.dfy, BackupRetention.dfy | archive names; deletion and pruning at every destination |
| S3List.dfy | the paginated listing against an arbitrary server |
| TarExtract.dfy | the two-pass archive extraction |
| WarSwap.dfy | replacing an exploded webapp |
| LogRotate.dfy | copy-truncate rotation and purge |
| Tail.dfy | the backwards block reader |
| PyText.dfy, Sorting.dfy, Wrappers.dfy | string operations, stable sorting and the Option datatype |

## Where the code does not do what is expected of it

Each of these is proved, with the exact condition under which the code does
meet the property, with a concrete case, or with both.

- `cancel` swallows a failing re-read of the metadata and then writes from the
  copy read when the call began (plugin/javahost/core/jobs.py:656-659). So
  `done` can be replaced by `cancelled`, although the comment above the re-read
  promises the opposite. Terminal states change exactly when that happens.
- A member that forks after the listing and dies before its entry is read makes
  the group scan answer False over a live group. Whatever is live after False
  joined the group after the listing, or after its own entry was read; without
  newcomers the answer is sound, and the supervisor itself never escapes it.
- `_uninstall_locked` removes what `detect()` resolved to when `jdk-N` is
  missing, which can be the `.old` tree that a crashed update left as the only
  copy. That is the one operation that can touch an older rollback tree. Both
  halves are runs of the modelled methods: a fault-free update passes through
  that moment, and a fault-free removal after it leaves no tree.
- `replace_root` cleans staging and backup only as far as removal succeeds. A
  staging tree that survives is deployed with the new files, a stale backup can
  be put in the place of a webapp that did not exist, and a failed restoring
  rename leaves no webapp. Each is shown by a run of the method, and the contract
  says exactly when each happens.
- `_rewrite_port` matches at the start of a line only, and replaces digits only.
  A last SERVER_PORT line it does not match overrides the line it prepends, and
  text behind the digits stays in the value.
- `remote.delete` reads an empty selection as all profiles, so a profile stored
  with an empty id, which only a hand-edited registry can hold, makes a prune
  delete from every enabled destination.
- A destination with prefix `p` is listed by the plain string prefix `p`, so
  archives outside its directory whose names begin with `p` are counted as its
  own, and if they are newer they push its own archives out.
- Local archives are grouped by the app in their sidecar and ranked by file
  name. Names of different apps do not sort by time, so among archives named for
  several apps an earlier one can stay while a later one goes: exactly when some
  earlier archive of the group has the greater name.
- A rotation whose removal of the oldest slot fails still keeps that slot,
  exactly when keep > 1 and the slot below it is empty.

## Assumptions

- Jobs: a pid never gets the same birth twice; one supervisor per job
  directory, and only its own command line matches; the supervisor never leaves
  its process group; procfs lists every group member; nobody outside the model
  sends SIGTERM; nobody prunes or clears the job meanwhile; replacing meta.json
  is atomic. The supervisor's own writes may fail, and it may be killed at any
  point.
- JDK: rename is atomic, and a rename or service action that raises has had no
  effect; a removal may raise half way. The lock of the major makes the calls
  one at a time.
- app.env: the lock file works, rename is atomic, and an inode is not reused
  while somebody has it open.
- Rotation: nobody writes to the log while it is being rotated.
- Job and backup names, digits and letter case are ASCII.

## Model

| member | source | states |
|---|---|---|
| JobProtocolProofs.StepKeepsInv | plugin/javahost/core/jobs.py:584-667 | Every step by anybody keeps the invariant of the protocol: what each canceller has concluded stays true whatever the supervisor, the system or another canceller does next. |
| JobProtocolProofs.RunKeepsInv | plugin/javahost/core/jobs.py:584-779 | The invariant holds at every point of every interleaving, for any number of cancellers and any pid reuse. |
| JobProtocolProofs.TerminalStepExactly | plugin/javahost/core/jobs.py:653-667 | A step changes a recorded terminal state if and only if it is a canceller writing over the supervisor's result after its re-read failed. |
| JobProtocolProofs.TerminalIsAbsorbing | plugin/javahost/core/jobs.py:632-667 | Over whole runs, done, failed and cancelled are never replaced, unless such a blind write happens, and then they are; cancelled is never replaced at all. |
| JobProtocolProofs.ReturnedStateIsFinal | plugin/javahost/core/jobs.py:553-562 | When re-reads succeed, the state any call of cancel returns is the recorded state then and ever after, whoever won the race. |
| JobProtocolProofs.CancelledOnlyAfterDeath | plugin/javahost/core/jobs.py:649-666 | When cancelled is written the supervisor is dead, and in no continuation can it take a step again, so no update is lost although there is no lock. |
| JobProtocolProofs.GoneMeansDead | plugin/javahost/core/jobs.py:632-648 | Whichever check made a call conclude that the group is gone (ESRCH on a signal, on the probe, or a scan), the supervisor is dead at that moment. |
| JobProtocolProofs.PublishedMeansArmed | plugin/javahost/core/jobs.py:746-756 | A recorded pid is the supervisor's own and is recorded only with the SIGTERM handler installed. |
| JobProtocolProofs.Sandwich | plugin/javahost/core/jobs.py:600-641 | Two equal captures around getpgid, each made of two separate and possibly torn proc reads, prove that the group is this job's; the pid is still held by the supervisor's own entry at the last read. |
| JobProtocolProofs.TermFindsHandler | plugin/javahost/core/jobs.py:626-633 | SIGTERM goes only to the supervisor's group, and a supervisor alive at that time has its handler. |
| JobProtocolProofs.TermIsSurvived | plugin/javahost/core/jobs.py:743-761 | The supervisor outlives every SIGTERM it gets and knows of the cancellation. |
| JobProtocolProofs.KillOnlyAfterTermAndFreshCapture | plugin/javahost/core/jobs.py:636-641 | A call signals at most SIGTERM and then SIGKILL, each right after an identity capture of its own that matched. |
| JobProtocolProofs.BlindRereadLosesResult | plugin/javahost/core/jobs.py:656-666 | There is a reachable run in which a recorded done becomes cancelled after a failed re-read. |
| JobRuns.StartPublishes | plugin/javahost/core/jobs.py:725-756 | From every initial state a run publishes the job: running, with the supervisor's pid, behind an installed handler. |
| JobRuns.FailedLaunchIsRecorded | plugin/javahost/core/jobs.py:171-187 | A supervisor that cannot be launched can record the job as failed. |
| JobRuns.ResultIsRecorded | plugin/javahost/core/jobs.py:757-777 | Without a cancellation the end of the worker leads to done exactly when it succeeded, else to failed, with the pid kept. |
| JobRuns.TroubleIsRecorded | plugin/javahost/core/jobs.py:763-777 | An exception of the supervisor at any point before its worker ended leads to failed. |
| JobRuns.CancelledWorkerRecordsNothing | plugin/javahost/core/jobs.py:757-761 | Once it took a SIGTERM, the supervisor leaves without writing, whatever its worker did. |
| JobRuns.PidIsReused | plugin/javahost/core/jobs.py:621-626 | A dead supervisor's pid can be a stranger's, in any group. |
| JobRuns.NotRunningIsRefused | plugin/javahost/core/jobs.py:592-599 | A job that is not running, or has no pid, makes the call raise at once. |
| JobRuns.UnverifiedIsNotSignalled | plugin/javahost/core/jobs.py:600-641 | A capture that fails, or disagrees with the first, leads to no signal but to a look for a recorded result. |
| JobRuns.RereadThenCancels | plugin/javahost/core/jobs.py:656-667 | With the group gone and a good re-read, a running record becomes cancelled and the call returns that; a recorded result is left as it is and returned. |
| JobRuns.CancellationCompletes | plugin/javahost/core/jobs.py:584-667 | From every reachable state with a published supervisor alone in its group, a new call has a run with SIGTERM that ends with cancelled recorded and returned and the supervisor dead. |
| JobRuns.KillCompletes | plugin/javahost/core/jobs.py:632-667 | If the supervisor does not react, a run with a third capture and SIGKILL ends the same way, over the zombie left behind. |
| JobRuns.LostRaceReturnsResult | plugin/javahost/core/jobs.py:600-604 | If the job ends by itself under the call, the call returns the recorded result and sends no signal. |
| GroupScan.ProcessGroupExists | plugin/javahost/core/jobs.py:433-541 | The loop with its match counter gives the answer of the recursive scan, system call by system call, with every uncertainty raised. |
| GroupScan.NoResidentSurvives | plugin/javahost/core/jobs.py:476-541 | If the answer is False, no process was a live member through the whole scan, though every entry was read at another moment. |
| GroupScan.SupervisorIsDead | plugin/javahost/core/jobs.py:476-541 | A process that never comes back once dead, as the supervisor, is dead at the end of a scan that answers False. |
| GroupScan.NoLiveMemberAtAll | plugin/javahost/core/jobs.py:433-541 | If nobody enters the group during the scan, False means that no live member is left. |
| GroupScan.LiveAfterFalseJoined | plugin/javahost/core/jobs.py:476-541 | For every world, whatever is live in the group after False was not live at the listing or, if it was listed, at a later call of the scan, and joined the group after that. |
| GroupScan.LiveMemberIsReal | plugin/javahost/core/jobs.py:513-517 | The answer True was true of the table read last. |
| GroupScan.StillWorldIsExact | plugin/javahost/core/jobs.py:433-541 | In a world that stands still and raises nothing, the answer is True exactly when some member of the group is no zombie, and False otherwise. |
| GroupScan.ForkEscapesScan | plugin/javahost/core/jobs.py:476-520 | With a fork during the scan the answer can be False over a live group, even with a complete listing. |
| GroupScan.ProtocolScansAlike | plugin/javahost/core/jobs.py:544-550 | The scanning steps a canceller takes in the protocol reach exactly the answer of this scan, call by call, in every world. |
| JobRetention.JobStore.Prune | plugin/javahost/core/jobs.py:355-377 | The directories removed are exactly those of the terminal records ranked past keep, by directory name, but for removals that fail; the count returned is how many went. |
| JobRetention.JobStore.Clear | plugin/javahost/core/jobs.py:681-700 | The directories removed are those of all terminal records, but for removals that fail; the count returned is how many went. |
| JobRetention.JobStore.Start | plugin/javahost/core/jobs.py:190-226 | start prunes, overwrites a record already under the new id and raises over anything else there; at most 500 terminal records remain beyond those whose removal fails; the new job is running and no other record that was not terminal changes. |
| Sorting.SortedSorts | plugin/javahost/core/jobs.py:304-305 | Ranking puts the elements in order and keeps exactly them, for any total order. |
| JobRetention.RankedIsExact | plugin/javahost/core/jobs.py:280-305 | The listing ranks every terminal record exactly once, newest first, under the directory's name and the normalised start time. |
| JobRetention.PruneKeepsNewest | plugin/javahost/core/jobs.py:355-377 | Exactly min(keep, T) of T terminal records stay, each at least as new as each removed one; running, unknown and unreadable records and foreign entries are untouched. |
| JobRetention.PruneKeepsLastBegun | plugin/javahost/core/jobs.py:121-137 | In the words of the metadata: exactly min(keep, T) of the T ended jobs stay, only ended ones go, and none that goes has a positive stored start later than that of one that stays. |
| JobRetention.StateMeans | plugin/javahost/core/jobs.py:121-126 | A stored state counts as running, done, failed or cancelled exactly when it is that word, in any case, with blanks around it. |
| JobRetention.EndedIsTerminal | plugin/javahost/core/jobs.py:280-305 | The records retention works on are those of real job directories whose stored state says done, failed or cancelled. |
| JobRetention.FreshIdsAreValid | plugin/javahost/core/jobs.py:62-73 | Every id a start can make is a job name; names with slashes, blanks and the like, and dots alone, are not. |
| JobRetention.ClearRemovesTerminalOnly | plugin/javahost/core/jobs.py:681-700 | Clearing removes all terminal records and nothing else. |
| JobRetention.ForgedIdsDoNotMatter | plugin/javahost/core/jobs.py:299-303 | Ids stored inside metadata have no influence on what is ranked or removed. |
| JdkUpdate.Runtime.InstallLocked | plugin/javahost/core/runtime/java.py:203-371 | The update goes through if and only if every call succeeds, both probes agree and no older .old is in the way; without a fault but with a bad answer everything is restored; the outcome tells the state of slots and services; before the commit the original tree is at jdk-N or .old at every crash point; "cannot preserve failed JDK" never occurs; a service that was not running gets no action. |
| JdkUpdate.Runtime.Recover | plugin/javahost/core/runtime/java.py:307-365 | A recovery reports errors exactly when one of its calls failed; without errors slots and services are as they were, apart from stale staging, and with errors the original tree is still at jdk-N or .old. |
| JdkUpdate.Runtime.UninstallLocked | plugin/javahost/core/runtime/java.py:441-491 | A removal ends as specified for the faults it meets, and at every step on the way it has changed nothing but its one target and the dependents it stopped. |
| JdkUpdate.Runtime.Reinstall | plugin/javahost/core/runtime/java.py:494-512 | Reinstalling is one update transaction and succeeds exactly when that does; a shared runtime without a plugin copy asked for goes through a removal first, which refuses as long as the runtime is still shared, and every moment belongs to the one or the other. |
| JdkUpdate.RemovalGoesThrough | plugin/javahost/core/runtime/java.py:450-491 | Without a fault an allowed removal empties its slot and stops all dependents; a refused one (shared, in use without force, or not there) changes nothing. |
| JdkUpdate.RemovalTakes | plugin/javahost/core/runtime/java.py:480-491 | Without a fault an allowed removal takes jdk-N when there is one, else the slot that detection found, and touches no other slot; a refused one changes nothing. |
| JdkUpdate.FailedRemovalKeeps | plugin/javahost/core/runtime/java.py:484-491 | A removal whose deletion raises says so, leaves the tree or part of it, and touches no other slot. |
| JdkUpdate.RemovalReachIsExact | plugin/javahost/core/runtime/java.py:466-491 | The relation the run theorems use for removals holds of exactly the disks in which a removal can end under some faults. |
| JdkUpdate.UpdateLeaves | plugin/javahost/core/runtime/java.py:237-371 | Every moment in an update's history and every final state is covered by the relation the run theorems use. |
| JdkUpdate.OldRollbackIsKept | plugin/javahost/core/runtime/java.py:261-281 | Over every run of updates and removals with crashes anywhere, a .old tree left by an earlier operation stays as it is, unless a removal resolved into it. |
| JdkUpdate.RollbackAtRiskExactly | plugin/javahost/core/runtime/java.py:481-488 | Some faults make a removal change an existing .old if and only if jdk-N is missing, detection found .old, and the runtime is unused or the removal forced. |
| JdkUpdate.InterruptedSwapThenRemovalLosesTree | plugin/javahost/core/runtime/java.py:276-281 | A fault-free run of the update passes through the moment between its renames, and a fault-free run of the removal from there, resolved into .old, leaves no tree at all. |
| JdkUpdate.UpdatesNeverLoseRuntime | plugin/javahost/core/runtime/java.py:242-365 | However many updates run or crash in any order, a whole runtime stays at jdk-N or .old. |
| JdkUpdate.StagingNeverHoldsOriginal | plugin/javahost/core/runtime/java.py:242-282 | At no reachable moment does staging hold the original tree, so no clearing of staging can destroy it. |
| AppEnvCodec.RenderAppEnv | plugin/javahost/core/db/_base.py:200-207 | The writer's loop over the mapping yields the rendered file. |
| AppEnvCodec.DecodeLoop | plugin/javahost/core/db/_base.py:125-137 | The index-driven unescape loop computes the decoding of the inner text. |
| AppEnvCodec.ReadAppEnv | plugin/javahost/core/db/_base.py:94-144 | Reading line by line gives the parsed mapping, later lines of a key winning. |
| AppEnvCodec.RoundTrip | plugin/javahost/core/db/_base.py:117-140 | For every mapping with identifier keys, reading what was written gives the mapping back in order, with CR and LF deleted from the values, for any mix of quotes, backslashes, blanks, = and #. |
| AppEnvCodec.RoundTripExactly | plugin/javahost/core/db/_base.py:202-207 | The round trip changes nothing if and only if no value holds a CR or LF. |
| AppEnvCodec.EscapeMeans | plugin/javahost/core/db/_base.py:202-206 | Escaping puts a backslash before each backslash and each double quote and changes no other character. |
| AppEnvCodec.BareReads | plugin/javahost/core/db/_base.py:117-140 | A bare value reads as it stands, without the blanks around it and around the line. |
| AppEnvCodec.QuotedReads | plugin/javahost/core/db/_base.py:125-139 | A value in single quotes reads literally, one in double quotes unescaped. |
| AppEnvCodec.DecodeMeans | plugin/javahost/core/db/_base.py:125-137 | Unescaping takes the backslash before a backslash or double quote and keeps every other one. |
| AppEnvCodec.NothingAssigned | plugin/javahost/core/db/_base.py:117-123 | Blank lines, comments, lines without a key and keys without an equals sign assign nothing. |
| AppEnvCodec.KeysAre | plugin/javahost/core/db/_base.py:117-123 | A key is a letter or underscore followed by letters, digits and underscores, and nothing else is. |
| AppEnvCodec.ReadIsStable | plugin/javahost/core/db/_base.py:94-144 | Whatever text is in the file, what is read from it survives being written and read again. |
| AppEnvStore.AppEnvFile.WriteAppEnv | plugin/javahost/core/db/_base.py:232-252 | The file afterwards is the specified merge of the old file and the mapping. |
| AppEnvStore.AppEnvFile.UpdateAppEnv | plugin/javahost/core/db/_base.py:255-266 | The file afterwards is the specified update of the old file. |
| AppEnvStore.OperationSetsExactly | plugin/javahost/core/db/_base.py:232-266 | A supplied key reads back as supplied; after write_app_env the DB_ keys are exactly those supplied; every other key keeps its parsed value, whatever the file held. |
| AppEnvStore.InterleavingIsSerial | plugin/javahost/core/db/_base.py:175-266 | Every interleaving of writers, crashes and lock-free readers equals the serial order of the renames: no update is lost, each finished call took effect once after it began, and each reader got one complete mapping of that order. |
| AppEnvStore.LastCommitDecides | plugin/javahost/core/db/_base.py:232-266 | After any run, a key reads as the last committed operation left it. |
| AppEnvStore.StaleDbKeysGo | plugin/javahost/core/db/_base.py:245-249 | After write_app_env every key beginning with D, B, _ that was not supplied is gone, and every other unsupplied key keeps its value. |
| AppEnvStore.WriteCompletes | plugin/javahost/core/db/_base.py:175-266 | Whenever the lock is free, a new call has a run to its end that leaves exactly its effect on the file and frees the lock. |
| AppEnvStore.ReadCompletes | plugin/javahost/core/db/_base.py:160-172 | A reader that is not disturbed gets the mapping of the file as it is. |
| AppEnvStore.WriterMayStop | plugin/javahost/core/db/_base.py:200-229 | A writer may raise or crash at any point before it is done, with the file unchanged and its lock free. |
| PortRewrite.Instance.RewritePort | plugin/javahost/core/backup/store.py:402-421 | Only the file of the instance's kind is rewritten and an absent file stays absent; a server.xml with a connector, or an app.env that lands on the port, then reads as the new port. |
| PortRewrite.Instance.ReadPort | plugin/javahost/core/tomcat/instance.py:902-917 | The reader finds the leftmost connector's port, and falls back to a decimal SERVER_PORT. |
| PortRewrite.RewriteThenReadXml | plugin/javahost/core/backup/store.py:416-421 | Rewriting then reading gives the new port if and only if there is a connector match; the leftmost match stays the leftmost. |
| PortRewrite.OnlyThePortChanges | plugin/javahost/core/backup/store.py:420-420 | Text before the match, its spacing and everything after its digits are kept. |
| PortRewrite.ConnectorReads | plugin/javahost/core/tomcat/instance.py:904-909 | The number in the first Connector port attribute of a file is the port read. |
| PortRewrite.RewriteThenReadEnv | plugin/javahost/core/backup/store.py:404-415 | For every text the new port is read back if and only if no line assigned SERVER_PORT, or the last such line matches with nothing but blanks behind the match (or zeros, for port 0), or it does not match and named this port already; every other key keeps its value whatever the file holds. |
| PortRewrite.AnyNumberOfMoves | plugin/javahost/core/backup/store.py:404-415 | A file that can be moved can be moved any number of times; it then reads as the last port, with all other keys as in the beginning. |
| PortRewrite.AnyQuoting | plugin/javahost/core/backup/store.py:408-413 | A SERVER_PORT line moves whether its number is bare or in quotes of either kind, with blanks behind it. |
| PortRewrite.CreatedFileIsMovable | plugin/javahost/core/tomcat/instance.py:424-446 | A file that begins with a bare SERVER_PORT line, as create_jar writes it, and assigns the port nowhere else can be moved. |
| PortRewrite.WrittenFileMoves | plugin/javahost/core/backup/store.py:404-415 | A file the app.env writer made reads as the new port if and only if its SERVER_PORT was absent or decimal; otherwise no port can be read from it afterwards. |
| PortRewrite.JarIsMovedExactly | plugin/javahost/core/tomcat/instance.py:902-917 | A jar instance, whatever its app.env holds, reads as the new port exactly when a server.xml names it, or none names any and the app.env lands on it. |
| PortRewrite.TomcatIsMovedExactly | plugin/javahost/core/tomcat/instance.py:902-917 | A Tomcat instance reads as the new port exactly when its server.xml has a connector or its app.env already names that port. |
| BackupNames.NameParses | plugin/javahost/core/backup/store.py:58-64 | The parser finds in every formatted name the app and the second it was made from, for app names with dashes, dots and stamps inside too. |
| BackupNames.NameLooks | plugin/javahost/core/backup/store.py:203-203 | The name of an archive of shop made at 03:04:05 on 2 January 2024, letter by letter. |
| BackupNames.NamesAre | plugin/javahost/core/backup/store.py:58-64 | The app part takes letters, digits, dots, dashes and underscores; behind a name one newline is let pass and no other character. |
| BackupNames.ParsedIsFormatted | plugin/javahost/core/backup/store.py:58-64 | Every accepted name is a formatted one, but for one final newline that the pattern lets pass. |
| BackupNames.LaterIsGreater | plugin/javahost/core/backup/store.py:203-203 | Among accepted names of one app a later stamp means a greater string. |
| BackupNames.DifferentAppsInvert | plugin/javahost/core/backup/store.py:364-372 | For any two different apps some archive of the one is earlier than some archive of the other and has the greater name, one app continuing the other included. |
| BackupNames.NameOrderIsTimeOrderExactly | plugin/javahost/core/backup/store.py:364-372 | Comparing names of archives made in different seconds compares their times if and only if the two apps are the same. |
| BackupRetention.Backups.DeleteRemote | plugin/javahost/core/backup/remote.py:292-302 | Exactly the objects of the name at the selected profiles go, all enabled ones for an empty selection; the ids reported are those that worked. |
| BackupRetention.Backups.DeleteBackup | plugin/javahost/core/backup/store.py:336-361 | An invalid name, or a local file that cannot be unlinked, changes nothing anywhere; a selection without remote ids, as local alone, leaves every remote untouched. |
| BackupRetention.Backups.PruneLocal | plugin/javahost/core/backup/store.py:369-379 | The local store loses exactly the app's archives beyond the newest keep, but for those that cannot be removed; the names reported are those that went, and no remote object goes. |
| BackupRetention.Backups.Prune | plugin/javahost/core/backup/store.py:364-396 | An invalid app changes nothing; otherwise the local store and each enabled destination in turn are pruned, and the count reported is that of the local archives kept. |
| BackupRetention.NewestIsExact | plugin/javahost/core/backup/store.py:368-374 | Ranking by how many names are at or above one keeps exactly min(k, n) names, each above every dropped one, and ranking twice changes nothing. |
| BackupRetention.DropIsDropped | plugin/javahost/core/backup/store.py:385-388 | Cutting the sorted listing at keep drops exactly the names with more than keep listed entries at or above them, duplicates and any listing order included. |
| BackupRetention.LocalKeepsNewest | plugin/javahost/core/backup/store.py:364-379 | Locally exactly the newest min(keep, n) archives of the app stay, with those that cannot be removed; other apps' archives and other files stay; no dropped archive is later than one of the newest named for the same app. |
| BackupRetention.KeepsLatestExactly | plugin/javahost/core/backup/store.py:369-374 | For any set of archive names, ranking by name keeps the latest for every keep if and only if no earlier archive has the greater name. |
| BackupRetention.LocalKeepsLatestExactly | plugin/javahost/core/backup/store.py:281-284 | The local archives listed under an app keep their latest for every keep if and only if names and times agree on them, as they do when all are named for one app. |
| BackupRetention.MislabelledOutranks | plugin/javahost/core/backup/store.py:281-284 | For any two apps there are archives, one named for each and both listed under one app by their sidecars, of which keep = 1 drops the later and keeps the earlier. |
| BackupRetention.DropsOldestExactly | plugin/javahost/core/backup/store.py:384-390 | A destination keeps exactly its newest own archives for every keep if and only if no archive listed from outside its directory is as new as one of its own. |
| BackupRetention.StrayPushesOwnOut | plugin/javahost/core/backup/store.py:384-390 | For any app, a destination with the prefix backup loses its only archive to keep = 1 when a newer one lies at the root of its bucket, and the stray one stays. |
| BackupRetention.EachDestinationKeepsNewest | plugin/javahost/core/backup/store.py:380-394 | When no enabled profile has an empty id and no newer stray is listed there, each destination ends with exactly the newest min(keep, n) archives of the app, none of them earlier than one that went, even when profiles share a place or bucket. |
| BackupRetention.OthersStay | plugin/javahost/core/backup/store.py:364-396 | Whatever the registry, pruning removes only archives of that app at enabled profiles and adds nothing. |
| BackupRetention.OneTargetExactly | plugin/javahost/core/backup/remote.py:249-257 | Selecting one profile selects that profile alone if and only if its id is not empty or it is the only enabled one. |
| BackupRetention.TargetsExactly | plugin/javahost/core/backup/remote.py:249-257 | A selection reaches the ids in it that are not empty, and every enabled profile when it holds no other. |
| BackupRetention.EnabledExactly | plugin/javahost/core/backup/remote.py:139-141 | The profiles visited are exactly those that are enabled and have every required field. |
| BackupRetention.ClientExactly | plugin/javahost/core/backup/remote.py:98-102 | A client works on the first profile with the id, if that is complete and answers. |
| BackupRetention.WithoutLocalMeans | plugin/javahost/core/backup/store.py:354-357 | The remote part of a selection is every id in it but local. |
| BackupRetention.LocalExactly | plugin/javahost/core/backup/store.py:281-284 | A local archive belongs to the app its sidecar names, or else to the one in its file name. |
| BackupRetention.PrunableApps | plugin/javahost/core/util/validate.py:12-27 | Accepted are exactly app names of 1 to 63 letters, digits, dots, dashes and underscores that begin with a letter or digit. |
| BackupRetention.EmptyIdDropsEverywhere | plugin/javahost/core/backup/remote.py:292-302 | What a prune drops at a profile with an empty id is gone from every enabled profile. |
| BackupRetention.EmptyIdReachesOthers | plugin/javahost/core/backup/remote.py:292-302 | With such a profile another destination can lose its only archive to keep = 1. |
| BackupRetention.KeysDoNotClash | plugin/javahost/core/backup/s3.py:71-72 | In one bucket two archives share a key only if prefix and name are the same. |
| S3List.ParseContinuation | plugin/javahost/core/backup/s3.py:241-260 | The loop over the elements finds whether any says truncated and the last usable token. |
| S3List.PageMeans | plugin/javahost/core/backup/s3.py:252-260 | A page is the last exactly when no IsTruncated element says true, in any case and with blanks; else the next token is the last non-empty one, trimmed. |
| S3List.ListObjects | plugin/javahost/core/backup/s3.py:189-239 | At most MAX_LIST_PAGES requests against any server; it returns exactly when the token chain ends whole within the limits, with all objects in order, and raises whenever no such chain exists. |
| S3List.NotComplete | plugin/javahost/core/backup/s3.py:207-238 | Each reason to raise rules out that the chain could end properly later. |
| S3List.FaithfulListing | plugin/javahost/core/backup/s3.py:189-239 | A server whose pages say in their elements whether and with which token the listing goes on is listed completely if and only if pages and objects are within the limits and its tokens differ; no part of the listing is ever a complete answer. |
| TarExtract.Preflight | plugin/javahost/core/backup/archive.py:108-129 | It accepts exactly archives with allowed kinds, safe places and sizes within every limit, and returns their total. |
| TarExtract.Extraction.SafeExtract | plugin/javahost/core/backup/archive.py:132-188 | A rejected archive writes nothing; of an accepted one no check of the second pass can fire, and the tree is the left fold of its members; links and everything outside the destination are as before. |
| TarExtract.ChecksSame | plugin/javahost/core/backup/archive.py:42-53 | Trees with the same links resolve and check every member alike, so what the first pass accepted stays accepted. |
| TarExtract.LexicalWithoutLinks | plugin/javahost/core/backup/archive.py:50-53 | Under a destination without links the resolved path is the lexical join. |
| TarExtract.NameMeansPath | plugin/javahost/core/backup/archive.py:50-53 | A name put together from plain components by slashes stands for exactly those components; doubled slashes, dots and a final slash do not matter. |
| TarExtract.ClimbsExactly | plugin/javahost/core/backup/archive.py:47-49 | A name is refused as climbing exactly when two dots stand between slashes of either kind or the ends of the name. |
| TarExtract.AcceptedIsTame | plugin/javahost/core/backup/archive.py:42-53 | An accepted archive holds no name that climbs or begins with a slash or a drive, no link and no device. |
| TarExtract.TameIsValid | plugin/javahost/core/backup/archive.py:95-105 | Under a destination without links, exactly the members with tame names, allowed kinds and sizes are let through. |
| TarExtract.FileLandsWhereNamed | plugin/javahost/core/backup/archive.py:167-183 | Under a destination without links the file of a member lands at its named components below the destination, with its data. |
| TarExtract.DirectoriesStand | plugin/javahost/core/backup/archive.py:168-174 | After the extraction every directory member, and every directory above a member, is there. |
| TarExtract.LastMemberWins | plugin/javahost/core/backup/archive.py:155-186 | The last regular member for a place decides the file there, and the place is under the destination. |
| WarSwap.Webapp.ReplaceRoot | plugin/javahost/core/deploy/war.py:77-108 | It deploys if and only if the WAR is safe, the backup name is free and no call up to the last rename fails; when it raises, an existing webapp is the old tree, or missing exactly when it was moved aside and the restoring rename failed, and a missing one becomes a surviving stale backup exactly when that rename succeeds; at every step the target is never a mix; after a complete clean-up a return means exactly the WAR's tree. |
| WarSwap.ExactTreeExactly | plugin/javahost/core/deploy/war.py:88-97 | What is deployed is exactly the WAR if and only if staging held no file foreign to it. |
| WarSwap.LastEntryDecides | plugin/javahost/core/deploy/war.py:41-61 | Every file a WAR names is deployed with the data of its last entry. |
| WarSwap.UnnamedStay | plugin/javahost/core/deploy/war.py:41-61 | A file no entry names is there exactly if staging held it before. |
| WarSwap.StaleStagingIsDeployed | plugin/javahost/core/deploy/war.py:91-97 | A run whose first removal fails deploys the old staging files with the new ones, which is the WAR's tree if and only if they all belong to the WAR. |
| WarSwap.StaleBackupAppears | plugin/javahost/core/deploy/war.py:92-104 | A run whose second removal and whose extraction fail raises and leaves the stale backup as a webapp that was not there before. |
| WarSwap.FailedRestoreLeavesNothing | plugin/javahost/core/deploy/war.py:95-104 | A run whose promoting and restoring renames fail raises and leaves no webapp, with the old one at the backup name. |
| WarSwap.StaleBackupBlocks | plugin/javahost/core/deploy/war.py:92-97 | A run whose second removal fails over a backup with files in it raises and leaves the webapp as it is. |
| WarSwap.FaultFreeDeploys | plugin/javahost/core/deploy/war.py:77-108 | A run without faults leaves exactly the WAR's tree, and neither staging nor backup, whatever was there. |
| LogRotate.LogFiles.RotateOne | plugin/javahost/core/logrotate.py:83-110 | The rotation ends in the specified shift, and every moment on the way is one of its stopping points. |
| LogRotate.LogFiles.Purge | plugin/javahost/core/logrotate.py:153-171 | Exactly the rotations older than the cutoff go, or all without one; the live log is untouched. |
| LogRotate.RotationIsShift | plugin/javahost/core/logrotate.py:83-110 | Slot 1 is the live content, slot i+1 the old slot i below keep, slots above keep and gaps are as before, and the live log is empty. |
| LogRotate.FailedUnlinkExactly | plugin/javahost/core/logrotate.py:92-101 | A failing removal of the oldest slot makes a difference if and only if keep > 1 and the slot below it is empty. |
| LogRotate.StoppedRotationKeeps | plugin/javahost/core/logrotate.py:91-110 | Wherever a rotation stops, the live content and every slot but the oldest kept one are still on disk. |
| LogRotate.HigherIsAlwaysOlder | plugin/javahost/core/logrotate.py:83-171 | Over every run of output, rotations with any keep that may stop anywhere, and purges, a higher index is an earlier capture. |
| LogRotate.PurgeTakesOldest | plugin/javahost/core/logrotate.py:161-168 | With a purged rotation go all older ones, when the clock did not run backwards. |
| Tail.ReadTail | plugin/javahost/core/jobs.py:703-719 | The block reader gives the last n elements of splitlines of the whole file, wherever block boundaries fall. |
| Tail.SplitMeans | plugin/javahost/core/jobs.py:717-717 | LF, CR and CRLF each end a line, and what is behind the last one is a line unless it is empty. |
| Tail.JoinMeans | plugin/javahost/core/jobs.py:717-717 | Joined lines are parted by LF, so that splitting gives them back. |
| Tail.LogTextMeans | plugin/javahost/core/jobs.py:350-351 | As many lines as asked for are shown, at least one and at most 5000 of a job and 2000 of an app. |
| Tail.ReadLog | plugin/javahost/core/jobs.py:331-352 | A job's log view is the last lines of its output, as many as asked for between 1 and 5000, and empty without output. |
| Tail.TailLog | plugin/javahost/core/tomcat/instance.py:861-881 | An app's log view is the end of app.out for a jar, else of catalina.out, else of the first listed catalina log that is a file, between 1 and 2000 lines; empty when there is none. |
| Tail.CatalinaLogMeans | plugin/javahost/core/tomcat/instance.py:872-875 | The candidates are the files whose names begin with catalina and end in .log. |
| Tail.AtMostOneShown | plugin/javahost/core/tomcat/instance.py:872-880 | The directory determines which file is shown. |
| Tail.SuffixIsEnough | plugin/javahost/core/tomcat/instance.py:920-933 | A suffix with more than n line feeds has the same last n lines as the file. |
| Tail.AnyPrefix | plugin/javahost/core/tomcat/instance.py:925-933 | All lines of a suffix but its first are lines of the file, even when the cut splits a CRLF. |

## Left out

- Liveness: nothing is proved about how long a cancellation or an update takes; waiting loops become any finite number of polls.
- fork, exec, file descriptors, permissions and ownership: only their effect is modelled (a process appears, an open succeeds or fails).
- `retry`, `count_skipped` and log views of jobs: they follow from reading and starting.
- Worker output and the partial removal of a job directory: a removal takes the directory or leaves it.
- JobRetention.JobStore.Start: a symbolic link already at a new random job id counts as something to raise over; the source follows one that stays inside the jobs directory.
- JobRetention.RankedIsExact: speaks of at most 10^9 records, the limit that prune and clear pass to the listing.
- The JDK lock file itself, downloads, checksums, tar extraction and version markers: a staged tree is an opaque whole.
- JdkUpdate.Runtime.Reinstall: the two detections it makes are inputs.
- JdkUpdate.Runtime.UninstallLocked: another major's tree that detect() found is not a slot; only that removing it may fail is modelled.
- Service state between stop and start: an app runs or does not run.
- The open checks on app.env (mode, owner, symlinks) and leftover temporary files of a crashed writer.
- Restoring a backup, packing, uploads, downloads, `ensure_local` and the merged listing with remote locations.
- The list of remotely removed names that `prune_backups` returns, and location selections given as comma-separated text.
- BackupRetention.Backups.Prune: a profile's requests all succeed or all fail; a sidecar is one app name; unreadable manifests and sizes are not modelled.
- XML, JSON, gzip and tar bytes, S3 signing and HTTP: the models start from pages, records, member lists and text.
- Non-ASCII digits, which the patterns and isdigit also accept, and non-ASCII letter case.
- Entries that are neither file, directory nor link in a destination, and links made by others during an extraction.
- WAR entries that are directories, and the path checks of the WAR extractor, which are those of the archive extractor.
- LogRotate.RotationIsShift: gzip is not modelled, a slot holds the content itself, and the temporary file is invisible.
- Choosing the logs to rotate by size, schedules, status and metrics.
- The Tomcat installer: the same swap without recovery of the old tree.
