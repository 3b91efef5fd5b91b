# Transformer Lab: verified models of its protocols, caches, stores and parsers

Transformer Lab launches jobs on many clouds and on the local machine. Between the routers and
the cloud SDKs sits logic that has to be right without anybody watching: a job runner that must
survive reboots and then delete its own VM, a launch that must leave nothing behind when it
fails, caches that must agree with clouds that change underneath, a settings table whose scopes
shadow each other, migrations, and a handful of parsers and normalisers whose output is looked
up again later. This project models that logic in Dafny and proves what it keeps.

Everything outside the modelled code is an environment whose outcomes are free: a call may
succeed, fail, or take effect and still report failure; a reboot or a kill may come between any
two steps; other people create and delete machines. Where the code needs something from the
environment (a delete is granted once the resource's user is gone, identifiers are never reused),
that is a precondition that names it.

| file | what it models |
|---|---|
| `Runs.dfy` | runs of a state machine, shared by the models of protocols and histories |
| `AzureRunner.dfy` | the reboot-resilient runner script as a crash-recovery protocol |
| `AzureCloud.dfy` | launch, teardown and the timed delete retries over VM, NIC and public IP |
| `BaseSetup.dfy` | many processes sharing the base environment behind one file lock |
| `Inventory.dfy`, `LambdaCache.dfy`, `RunPodRecovery.dfy` | name-to-id caches, and recovery of pods made by a failing create |
| `ConfigStore.dfy`, `ConfigRace.dfy`, `ConfigMigrations.dfy` | the scoped config table, its read-then-insert race, its two migrations |
| `Gres.dfy` | SLURM GRES strings |
| `Bwrap.dfy` | what the sandbox's argument list means |
| `CommitLog.dfy`, `CommitReport.dfy` | the `git log --numstat` reader and the weekly report |
| `GceNames.dfy` | Google Compute Engine names and labels |
| `MachineTables.dfy`, `GpuCatalog.dfy` | first fit over machine tables; the GPU catalog against the launcher |
| `Text.dfy` | `split`, `strip`, `lower`, `upper`, `int` and `str` with their round trips |

`dafny verify dfyconfig.toml` checks the whole project.

## Where the code and its promises differ

Each of these is a theorem below, with the exact condition or a concrete run.

* **Runner.** The script ignores the exit status of `touch`. A delete request goes out without the
  marker exactly in a boot that failed to write it, and then a reboot runs the job again
  (`DeleteOnlyWhenMarked`, `UnwrittenMarkerReruns`). The delete routine sends no request without
  `python3.11` or a metadata answer, and a setup block that calls `exit` ends the boot without
  reaching it (`QuietMeansDeleteAsked`).
* **Base setup.** For any callers and any interleaving, "ready" means installed except exactly when
  the mark stands over something broken: a setup completed, or the file said so at the start, and
  nothing dropped the state file since, while the environment or the config was spoiled or removed
  and not produced again (`HonestExactly`). With the lock free that has a cause: a forced refresh
  whose state file survived its unlink, one that died between starting to remove the environment
  and unlinking the state file, or a read of the "ready" file that failed, which the code takes for
  "not set up" (`ReadyMeansInstalled`, `SurvivingStateExposes`, `KillExposes`, `MisreadExposes`).
  "At most one install ever succeeds" is false even without refreshes, because the metrics step
  after the install may fail (`TwoInstallsCanSucceed`) and because a failed read sets up again
  (`MisreadSetsUpAgain`). What holds is that at most one *setup* completes, and one more for each
  failed read, and every other successful install is accounted for by a failed or killed attempt
  (`InstallsAccounted`, `UnforcedSetups`).
* **Azure cleanup.** With the shipped schedule (210 s for each phase) a NIC released within 210 s of
  its VM's delete is deleted, and one that disappears by itself within 420 s still frees its public
  IP in time; with instant calls no later one does (`DeleteNicAndPublicIp`, `Stop`). `stop_cluster`
  gives up on both when the VM delete fails for any reason but absence (`Stop`).
* **Caches.** `list_clusters` files nameless machines under `lambda-<id>` or `pod-<id>`, so a cached
  lookup of such a nickname finds a machine that a scan does not. Lookup and scan agree exactly
  when the name is not such a nickname (`LookupIsScan`, `NicknameDiffers`). For RunPod, a 5xx that
  made nothing is still reported as a success when an older pod of that name is alive
  (`NothingMadeStillReported`), and one that made a pod is reported as that pod unless an older one
  is cached and alive or shown first (`ServerErrorReports`).
* **Config.** Rows with an empty identifier are accepted and never read (`GetAfterSet`). NULLs are
  distinct in the unique index, so overlapping first writes of a team-wide or global setting leave
  duplicates (`NullScopeRows`, `OverlapDuplicates`), after which every `config_set` of that setting
  raises (`DuplicatesWedge`).
* **GRES.** A typed entry may carry its sockets. An untyped one loses its count: `gpu:2(S:0-1)` is
  dropped, and `gpu:2(S:0,2)` is read as 0 units of a type `2(S` (`UntypedWithSockets`).
* **Sandbox.** A read path inside a read-write path is writable: the shared environment lies under
  `~/.transformerlab` (`SharedEnvironmentWritable`).
* **Commit log.** The list comes back exactly when no author contains `|` or a character at which
  `str.splitlines()` breaks, such as U+2028 or a form feed, which git leaves in names
  (`LogRoundTrip`). With a bar alone the commit is merged into the one printed before it
  (`BarredMerges`); a broken header can even be read as a commit with another author and date
  (`BrokenHeaderMisread`).
* **GCE labels.** The 63-character cut comes after the strip, so a label can end in `-` or `_`;
  exactly then it is not idempotent and a listed cluster name does not find its instance
  (`LabelIdempotent`, `LaunchedNameFindsItself`). An instance without the cluster label is listed
  under its own name, which never finds it (`ListedNameFindsItself`).

## Model

| member | source | states |
|---|---|---|
| AzureRunner.MarkerHistoryHolds | api/transformerlab/compute_providers/azure.py:485-548 | In every run with reboots anywhere: the marker is on disk exactly if a `touch` wrote it, it is there only if the workload returned, and no boot that found it is past the marker test |
| AzureRunner.BootHistoryHolds | api/transformerlab/compute_providers/azure.py:538-548 | What the position of the script says about the current boot: self-delete without a marker only after this boot's workload returned and its `touch` failed |
| AzureRunner.DeleteOnlyAfterWork | api/transformerlab/compute_providers/azure.py:485-548 | No delete is requested before the workload returned in some boot, and the marker is written only after it returned in the same boot |
| AzureRunner.DeleteOnlyWhenMarked | api/transformerlab/compute_providers/azure.py:545-547 | A delete is requested with the marker on disk if and only if this boot did not fail to write it |
| AzureRunner.MarkedNeverRestarts | api/transformerlab/compute_providers/azure.py:487-491 | Once the marker is on disk no later step starts the workload or touches the marker again |
| AzureRunner.StartsBounded | api/transformerlab/compute_providers/azure.py:485-548 | The workload starts at most once more than the machine rebooted before the marker was written |
| AzureRunner.DriverHolds | api/transformerlab/compute_providers/azure.py:443-456 | The poll counter equals the failed polls of this boot and stays below 80 while waiting |
| AzureRunner.StartsAfterDriver | api/transformerlab/compute_providers/azure.py:443-456 | A GPU workload starts only after this boot saw the driver or polled for it 80 times |
| AzureRunner.UnwrittenMarkerReruns | api/transformerlab/compute_providers/azure.py:545-548 | A concrete run: a failed `touch`, a delete request, a reboot, and the workload starts a second time |
| AzureRunner.StepDecreases | api/transformerlab/compute_providers/azure.py:443-548 | Each step of the script, bootstrap tries and driver polls included, uses up one of the boot's finitely many steps |
| AzureRunner.RunLength | api/transformerlab/compute_providers/azure.py:443-548 | A run with r reboots has at most (r+1) times the steps of one boot and its reboot: finitely many reboots mean a finite run |
| AzureRunner.QuietMeansDeleteAsked | api/transformerlab/compute_providers/azure.py:443-548 | A run in which only a reboot could still happen has reached the self-delete in its last boot, unless the setup block ended the script; the request went out exactly with a metadata answer and an interpreter that the image had or some boot installed |
| AzureRunner.TraceTells | api/transformerlab/compute_providers/azure.py:443-548 | After every run disk and VM are told by the events alone: the marker by a `touch` that wrote it, the interpreter by the image or an install that worked, and the position of the script by the events of this boot |
| AzureRunner.ScriptExactly | api/transformerlab/compute_providers/azure.py:443-548 | An event can come next if and only if it is a reboot, the end of the VM, or what the script does after the events of this boot, every test coming out as the events before it say: the runs are exactly the script's |
| AzureRunner.DeleteSentExactly | api/transformerlab/compute_providers/azure.py:470-516 | Wherever in a run: the delete request is sent exactly with a metadata answer and an interpreter from the image or an earlier install that worked |
| AzureCloud.LastAttempt | api/transformerlab/compute_providers/azure.py:235-256 | For any delay schedule the last of its length+1 attempts comes no sooner than the schedule's sum, and exactly then if calls take no time |
| AzureCloud.ReleasedInTime | api/transformerlab/compute_providers/azure.py:230-256 | A resource released within the sum of the delays is deleted, whatever earlier attempts answered |
| AzureCloud.ReleasedInTimeExact | api/transformerlab/compute_providers/azure.py:230-256 | With instant, proper answers it is deleted if and only if it was released by then |
| AzureCloud.ShippedSum | api/transformerlab/compute_providers/azure.py:94 | The shipped schedule adds up to 210 seconds |
| AzureCloud.ScriptGrants | api/transformerlab/compute_providers/azure.py:236-239 | One proper answer among the attempts is enough for a resource that nothing uses |
| AzureCloud.Cloud.BeginDelete | api/transformerlab/compute_providers/azure.py:238 | One delete call: refused while the resource is in use, possibly taking effect although it raises, changing nothing else |
| AzureCloud.GrantedShift | api/transformerlab/compute_providers/azure.py:230-256 | Only the time since the release matters: a schedule that serves a resource held for some seconds serves every one released by then |
| AzureCloud.Cloud.DeleteWithRetries | api/transformerlab/compute_providers/azure.py:230-256 | True exactly if some attempt was made properly after the release; then the resource is gone; false only after length+1 attempts and the whole schedule; nothing else changes |
| AzureCloud.Cloud.DeleteVm | api/transformerlab/compute_providers/azure.py:757-761 | One VM delete: if it takes effect the NIC stays in use for a while and may then go by itself; NIC and public IP are not touched |
| AzureCloud.Cloud.DeleteNicAndPublicIp | api/transformerlab/compute_providers/azure.py:258-286 | NIC attempts, then public IP attempts even if the NIC phase gave up; a NIC that vanishes by itself within two schedules frees the public IP in time, exactly so for instant calls; below a living VM nothing goes |
| AzureCloud.Tried | api/transformerlab/compute_providers/azure.py:722-751 | The number of images tried: every one before the last failed because of the image, and the last did not unless there are no more |
| AzureCloud.TriedIs | api/transformerlab/compute_providers/azure.py:742-751 | That determines the number |
| AzureCloud.Cloud.TryImages | api/transformerlab/compute_providers/azure.py:722-751 | On every outcome exactly the images up to the first success or non-image error are requested, in order, and none after; it succeeds exactly with the first image that works after image errors only; a VM exists exactly if one was made or left behind |
| AzureCloud.Cloud.Create | api/transformerlab/compute_providers/azure.py:649-751 | On every outcome exactly the requests up to the first failure were made, in the order public IP, NIC, images, and the resources there are exactly those made or left behind |
| AzureCloud.Cloud.Launch | api/transformerlab/compute_providers/azure.py:648-762 | All or nothing for every failure point and every outcome: VM, NIC and public IP present, or an exception after no request beyond the first failure and deletes in the order VM, NIC, public IP, which leave none if each is granted once its user is gone and the NIC released |
| AzureCloud.Cloud.Stop | api/transformerlab/compute_providers/azure.py:764-778 | Success removes the VM, then tries NIC and public IP; a NIC released within one schedule is deleted, whoever deleted the VM, and a public IP whose NIC goes by itself within two; an error other than absence leaves both untouched |
| BaseSetup.OneInside | api/transformerlab/compute_providers/local.py:135-144 | For any number of processes, kills included, at most one is between lock and unlock and it is the holder |
| BaseSetup.DiskInvStep | api/transformerlab/compute_providers/local.py:901-994 | Every step of any process keeps the disk invariant of the position the lock holder is at |
| BaseSetup.DiskInvHolds | api/transformerlab/compute_providers/local.py:901-994 | The disk invariant holds after every interleaving |
| BaseSetup.DiskFollowsRun | api/transformerlab/compute_providers/local.py:901-994 | After every run each of state file, environment and config is what the last event that concerned it made it |
| BaseSetup.PathHolds | api/transformerlab/compute_providers/local.py:957-994 | A completed setup has a successful install and a successful metrics step before it |
| BaseSetup.CallersTell | api/transformerlab/compute_providers/local.py:901-994 | After every interleaving each caller stands where the last thing it did itself puts it |
| BaseSetup.StepsExactly | api/transformerlab/compute_providers/local.py:901-994 | A step can come next if and only if it is what its caller does after the last thing it did, the lock being taken only while nobody has it: the runs are exactly the code's |
| BaseSetup.AnswerExactly | api/transformerlab/compute_providers/local.py:901-994 | A caller has returned exactly if its last step was the unlock, and with success exactly if since its lock it found "ready" unforced or completed a setup; otherwise with an exception |
| BaseSetup.SuccessMeansInstalled | api/transformerlab/compute_providers/local.py:908-994 | When a caller returns with success the file says "ready", and everything is installed unless an exposure is pending |
| BaseSetup.HonestExactly | api/transformerlab/compute_providers/local.py:901-994 | From any honest disk, for any callers and at every moment: "ready" means installed if and only if no standing mark covers a spoiled or removed environment or config |
| BaseSetup.ReadyMeansInstalled | api/transformerlab/compute_providers/local.py:901-994 | The same equivalence, and whenever the lock is free a mark over something broken comes from a state file that survived its unlink, a death in the cleanup or a failed read of the "ready" file, with no completed setup since |
| BaseSetup.NothingExposedNothingBroken | api/transformerlab/compute_providers/local.py:901-994 | So without such an event, in particular if nobody forces a refresh and no read of a "ready" file fails, a free lock and a standing mark mean that nothing is broken |
| BaseSetup.NoExposure | api/transformerlab/compute_providers/local.py:902-942 | No exposure without a surviving state file, a kill inside the cleanup or a failed read of a "ready" file; without forced refreshes only the last remains |
| BaseSetup.InstallsAccounted | api/transformerlab/compute_providers/local.py:957-994 | Conservation: successful installs are completed setups, attempts wasted after their install, and the one in flight |
| BaseSetup.UnforcedBudget | api/transformerlab/compute_providers/local.py:901-994 | Without forced refreshes every setup, completed or under way over a standing mark, uses up a state file that was not "ready" or a failed read |
| BaseSetup.UnforcedInv | api/transformerlab/compute_providers/local.py:901-994 | Without forced refreshes and failed reads the state file says "ready" exactly if it did at the start or the one setup completed, and then nobody is setting up |
| BaseSetup.UnforcedSetups | api/transformerlab/compute_providers/local.py:901-994 | Without forced refreshes at most one setup completes, none if the file said "ready" at the start, and one more for each failed read; installs exceed that only by wasted attempts |
| BaseSetup.MarkStays | api/transformerlab/compute_providers/local.py:902-910 | Without forced refreshes, from a completed setup on the mark stands and nobody sets up until a read fails |
| BaseSetup.LaterCallersReuse | api/transformerlab/compute_providers/local.py:902-910 | After a completed setup an unforced caller installs only if a read of the "ready" file has failed since; until then each one returns at its read |
| BaseSetup.SurvivingStateExposes | api/transformerlab/compute_providers/local.py:936-957 | A concrete refresh: the state file survives its unlink, the install fails, and "ready" is false |
| BaseSetup.KillExposes | api/transformerlab/compute_providers/local.py:920-942 | A kill between removing the environment and unlinking the state file leaves a false "ready" |
| BaseSetup.MisreadExposes | api/transformerlab/compute_providers/local.py:147-155 | A concrete unforced caller: its read of the "ready" file fails, its install fails, and "ready" is false |
| BaseSetup.MisreadSetsUpAgain | api/transformerlab/compute_providers/local.py:147-155 | A concrete unforced caller whose failed read completes a setup over a standing one, which meets the bound |
| BaseSetup.TwoInstallsCanSucceed | api/transformerlab/compute_providers/local.py:957-989 | A concrete run of two unforced callers in which both installs succeed |
| Inventory.ById | api/transformerlab/compute_providers/lambda_labs.py:234-235 | A lookup by id answers exactly for live machines, with the machine of that id |
| Inventory.Scan | api/transformerlab/compute_providers/lambda_labs.py:239-248 | A scan finds a live machine of that name, or there is none |
| Inventory.ScanUnique | api/transformerlab/compute_providers/lambda_labs.py:239-248 | Under unique names any live machine of the name is the one a scan finds |
| Inventory.ScanList | api/transformerlab/compute_providers/lambda_labs.py:243-248 | The loop over a listing returns the first machine of the name, or none |
| Inventory.FileAllOk | api/transformerlab/compute_providers/lambda_labs.py:650-655 | Filing a listing keeps every entry an id once issued to a machine filed under that name |
| Inventory.FiledExactly | api/transformerlab/compute_providers/lambda_labs.py:650-655 | After a listing a name leads to the last machine filed under it, and where it led before if there is none |
| LambdaCache.RunValid | api/transformerlab/compute_providers/lambda_labs.py:577-662 | After every history each cache entry leads to an id once issued to a machine filed under that name |
| LambdaCache.LookupSound | api/transformerlab/compute_providers/lambda_labs.py:229-251 | Even with failing GETs a lookup finds a live bearer of the name and misses none, if and only if the name is not an answering nickname |
| LambdaCache.LookupIsScan | api/transformerlab/compute_providers/lambda_labs.py:229-251 | After every history of launches, stops, listings and out-of-band changes the cached lookup equals a scan if and only if the name is not a nickname |
| LambdaCache.LookupIsScanWhenNamed | api/transformerlab/compute_providers/lambda_labs.py:229-251 | So it always equals the scan when every live machine has a name |
| LambdaCache.NicknamedMeansNameless | api/transformerlab/compute_providers/lambda_labs.py:651-655 | Only a machine without a name can be found under a name that is not its own, and only as "lambda-" and its id |
| LambdaCache.NicknameDiffers | api/transformerlab/compute_providers/lambda_labs.py:651-655 | A concrete history in which lookup and scan differ |
| LambdaCache.StopEndsTheNamed | api/transformerlab/compute_providers/lambda_labs.py:591-613 | With unique names and the API answering a stop reports success exactly if a scan finds a machine, ends exactly that one and forgets its entry |
| LambdaCache.FindExactly | api/transformerlab/compute_providers/lambda_labs.py:229-251 | For every failure of either request: what a lookup answers, that it remembers exactly what it found, and that no other name is touched |
| LambdaCache.LaunchExactly | api/transformerlab/compute_providers/lambda_labs.py:574-589 | After an answered launch the name leads to the new machine, whatever it led to before; otherwise the cache is as it was, though the machine may be there |
| LambdaCache.StopAnswers | api/transformerlab/compute_providers/lambda_labs.py:591-627 | A stop reports success if and only if its lookup produced a machine and the terminate was confirmed; with the API answering and no nickname, if and only if a live machine bears the name and it was confirmed |
| LambdaCache.OthersExactly | api/transformerlab/compute_providers/lambda_labs.py:642-662 | A listing files every live machine, the last of a name winning; a failed one and other people leave the cache alone |
| LambdaCache.Provider.FindInstanceByName | api/transformerlab/compute_providers/lambda_labs.py:229-251 | The method does to cloud and cache what the specified lookup does, for every failure of either request |
| LambdaCache.Provider.ListClusters | api/transformerlab/compute_providers/lambda_labs.py:642-665 | Listing files every machine under its name or nickname, the last of a name winning |
| LambdaCache.Provider.LaunchCluster | api/transformerlab/compute_providers/lambda_labs.py:574-589 | A launch sends one request and caches the new id exactly when the answer arrives |
| LambdaCache.Provider.StopCluster | api/transformerlab/compute_providers/lambda_labs.py:591-627 | The method answers and leaves behind what the specified stop does; the entry survives every stop that did not report success |
| RunPodRecovery.FindExact | api/transformerlab/compute_providers/runpod.py:264-302 | One lookup with the API answering finds a pod exactly if the cached id is alive, or nothing is cached and the listing shows the name; a miss leaves nothing cached |
| RunPodRecovery.FindAnswers | api/transformerlab/compute_providers/runpod.py:253-302 | For every failure of either request: what one lookup answers, that it remembers exactly what it found, and that no other name is touched |
| RunPodRecovery.RecoverSound | api/transformerlab/compute_providers/runpod.py:558-576 | Over any attempts, whatever fails, a recovered pod exists and is filed under the name, and the cloud is left alone |
| RunPodRecovery.RecoverExact | api/transformerlab/compute_providers/runpod.py:558-576 | With the API answering, recovery succeeds if and only if the cached id is alive or a listing shows the name, the first one not counting when an id was cached |
| RunPodRecovery.RecoverShown | api/transformerlab/compute_providers/runpod.py:558-576 | Unless a cached id answers, the recovered pod bears the name itself |
| RunPodRecovery.CreatedPodRecovered | api/transformerlab/compute_providers/runpod.py:536-576 | A pod that listings show by the second attempt is recovered, even through a stale cached id |
| RunPodRecovery.RecoverWhich | api/transformerlab/compute_providers/runpod.py:558-576 | With the API answering, recovery returns the pod of a cached id that is alive, and otherwise what the first listing to show the name, counted after a stale id's lookup, shows under it |
| RunPodRecovery.ServerErrorReports | api/transformerlab/compute_providers/runpod.py:516-576 | After any history: a 5xx create that made its pod is reported as that very pod if and only if no cached id of the name is alive and the first such listing shows the new pod first |
| RunPodRecovery.ServerErrorRecovered | api/transformerlab/compute_providers/runpod.py:516-576 | In particular under unique live names, if nothing alive is cached and the second listing shows it |
| RunPodRecovery.StaleCostsAnAttempt | api/transformerlab/compute_providers/runpod.py:266-276 | With a stale cached id a single attempt always fails: the first lookup only evicts |
| RunPodRecovery.LaunchSound | api/transformerlab/compute_providers/runpod.py:516-556 | Every launch keeps the cache true, and a reported pod is alive under that name |
| RunPodRecovery.LaunchExactly | api/transformerlab/compute_providers/runpod.py:516-556 | After any history exactly when each outcome comes: the id exactly if the answer carried it or recovery after a 5xx found that pod, "unknown" exactly for an answer without id, an exception otherwise; the cache then holds the id or is as it was |
| RunPodRecovery.LaunchedIsFound | api/transformerlab/compute_providers/runpod.py:527-556 | The next lookup returns the reported pod; after an answered create that is the new pod under its name |
| RunPodRecovery.RecoverRemembers | api/transformerlab/compute_providers/runpod.py:558-576 | Recovery leaves the name leading to the pod it returns or, with the API answering and none found, nowhere, and touches no other name |
| RunPodRecovery.NothingMadeStillReported | api/transformerlab/compute_providers/runpod.py:542-552 | A 5xx that made nothing is reported as a success if and only if an older pod of that name is alive |
| RunPodRecovery.StopSound | api/transformerlab/compute_providers/runpod.py:578-635 | A stop succeeds if and only if its lookup produced a pod, which is filed under the name, and the delete was confirmed; only then is the entry forgotten, and the pod goes exactly if the cloud carried the delete out |
| RunPodRecovery.RunValid | api/transformerlab/compute_providers/runpod.py:253-302 | After every history each cache entry is an id once issued to a pod filed under that name |
| RunPodRecovery.OthersExactly | api/transformerlab/compute_providers/runpod.py:693-716 | A listing files every pod it shows, the last of a name winning; a failed one and other people leave the cache alone |
| RunPodRecovery.NicknameDiffers | api/transformerlab/compute_providers/runpod.py:705-716 | For any nameless pod: a listing files it under "pod-" and its id, and the next lookup of that finds it |
| RunPodRecovery.Provider.FindPodByName | api/transformerlab/compute_providers/runpod.py:253-302 | The method does to the cache what the specified lookup does |
| RunPodRecovery.Provider.RecoverPodAfterError | api/transformerlab/compute_providers/runpod.py:558-576 | The retry loop is the specified recovery |
| RunPodRecovery.Provider.LaunchCluster | api/transformerlab/compute_providers/runpod.py:516-556 | The create request is sent exactly once, whatever happens, and outcome and cache are those of the specified launch |
| RunPodRecovery.Provider.StopCluster | api/transformerlab/compute_providers/runpod.py:578-635 | The method is the specified stop |
| RunPodRecovery.Provider.ListClusters | api/transformerlab/compute_providers/runpod.py:693-716 | Listing files every pod under its name or nickname |
| ConfigStore.GetIsLayered | api/transformerlab/db/db.py:16-52 | A read is a lookup in the layered map user, team, global, whatever the rows are |
| ConfigStore.SetIsUpdate | api/transformerlab/db/db.py:55-104 | With at most one row for each scope, a set is a map update that keeps that, refused exactly for a user without a team |
| ConfigStore.InsertExactly | api/transformerlab/db/db.py:99-104 | An insert is refused if and only if the row would break the unique index |
| ConfigStore.IndexExactly | api/alembic/versions/c78d76a6d65c_add_team_id_to_config_table.py:48-53 | The index forbids exactly two rows of one user, team and key |
| ConfigStore.KeepsIds | api/transformerlab/db/db.py:93-104 | A set keeps primary keys distinct and takes at most one new one |
| ConfigStore.SetsRefineLayers | api/transformerlab/db/db.py:55-104 | Over every sequence of sets each scope has at most one row and the table stands for the map of last writes |
| ConfigStore.GetAfterSet | api/transformerlab/db/db.py:16-104 | A get in the scope of a set returns the value; a set with an empty identifier is seen by no reader |
| ConfigStore.TeamWideSeen | api/transformerlab/db/db.py:26-46 | A team-wide set is seen by exactly the members without a value of their own |
| ConfigStore.SetsStayInScope | api/transformerlab/db/db.py:16-104 | No set changes a reader that does not look at its scope, so none changes another team; a global one reaches only readers with empty upper layers |
| ConfigStore.Store.Query | api/transformerlab/db/db.py:72-93 | A query returns the number of rows of a scope and the first of them |
| ConfigStore.Store.ConfigGet | api/transformerlab/db/db.py:25-52 | The three queries in order are the layered lookup |
| ConfigStore.Store.UpdateRow | api/transformerlab/db/db.py:95-97 | The update changes the value of the row with that key and nothing else |
| ConfigStore.Store.ConfigSet | api/transformerlab/db/db.py:69-104 | A set is refused or updates the layered map; the table changes only on success |
| ConfigRace.FullScopesStayUnique | api/transformerlab/db/db.py:69-104 | Under every interleaving of reads and commits a user's own setting keeps at most one row |
| ConfigRace.NullScopeRows | api/alembic/versions/c78d76a6d65c_add_team_id_to_config_table.py:48-53 | Conservation for team-wide and global settings: one more row for each commit whose read had found none |
| ConfigRace.PairIsSet | api/transformerlab/db/db.py:69-104 | A read followed at once by its commit leaves exactly the table, or raises exactly the error, of one uninterrupted set, and moves nobody else |
| ConfigRace.CommitWrites | api/transformerlab/db/db.py:93-104 | Any commit writes its value to the row it saw, or to a new row of its scope if it saw none, and nothing else; it is refused exactly if it saw none in a full scope that has one by now |
| ConfigRace.RowsHoldLastWrites | api/transformerlab/db/db.py:69-104 | Under every interleaving each row holds scope and value of the last caller that wrote it, and rows nobody wrote are as they were |
| ConfigRace.AtomicCallsStayUnique | api/transformerlab/db/db.py:69-104 | If no read comes between another caller's read and commit, every scope stays unique |
| ConfigRace.AtomicIsLayered | api/transformerlab/db/db.py:69-104 | Every atomic trace ends in the layered map of the last writes, and none of its commits is refused |
| ConfigRace.OverlapDuplicates | api/transformerlab/db/db.py:69-104 | For every team-wide or global setting, two overlapping first writes leave two rows |
| ConfigRace.DuplicatesWedge | api/transformerlab/db/db.py:93 | Two rows in a scope stay for ever and every later set there raises |
| ConfigMigrations.Database.CreateUniqueIndex | api/alembic/versions/c78d76a6d65c_add_team_id_to_config_table.py:48-53 | The composite index can be built exactly if no two fully scoped rows agree |
| ConfigMigrations.Database.AddTeams | api/alembic/versions/c78d76a6d65c_add_team_id_to_config_table.py:48-93 | Old rows go to the admin's team, else to any team, else away; a violated index leaves the table as it was, and unique keys exclude that |
| ConfigMigrations.Database.AssignTeam | api/alembic/versions/c78d76a6d65c_add_team_id_to_config_table.py:70-88 | The update gives every row without a team the team and keeps all else or, exactly if that would violate the index, changes nothing |
| ConfigMigrations.AssignedExactly | api/alembic/versions/c78d76a6d65c_add_team_id_to_config_table.py:70-88 | Only rows without a team get one, and each keeps its other columns |
| ConfigMigrations.ViolatesExactly | api/alembic/versions/c78d76a6d65c_add_team_id_to_config_table.py:48-53 | The check before one row is rewritten is the condition of the whole index |
| ConfigMigrations.ScopedExactly | api/alembic/versions/c78d76a6d65c_add_team_id_to_config_table.py:89-93 | The delete keeps every row with a team, as often as it was there, and no other |
| ConfigMigrations.Database.DeleteUnscoped | api/alembic/versions/c78d76a6d65c_add_team_id_to_config_table.py:89-93 | The delete removes exactly the unscoped rows |
| ConfigMigrations.Database.RecreateTable | api/alembic/versions/84accba9dc2c_config_unique_constraint.py:30-57 | The copy keeps every row, and the index is restored exactly if the rows allow it |
| ConfigMigrations.Database.RestoreUniqueKey | api/alembic/versions/84accba9dc2c_config_unique_constraint.py:70-94 | Insert-or-ignore under a unique key keeps what the specification of first rows says |
| ConfigMigrations.Database.DropTeams | api/alembic/versions/c78d76a6d65c_add_team_id_to_config_table.py:97-138 | Dropping the scopes keeps every row, and the unique key index is built exactly if the keys are unique |
| ConfigMigrations.UpgradeKeepsLookups | api/alembic/versions/c78d76a6d65c_add_team_id_to_config_table.py:24-93 | For any old table and chosen team, every member reads what the old lookup returned and nobody outside reads anything |
| ConfigMigrations.NoTeamNoRows | api/alembic/versions/c78d76a6d65c_add_team_id_to_config_table.py:89-93 | Without any team the old settings are deleted |
| ConfigMigrations.Upgrade | api/alembic/versions/84accba9dc2c_config_unique_constraint.py:25-67 | Both upgrades in order never violate the index; the settings go to the admin's team if there is one, else to any team, whose members keep every lookup, and away if there is none |
| ConfigMigrations.DowngradeKeepsFirsts | api/alembic/versions/84accba9dc2c_config_unique_constraint.py:70-99 | The downgrade keeps exactly one row for each distinct key, its first, and loses nothing if and only if keys were unique |
| ConfigMigrations.Downgrade | api/alembic/versions/84accba9dc2c_config_unique_constraint.py:70-99 | Both downgrades in order succeed from any table, and straight after the upgrades they restore the old table row for row |
| Text.JoinOfSplit | api/transformerlab/compute_providers/slurm.py:755 | Joining the parts of a split gives the string back |
| Text.SplitOfJoin | api/transformerlab/compute_providers/slurm.py:755 | Splitting a join of separator-free parts gives the parts back |
| Text.IntRoundTrip | api/transformerlab/compute_providers/slurm.py:770 | `int(str(n))` is n for every integer |
| Text.IntReads | api/transformerlab/compute_providers/slurm.py:770 | `int` reads an optional sign and digits with single underscores between them, whitespace around, as the number they write in base ten |
| Text.IntReadsOnly | api/transformerlab/compute_providers/slurm.py:770 | A string that `int` reads is such a literal with whitespace around |
| Gres.ParseGres | api/transformerlab/compute_providers/slurm.py:733-785 | The loop returns the tally of the line's pieces, empty for the spellings of "none" |
| Gres.ParsePiece | api/transformerlab/compute_providers/slurm.py:757-783 | One piece adds its entry to the tally or is skipped, in every malformed case |
| Gres.ParseIsAdditive | api/transformerlab/compute_providers/slurm.py:733-785 | For all strings, parsing `a,b` gives the per-type sum of parsing a and b |
| Gres.EntryRoundTrip | api/transformerlab/compute_providers/slurm.py:774-781 | A printed entry reads back if and only if its type is upper-case and has no colon |
| Gres.ParseInvertsPrint | api/transformerlab/compute_providers/slurm.py:733-785 | Parsing the printed form of any list of entries gives their per-type totals |
| Gres.UntypedReads | api/transformerlab/compute_providers/slurm.py:766-773 | `gpu:n`, in any case, parses to n units of the type "GPU" |
| Gres.TypedReads | api/transformerlab/compute_providers/slurm.py:774-781 | `gpu:type:n` parses to n units of the type in capitals, for any type |
| Gres.MalformedIsSkipped | api/transformerlab/compute_providers/slurm.py:757-783 | A piece without the letters, without a count, or with a count that is no number counts for nothing |
| Gres.MapRoundTrip | api/transformerlab/compute_providers/slurm.py:733-785 | Any map with upper-case types without commas and colons comes back from its printed form, in any order |
| Gres.TypedWithSockets | api/transformerlab/compute_providers/slurm.py:777-781 | A line that is a typed entry with any list of sockets, commas included, parses to its full count |
| Gres.UntypedWithSockets | api/transformerlab/compute_providers/slurm.py:774-783 | A line that is an untyped entry with any list of sockets never yields its count: it parses to nothing, or to a bogus type if a comma follows a single first socket |
| Bwrap.WrapCommand | api/transformerlab/compute_providers/sandbox.py:184-257 | The command comes back unchanged without bwrap, else follows the options |
| Bwrap.BuildOptions | api/transformerlab/compute_providers/sandbox.py:211-254 | The list as it is grown: fixed mounts, workspace, existing read paths, existing read-write paths, resolver |
| Bwrap.AddBinds | api/transformerlab/compute_providers/sandbox.py:234-240 | Each loop appends one bind for each existing non-empty path, in order |
| Bwrap.OptionsMean | api/transformerlab/compute_providers/sandbox.py:210-257 | Read back as bwrap does, the argument list is the intended list of mounts |
| Bwrap.ModeDecision | api/transformerlab/compute_providers/sandbox.py:210-257 | For any lists and any path: a resolver bind decides, then an existing read-write path, then an existing read path, then workspace and fixed mounts; the root bind makes the rest read-only |
| Bwrap.ShownInPlace | api/transformerlab/compute_providers/sandbox.py:210-257 | Every path shows what the host has in its place, except below the fresh /proc and /tmp and at the resolver's configuration, which shows the real file |
| Bwrap.UnlistedModes | api/transformerlab/compute_providers/sandbox.py:210-240 | Where nothing listed and no workspace reaches: /tmp private, /proc fresh, /dev and /sys the host's and writable, all else read-only |
| Bwrap.LocalWorkspaceWritable | api/transformerlab/compute_providers/local.py:491-541 | In the local provider's call the workspace, and all else under an existing read-write path, is writable unless a resolver bind covers it |
| Bwrap.SharedEnvironmentWritable | api/transformerlab/compute_providers/local.py:493-521 | The shared environment is writable although it is listed as a read path |
| CommitLog.FetchCommits | scripts/pr-stats/generate.py:571-606 | The loop with its mutable record is the fold of the line reader over the lines of the output |
| CommitLog.SplitOfUnlines | scripts/pr-stats/generate.py:575 | Printed lines are seen again, each broken where it contains a break |
| CommitLog.BreaksExactly | scripts/pr-stats/generate.py:575 | The characters at which `str.splitlines()` breaks |
| CommitLog.ShaExactly | scripts/pr-stats/generate.py:571-578 | The hash test takes 40 to 64 small hexadecimal digits and nothing else, and so every hash of git's |
| CommitLog.HeaderRecognised | scripts/pr-stats/generate.py:576-589 | A header is recognised if and only if the author has no bar, and then splits into its three fields |
| CommitLog.StatIsNoHeader | scripts/pr-stats/generate.py:576-602 | No numstat line is taken for a header, whatever bars its path has |
| CommitLog.StatReads | scripts/pr-stats/generate.py:591-602 | A numstat line counts its two numbers, a binary one nothing |
| CommitLog.OddColumns | scripts/pr-stats/generate.py:591-602 | A line with fewer than three columns, a dash, or a first column that is no number counts nothing; a second one that is none lets the first count |
| CommitLog.LogRoundTrip | scripts/pr-stats/generate.py:558-606 | For every list of commits, whatever their authors, reading git's text gives the merged list, which is the list itself with the right totals if and only if no author has a bar or a line-breaking character |
| CommitLog.ReadMerges | scripts/pr-stats/generate.py:571-606 | From any point of the log, reading one commit does what merging it says, for every author |
| CommitLog.MergedClean | scripts/pr-stats/generate.py:575-584 | No author that is ever read has a bar or a line-breaking character |
| CommitLog.BarredMerges | scripts/pr-stats/generate.py:576-600 | A header with a bar but no break in its author is no record: its changed lines go to the commit printed before it, or nowhere |
| CommitLog.BrokenHeaderMisread | scripts/pr-stats/generate.py:575-602 | A family of authors with a bar and a break that are read as commits with another author and date |
| CommitReport.Aggregate | scripts/pr-stats/generate.py:658-673 | The three nested counters hold, for every week and author, the sums over the commits of that week and author; each has exactly the weeks that occur and in each exactly the authors of that week |
| CommitReport.ReportConserves | scripts/pr-stats/generate.py:709-726 | Over any listing of the weeks and authors, each author's array sums to the author's share and all arrays to the total |
| CommitReport.TextConserved | scripts/pr-stats/generate.py:571-606 | Whatever the text, the reader counts every header and every number from the first header on once, and nothing before it |
| CommitReport.LogConserved | scripts/pr-stats/generate.py:571-606 | For every list of commits, what was read and what stands before the first header add up to what git reported and the noise of broken headers |
| CommitReport.UnbrokenNoise | scripts/pr-stats/generate.py:576-600 | Authors without line breaks make no noise, except for the commits that bars hide |
| CommitReport.CommitsCounted | scripts/pr-stats/generate.py:571-606 | Without broken headers the commits counted are exactly those whose author has no bar |
| CommitReport.LogToReport | scripts/pr-stats/generate.py:658-726 | From git's text to the arrays: commits, added and deleted lines add up to what git reported |
| GceNames.NameIsLabel | api/transformerlab/compute_providers/gcp.py:155-161 | For every input the name is a lower-case label of section 2.3.1 of RFC 1035 of at most 63 characters, and the last fallback is never reached |
| GceNames.NameFixed | api/transformerlab/compute_providers/gcp.py:155-161 | A string is its own name if and only if it is such a label without double hyphens |
| GceNames.NameIdempotent | api/transformerlab/compute_providers/gcp.py:155-161 | Naming a name changes nothing |
| GceNames.LabelShape | api/transformerlab/compute_providers/gcp.py:149-152 | For every input the label has 1 to 63 allowed characters and starts with a letter or digit |
| GceNames.LabelFixed | api/transformerlab/compute_providers/gcp.py:149-152 | A string is its own label if and only if it has that shape, no double hyphen and bare ends |
| GceNames.LabelIdempotent | api/transformerlab/compute_providers/gcp.py:149-152 | Labelling a label changes nothing if and only if it does not end in a hyphen or underscore |
| GceNames.LabelNotIdempotent | api/transformerlab/compute_providers/gcp.py:149-152 | The exception exists, for every head of 62 letters |
| GceNames.AlphabetExactly | api/transformerlab/compute_providers/gcp.py:149-161 | The characters names and labels keep |
| GceNames.Fallbacks | api/transformerlab/compute_providers/gcp.py:149-161 | Without a letter or digit the name is "tfl-job" and the label "value" |
| GceNames.ListClusters | api/transformerlab/compute_providers/gcp.py:547-567 | The listed names are those of the team's instances: the cluster label, else the instance name |
| GceNames.LabelFound | api/transformerlab/compute_providers/gcp.py:149-152 | A label comes back from its query if and only if it has the shape of a label value, no double hyphen and bare ends |
| GceNames.ListedNameFindsItself | api/transformerlab/compute_providers/gcp.py:321-329 | Any instance of the team, looked up by the name its listing shows: one with its labels is found if and only if it has a cluster label that comes back, and it is the very one if and only if it is also listed first among those; an instance listed by its own name never is |
| GceNames.LaunchedNameFindsItself | api/transformerlab/compute_providers/gcp.py:547-567 | So a launched cluster is found again under its listed name if and only if that name does not end in a hyphen or underscore |
| MachineTables.FirstFitIsLeast | api/transformerlab/compute_providers/aws.py:143-159 | A machine is chosen if and only if one fits; it meets both limits and is least among the fitting ones |
| MachineTables.FirstFitMonotone | api/transformerlab/compute_providers/azure.py:129-145 | A larger request never gets a smaller machine, nor an answer where a smaller one got none |
| MachineTables.RaisesBeyondLast | api/transformerlab/compute_providers/gcp.py:137-146 | On a sorted table with a dominating last row it raises if and only if the request exceeds that row |
| MachineTables.ShippedLimits | api/transformerlab/compute_providers/nebius.py:103-112 | The four shipped tables raise exactly beyond the limits their messages name |
| MachineTables.AwsShape | api/transformerlab/compute_providers/aws.py:80-108 | The AWS table is sorted with a dominating last row |
| MachineTables.AzureShape | api/transformerlab/compute_providers/azure.py:40-65 | The Azure table is sorted with a dominating last row |
| MachineTables.GcpShape | api/transformerlab/compute_providers/gcp.py:46-59 | The GCP table is sorted with a dominating last row |
| MachineTables.NebiusShape | api/transformerlab/compute_providers/nebius.py:67-80 | The Nebius table is sorted with a dominating last row |
| GpuCatalog.CatalogFromKeys | api/transformerlab/compute_providers/base.py:57-69 | The catalog is sorted, has exactly one entry for each type, with the largest count |
| GpuCatalog.SpecResolves | api/transformerlab/compute_providers/aws.py:111-123 | A printed spec with a type the provider leaves alone resolves to exactly that table row, or raises if there is none |
| GpuCatalog.BareSpecResolves | api/transformerlab/compute_providers/aws.py:111-123 | A spec without a count asks for one |
| GpuCatalog.BadCountRefused | api/transformerlab/compute_providers/aws.py:111-123 | A spec whose count is no number is refused |
| GpuCatalog.CatalogLaunches | api/transformerlab/compute_providers/azure.py:97-110 | Every catalog entry, printed and handed to the launcher, gets its row, and no larger count is in the table |
| GpuCatalog.SimpleNamesStable | api/transformerlab/compute_providers/nebius.py:115-123 | Letters, digits and hyphens are left alone by AWS and Azure, by Lambda and GCP if upper-case, by Nebius if without hyphens too |
| GpuCatalog.PaddedNames | api/transformerlab/compute_providers/aws.py:111-123 | What each normaliser makes of a name with spaces around it |
| GpuCatalog.NebiusKeeps | api/transformerlab/compute_providers/nebius.py:115-123 | Nebius takes the capitals of letters and digits, in order, and drops all else |
| GpuCatalog.LongNamesMean | api/transformerlab/compute_providers/gcp.py:101-134 | GCP's long names, in any case, mean shipped types |
| GpuCatalog.ShippedTypesStable | api/transformerlab/compute_providers/gcp.py:101-134 | Every type name of the five shipped launch tables is left alone by its own provider |

## Left out

- The Azure cloud-init phase that writes and enables the unit: the runner is assumed to start at every boot.
- What the Azure delete request answers, and the platform removing a public IP together with its VM; the model lets only the NIC go by itself.
- AzureCloud.Cloud.Launch: create and VM delete calls take no time, since only the delete schedule is timed; networking, size and key resolution are one flag. That nothing is left is not promised when an earlier, already deleted VM of the name still holds the NIC.
- AzureCloud.Cloud.DeleteNicAndPublicIp: a NIC the platform removed by itself stays marked present in the model until a delete of it succeeds; only its public IP is seen to be free.
- BaseSetup.OneInside: a process group surviving its killed parent, which could go on installing after the lock is dropped, is not modelled.
- The install log that a forced refresh deletes, and what a progress callback does; one that raises is a kill.
- BaseSetup.HonestExactly: the state file holds what its writer wrote, whole or cut short; a file damaged otherwise, or removed by somebody else, is not modelled.
- LambdaCache.Provider.LaunchCluster: an answer without an instance id leaves cloud and cache as an answer that never arrives does, and is not a case of its own.
- RunPodRecovery.Provider.FindPodByName: cluster names are taken to be non-empty; for the empty name the code also matches pods without a name.
- RunPodRecovery.Provider.RecoverPodAfterError: takes any number of attempts where the code's default is three, and leaves the pauses between them out.
- RunPodRecovery.Provider.StopCluster: the answers of the delete request are two flags, carried out and confirmed.
- ConfigStore.Store.Query: rows come in insertion order; SQL leaves the order open, which matters only when a scope has duplicates.
- Transaction isolation beyond the two steps of `config_set`: a commit is taken to see all earlier commits.
- Columns and indexes that already exist before the first migration, and the PostgreSQL branches of both migrations.
- Unicode: `upper`, `lower`, whitespace and digits are those of ASCII; the GCE functions take the string after `lower`, so only their second application depends on it.
- Symbolic links and ".." in sandbox paths, the macOS Seatbelt policy, and the contents of the mounts.
- The pull-request half of the report, the mapping from author names to logins, the order of weeks and authors, and calendar arithmetic: the week of a date is a parameter.
- Rename notation and quoting in numstat paths: a path is any text without line breaks, as git prints it while `core.quotePath` is on; carriage returns count as line breaks, since text mode has translated them.
- Parsing memory strings such as "16GB", and the instance-type fallbacks in front of the Lambda lookup.
- GPU tables: the launch tables themselves are parameters, only their type names are written out; for GCP the two tables count as one.
- HTTP, SSH and SDK payloads, the SkyPilot, Vast.ai and dstack providers, per-job environments, routers, authentication, galleries and user interface.
