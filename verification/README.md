# ClusterOne: a verified model of its scheduling, recovery and selection logic

ClusterOne flashes firmware and installs operating systems on many servers at once through
their BMCs. This project models the parts where a mistake flashes the wrong bank, wipes the
wrong disk or reports a wrong outcome, and proves what they guarantee.

- **Scheduling** (`UpdateScheduler`, `Provisioning`, over the tables of `JobsRepo`). Code
  between two `await`s is one atomic action of an interleaving transition system. Plugin and
  BMC replies, exceptions from them, cancel moments and the order of everything are free.
  The results hold for every run, of any length, with any number of jobs and tasks.
  `UpdateHistory` and `ProvisioningHistory` read the stored rows, counters, verdicts, cancel
  events and served configs off the list of actions of a run.
- **Restart recovery** (`RestartRecovery`). The startup sweep is a method over the stored
  tables; the resume coroutines are a second transition system with other jobs writing in
  between. `CrashRecovery` puts scheduler and sweep together: the process may die after any
  action of any run, `start_job` and its separate commits included.
- **The Redfish session protocol** (`RedfishSession`): lazy login, login lock, the "no
  SessionService" latch and the single retry on 401, shared by concurrent requests.
- **The flash driver** (`FlashDriver`): the polling loop, the evidence rule for success, and
  the progress written to the task row from its creation to its end.
- **Flash targets** (`FirmwareTargets`, `HgxRouter`): the classified inventory, the inline
  walk it replaced, their agreement, and the HGX file-name router.
- **The disk pipeline** (`Drives`, `DiskResolver`, `Autoinstall`, `Provisioning`): labels,
  strategies and overrides, the disk frozen at kickoff, the rendered installer target, and
  one theorem from end to end.
- **Smaller cores**: `Addresses` (range and URL text), `ServersRepo` (rows of reassigned
  addresses), `PluginRegistry` (matching), `SignedUrls` (the signed text).

`Prelude`, `Text`, `Numerals` and `Sorting` hold the Python text, number and sorting
operations the models use, with the facts about them. What counts as white space and as a
letter is in `Text.StripsThese` and `Text.LowerLetters`, what `int` reads in
`Numerals.PyIntOfText`, `PyIntOfPadded` and `PyIntOfUnderscored`.

What the models take as inputs: BMC and plugin replies, the clock, the keyed digest, Python's
`fnmatch`, `float` and `ip_network`, and the text that shows a capacity to people. Repository
writes and UI callbacks are assumed not to raise. Text is ASCII where case, digits or white
space matter.

## Where the code and its documentation differ

The models follow the code.

- `_ensure_logged_in` calls the latch one-way (core/plugins_api/redfish_client.py:379-387).
  A queued `_force_relogin` clears it: `RedfishSession.LatchFinalIffNoReloginQueued` says
  exactly when the latch is final, and `ConcurrentReloginReopensLatch` is a run where it is not.
- `_select_hgx_target_group` promises all members when no key matches
  (plugins/generic_redfish/plugin.py:477-482); the code returns the first member unless the
  name is empty or carries a bundle marker: `HgxRouter.GroupIsExact`,
  `UnmatchedNameGoesToOne`.
- The discoverer says it mirrors the inline walk bit for bit
  (core/plugins_api/capability_discoverer.py:477-480). On one fully readable page they answer
  alike exactly as `FirmwareTargets.AgreeIff` says. They differ when members share a canonical
  leaf (`SharedLeafDisagrees`), when without a canonical leaf the listing does not begin with
  the lexically least leaf of the class (`ListingOrderDisagrees`), and for BMC leaves that also
  carry a BIOS token (`SharedTokenDisagrees`). Beyond one readable page `AgreeEverywhereIff`
  is the condition: they also differ on later pages, which the inline walk does not fetch
  (`SecondPageDisagrees`), and on members that cannot be read, which it does not read
  (`UnreadableDisagrees`).
- The labelling loop means to guarantee unique names
  (plugins/generic_redfish/plugin.py:1217-1221). A drive with a name of its own is not
  checked against labels handed out before: `Drives.NamesDistinctIff`, `LabelCollision`.
- "NEVER an affirmative BMC failure" (plugins/generic_redfish/plugin.py:1071-1075) holds
  unless the BMC's own failure text contains "unreachable": `FlashDriver.TransientMeans`,
  `FailedTaskTakenForSuccess`.
- `upsert` promises that a stale pick cannot survive a hardware swap
  (data/repositories/servers_repo.py:55-61). It can, across a discovery without a serial
  (`ServersRepo.BlankSerialLeavesStalePick`, and `BlankLetsStray` for any stored value).
  `SurelySameMachineIff` says when the table shows that a row still stands for the machine a
  value was written for, and `NeverStraysIff` when a stored value is safe as long as
  discoveries carry serials.
- `resume_interrupted` speaks of a periodic poller (core/services/update_orchestrator.py:141-143).
  There is none, and nothing in the repository stores a Task URI on a task row, so today
  every open task is swept as stranded (`CrashRecovery.NoRunStoresUris`). The sweep and the
  resumes are proved for stores with URIs as well.
- `finalize_job_from_tasks` is meant to fix stuck jobs (data/repositories/jobs_repo.py:194-196).
  The sweep applies it only to jobs with an open task. A job whose tasks had all finished when
  the process died, but whose own row was not written yet, is called failed whatever its rows
  say (`CrashRecovery.CompletedJobSweptAsFailed`), and so is a job for which an earlier sweep
  died just before settling it (`RestartRecovery.CaughtJobLosesItsCounts`, and
  `ResweepDiffersIffCaught` for exactly when).
  `CrashRecovery.CrashAnywhereIsSettled` says when a swept job agrees with its rows.

## Model

| member | source | states |
|---|---|---|
| `JobsRepo.RecountMeaning` | data/repositories/jobs_repo.py:191-220 | the recount says running exactly while a task of the job is open, completed exactly when all its tasks are, failed exactly when it has tasks and all failed; its counters never exceed the total, and once closed they add up to it and give the state the live-counter rule gives |
| `JobsRepo.JobsRepo.UpdateJobState` | data/repositories/jobs_repo.py:52-67 | a given counter is written, an omitted one kept, an unknown id changes nothing |
| `JobsRepo.JobsRepo.UpdateTask` | data/repositories/jobs_repo.py:91-120 | the one row is patched, a completion without a progress value reads 100, every other row is untouched |
| `JobsRepo.JobsRepo.ListNonTerminalTasks` | data/repositories/jobs_repo.py:151-157 | exactly the open tasks, in id order |
| `JobsRepo.OnlyKeptStayOpen` | data/repositories/jobs_repo.py:167-189 | the jobs still open are the kept ones that were, verdicts and counters stay, and failing in two goes is failing what either go does not keep |
| `JobsRepo.JobsRepo.FinalizeJobFromTasks` | data/repositories/jobs_repo.py:191-220 | the job row becomes the recount of its task rows, and no tasks means no change |
| `JobsRepo.Tally` | data/repositories/jobs_repo.py:205-209 | the counting pass finds the numbers of completed and failed rows and whether one is open |
| `UpdateScheduler.CountersAgreeWithRows` | core/services/update_orchestrator.py:334-413 | when gather ends, in every interleaving of any jobs, all rows of the job are terminal, the counters are the row counts and add up, and a recount changes nothing exactly when the job did not end cancelled or has no task |
| `UpdateScheduler.ConcurrencyBounded` | core/services/update_orchestrator.py:338-353 | in every reachable state at most max(1, min(64, concurrency)) tasks of a job are inside `_run_task`, for the concurrency it was submitted with, and while there are fewer any waiting task of a job that is not cancelled can enter |
| `UpdateScheduler.CancelStopsEntry` | core/services/update_orchestrator.py:343-353 | once a job's own cancel event is set, no further task of it enters `_run_task` or waits to |
| `UpdateScheduler.CancelledOnlyByOwnEvent` | core/services/update_orchestrator.py:125-127 | with overlapping jobs, a job ends cancelled only if a cancel was requested while its own event was the installed one |
| `UpdateScheduler.CancelTakesEffect` | core/services/update_orchestrator.py:380-391 | a cancel that hits a running job's event can be delivered, and after that the job can only end cancelled |
| `UpdateScheduler.StaysCancelled` | core/services/update_orchestrator.py:386-390 | a job whose event is set never ends with another outcome |
| `UpdateScheduler.ActionsShorten` | core/services/update_orchestrator.py:343-382 | every action by which a coroutine of the job goes on shortens a measure no action lengthens, so a job takes finitely many |
| `UpdateScheduler.NeverStuck` | core/services/update_orchestrator.py:343-391 | a launched job that has not ended can always go on |
| `UpdateHistory.OutcomeIsReturned` | core/services/update_orchestrator.py:343-441 | in every run a task is ended by exactly one skip or return; its row is completed/100 if and only if its coroutine returned ok, failed/0 otherwise, what it last reported while it is inside, queued/0 before; a skipped task was never entered |
| `UpdateHistory.VerdictIsReturned` | core/services/update_orchestrator.py:366-393 | the stored counters are the numbers of tasks that returned ok and of the others; the verdict is cancelled exactly when the job's own event was set before the end, else completed when all returned ok, failed when there are tasks and none did, completed with errors otherwise |
| `UpdateHistory.CancelEventsAreTold` | core/services/update_orchestrator.py:125-127 | the installed event is that of the last launch unless that job has ended; a set is pending exactly when a request found the job's event installed and has not been delivered since; an event is set exactly when one was delivered |
| `UpdateHistory.AnythingMayHappen` | core/services/update_orchestrator.py:65-127 | nothing but the order of the code limits creation, submission, launch, cancel requests and their delivery |
| `UpdateHistory.AnythingMayReturn` | core/services/update_orchestrator.py:359-372 | a task inside may report and return anything |
| `RestartRecovery.ResumeInterrupted` | core/services/update_orchestrator.py:133-192 | the sweep leaves exactly the store described row by row, resumes exactly the open tasks with a URI and counts every open task |
| `RestartRecovery.FailStranded` | core/services/update_orchestrator.py:154-161 | every stranded task, and no other, becomes failed at progress 0 |
| `RestartRecovery.SettleJobs` | core/services/update_orchestrator.py:177-178 | in any order, each job to settle gets the recount of its rows |
| `RestartRecovery.SweepSettles` | core/services/update_orchestrator.py:133-192 | after the sweep every stranded row is failed/0 and every other row as it was, no job is open without a task to resume, and a job closed for stranded tasks agrees with its rows |
| `RestartRecovery.SweepIdempotent` | core/services/update_orchestrator.py:133-192 | sweeping again changes nothing |
| `RestartRecovery.SweepAfterDyingInside` | core/services/update_orchestrator.py:154-179 | a sweep that dies between any two of its statements and is run again ends as an undisturbed one, except that a job caught between its last marked task and its own settling is called failed |
| `RestartRecovery.ResweepDiffersIffCaught` | core/services/update_orchestrator.py:154-179 | for a job whose row counts no failure yet, as every job a run leaves open, the repeated sweep leaves the row an undisturbed one leaves if and only if the job was not caught |
| `RestartRecovery.CaughtJobLosesItsCounts` | core/services/update_orchestrator.py:154-179 | a job with one completed and one stranded task: an undisturbed sweep finds it completed with errors, one that dies after marking the task and is run again calls it failed with nothing counted |
| `RestartRecovery.ResumesSettleTheirJobs` | core/services/update_orchestrator.py:194-274 | when all resumes have finished, in any order, each resumed job is the recount of its rows, running exactly while a task is open, and each task shows what its BMC answered |
| `RestartRecovery.ResumedAsAnswered` | core/services/update_orchestrator.py:206-274 | a resumed row is completed/100 if and only if its BMC answered completed, failed at the answered percentage if and only if it answered exception, killed or cancelled, flashing at it otherwise; failed at its old progress when the GET or the client failed, failed/0 when no server or credential was found, unchanged when the coroutine broke off; exactly one of these happened |
| `RestartRecovery.CoroutineGoesOn` | core/services/update_orchestrator.py:194-274 | an unfinished resume can always go on |
| `CrashRecovery.CrashAnywhereIsSettled` | core/services/update_orchestrator.py:65-192 | wherever a run dies, inside `start_job` included, the next sweep resumes nothing and leaves every task terminal and every job closed; a job then agrees with its rows if and only if it has none, had an open one, or was stored as closed without a cancel |
| `CrashRecovery.CompletedJobSweptAsFailed` | core/services/update_orchestrator.py:381-393 | a run of one task that completes, after which a death before the job row is written makes the sweep call the job failed |
| `CrashRecovery.NoRunStoresUris` | core/services/update_orchestrator.py:420-441 | no run of the scheduler puts a Task URI on a row |
| `RedfishSession.SessionsBounded` | core/plugins_api/redfish_client.py:238-319 | sessions minted equal those dropped plus the one held, so at most one plus the 401s plus the logouts; a latched client holds no token; without a user no login is sent |
| `RedfishSession.TriesBounded` | core/plugins_api/redfish_client.py:409-450 | a request sends its body at most twice and POSTs for a session at most twice |
| `RedfishSession.LatchedIffNoService` | core/plugins_api/redfish_client.py:268-313 | in every run the client is latched if and only if a session POST was answered with 404 or without a token and no forced re-login has run since; a refused or broken login latches nothing |
| `RedfishSession.RefusedLoginIsRetried` | core/plugins_api/redfish_client.py:281-297 | after a refused login the request behind it goes out all the same, and the next request POSTs for a session again |
| `RedfishSession.ClientStep` | core/plugins_api/redfish_client.py:238-354 | which steps set and clear latch, token and session URI |
| `RedfishSession.CoroutineStep` | core/plugins_api/redfish_client.py:376-450 | which steps POST for a session, send the body, wait, retry after a 401 or end the coroutine |
| `RedfishSession.AnythingMayHappen` | core/plugins_api/redfish_client.py:238-521 | requests may arrive and be answered in every way, and a waiting one can go on whenever the lock is free |
| `RedfishSession.LatchFinalIffNoReloginQueued` | core/plugins_api/redfish_client.py:503-521 | from a reachable latched state no run POSTs for a session again if and only if no forced re-login is queued |
| `RedfishSession.SequentialLatchIsFinal` | core/plugins_api/redfish_client.py:376-403 | when requests run one at a time no session POST ever follows the latch |
| `RedfishSession.ConcurrentReloginReopensLatch` | core/plugins_api/redfish_client.py:503-521 | a run of two concurrent requests in which the latch is cleared and a session POST follows |
| `FlashDriver.RetryAfterInRange` | core/plugins_api/redfish_client.py:68-92 | the wait always lies in 0..cap; seconds from 0 on and dates to come are kept up to the cap, a past date is no wait, anything else the default (section 7.1.3 of RFC 7231) |
| `FlashDriver.WaitMeaning` | plugins/generic_redfish/plugin.py:575-613 | between polls the loop sleeps what the BMC asks for, within 1 and 60 s, 3 s when it asks for nothing, 6 s after a failed GET |
| `FlashDriver.PollTask` | plugins/generic_redfish/plugin.py:554-615 | at most 1800 polls and less than 1860 s asleep, none begun after 1800 s; an end brought about by the last reply and by none before it, a time-out only past 1800 s, and one report per change of percentage |
| `FlashDriver.EndMeaning` | plugins/generic_redfish/plugin.py:585-615 | unreachable exactly after sixty failed GETs in a row, done exactly on a last reply Completed, failed exactly on a failed final state |
| `FlashDriver.ScaledMeaning` | plugins/generic_redfish/plugin.py:602-605 | a percentage is its exact share of the band, less the fraction of a percent |
| `FlashDriver.ReportedInBand` | plugins/generic_redfish/plugin.py:602-605 | percentages in 0..100 are reported inside the band |
| `FlashDriver.ReportedAdvances` | plugins/generic_redfish/plugin.py:602-605 | a BMC percentage that never falls is reported as one that never falls |
| `FlashDriver.TransientMeans` | plugins/generic_redfish/plugin.py:1075 | the substring test fires for a lost Task, and for a Task the BMC failed exactly when the BMC's own text contains the word |
| `FlashDriver.TaskUriMeaning` | plugins/generic_redfish/plugin.py:529-552 | there is no Task if and only if header and body link are both blank; else it is the header, or the body link when the header is blank, with a slash in front unless it has one or is a URL |
| `FlashDriver.TargetIsActive` | plugins/generic_redfish/plugin.py:833-907 | whatever the BMC lists, with or without a capability map, a target is resolved if and only if some member it offers is no rollback, recovery or staging bank and its name is of the kind to flash, and then it is such a member |
| `FlashDriver.HgxTargetsAreActive` | plugins/generic_redfish/plugin.py:364-374 | neither is any target of an HGX upload |
| `FlashDriver.HgxTargetsAreRouted` | plugins/generic_redfish/plugin.py:364-374 | an image whose name spells out HGX members goes to the longest, first listed of these alone; a bundle or unnamed one to all in order; any other to the first |
| `FlashDriver.Watch` | plugins/generic_redfish/plugin.py:1049-1086 | an accepted image is judged to have taken exactly on 200 or 204 with header and body link blank, a Task seen Completed, or a lost Task and a version moved from a known one |
| `FlashDriver.DoUpdate` | plugins/generic_redfish/plugin.py:946-1139 | ok exactly on evidence; the Task followed is the one of header or body link; a push goes to the resolved active bank or does not happen; the reports are a prefix of the full sequence, all of it on ok; the version is the one read back, else the image's |
| `FlashDriver.FailedTaskTakenForSuccess` | plugins/generic_redfish/plugin.py:1071-1086 | a Task the BMC failed, with "unreachable" in its own text, that counts as a success |
| `FlashDriver.UpdateHgx` | plugins/generic_redfish/plugin.py:299-430 | ok exactly when the push was accepted and its Task seen Completed; the targets are the routed group, active banks all |
| `FlashDriver.WritesAdvance` | core/services/update_orchestrator.py:420-432 | from creation to completed/100 no state goes back and no percentage falls, on every path of the generic plugin |
| `FlashDriver.RunTask` | core/services/update_orchestrator.py:420-528 | a task ends completed/100 exactly when server, image digest, OEM pick, plugin, validation and pre-flight let it through and there is evidence, failed/0 otherwise, and nothing is reported past the gate that stops it; whatever it pushes goes to active banks; up to its end the row goes forward |
| `FlashDriver.VerifyImage` | core/services/update_orchestrator.py:305-332 | the image is let through exactly when a digest is stored, the file is there, is no demo image, and has that digest, letter case aside |
| `FlashDriver.LookUp` | core/services/update_orchestrator.py:443-477 | the gates before validation: task, server, endpoint, image, OEM pick and plugin |
| `HgxRouter.GroupIsExact` | plugins/generic_redfish/plugin.py:432-504 | a name that spells out a key, letter case aside, selects the one longest and earliest such member in both selectors; otherwise a name with one of the five bundle markers or an empty one selects all in order, any other the first |
| `HgxRouter.UnmatchedNameGoesToOne` | plugins/generic_redfish/plugin.py:493-504 | two members and a name that matches neither and marks no bundle: one member is selected |
| `HgxRouter.LongestMatch` | plugins/generic_redfish/plugin.py:453-460 | the first hit in the sorted keys is the longest, earliest among equals, and a miss means no key is named |
| `HgxRouter.BestIsUnique` | plugins/generic_redfish/plugin.py:453-460 | the selected member is determined |
| `HgxRouter.GroupStaysInside` | plugins/generic_redfish/plugin.py:463-504 | a selection is never empty and holds members of the map only |
| `FirmwareTargets.CapabilityMap.WalkFirmwareInventory` | core/plugins_api/capability_discoverer.py:468-555 | the inventory holds every readable member of every page followed, a later member replacing one with its leaf, and the four kinds of target are picked from it; no collection changes nothing |
| `FirmwareTargets.CollectRefs` | core/plugins_api/capability_discoverer.py:489-501 | the links of the first page and of the pages behind it, to the guard or the first unreadable page |
| `FirmwareTargets.FollowsTheChain` | core/plugins_api/capability_discoverer.py:489-501 | the pages followed are those the next links name in order, to the end, to one that cannot be fetched, or to fifty |
| `FirmwareTargets.PickActiveMeaning` | core/plugins_api/capability_discoverer.py:557-583 | a pick exists exactly when an active member of the class does, and is one |
| `FirmwareTargets.TargetIsOfKind` | core/plugins_api/capability_discoverer.py:225-262 | a target of a class is offered exactly when some readable member is active and of the class, by the words of its name, and is then such a member |
| `FirmwareTargets.ExtrasAreOfKind` | core/plugins_api/capability_discoverer.py:530-538 | the extra targets are one of each of the five further classes that has a member |
| `FirmwareTargets.HgxMembersExactly` | core/plugins_api/capability_discoverer.py:540-555 | the HGX targets are exactly the last readable links with an active leaf that says HGX, each once, in the order in which the leaves are listed |
| `FirmwareTargets.DiscoveredTargetsAreSafe` | core/plugins_api/capability_discoverer.py:468-555 | no BIOS, BMC, extra or HGX target of any walk has a banned rollback leaf, and each is a readable member |
| `FirmwareTargets.HgxUploadIsSafe` | plugins/generic_redfish/plugin.py:364-374 | no target of an HGX upload has a banned leaf |
| `FirmwareTargets.OrderDoesNotMatter` | core/plugins_api/capability_discoverer.py:557-583 | with distinct leaves, permuting the members changes no choice |
| `FirmwareTargets.CanonicalFits` | core/plugins_api/capability_discoverer.py:77-85 | every canonical name is of its own class and no canonical name is a banned bank |
| `FirmwareTargets.CanonicalFirst` | core/plugins_api/capability_discoverer.py:77-85 | both implementations look for the canonical names first, in their order, and take the best listed, the discoverer its last link, the inline walk its first |
| `FirmwareTargets.LegacyMeaning` | plugins/generic_redfish/plugin.py:877-907 | the inline walk resolves exactly when some link is active and carries a token of the component, to such a link |
| `FirmwareTargets.LegacyTargetIsSafe` | plugins/generic_redfish/plugin.py:877-907 | no URI it returns has a banned leaf |
| `FirmwareTargets.AgreeIff` | plugins/generic_redfish/plugin.py:833-907 | on one fully readable page the two implementations give the same answer if and only if, with a canonical leaf, the first and last link with the best one are the same, and without, no active link carries a token, or the first that does is of the class, has its lexically least leaf and is the last with it |
| `FirmwareTargets.AgreeEverywhereIff` | core/plugins_api/capability_discoverer.py:468-583 | whatever the later pages and whichever members can be read, the two give the same answer if and only if neither has a candidate, or the link the inline walk takes from the first page is the one the discoverer takes from all it read |
| `FirmwareTargets.DiscovererPicksLeast` | core/plugins_api/capability_discoverer.py:576-583 | without a canonical leaf the discoverer picks the last link with the lexically least active leaf of the class |
| `FirmwareTargets.SharedLeafDisagrees` | plugins/generic_redfish/plugin.py:886-890 | two members with one leaf on which they differ |
| `FirmwareTargets.ListingOrderDisagrees` | plugins/generic_redfish/plugin.py:892-902 | two plain BIOS members in reverse order of their names, of which the implementations choose different ones |
| `FirmwareTargets.SharedTokenDisagrees` | plugins/generic_redfish/plugin.py:899-902 | a member with a BIOS and a BMC token, which only the inline walk takes for a BMC |
| `FirmwareTargets.SecondPageDisagrees` | core/plugins_api/capability_discoverer.py:489-501 | a BIOS member on the second page, which only the discoverer finds |
| `FirmwareTargets.UnreadableDisagrees` | core/plugins_api/capability_discoverer.py:502-508 | a member that cannot be read, which only the inline walk takes |
| `FirmwareTargets.DiscovererResolvesIff` | core/plugins_api/capability_discoverer.py:557-583 | on one readable page a class resolves exactly when some link is active and of that class |
| `FirmwareTargets.ResolveTogether` | core/plugins_api/capability_discoverer.py:225-262 | both resolve the BIOS together; a BMC hit of the discoverer implies one of the inline walk, which alone hits exactly when every active link with a BMC token also has a BIOS token |
| `Drives.ChooseLabel` | plugins/generic_redfish/plugin.py:1240-1247 | the loop ends, on size, then serial tail, then the least free number |
| `Drives.FirstFreeMeaning` | plugins/generic_redfish/plugin.py:1244-1247 | the number found is free and every smaller one from 2 is taken |
| `Drives.LabelReads` | plugins/generic_redfish/plugin.py:1232-1247 | a label is the name with the size; if taken, with the last six characters of the serial too; if that is taken, the size label with the least free number from 2 |
| `Drives.AmbiguousIff` | plugins/generic_redfish/plugin.py:1217-1221 | a name is labelled exactly when two drives of the listing carry it |
| `Drives.LabelIsFresh` | plugins/generic_redfish/plugin.py:1232-1249 | a label is never one handed out before |
| `Drives.LabelDrives` | plugins/generic_redfish/plugin.py:1216-1256 | the whole pass computes the sorted labelled inventory |
| `Drives.LabellingKeepsDrives` | plugins/generic_redfish/plugin.py:1222-1253 | names aside, the result is the raw list without repeated non-empty URIs |
| `Drives.InventoryIsSortedSurvivors` | plugins/generic_redfish/plugin.py:1225-1256 | the inventory is sorted by name, holds each labelled survivor once, and keeps the listing order of drives left under one name |
| `Drives.NamesDistinctIff` | plugins/generic_redfish/plugin.py:1231-1252 | names are pairwise distinct exactly when no unambiguous drive meets its name among labels already handed out |
| `Drives.PlainNamesAreDistinct` | plugins/generic_redfish/plugin.py:1231-1252 | names are distinct when no unambiguous raw name looks like a label of an ambiguous one |
| `Drives.NoParenthesisIsPlain` | plugins/generic_redfish/plugin.py:1231-1252 | names are distinct when no raw name contains a parenthesis |
| `Drives.LabelCollision` | plugins/generic_redfish/plugin.py:1250-1251 | three drives of which two end up under one name |
| `DiskResolver.ResolveIsChoice` | core/services/disk_resolver.py:56-173 | for every strategy word: a drive is answered exactly when the words ask for some drive of the host, and then the one they mean, the best and first among equals (for "smallest_ssd" the first of the smallest sized SSDs); ambiguous exactly when a size or model strategy asks for two; an override is wanted exactly for "manual_per_host" |
| `DiskResolver.BySizeReads` | core/services/disk_resolver.py:56-70 | "by_size:" with a whole number and a unit means that many decimal bytes, give or take a tenth |
| `DiskResolver.BySizeReadsTolerance` | core/services/disk_resolver.py:60-64 | a stated percentage is the tolerance, as `float` reads it, and unreadable text fits no drive |
| `DiskResolver.SizeTextReads` | core/services/disk_resolver.py:65-70 | an amount, white space, a unit in any case and perhaps a line feed mean the amount times the unit, in whole bytes |
| `DiskResolver.SizeTextShape` | core/services/disk_resolver.py:65-67 | no other text means a size |
| `DiskResolver.AmountReads` | core/services/disk_resolver.py:65-69 | digits with or without a point are the number they spell |
| `DiskResolver.SizeSpacesDropped` | core/services/disk_resolver.py:59 | spaces in the size and white space around it do not matter |
| `DiskResolver.SerialPins` | core/services/disk_resolver.py:166-171 | a "by_serial:" strategy with a drive's serial finds a drive with that serial, letter case aside, and exactly that drive if no other carries it |
| `Autoinstall.OneTarget` | core/services/autoinstall_renderer.py:65-99 | no rendered text names two targets |
| `Autoinstall.RenderAimsOrRefuses` | core/services/autoinstall_renderer.py:44-115 | rendering refuses exactly when the family has no template, or no serial is known and the name is neither a Linux block device name nor a /dev/ path; otherwise, in the directives the family reads, it aims at the serial, else at that path |
| `Autoinstall.HandleIff` | core/services/autoinstall_renderer.py:34-37 | the names taken for devices are the NVMe namespaces and the SCSI and virtual disks |
| `Autoinstall.SearchBySerial` | core/services/autoinstall_renderer.py:71-90 | the script a serial-aimed kickstart runs installs on the first block device that carries the serial the shell reads from the script's line, and stops exactly when none does |
| `Autoinstall.SerialReadsBackIff` | core/services/autoinstall_renderer.py:71-75 | the shell reads from the script's line the serial it was written for if and only if the serial holds no single quote |
| `Provisioning.FrozenIsRightDisk` | core/services/provisioning_orchestrator.py:152-186 | the frozen row is runnable exactly when the host has a right disk, the one the override names or the one the strategy means, and is that disk's; the right disk is unique, and with distinct names an override names one drive |
| `Provisioning.OverrideTakesFirstListed` | core/services/provisioning_orchestrator.py:156-166 | where drives share a name, an override takes the one the BMC listed first |
| `Provisioning.Plans` | core/services/provisioning_orchestrator.py:109-150 | every task row belongs to a known server and carries the resolution of that server's own inventory |
| `Provisioning.EveryKnownServerIsPlanned` | core/services/provisioning_orchestrator.py:109-150 | every listed server that is known gets a task, one per listing, in order, and no other does |
| `Provisioning.ConfigsAreHeld` | core/services/provisioning_orchestrator.py:389-519 | in every interleaving the config store holds only tokens of live tasks with those tasks' own bodies, and finished tasks leave nothing |
| `Provisioning.ServedWhileLive` | core/services/provisioning_orchestrator.py:78-105 | a token is served only while its task is live, with that task's body, and never 1800 s after it was seen stored |
| `Provisioning.CallsFollowProtocol` | core/services/provisioning_orchestrator.py:446-509 | plugin calls are a prefix of mount, set-boot, power-cycle, eject, each after an ok from the one before; a completed task made all |
| `Provisioning.CountersAgreeWithRows` | core/services/provisioning_orchestrator.py:293-364 | when gather ends all rows are terminal, the counters are the completed rows and the failed or cancelled ones, and the stored job row carries them with the state they call for, cancelled exactly when the job was cancelled by then |
| `Provisioning.CancelDecidesEnd` | core/services/provisioning_orchestrator.py:335-346 | a job cancelled before gather ends can only end cancelled, one not cancelled by then never does |
| `ProvisioningHistory.TaskIsTold` | core/services/provisioning_orchestrator.py:295-519 | in every interleaving a task stands where its last action put it: completed exactly when its media were ejected without an exception, cancelled by a skip, an abort or a waiting loop that found the job cancelled, failed otherwise; nothing is called for a host that is not ready or whose disk was not settled |
| `ProvisioningHistory.VerdictIsTold` | core/services/provisioning_orchestrator.py:331-346 | the stored counters are the numbers of tasks ejected without an exception and of the others, and the verdict follows from them unless the job was cancelled before the end |
| `ProvisioningHistory.ServedUntilOver` | core/services/provisioning_orchestrator.py:78-105 | the config of a ready, published task is served under its token, for 1800 s or until the task ends, with the host's name or address and the snippets for its frozen disk |
| `ProvisioningHistory.PermitsAreUsed` | core/services/provisioning_orchestrator.py:222-312 | at most max(1, min(32, concurrency)) tasks are live, and while there are fewer any waiting task of a job that is not cancelled can be entered |
| `ProvisioningHistory.NeverStuck` | core/services/provisioning_orchestrator.py:389-519 | until the job has ended some task or its end can go on |
| `Provisioning.OnlyTheRightDisk` | core/services/provisioning_orchestrator.py:109-519 | if a task ever power-cycles its host, its frozen disk is the drive of that host's inventory that the override names or the strategy chooses, and its config aims at exactly that drive |
| `Provisioning.OverrideWipesTheNamedDrive` | core/services/provisioning_orchestrator.py:109-519 | from the raw listing to the wiped disk: when no raw name holds a parenthesis, an override is taken exactly when it names a drive of the labelled inventory, it then names one only, and a host is power-cycled only with that drive frozen and a config aimed at it |
| `Addresses.ParseRange` | core/engine/scanner.py:34-58 | the loop computes the concatenation of its tokens' parses, or fails when one fails |
| `Addresses.BaseUrlRoundTrip` | core/engine/scanner.py:29-31 | a target's URL parses back to exactly that target for every port from 0 up, whatever the defaults; a negative port is refused |
| `Addresses.CommaConcatenates` | core/engine/scanner.py:46-58 | parsing a comma join is the concatenation of the parses, failures included |
| `Addresses.RangeIsConsecutive` | core/engine/scanner.py:77-93 | "lo-hi" gives exactly hi-lo+1 consecutive addresses in order, and is refused exactly when hi comes before lo |
| `Addresses.ShorthandIsFullRange` | core/engine/scanner.py:84-87 | a bare last octet reads as the full range does; a number no octet can hold is refused |
| `Addresses.PortRangeIsConsecutive` | core/engine/scanner.py:63-71 | "host:lo-hi" gives exactly the ports from lo to hi in order |
| `Addresses.PlainTokens` | core/engine/scanner.py:46-58 | blank tokens are skipped, a bare host gets the default port and scheme, and a scheme in front replaces the default |
| `Addresses.NetworkParses` | core/engine/scanner.py:72-76 | a network gives its hosts in order, each with the default port and scheme |
| `Addresses.IPv4RoundTrip` | core/engine/scanner.py:83-93 | reading the text of an address gives the address |
| `Addresses.IPv4IsCanonical` | core/engine/scanner.py:83-93 | each address has one accepted text |
| `Addresses.RedfishRootRoundTrip` | core/services/update_orchestrator.py:639-648 | the stored root gives back host, port and scheme if and only if the host holds no colon |
| `Addresses.RootDefaults` | core/services/update_orchestrator.py:640-648 | without a port it is 443 for https and 80 for http; no root is an empty https host |
| `ServersRepo.ServersRepo.Upsert` | data/repositories/servers_repo.py:52-101 | one row per address stays, an existing row keeps its id, the discovered columns are overwritten and no other row changes |
| `ServersRepo.ServersRepo.SetDisksByIp` | data/repositories/servers_repo.py:125-143 | the disk list of the address's row is set, and the answer says whether there is one |
| `ServersRepo.StepOfBound` | data/repositories/servers_repo.py:52-165 | after any statement a value is in a row exactly when the statement wrote it, or it was there and the statement neither rewrote it, deleted the row nor saw other hardware |
| `ServersRepo.ColumnsStep` | data/repositories/servers_repo.py:52-160 | discovery overwrites serial and facts, the status and the fingerprint have a statement each, and nothing else changes a row |
| `ServersRepo.RowsStep` | data/repositories/servers_repo.py:52-165 | only the discovery of a new address adds a row and only a deletion takes one away |
| `ServersRepo.AlwaysOneRowPerIp` | data/repositories/servers_repo.py:52-101 | every history keeps one row per address |
| `ServersRepo.IdsAreStable` | data/repositories/servers_repo.py:52-101 | a row keeps its id and address until it is deleted |
| `ServersRepo.BoundIffKept` | data/repositories/servers_repo.py:52-143 | a pick or disk list is there exactly when a statement wrote it and none since then wrote it again, deleted the row or saw other hardware |
| `ServersRepo.SurelySameMachineIff` | data/repositories/servers_repo.py:72-92 | whatever machines the reported serials leave possible, a row stands for the machine it stood for at an earlier step if and only if it was not discovered since or shows the same known serial at both moments |
| `ServersRepo.NeverStraysIff` | data/repositories/servers_repo.py:72-92 | no history whose discoveries carry serials can leave a value under another serial than the one stored now, if and only if the one stored now is known |
| `ServersRepo.BlankLetsStray` | data/repositories/servers_repo.py:72-92 | one blank discovery and one of another machine leave any value under another serial |
| `ServersRepo.BoundIsForThisMachine` | data/repositories/servers_repo.py:52-101 | if every discovery carries a serial, whatever is bound was written for the machine now behind the address |
| `ServersRepo.BlankSerialLeavesStalePick` | data/repositories/servers_repo.py:72-92 | a history with one blank serial after which a pick outlives its machine |
| `PluginRegistry.Match` | core/plugins_api/registry.py:56-89 | the answer is the plugin that beats all others if its score is not negative, none exactly when all scores are negative or there is no plugin, an exception exactly on a full tie |
| `PluginRegistry.MatchIsBest` | core/plugins_api/registry.py:76-89 | the head of the sorted candidates is the one plugin that beats all others in score, priority and smaller key |
| `PluginRegistry.MatchIgnoresLoadOrder` | core/plugins_api/registry.py:59-66 | permuting the plugins changes nothing |
| `PluginRegistry.RaisingIsMinusOne` | core/plugins_api/registry.py:70-75 | a plugin that raises counts as one that answers -1 |
| `PluginRegistry.DistinctKeysNeverTie` | core/plugins_api/registry.py:70-79 | with distinct keys there is no full tie |
| `SignedUrls.MessageDeterminesParts` | core/services/file_server.py:119-121 | for colon-free resources the signed text determines resource, identifier and expiry, colons in the identifier included |
| `SignedUrls.VerifiesIff` | core/services/file_server.py:103-121 | a signature made for one triple verifies for another exactly when they are equal and the expiry has not passed |
| `SignedUrls.OnlyTheDigestVerifies` | core/services/file_server.py:109-121 | nothing but the digest of the very text, before the expiry passes, verifies; a missing signature reads as the empty one |
| `SignedUrls.OwnLinkVerifies` | core/services/file_server.py:103-117 | a link that was handed out verifies until its expiry and not after |

## Left out

- UpdateScheduler.CountersAgreeWithRows: tasks are started in any order, a waiting task may be overtaken, and cancellation of the engine itself (`CancelledError` at the semaphore) is not modelled.
- RestartRecovery.ResumesSettleTheirJobs: the hypothesis that every coroutine finished means it was not cancelled by the engine stopping.
- RestartRecovery.ResumeInterrupted: messages, timestamps and activity-log entries are not columns of the model.
- RedfishSession.SessionsBounded: a coroutine cancelled while it holds the login lock is not modelled; a request that fails on the network is a reply that is not a 401.
- FlashDriver.RetryAfterInRange: Python's `float` and HTTP-date parsing are the cases of the header, not modelled on its text.
- FlashDriver.DoUpdate: the transport's payload, the capability cache, the reset request and the notes in the result are left out; a reset or read-back only either raises or does not.
- FlashDriver.RunTask: Supermicro and HPE override the flow and are excluded; what `validate` and the BMC pre-flight answer is an input, and so is the digest of the image file.
- FirmwareTargets.OrderDoesNotMatter: says nothing about the order of HGX members, which follows the listing.
- Drives.LabelDrives: the capacity text of a label is a parameter, and reading a Drive resource (`_drive_from_redfish_json`) is left out.
- DiskResolver.ResolveIsChoice: `fnmatch` and `float` are parameters, and sizes and tolerances are reals, so the rounding of doubles at the edge of a tolerance is not modelled; nor are the tolerances "nan" and "inf", which Python's `float` also reads: one that then fits no drive makes the code raise while it words the answer, and "inf" fits every drive for a size above 0.
- Autoinstall.RenderAimsOrRefuses: only the disk part of the bundled templates is modelled, and of the kickstart script's text only the line with the serial (its search is `SearchBySerial`); an operator's own template text is left out.
- Autoinstall.SearchBySerial: of a line whose serial holds a single quote only the quoted word is read; what the shell makes of the text after it is not modelled.
- Provisioning.ConfigsAreHeld: one provisioning job at a time, because overlapping ones share and clear one cancel event; tokens are fresh.
- Provisioning.CountersAgreeWithRows: progress percentages are not modelled.
- Addresses.ParseRange: CIDR expansion is a parameter, the texts of the errors are not modelled, and neither is Python's limit on the number of digits.
- ServersRepo.ServersRepo.Upsert: the other discovered columns are one map of texts, and timestamps and the credential column are left out.
- PluginRegistry.MatchIsBest: scores are reals, so NaN and infinities are left out, as are priorities that are not integers.
- SignedUrls.VerifiesIff: the digest is assumed to tell the two messages apart.
- Provisioning has no resume: its startup sweep fails every open task and job in two statements, and is left out.
- The user interface, reports, settings and activity repositories, discovery probes, virtual media and boot calls, credential precedence, migrations, TLS pinning and the simulator are not modelled.
