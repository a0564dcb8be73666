# swbis verification model

swbis installs software on remote hosts. Its `swinstall` program talks to a shell on the target: the host sends
a fixed list of small task scripts, and the main script on the target has one slot for each of them. This project models
that conversation and the code around it in Dafny, and proves what the conversation keeps, what it sends, and what an install does
to the catalog of installed software.

| module | what it models |
|---|---|
| `TaskProtocol`, `Lockstep` | the slots of an install, the messages that fill them, and the walk along the slots that the host makes |
| `ArchiveScan`, `InstallChecks` | what the archive loop meets, and what the messages tell of the checks, the answers and the signals |
| `InstallHost` | the host's code as it is: one object, guards, loops, an alarm and early exits |
| `TargetScript` | the target's main script, and host and target taking steps in any order, with the payload on the channel |
| `ConfigLooper`, `ConfigRegion` | the same conversation for `swconfig`, for one catalog entry: the host's code, and both sides in any order |
| `WholeInstall` | the conversation and the transfer together |
| `Fileset`, `FilesetSender`, `FilesetFrames`, `Payload` | which files of a fileset are sent, by which of two loops, and how many bytes that makes |
| `CatalogMember` | the size of the catalog archive member, announced before it is sent |
| `Admission`, `Instances`, `CatalogRuns` | the tests before an install, the choice of an instance id, and whole runs of installs |
| `Requisites` | how requisites are queried, told apart again and tested |
| `Logger`, `LoggerRoutes` | the incremental line splitter, the routing of events, and what each destination gets of a stream |
| `HostChain`, `TargetIterator` | the multi-hop target syntax and the enumeration of targets |
| `Cplob`, `WOption` | the growable pointer array under all lists, and one client of it |
| `Text`, `Decimal`, `Wrappers` | strings, decimal numbers and small shared types |

Code that changes things step by step is modelled as classes and methods with loops; each method is proved against
a function, and the properties are proved of that function. The conversation is modelled twice: as the host's
code with its guards (`InstallHost.Host`), and as one walk along the slots (`TaskProtocol.Walk`). `InstallHost.Host.Run`
shows that the two send the same messages whatever the host hears.

What the model takes as given: a write on a channel sends all its bytes or fails; the target's shell runs the scripts it is sent; a catalog query
returns exactly the entries that match and that the listing script can see; the far end's answers, the outcome of a check
inside a foreign function, the size that a foreign function writes and the moment a signal arrives (before the first message,
with any answer, or at any look of the two archive loops) are arbitrary inputs.

The functions that the code is proved against are not the last word: beside each stand laws that do not name it. Nothing changes the target
unless every check passed (`InstallChecks.OnlyAdmitted`, `InstallChecks.CompletesIff`), the transfer is a list made
from the archive in order (`FilesetFrames.TransferMeans`), each destination of the logger gets one selection of the
stream (`LoggerRoutes.Streams`), and a new entry gets the least unused id (`CatalogRuns.IdIsLeastUnused`).

Several properties one would expect turn out to hold only under a condition. Each is stated as it is, with the condition:

* The messages of a host whose checks pass fill the slots in order, whatever it hears and whenever signals come, if and only if
  a replaced entry has usable names and the archive loop meets its INDEX and a later catalog member or sees a signal, or a
  signal comes before everything (`Lockstep.LockstepIff`). When the names cannot be used, `alter_catalog_entry` returns before it sends anything, and
  the next message comes to the removal slot. Safety does not depend on it: with any host, tasks run in their own
  slots only (`TargetScript.EveryRun`), and a host out of step never gets an entry made live
  (`TargetScript.OnlyInStepGoesLive`).
* The one message that may run in a slot not its own is an abort in the second slot, which does not look at the id
  (swprogs/swinstall_lib.c:3123-3128, `TargetScript.SecondMessage`).
* A signal raises the alarm in the same breath as the flag (swprogs/swinstall.c:406-433). After an answer that comes with one
  only aborts follow, three at most (`TaskProtocol.SignalEndsTheRun`); an archive loop that sees one sends an abort in place of
  its next message; and after the fileset task there is no more than one (`TaskProtocol.InterruptedTransfer`).
* A refused reinstall sends its abort and goes on; asking for the replaced entry then raises the alarm anew and sends
  a second one (`InstallHost.Host.GetCatalogTar`).
* An admitted install leaves one version if and only if the replaced entry is gone and the listing overlooked none
  (`CatalogRuns.OneVersion`). The listing script matches one-digit instance directories only
  (swsupplib/shell_lib/shell_lib.sh:232), while ids up to 19 are handed out. A run of installs keeps the catalog in order
  if and only if each completed one gets an id below ten and the entry found where it goes was moved away or is
  overwritten (`CatalogRuns.RunKeepsOrderIff`, `CatalogRuns.PlainRunKeepsOrderIff`).
* An install that replaces no entry of its own revision gets a path that no entry has
  (`CatalogRuns.FreshUnlessReinstall`). A reinstall does if and only if none of the entries that the search for ids leaves
  out has the id chosen, which is the least that the search did not meet (`CatalogRuns.FreshPathIff`); any two spellings of
  a revision give a catalog where one of them has it (`CatalogRuns.TwoSpellingsClash`).
* The announced number of bytes goes out, whenever a signal comes, if and only if it is less than 2^31
  (`Payload.ByteExactIff`); with a complete archive and no signal it always does (`Payload.FullTransferIsExact`). The transfer
  looks at the low 32 bits of what is left only, so an archive that lacks a file of 2^32 - 2048 bytes leaves out 2^32
  bytes and the transfer still returns 0 (`Payload.ShortAndSilent`). The entry is not made live all the same, because
  the target waits for the bytes it was told of: make_live runs on the target only if all announced bytes were put on
  the channel, if these are less than 2^40 (`WholeInstall.LiveOnTargetIsWhole`).
* The target is told an int count of blocks, which is the announced size if and only if that is less than 2^40
  (`Payload.ToldIff`).
* The announced size is the rounded sum that was meant if and only if there are fewer than 2^20 definitions
  (`Payload.DeliverySizeIff`).
* `vplob_remove_from_list` removes every occurrence if and only if no two neighbours are both to be removed
  (`Cplob.RemoveFromListComplete`).
* The logger does not depend on how a stream is cut into chunks if and only if nothing but NUL bytes follows a NUL byte in
  it (`Logger.ChunkInvariance`).
* The host chain rewrite is the split and join if and only if there is no chain to rewrite or the string has no carriage return
  (`HostChain.ConvertedIsSplitAndJoin`), and it reads back to the same hosts if and only if no host but the last ends
  in '@' and none has "@@" in it (`HostChain.ChainReadsBack`).
* An error value in `write_catalog_archive_member` is lost in a sum; later checks catch what it was for
  (`CatalogMember.DifferenceCaughtLater`).

## Model

| member | source | states |
|---|---|---|
| `TaskProtocol.ScanFrom` | swprogs/swinstall_lib.c:1667-1827 | once the archive loop has met the member that sets off a task, that stays so to the end of the loop, and a loop cut short by a signal returns what it had |
| `TaskProtocol.WalkFills` | swprogs/swinstall.c:4485-5318 | the messages of a host in step are for the slots in order, followed by nothing but aborts, whatever the answers and the signals |
| `TaskProtocol.PlaceOf` | swprogs/swinstall_lib.c:1325-2797 | a message that is no abort is for a slot that the host came to after it had sent exactly the messages before it, and is what it enters the slot with |
| `TaskProtocol.StatesInOrder` | swprogs/swinstall_lib.c:1987-2745 | what LoadInstalled90 loads is always transient, what LoadInstalled91 loads is always installed, and no other message loads a state |
| `TaskProtocol.RestoreWhenVetoed` | swprogs/swinstall_lib.c:1953-1966 | for every host, in step or not: the restore task follows the analysis, and is a real one exactly when an entry was moved away without error and checkinstall vetoes the install |
| `TaskProtocol.VetoEndsTheRun` | swprogs/swinstall_lib.c:1914-1981 | for every host: when the analysis is answered and vetoed, no message loads an INSTALLED file or the fileset or makes live, and a continue task fails, comes second after the analysis and is the last message |
| `TaskProtocol.VetoSendsNoPayload` | swprogs/swinstall_lib.c:1914-1981 | and no byte of the fileset is put on the channel |
| `TaskProtocol.MakeLiveLast` | swprogs/swinstall_lib.c:2631-2757 | for every host: before make_live come continue, INSTALLED_90 with state transient, the fileset, the removal of the catalog directory and INSTALLED_91 with state installed, all answered with 0 and without a signal, the transfer returned 0 and saw no signal, and there was no veto |
| `TaskProtocol.SignalEndsTheRun` | swsupplib/misc/swicol.c:596-645 | for every host in every mode: after an answer that comes with a signal only aborts follow, three at most |
| `TaskProtocol.InterruptedTransfer` | swprogs/swinstall_lib.c:2598-2667 | for every host: when a signal comes during the transfer or with the answer to the fileset task, at most one message follows that task, and it is an abort |
| `ArchiveScan.ScanMeans` | swprogs/swinstall_lib.c:1667-1827 | the archive loop acts on the first INDEX file and then on the first catalog file after it that ends the signatures, up to the first storage file, unreadable header or raised flag, and the return value tells which it was |
| `InstallChecks.OnlyAdmitted` | swprogs/swinstall.c:4485-5093 | for every host and whatever it hears: the replaced entry is not removed and no later task is sent unless the package can be located, the catalog was listed and analyzed, downdate, reinstall, version, overwrite, requisite, id and path tests passed and the host is compatible |
| `InstallChecks.AnswersTaken` | swprogs/swinstall.c:4485-5318 | for every host: before a message that is no abort, every answer was no signal and one that the task lets the host go on with |
| `InstallChecks.LockRespected` | swprogs/swinstall_lib.c:1633-1642 | nothing but aborts follows a lock that failed, or one that is held unless locks are to be ignored |
| `InstallChecks.WorksBehindTheLock` | swprogs/swinstall_lib.c:1590-1842 | everything that is written and every script that is run comes after the lock was taken or ignored by request |
| `InstallChecks.AnalysisRespected` | swprogs/swinstall_lib.c:1914-1981 | what comes after the continue task comes only after a checkinstall that was absent, succeeded or warned, or whose refusal policy overrules |
| `InstallChecks.AnalysisIsPrepared` | swprogs/swinstall_lib.c:1842-1914 | the catalog was unpacked and then the control script loaded, both without error, before the analysis |
| `InstallChecks.LiveMeansAllWell` | swprogs/swinstall.c:4485-5318 | for every host: make_live is sent only if all checks passed, all steps went well and no signal was seen |
| `InstallChecks.CompletesIff` | swprogs/swinstall.c:4485-5318 | for a host in step, in all three modes: the message of the last slot is sent if and only if all checks of the mode passed, no signal came and every earlier answer was one to go on with |
| `InstallChecks.WorkIsDone` | swprogs/swinstall_lib.c:1325-2797 | every message really does its work, but for guards, an entry or signatures that are not there, and the removal in preview |
| `InstallChecks.ContinueMeans` | swprogs/swinstall_lib.c:1966-1981 | the continue task follows the analysis by two messages and fails exactly for a veto |
| `InstallChecks.PayloadMeans` | swprogs/swinstall_lib.c:2030-2046 | payload goes out only after the fileset task and the go-ahead, and then all of it |
| `InstallChecks.RefusalIsTold` | swprogs/swinstall.c:4538-5093 | an undisturbed install goes on to the loading or ends with an abort, and with two only after a refused reinstall |
| `InstallChecks.PreviewRefusal` | swprogs/swinstall.c:5040-5160 | a preview for an incompatible host ends with one abort after the second guard, and one more exactly when a signal is seen in an archive that is looked at all the same |
| `InstallChecks.SignalIsTold` | swsupplib/misc/swicol.c:596-645 | when all else is well, a signal with any answer but the last is told by exactly one abort, or two where the replaced entry is still to be asked for |
| `WholeInstall.LiveMeansTransferred` | swprogs/swinstall_lib.c:2598-2667 | with the outcome of the modelled transfer: the bytes sent before make_live are the announced ones up to a multiple of 2^32, and exactly those if and only if less than 2^31 bytes were left for the padding |
| `WholeInstall.LiveMeansWhole` | swprogs/swinstall_lib.c:2598-2667 | with a complete archive, make_live means that as many bytes as announced and every regular file were sent; the target was told that number if and only if it is less than 2^40 |
| `WholeInstall.LiveOnTargetIsWhole` | swsupplib/misc/swicol.c:397-441 | for every archive and in every interleaving: once make_live has run on the target, the host had put at least as many bytes on the channel as the target was told and no more than announced, which below 2^40 makes them all; and the count of blocks had not become negative |
| `WholeInstall.LiveMeansVerified` | swprogs/swinstall_lib.c:2087-2538 | make_live is sent only if every file of the archive was copied whole and agreed with its digest, every definition was readable and every link had its source |
| `WholeInstall.LiveOnTargetIsVerified` | swprogs/swinstall_lib.c:2087-2538 | and so for make_live on the target, whatever the host heard |
| `Lockstep.CompleteRun` | swprogs/swinstall.c:4485-5318 | if every check passes, no signal comes and every answer is one the host can live with, each slot gets its message, in all three modes |
| `Lockstep.LockstepIff` | swprogs/swproglib.c:601-632 | when the checks pass, the messages fill the slots for all answers and signals if and only if a signal comes before everything, or the removed entry's names are usable and the archive loop meets both catalog members or is cut short by a signal |
| `Lockstep.Grows` | swprogs/swinstall_lib.c:1325-2797 | hearing more only adds messages, so the host never takes one back |
| `InstallHost.Host.SendScript` | swsupplib/misc/swicol.c:596-645 | a clear alarm sends the message; a raised one sends an abort in its place and goes to its second step; then nothing is sent |
| `InstallHost.Host.AbortScript` | swprogs/swinstall.c:438-447 | the alarm is raised once for a target |
| `InstallHost.Host.OnSignal` | swprogs/swinstall.c:406-433 | a signal sets the flag and raises the alarm |
| `InstallHost.Host.Opening` | swprogs/swinstall.c:4485-4557 | the first two queries and the relocation check end the run or leave the host at the catalog listing |
| `InstallHost.Host.NoListing` | swprogs/swinstall.c:4604-4660 | under the alarm of a signal the catalog query is not sent, and the run ends after at most one abort |
| `InstallHost.Host.QueryCatalog` | swprogs/swinstall.c:4604-4723 | the catalog query and the admission tests; a refused reinstall goes on under the alarm |
| `InstallHost.Host.GetCatalogTar` | swprogs/swproglib.c:3585-3702 | the status of the query is not looked at, and failing to send it raises the alarm anew |
| `InstallHost.Host.FetchReplaced` | swprogs/swinstall.c:4751-4852 | the replaced entry is asked for, with an empty task if there is none |
| `InstallHost.Host.Overwrites` | swprogs/swinstall.c:4859-4926 | existing files stop an install unless an entry is replaced |
| `InstallHost.Host.LastChecks` | swprogs/swinstall.c:4928-5093 | requisites end the run; a bad instance, path or host leaves the alarm raised for the next task |
| `InstallHost.Host.RemoveCatalogEntry` | swprogs/swproglib.c:601-632 | unusable names return before anything is sent |
| `InstallHost.Host.MoveAside` | swprogs/swinstall.c:5098-5160 | an entry that could not be moved away is not restored later |
| `InstallHost.Host.CatalogSection` | swprogs/swinstall_lib.c:1667-1842 | the archive loop sends the two tasks its members set off, as long as none failed and no signal came, raises the alarm where it sees a signal, and returns what the scan of the archive says |
| `InstallHost.Host.PrepareCatalog` | swprogs/swinstall_lib.c:1590-1659 | the catalog directory and the lock, with the lock forced or not |
| `InstallHost.Host.RunCheck` | swprogs/swinstall_lib.c:1914-1951 | which checkinstall statuses veto, which are errors and which pass |
| `InstallHost.Host.Analyze` | swprogs/swinstall_lib.c:1914-1981 | analysis, restore and continue are always all three sent; the run goes on only without a veto and without an error |
| `InstallHost.Host.SendFileset` | swprogs/swinstall_lib.c:2013-2667 | the fileset task, the wait for the go-ahead, the transfer and its end; a signal on the way leaves the alarm raised for the next task |
| `InstallHost.Host.Load` | swprogs/swinstall_lib.c:1325-2797 | arfinstall_tar outside preview sends exactly the walk from the catalog directory on, with or without a signal before or in it |
| `InstallHost.Host.PreviewOnly` | swprogs/swinstall_lib.c:2682-2700 | arfinstall_tar in preview sends one empty task, or an abort for a signal in the archive, unless it returns before |
| `InstallHost.Host.Run` | swprogs/swinstall.c:4485-5318 | the host's code sends exactly the script that the walk describes, for every choice of options, checks, archive, answers and signals, and puts the payload on the channel exactly when that script has the fileset task and the far end is ready |
| `TargetScript.EveryRun` | swprogs/swinstall_lib.c:3118-3328 | for every host, in step or not, in every interleaving, with any task failing, any answer lost or late and signals at any time: no message is lost, and each task that runs does so in its own slot (the second slot may take an abort instead), in order, after all before it let the script go on; a fileset task that ended with 0 had all the bytes it was told of on the channel |
| `TargetScript.StepKeeps` | swsupplib/shell_lib/shell_lib.sh:590-698 | each step of either side keeps that invariant |
| `TargetScript.NextMessage` | swsupplib/shell_lib/shell_lib.sh:590-698 | with a host in step, an open slot finds its own message or an abort |
| `TargetScript.SecondMessage` | swprogs/swinstall_lib.c:3123-3128 | the slot that does not look at the id gets its own message or an abort, from any host |
| `TargetScript.LiveOnTarget` | swprogs/swinstall_lib.c:3276-3328 | make_live runs on the target only after the fileset task ended with 0, the transient and then the installed file were loaded, and continue succeeded, whatever host it is and whatever it heard; the transfer went well, and the bytes put on the channel are at least those the target was told of and at most those of the transfer |
| `TargetScript.OpenIff` | swprogs/swinstall_lib.c:3118-3328 | as long as no slot was passed, the script of an install is open if and only if its last task ended with 0, or was the removal, or a lock that was held and may be ignored |
| `TargetScript.AllFine` | swprogs/swinstall_lib.c:3118-3328 | before make_live runs, each slot has run its own task and that ended so |
| `TargetScript.OnlyInStepGoesLive` | swprogs/swproglib.c:601-632 | make_live runs on the target only if every check of the host passed, every step went well, no slot was passed over, no signal came, and all answers that the host heard are ones it can live with |
| `TargetScript.PreviewChangesNothing` | swprogs/swinstall_lib.c:3213-3236 | in preview no task that changes the target ever runs, and the removal task is an empty one |
| `TargetScript.NeverBothWait` | swprogs/swinstall_lib.c:3118-3328 | while all is well, no signal comes, every answer is one to go on with and the script is open, either a task has run whose status the host has not heard, or the target's next message is there and is its own |
| `ConfigLooper.Looper.Payload` | swprogs/swconfig_lib.c:1330-1707 | the messages are those of the region up to the first failing one, with real work only for an entry that is neither previewed nor skipped, and the two codes are those of the failing step |
| `ConfigLooper.Looper.Report` | swprogs/swconfig_lib.c:1394-1478 | the report and the go-ahead, and what of the INSTALLED file makes the entry be skipped |
| `ConfigLooper.Looper.Configure` | swprogs/swconfig_lib.c:1563-1601 | a failing script is told from an internal error and leaves the return value alone |
| `ConfigLooper.LiveAfterAll` | swprogs/swconfig_lib.c:1690-1707 | make_live is sent only after all other tasks ended with 0 |
| `ConfigLooper.ReturnMeans` | swprogs/swconfig_lib.c:1563-1707 | the return value is 0 exactly for a complete turn or one whose script failed, and status 9 tells these apart |
| `ConfigLooper.MessagesWork` | swprogs/swconfig_lib.c:1484-1707 | what the turn sends does real work if and only if it is no preview and the signatures, the entry, its INSTALLED file and their merging were fine; the same is ensured of what the code sends |
| `ConfigLooper.CodesTell` | swprogs/swconfig_lib.c:1394-1707 | an error value is that of one task only, and tells whether the work was real |
| `ConfigLooper.StatusTells` | swprogs/swconfig_lib.c:1330-1352 | the status of a complete turn tells whether the signatures were refused, unverified or fine |
| `ConfigRegion.SentGrows` | swprogs/swconfig_lib.c:1394-1707 | hearing more only adds messages to those that were sent |
| `ConfigRegion.NextMessage` | swprogs/swconfig_lib.c:340-389 | an open slot always finds its own message, whatever the host heard |
| `ConfigRegion.EveryRun` | swprogs/swconfig_lib.c:340-389 | in every interleaving, with any task failing and any answer lost, late or wrong: no message is lost, and each task that runs does so in its own slot, in order, after all before it ended with 0 |
| `ConfigRegion.LiveOnTarget` | swprogs/swconfig_lib.c:383-389 | make_live runs on the target only after all seven other tasks ended with 0 there, whatever the host heard |
| `ConfigRegion.RealTurnConfigures` | swprogs/swconfig_lib.c:1484-1707 | for an entry that is neither previewed nor skipped, every task that runs on the target but the analysis does its work; once make_live ran, the script was really run and ended with 0, and so were the unpacking, the removal and both states |
| `ConfigRegion.IdleTurnDoesNothing` | swprogs/swconfig_lib.c:1484-1700 | for a previewed or skipped entry no task that runs on the target does any work, and only the report can fail |
| `ConfigRegion.NeverBothWait` | swprogs/swconfig_lib.c:340-389 | when the host has heard the end of every task that ran, the open slot has its message, or both sides are done, or the go-ahead did not arrive |
| `Fileset.WholeBlock` | swprogs/swproglib.c:1356-1367 | the least multiple of 512 that is not below the size |
| `Fileset.FirstFrom` | swsupplib/misc/swheader.c:166-234 | the first file definition of that path from the cursor on, if there is one |
| `Fileset.SearchingOnIsSafe` | swprogs/swinstall_lib.c:2139-2171 | the optimised lookup finds what a search from the start finds, when the paths of the INFO file differ |
| `Fileset.SoughtIsNew` | swprogs/swinstall_lib.c:2139-2201 | a definition is not found twice for distinct members |
| `Fileset.LoopOnce` | swprogs/swinstall_lib.c:2078-2540 | however the storage loop ends, each flagged definition has at most one frame, and exactly one or none by policy if it ends normally |
| `Fileset.LoopFlagsAll` | swprogs/swinstall_lib.c:2197-2201 | every definition that a member names is flagged |
| `Fileset.RestOnce` | swprogs/swinstall_lib.c:1155-1271 | the second loop sends one frame for each unflagged file that needs no data, and touches no other |
| `Fileset.RestStatus` | swprogs/swinstall_lib.c:1190-1194 | the status is an error exactly when a regular file is missing from the archive |
| `FilesetSender.ExactlyOnce` | swprogs/swinstall_lib.c:2071-2583 | a transfer that nothing interrupts sends one frame per file definition, and none for control files, skipped volatile files, missing regular files and other types |
| `FilesetSender.PadAmount` | swsupplib/misc/swlib.c:2444-2475 | as many bytes as asked for, none for a negative amount, and the negative count or -1 when the channel refuses a block |
| `FilesetSender.Sender.GetObjectByTag` | swsupplib/misc/swheader.c:815-834 | finds the first match from the cursor on and moves the cursor only to a match |
| `FilesetSender.Sender.FindMember` | swprogs/swinstall_lib.c:2087-2171 | the lookup of one turn, with its optimised and its failsafe path |
| `FilesetSender.Sender.OneMember` | swprogs/swinstall_lib.c:2087-2538 | one turn of the storage loop changes flags, cursor and channel as specified, with the return code of each error |
| `FilesetSender.Sender.StorageSection` | swprogs/swinstall_lib.c:2078-2543 | the whole loop, cut short by a signal or an error |
| `FilesetSender.Sender.SendRest` | swprogs/swinstall_lib.c:1127-1276 | the loop over what the archive does not hold |
| `FilesetSender.CountMissing` | swprogs/swproglib.c:3216-3244 | a positive count exactly when some file definition is not flagged |
| `FilesetSender.Sender.SendFileset` | swprogs/swinstall_lib.c:2071-2645 | both loops, the check for room and the padding, with every byte accounted for |
| `FilesetFrames.StorageMeans` | swprogs/swinstall_lib.c:2078-2543 | the storage section goes well if and only if each member it looks at fits (known, readable, copied, agreeing with its digest, with a source for links, in whole blocks), then sends the members in order; otherwise it ends over the first that does not, with a code that tells a fault it has |
| `FilesetFrames.RestMeans` | swprogs/swinstall_lib.c:1127-1276 | the second loop sends what needs no data in the order of the INFO file, up to the first definition that it breaks at, and its status is that of this one or tells of a missing file |
| `FilesetFrames.TransferMeans` | swprogs/swinstall_lib.c:2071-2583 | a transfer that nothing cuts short sends exactly the list made from the archive and then from the rest of the INFO file, and files are missing if and only if a regular one was not named or the second loop broke |
| `FilesetFrames.SignalledTransfer` | swprogs/swinstall_lib.c:2078-2583 | after a signal only the members before it were sent |
| `FilesetFrames.GoodTransferFits` | swprogs/swinstall_lib.c:2087-2538 | a transfer that returns 0 found every member it looked at fit |
| `FilesetFrames.PaddedMeans` | swsupplib/misc/swlib.c:2444-2475 | all the padding went out, or whole blocks before the refused one and the negative of their bytes, or -1 for none |
| `FilesetFrames.NoRoomMeans` | swprogs/swinstall_lib.c:2598-2607 | the transfer stops before the padding exactly when two trailer blocks do not fit any more |
| `Payload.DeliverySizeIff` | swprogs/swinstall_lib.c:684-701 | the announced size is the rounded sum that was meant if and only if there are fewer than 2^20 definitions |
| `Payload.SentIsModest` | swprogs/swinstall_lib.c:2253-2456 | at most one frame per definition, of whole blocks, however far the transfer gets |
| `Payload.ByteExact` | swprogs/swinstall_lib.c:2598-2637 | the check for room never fires, at least ten whole blocks are left, frames and padding make the announced size if and only if the padding fits in an int and is taken, and the return value is 0 if and only if its low 32 bits do and are |
| `Payload.ByteExactIff` | swprogs/swinstall_lib.c:2598-2637 | what goes out is what was announced, whenever the signal comes, if and only if the announced size is less than 2^31 |
| `Payload.ShortAndSilent` | swprogs/swinstall_lib.c:2622-2637 | one file of 2^32 - 2048 bytes that is missing from the archive: 2^32 + 5120 bytes are announced, 5120 are sent, and without any signal the transfer returns 0 |
| `Payload.FullTransferIsExact` | swprogs/swinstall_lib.c:2598-2637 | with no signal and an archive that has every regular file, none skipped, the transfer is exact and returns 0; the target was told its size if and only if that is less than 2^40 |
| `Payload.ToldIff` | swsupplib/misc/swicol.c:397-441 | the count of blocks that the target is told, an int, makes up the announced size, up to a whole block, if and only if that is less than 2^40 |
| `CatalogMember.WriteCatalogArchiveMember` | swprogs/swinstall_lib.c:747-861 | the value returned and the bytes written, for any two sizes of the data |
| `CatalogMember.SendCatalogTarfile` | swprogs/swinstall_lib.c:864-965 | which check returns when, and how many bytes went out |
| `CatalogMember.ChecksMean` | swprogs/swinstall_lib.c:889-946 | all checks pass if and only if the four writings have one size and it is a whole number of blocks |
| `CatalogMember.SizesInBlocks` | swprogs/swinstall_lib.c:747-861 | the member is eight blocks and the data, ten with the end of the archive |
| `CatalogMember.BytesMatch` | swprogs/swinstall_lib.c:905-949 | the announced number of bytes goes out if and only if the last writing has the size of the first |
| `CatalogMember.DifferenceCaughtLater` | swprogs/swinstall_lib.c:826-832 | the error value is lost in the sum, and the later checks catch every difference |
| `Admission.ExteTest` | swprogs/swinstall.c:1304-1345 | counts and collects exactly the non-empty paths |
| `Admission.MultipleVersionTest` | swprogs/swinstall.c:1435-1480 | passes exactly when forced or at most one entry is installed |
| `Admission.ReinstallTest` | swprogs/swinstall.c:1484-1520 | passes exactly when allowed or the revision is not installed |
| `Admission.DowndateTest` | swprogs/swinstall.c:1523-1556 | passes exactly when allowed or no higher revision is installed |
| `Admission.DetermineUpgradeSelection` | swprogs/swinstall.c:1349-1432 | picks at most one entry, higher revisions first, then the same, then lower ones |
| `Admission.Admit` | swprogs/swinstall.c:4680-5040 | admits exactly under the conjunction of the tests, and with which entry to replace and which instance id |
| `Instances.PathParts` | swprogs/swinstall.c:1559-1576 | reading a catalog path gives back the revision and the id it was made from |
| `Instances.RevInstance` | swprogs/swinstall.c:1559-1576 | cuts the path at its last slash and finds where the revision starts |
| `Instances.CollectIds` | swprogs/swinstall.c:1640-1668 | collects the ids before the first entry with the replaced revision and mends every path |
| `Instances.FindFree` | swprogs/swinstall.c:1670-1691 | finds the least free id |
| `Instances.LeastFree` | swprogs/swinstall.c:1670-1691 | the result is free, all smaller ids are taken, and -1 means that 0 to 19 are |
| `Instances.DetermineInstance` | swprogs/swinstall.c:1587-1699 | returns the chosen id and leaves every path string as it was, the replaced entry's included |
| `Instances.ChosenAvoids` | swprogs/swinstall.c:1670-1691 | the id is none of those collected |
| `Instances.NoneFree` | swprogs/swinstall.c:1670-1691 | -1 exactly when the ids 0 to 19 are all taken |
| `Instances.FewEntriesSucceed` | swprogs/swinstall.c:1670-1691 | fewer than twenty entries always leave an id, and it is at most their number |
| `CatalogRuns.RivalsAreAll` | swprogs/swproglib.c:3246-3308 | the three queries together return exactly the listed entries of the product at the location, with no location and the root taken alike |
| `CatalogRuns.DecisionOnEntries` | swprogs/swinstall.c:1304-1345 | deciding on the path strings is deciding on the entries they stand for |
| `CatalogRuns.AdmittedIff` | swprogs/swinstall.c:1435-1556 | a package is admitted if and only if no higher revision is there or downdating is allowed, its own is not or reinstalling is allowed, at most one is or force is given, and there is an id; said of the entries |
| `CatalogRuns.ReplacedIsHighest` | swprogs/swinstall.c:1349-1432 | what is replaced is a higher revision if there is one, and else the same if there is one |
| `CatalogRuns.IdIsLeastUnused` | swprogs/swinstall.c:1587-1699 | unless an entry of the package's own revision is replaced, the id is the least that no listed entry of that revision has, or -1 when 0 to 19 are in use: 0 for the first, and at most the number of entries |
| `CatalogRuns.IdWhenReplaced` | swprogs/swinstall.c:1640-1691 | an entry of the revision that is replaced hands on its id if its spelling comes first, and otherwise the id is the least of those before it |
| `CatalogRuns.AdmittedId` | swprogs/swinstall.c:1587-1699 | the same of the id chosen on the path strings |
| `CatalogRuns.VetoRestores` | swprogs/swproglib.c:524-599 | removing and restoring leaves the catalog as it was |
| `CatalogRuns.NothingElseChanges` | swprogs/swinstall.c:5098-5160 | an entry is there after an install exactly if it is the new one of a completed install, or was there and is neither the one moved away for good nor at the new one's path |
| `CatalogRuns.OneVersion` | swprogs/swinstall.c:4680-5160 | from any catalog, an install admitted without force leaves exactly one entry for product and location if and only if the replaced entry is gone and no entry was overlooked |
| `CatalogRuns.FreshUnlessReinstall` | swprogs/swinstall.c:1587-1699 | unless an entry of the package's own revision is replaced, an id below ten goes to a path that no active entry has |
| `CatalogRuns.FreshPathIff` | swprogs/swinstall.c:1640-1691 | in every case, the path is that of no entry but the replaced one if and only if, among the entries from the first with the replaced spelling on, no other has the package's bundle and spelling with the least id that none before them has, or with the replaced one's id if none is before them |
| `CatalogRuns.FreshReinstall` | swprogs/swinstall.c:1587-1699 | so it is fresh for a reinstall too when equal revisions are spelled alike and paths are unique |
| `CatalogRuns.SmallIds` | swprogs/swinstall.c:1670-1691 | fewer than ten entries of the revision keep the id below ten |
| `CatalogRuns.TwoSpellingsClash` | swprogs/swinstall.c:1640-1691 | for any two spellings that compare equal there is a catalog in which the chosen id clashes with an installed entry elsewhere |
| `CatalogRuns.StepKeepsOrderIff` | swprogs/swinstall.c:4680-5160 | an install, forced or not and however it ends, keeps the catalog in order if and only if it does not complete, or its id is below ten and the entry found where it goes, if any, is the replaced one and was moved away, or is overwritten |
| `CatalogRuns.FitsPlainly` | swprogs/swinstall.c:4680-5160 | without force, and with one location asked for, that is so if and only if the id is below ten and there was nothing to replace, or it was moved away, or it is overwritten |
| `CatalogRuns.CarefulFits` | swprogs/swinstall.c:4680-5160 | that is so without force, when the removal succeeded and fewer than ten entries share the revision; and exactly one version is left |
| `CatalogRuns.RunKeepsOrderIff` | swprogs/swinstall.c:4680-5160 | runs of installs of any length and kind keep one version per location, one entry per path and every entry listed, after each step, if and only if each completed install meets that condition, which its own listing, options and fate decide |
| `CatalogRuns.PlainRunKeepsOrderIff` | swprogs/swinstall.c:4680-5160 | for runs without force and with one location asked for each: if and only if every completed install had an id below ten, and nothing to replace, or that was moved away or is overwritten |
| `CatalogRuns.CarefulRunFits` | swprogs/swinstall.c:4680-5160 | runs whose installs are not forced, move away what they replace and find fewer than ten entries of the revision do fit |
| `CatalogRuns.TenInstancesHideTheNext` | swsupplib/shell_lib/shell_lib.sh:229-234 | the eleventh instance of a revision gets an id that the listing does not read |
| `CatalogRuns.HiddenEntryStays` | swsupplib/shell_lib/shell_lib.sh:229-234 | an entry the listing does not read stays beside the next version at its location |
| `Requisites.GetDependencySpecs` | swprogs/swinstall.c:902-951 | the combined query and the type array, in step |
| `Requisites.AlignmentRoundTrip` | swprogs/swinstall.c:902-988 | selecting by type after combining gives back that type's queries, in order, each with its alternation id |
| `Requisites.GetResponsesByType` | swprogs/swinstall.c:961-988 | the answers of one type, reset and numbered; no answer of another type is written to |
| `Requisites.RequisiteTest` | swprogs/swinstall.c:1060-1115 | each answer of the type gets the status its responses leave |
| `Requisites.LastResponseDecides` | swprogs/swinstall.c:1060-1115 | the status says whether some response named an entry if and only if the last response does so or none does |
| `Requisites.HandleAlternates` | swprogs/swinstall.c:1142-1164 | exactly the members that were not found of satisfied alternations are struck out, in place |
| `Requisites.StrikingKeepsFound` | swprogs/swinstall.c:1118-1139 | striking out never changes what was found, so its order does not matter |
| `Requisites.PrerequisiteTest` | swprogs/swinstall.c:1167-1246 | counts the members looked for in vain in unsatisfied alternations, or nothing without enforcement |
| `Requisites.ExrequisiteTest` | swprogs/swinstall.c:1249-1301 | counts the exrequisites that were found, or nothing without enforcement |
| `Requisites.UnmetCount` | swprogs/swinstall.c:1203-1246 | the count is the number of unmet members |
| `Requisites.FoundCount` | swprogs/swinstall.c:1249-1301 | the count is the number of members found |
| `Requisites.PrerequisitesAreAConjunctionOfAlternatives` | swprogs/swinstall.c:1059-1246 | the count is 0 if and only if each alternation has a member that was found, or none that was answered |
| `Requisites.PrerequisitesDecide` | swprogs/swinstall.c:902-1246 | from the specs and the responses to the combined query: the prerequisites pass if and only if each alternation has a member whose last response names an entry, or one that no response came for |
| `Requisites.ExrequisitesDecide` | swprogs/swinstall.c:902-1301 | and the exrequisites if and only if no last response to one of them names an entry |
| `Requisites.TestRequisites` | swprogs/swinstall.c:4949-4981 | both tests, one after the other, on the answers to one combined query |
| `Logger.LogReader.WriteLine` | swprogs/swcommon.c:160-196 | where a line goes and with which prefix, and the value returned for failing writes |
| `Logger.LogReader.WriteErrorLine` | swprogs/swcommon.c:229-378 | the routing of one line by kind, verbosity and log level, and the control script flag |
| `Logger.LogReader.WriteLog` | swprogs/swcommon.c:381-406 | handles the complete lines of the residue and the chunk, keeps the rest, and terminates |
| `Logger.CutsAgreeIff` | swprogs/swcommon.c:381-406 | the same text is handled however a stream is cut if and only if nothing but NUL bytes follows a NUL byte |
| `Logger.ChunkInvariance` | swprogs/swcommon.c:381-406 | under that condition and no other, every logger whose writes succeed ends with the same state and residue however the stream is cut |
| `Logger.FailedWriteDropsTheRest` | swprogs/swcommon.c:391-404 | a failed write drops the rest of the buffer |
| `Logger.EventStream` | swprogs/swcommon.c:198-291 | the event pipe gets exactly the event lines of the handled text, in order and once each, for every verbosity, log level, stream and chunking, and the last mark decides the flag |
| `Logger.EventsNeverInvented` | swprogs/swcommon.c:198-291 | when writes fail, it gets the event lines of the part that was handled |
| `LoggerRoutes.KindMeans` | swprogs/swcommon.c:198-223 | which texts make a line an event, an error or a mark |
| `LoggerRoutes.DeliverMeans` | swprogs/swcommon.c:160-196 | which writes of a line are tried and succeed, and that the value is negative exactly if one failed |
| `LoggerRoutes.LineMeans` | swprogs/swcommon.c:229-378 | what each destination gets of one line: errors and failed events the error output, with the prefix of ssh; other events and lines the output, by threshold or script; the log file by level |
| `LoggerRoutes.Streams` | swprogs/swcommon.c:229-406 | and of a stream, however it is cut: its selection of the lines, in order and once each, and nothing else |
| `LoggerRoutes.DrainCounts` | swprogs/swcommon.c:381-406 | a call returns the number of characters that it showed |
| `LoggerRoutes.FailedIff` | swprogs/swcommon.c:198-214 | an event failed if it is an error event or carries a status that is not 0 |
| `LoggerRoutes.EventShownMeans` | swprogs/swcommon.c:309-312 | failed events are shown from verbosity 1 on, more verbosity never shows less, and from which verbosity the others are |
| `LoggerRoutes.FlagMeans` | swprogs/swcommon.c:86-104 | a control script is being run if and only if a mark opened one and none closed it since |
| `Text.SplittingConserves` | swprogs/swcommon.c:391-404 | lines and residue add up to the text, each line ends with its only newline and the residue has none |
| `HostChain.Convert` | swprogs/swcommon.c:2878-2967 | the backwards scan in place and the forward pass compute the conversion, and which byte of the caller's string is overwritten |
| `HostChain.ConvertedIsSplitAndJoin` | swprogs/swcommon.c:2878-2967 | the conversion is the forward split and join if and only if there is no chain or no carriage return |
| `HostChain.AtMostOneColon` | swprogs/swcommon.c:2878-2967 | the result has at most one colon |
| `HostChain.Idempotent` | swprogs/swcommon.c:2878-2967 | converting twice is converting once |
| `HostChain.ChainReadsBack` | swprogs/swcommon.c:2878-2967 | the converted chain names the same file, or none, and reads back to the same hosts in order if and only if no host but the last ends in '@' and none has "@@" in it |
| `HostChain.NoChain` | swprogs/swcommon.c:2878-2930 | a target without two colons is left alone, and a lone host between colons is freed of them |
| `TargetIterator.ProcessTargetfileLine` | swprogs/swcommon.c:443-484 | cleans a line in its buffer: comment cut, white space squashed, '@' put before it |
| `TargetIterator.BodyMeans` | swprogs/swcommon.c:443-460 | the useful part of a line ends before its first newline, carriage return or '#' |
| `TargetIterator.CleanMeans` | swprogs/swcommon.c:443-484 | the target of a line is its useful part without the white space around it and with one '@' before it, or none if that is blank |
| `TargetIterator.ProcessOperandFile` | swprogs/swcommon.c:1895-1926 | the descriptor array stays ended by -1 and the index inside it |
| `TargetIterator.TargetSource.ReadLine` | swsupplib/misc/swgp.c:581-607 | the next line of a file, its last incomplete one, or a read error |
| `TargetIterator.TargetSource.GetNext` | swprogs/swcommon.c:1501-1593 | hands out the first pending target and leaves the others pending, with the count of operands behind the one looked at |
| `TargetIterator.TargetSource.TakeAll` | swprogs/swcommon.c:1501-1593 | calling until NULL hands out the pending targets up to the first NULL |
| `TargetIterator.EachLine` | swprogs/swcommon.c:1545-1585 | each line gives its target, if it has one, in order |
| `TargetIterator.RawLinesConserve` | swsupplib/misc/swgp.c:581-607 | a file is read whole, or without its last incomplete line if the read fails there |
| `TargetIterator.EachFile` | swprogs/swcommon.c:1545-1585 | a file gives its targets where its descriptor stands first, and nothing where it stands again |
| `TargetIterator.EachOperand` | swprogs/swcommon.c:1501-1545 | each operand gives one target in order, by itself or together with the lone "@" before it; a dangling "@" gives NULL |
| `TargetIterator.DanglingAt` | swprogs/swcommon.c:1501-1593 | every operand yields a target if and only if no lone "@" dangles at the end |
| `TargetIterator.WholeRun` | swprogs/swcommon.c:1501-1593 | without a dangling "@", all targets come out, each starting with '@', or the default once |
| `Cplob.CPLOB.constructor` | swsupplib/cplob/cplob.c:41-64 | an empty list of the asked or the default size |
| `Cplob.CPLOB.Reopen` | swsupplib/cplob/cplob.c:107-123 | grows to at least the asked size, keeps the old slots and clears the new ones |
| `Cplob.CPLOB.AddItem` | swsupplib/cplob/cplob.c:161-174 | stores in bounds, changes no other slot and counts the gap as used |
| `Cplob.CPLOB.AddNta` | swsupplib/cplob/cplob.c:137-153 | appends and keeps the array NULL-terminated |
| `Cplob.AddingNull` | swsupplib/cplob/cplob.c:137-153 | adding NULL keeps the array NULL-terminated if and only if nothing was added before |
| `Cplob.CPLOB.Val` | swsupplib/cplob/cplob.c:188-196 | the stored pointer, or NULL for every index past the stored ones, with the slot just past the used part in bounds |
| `Cplob.CPLOB.RemoveIndex` | swsupplib/cplob/cplob.c:219-229 | removes the pointer and keeps order, bounds and termination |
| `Cplob.RemoveAtMeans` | swsupplib/cplob/cplob.c:219-229 | what was before the removed pointer stays and what was after moves up by one |
| `Cplob.CPLOB.Perform` | swsupplib/cplob/cplob.c:107-229 | any run of adds and removals leaves exactly the list of pointers the run describes |
| `Cplob.CPLOB.BackfillAndNullTerminate` | swsupplib/cplob/cplob.c:198-217 | leaves the non-NULL entries in order, followed by NULL |
| `Cplob.CPLOB.GetNStore` | swsupplib/cplob/vplob.c:65-77 | counts the stored pointers |
| `Cplob.CPLOB.RemoveFromList` | swsupplib/cplob/vplob.c:95-111 | what is left when the neighbour of a removed pointer is not looked at |
| `Cplob.RemoveFromListComplete` | swsupplib/cplob/vplob.c:95-111 | no occurrence is left if and only if no two neighbours are both to be removed |
| `Cplob.RunsAreHalved` | swsupplib/cplob/vplob.c:95-111 | of a run of occurrences every other one is left, and what follows is treated as if the run were not there |
| `WOption.TokensAreFields` | swsupplib/strob/strob.c:500-545 | the tokens are the non-empty fields between commas |
| `WOption.OptionsMean` | swprogs/swcommon0.c:57-96 | each option is its field behind two dashes |
| `WOption.ProcessWOption` | swprogs/swcommon0.c:57-96 | appends one long option per non-empty field and keeps the count equal to what is stored |

## Left out

- The text of the shell scripts is not modelled, only their order, their ids and how their statuses gate the next slot.
- TargetScript.EveryRun: a message whose id is refused leaves its script text on the channel; that text is not modelled, and the proof shows that no slot opens after it.
- WholeInstall.LiveOnTargetIsWhole: that the fileset task ends with 0 only after its dd has read what it was told is taken from the task's script, which drains its input (swprogs/swinstall_lib.c:1016-1036); a read of less than a block is not modelled.
- Payload.ShortAndSilent: is about the return value of the transfer; without --allow-missing-files the program returns an error at its very end for the missing file.
- TargetScript.NeverBothWait: says that no wait is mutual, not that every run ends; time limits and lost connections are outside the model.
- InstallHost.Host.Run: the progress meter, the kill command, early exits over a dead child and the events shown to the user are left out; a time-out is one of the answers the host may hear. A signal takes effect where the host waits for an answer or looks at the flag, not between a guard and the send after it.
- ConfigRegion.NeverBothWait: takes swexec_status to be 0 before the region; a region entered with another status runs nothing and leaves the host waiting for its report.
- ConfigLooper.Looper.Payload: signals are not an input here, so an alarm raised in the middle of a turn is not modelled; it starts at the signature policy; the lock, the reading of the entry tarball and the loop over entries come before it and are not modelled. The path for a missing entry cannot be reached, because any non-zero result is taken as an error first.
- FilesetSender.ExactlyOnce: takes the member names after parsing and relocation; how names are expanded, sanitized and relocated is not modelled. A definition always has a type here.
- FilesetSender.PadAmount: a block of padding is taken whole or refused; a short write is not modelled.
- Payload.ByteExact: takes the size attribute to be the sum of the file sizes, as the source does, and headers of whole blocks up to 1536 bytes.
- Admission.Admit: the overwrite, requisite and compatibility tests come in as one outcome here; requisites are modelled in `Requisites`.
- Instances.RevInstance: paths are taken without double slashes, which the source squashes first.
- CatalogRuns.FreshReinstall: the bundle is part of a path but is not compared when the id is chosen, so equal spelling includes an equal bundle.
- The path of a new entry is `Admission.PathOf`; the checks of `swinstall_lib_determine_catalog_path` for tainted names come in as one outcome.
- CatalogRuns.RunKeepsOrderIff: an install that fails in the middle is taken to leave the active entries as they were after the removal; a half-written entry is not active because it has no INSTALLED file yet.
- CatalogRuns.RivalsAreAll: tags are compared for equality; the patterns of the query language are not modelled, and the comparison of revisions is a parameter.
- Requisites.ExrequisiteTest: corequisites are collected but never tested in the source, so there is nothing more to state of them.
- TargetIterator.TargetSource.GetNext: NUL bytes in a target file are not modelled.
- CatalogMember.SendCatalogTarfile: the content of the headers and attribute files is not modelled, only their sizes.
- Option parsing, usage texts, ssh, forking, pipes, signal handlers, gpg and file descriptors: foreign calls or long flat switches.
- `determine_longest_common_dir`, `swcopy`, `iswverify` and the other main programs: plumbing, or repeats of the modelled code.
