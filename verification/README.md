# anylinuxfs: a Dafny model of its protocols and algorithms

anylinuxfs mounts foreign filesystems on the host through a small VM. Most of the program starts and
watches other processes; between them sit protocols and algorithms whose correctness is easy to get
wrong. This project models these and proves what they promise:

| files | what they model |
|---|---|
| `CtrlProtocol`, `CtrlLiveness`, `CtrlQuit` | the guest's control-socket server: accept loop, any number of subscriber threads and the main thread over two take-once slots, a flag and three channels, as a step relation; safety of every interleaving, and return of `send_report` and of `wait_for_quit_cmd` under weak fairness |
| `Cidr`, `NetSearch`, `NetSearchFacts`, `NetSearchStep`, `NetSearchHalts`, `NetSearchTheorems`, `NetPicker` | the IPv4 block allocator: CIDR arithmetic over powers of two, the broadening cyclic search, the random picker |
| `LineFilter` | the streaming console filter that hides `<anylinuxfs-` lines chunk by chunk |
| `Downloader`, `BlockCache` | the bootstrap's recursive dependency download, and the block cache over the remote image |
| `MountTrie`, `MountSchedule` | the tree of subdirectories and the parallel mount and unmount walks over it, under every interleaving |
| `Locks`, `LockSafety`, `DiskClaims` | file locks, nested lock guards, any number of processes, disk claims |
| `LvmNames`, `LvmPaths`, `VolumeMap`, `VolumeKinds`, `VolumeListing` | LVM name escaping, the lister's map of composite volumes, and the way from a listed identifier back to the volume |
| `Hostname`, `EnvVars`, `Framing`, `PubSub`, `Deferred` | unique host names, the environment-variable scanner, message framing, the publish/subscribe hub, deferred actions |
| `Wrappers`, `Basics`, `Sequences` | option and result types; minimum, maximum, bytes, set sizes; splitting, joining and concatenation |

Conventions. Code that changes state step by step is a class or a method with loops, proved against a
specification function or predicate; the laws are lemmas about that specification. Concurrent code is
a step relation, or, where every operation is one critical section, a class whose runs are sequences of
calls. `dafny verify dfyconfig.toml` checks everything.

What the environment decides is a parameter or a nondeterministic choice: which thread moves, how a
read splits the stream, whether a fetch or a download succeeds, whether a command fails, whether the
kernel keeps or loses a shared lock when a conversion is refused, and what the random generator draws.

## Where the code falls short of the wish

Each of these has its exact condition:

- The block search does not always stop. Call anchor the first candidate aggregated with everything in use that
  overlaps it. The search stops if and only if the first candidate is free, the anchor is the whole address space,
  the anchor starts at the pool address, or the anchor's sibling, the other half of its parent, has a free block
  (`NetSearchTheorems.HaltsIff`, for every admissible request). So a /30 request around 172.27.1.0 with
  172.27.0.0/16 and 172.26.0.0/16 in use never ends, although 172.16.0.0/30 is free
  (`NetSearchTheorems.LargerUsedNetworksDefeatTheSearch`).
- A listener that fails after somebody subscribed and before any Quit came leaves `wait_for_quit_cmd` waiting for ever: the main
  thread waits for the server thread, which waits for the subscriber, which waits for the report. The wait comes back if
  and only if a Quit is accepted or the listener fails with nobody subscribed (`CtrlQuit.QuitWaitEndsIff`).
- Escaped LVM names give the two names back if and only if neither is empty and the volume does not start with a
  dash (`LvmNames.RoundTripIff`, `LvmNames.PrintCollidesIff`). The lister and the mounter still agree on the device.
- A message is read back if and only if it has 1 to 1048576 bytes (`Framing.FrameRoundTripIff`). An empty or larger
  one is written all the same; the reader rejects it, or, when its length taken modulo 2^32 is admissible, takes its
  first bytes for the message.
- An exported directory is mounted if and only if no different directory later in the list has the same key
  components (`MountTrie.ExportKeptIff`), and all are if and only if exports with equal components are the same string
  (`MountTrie.AllExportsKeptIff`). Two spellings of one directory below the share collide in this way, and so do all
  directories outside the share. Mount points to take down behave alike (`MountTrie.MountPointKeptIff`).
- Of the volumes of one group with the same filesystem id, or without one, exactly the first seen is listed
  (`VolumeListing.ListedIff`). Such an entry can be claimed for writing if and only if no host device was seen twice
  under it (`VolumeListing.ListedClaimableIff`).
- A lock upgrade can cost the shared lock if and only if another handle holds the application lock
  (`LockSafety.UpgradeKeepsLockIff`). The guard then lives on, and another session may rewrite the root filesystem
  (`LockSafety.RefusedMayLoseTheLock`); a session that upgrades only as the sole holder is safe
  (`LockSafety.StableWhenSoleUpgrader`).
- The block cache takes a response that ends early for the end of the file. A read is faithful if and only if no
  non-zero byte of its range was cut off (`BlockCache.FaithfulIff`).
- The host-name counter runs out if and only if every one of its 2^32 candidates is active (`Hostname.PickUnique`).

## Model

| member | source | states |
|---|---|---|
| CtrlProtocol.InitInv | vmproxy/src/main.rs:325-335 | the server starts with both slots full, no flag, no subscriber, and satisfies the protocol invariant |
| CtrlProtocol.StepKeepsInv | vmproxy/src/main.rs:330-429 | every atomic action of the accept thread, of any subscriber and of the main thread keeps the invariant that ties slots, guards, flag, queues and writes together |
| CtrlProtocol.StepKeepsQuit | vmproxy/src/main.rs:350-376 | every atomic action keeps the bookkeeping of accepted requests: signals, acknowledgements, spawned subscribers and the flag follow from them |
| CtrlProtocol.SendOutcome | vmproxy/src/main.rs:421-424 | sending the report fails exactly when the server thread is gone; otherwise the report waits for the winner |
| CtrlProtocol.RunInv | vmproxy/src/main.rs:330-429 | the invariant holds at every point of every schedule |
| CtrlProtocol.RunSafety | vmproxy/src/main.rs:330-429 | in every interleaving done is signalled at most once, at most one connection gets a ReportEvent and it carries the main thread's report; an accepted Quit is the last request, is passed on exactly once as soon as the server thread is past receiving it, and is acknowledged once; after an accepted subscription `send_report` neither fails nor comes back before the winner attempted its write |
| CtrlLiveness.EnabledSteps | vmproxy/src/main.rs:337-429 | a thread called enabled really has a next step, for each program point |
| CtrlLiveness.HelpfulIsEnabled | vmproxy/src/main.rs:353-403 | while main waits after a subscription, a Quit or a listener failure, the thread it depends on is never blocked |
| CtrlLiveness.HelpfulProgress | vmproxy/src/main.rs:353-403 | each step of that thread lets main return or lowers the rank |
| CtrlLiveness.OtherProgress | vmproxy/src/main.rs:353-403 | no step of any other thread raises the rank or changes which thread main depends on without lowering it |
| CtrlLiveness.StepProgress | vmproxy/src/main.rs:353-429 | the two together, for an arbitrary step, with the waiting condition kept |
| CtrlLiveness.SendReportReturns | vmproxy/src/main.rs:421-429 | on every weakly fair run a wait in `send_report` that is committed ends |
| CtrlQuit.WaitStep | vmproxy/src/main.rs:353-366 | while a Quit is coming, each step of the thread that carries it brings the waiting main thread nearer, and no other step sets it back |
| CtrlQuit.QuitWaitReturns | vmproxy/src/main.rs:417-419 | on every fair run a wait for a coming Quit ends |
| CtrlQuit.QuitIsPassedOn | vmproxy/src/main.rs:353-354 | on every fair run an accepted Quit is passed on, whether or not somebody waits for it |
| CtrlQuit.QuitWaitStuck | vmproxy/src/main.rs:338-343 | a listener that fails after a subscription and before a Quit leaves the main thread waiting for ever |
| CtrlQuit.QuitWaitEndsIff | vmproxy/src/main.rs:334-419 | on every fair run `wait_for_quit_cmd` comes back if and only if a Quit is accepted or the listener fails with nobody subscribed |
| Cidr.SharedAddressNests | anylinuxfs/src/netutil.rs:102-104 | two blocks with a common address are nested, the shorter prefix outside |
| Cidr.NestedIffOverlap | anylinuxfs/src/netutil.rs:146-150 | one block contains the other exactly when they share an address, so the containment check finds every overlap |
| NetSearch.CollectConflicts | anylinuxfs/src/netutil.rs:100-108 | the conflicts are the used networks nested with the candidate, in order |
| NetSearch.MoveOn | anylinuxfs/src/netutil.rs:116-141 | the inner loop: next sibling, broadening when the base comes round, failure at /12 |
| NetSearch.SearchRound | anylinuxfs/src/netutil.rs:99-142 | one round of the outer loop |
| NetSearch.PickAvailable | anylinuxfs/src/netutil.rs:80-144 | the picker returns what the specified search reaches within the given rounds |
| NetSearchFacts.AggregateIsUnion | anylinuxfs/src/netutil.rs:110-111 | the first aggregated block covers exactly the addresses of the candidate and its conflicts, so it is the single largest block |
| NetSearchFacts.NextSiblingIsCyclic | anylinuxfs/src/netutil.rs:117-123 | skipping past the candidate and wrapping to the front visits the siblings in cyclic order of their block numbers |
| NetSearchFacts.AdvanceFacts | anylinuxfs/src/netutil.rs:116-141 | moving on gives a valid candidate inside the supernet of the new search length, or the search is exhausted |
| NetSearchFacts.RoundFacts | anylinuxfs/src/netutil.rs:99-142 | a round ends with a block disjoint from all used networks, or goes on with a valid candidate that shares the supernet of the new search length with the old one; the search length never grows |
| NetSearchFacts.IterateFacts | anylinuxfs/src/netutil.rs:99-142 | the same over any number of rounds |
| NetSearchFacts.PickIsSound | anylinuxfs/src/netutil.rs:80-144 | for any used networks a returned block is valid, has the requested length and overlaps none of them |
| NetSearchStep.JumpFacts | anylinuxfs/src/netutil.rs:117-123 | a jump over whole blocks around a circle never steps over an origin it does not straddle, and everything it passes lies in one block |
| NetSearchStep.NextBlock | anylinuxfs/src/netutil.rs:117-123 | the next sibling, cut down to the requested length, is such a jump in block numbers |
| NetSearchStep.AggregateFacts | anylinuxfs/src/netutil.rs:100-111 | the aggregate contains the candidate, is the candidate's block or a used network, and is the widest that overlaps it |
| NetSearchStep.TakenInside | anylinuxfs/src/netutil.rs:110-111 | every requested-size block inside the aggregate of a taken candidate is taken |
| NetSearchHalts.NoStraddle | anylinuxfs/src/netutil.rs:110-117 | no aggregate met on the way straddles the anchor's first block |
| NetSearchHalts.TakenRound | anylinuxfs/src/netutil.rs:106-114 | a round on a taken candidate stays in the supernet around the pool address |
| NetSearchHalts.TakenMove | anylinuxfs/src/netutil.rs:99-142 | from a taken block the search passes taken blocks only and comes nearer to the origin, or has gone all round and broadens or fails |
| NetSearchHalts.BroadenedMove | anylinuxfs/src/netutil.rs:125-133 | all round and broadened, it moves on in the next wider supernet, again past taken blocks only |
| NetSearchHalts.LeavesAnchor | anylinuxfs/src/netutil.rs:99-136 | from anywhere in the anchor the search moves to the start of the anchor's sibling |
| NetSearchTheorems.SettlesFrom | anylinuxfs/src/netutil.rs:99-142 | termination: by supernet length, then by the distance left to the origin |
| NetSearchTheorems.SearchSettles | anylinuxfs/src/netutil.rs:80-144 | when the anchor starts at the pool address the search stops inside the region around it: with a free block exactly if there is one, exhausted otherwise |
| NetSearchTheorems.SiblingWalk | anylinuxfs/src/netutil.rs:99-142 | with a free block ahead in the sibling the search stops there or before |
| NetSearchTheorems.NeverStops | anylinuxfs/src/netutil.rs:99-142 | with a taken sibling it goes round for ever |
| NetSearchTheorems.SiblingDecides | anylinuxfs/src/netutil.rs:80-144 | when the first candidate lies inside its anchor the search stops if and only if the sibling has a free block, and then chooses one |
| NetSearchTheorems.HaltsIff | anylinuxfs/src/netutil.rs:80-144 | for every admissible request, exactly when the search stops |
| NetSearchTheorems.AlignedPoolSettles | anylinuxfs/src/netutil.rs:94-144 | with an aligned pool address and nothing larger than the request around it, the search stops inside the /12 and fails exactly when everything there is taken |
| NetSearchTheorems.SmallNetworksHaltIff | anylinuxfs/src/netutil.rs:94-144 | with nothing larger than the request around it, the search stops if and only if the pool address is aligned or one of the two first blocks is free |
| NetSearchTheorems.TheRegion | anylinuxfs/src/netutil.rs:126 | the /12 around 172.27.1.0 is exactly 172.16.0.0 to 172.31.255.255 |
| NetSearchTheorems.LargerUsedNetworksDefeatTheSearch | anylinuxfs/src/netutil.rs:99-142 | a /30 request with two used /16 networks that never ends although a free block exists |
| NetPicker.ByIndexExact | anylinuxfs/src/netutil.rs:152-161 | for every index in range nothing wraps at 32 bits and the result is an aligned block inside the pool with the expected number |
| NetPicker.ByIndexInjective | anylinuxfs/src/netutil.rs:152-161 | different indices give different blocks |
| NetPicker.ByIndexOnto | anylinuxfs/src/netutil.rs:152-161 | every aligned sub-block of the pool has an index in range |
| NetPicker.OverlapsAny | anylinuxfs/src/netutil.rs:146-150 | the check holds exactly when the candidate shares an address with a used network |
| NetPicker.PickRandom | anylinuxfs/src/netutil.rs:163-201 | both argument errors exactly; a pick is the first draw that overlaps nothing and lies in the pool; nothing is returned only if every draw overlapped |
| LineFilter.LineReader.Refill | anylinuxfs/src/utils.rs:851-853 | an empty buffer is refilled from the next read and the unread stream stays the same |
| LineFilter.LineReader.Accept | anylinuxfs/src/utils.rs:894-917 | after each chunk, shown, buffered and suppressed text agree with what the line so far allows |
| LineFilter.LineReader.ReadMore | anylinuxfs/src/utils.rs:849-943 | one pass of the loop extends the line by one chunk and keeps the output consistent |
| LineFilter.LineReader.ReadLine | anylinuxfs/src/utils.rs:845-943 | returns the first line of the unread stream and its length and appends exactly the rendering of that line to the console, however reads split the stream |
| LineFilter.ReadAll | anylinuxfs/src/utils.rs:845-943 | reading to the end gives the lines of the stream and the rendering of all of them, independent of chunking |
| LineFilter.LinesPartition | anylinuxfs/src/utils.rs:872-889 | the lines concatenate to the stream; each has no newline before its end; all but the last end in one |
| LineFilter.NewlinesEndLines | anylinuxfs/src/utils.rs:872-885 | a newline character ends each line but perhaps the last, and stands nowhere else in a line |
| LineFilter.RenderLinePlaces | anylinuxfs/src/utils.rs:894-938 | where everything stands in the output of a line: prefix first, then the characters, then the carriage return; a line starting with `<anylinuxfs-` leaves the carriage return only |
| LineFilter.RenderConcat | anylinuxfs/src/utils.rs:845-943 | the output of a list of lines is the outputs of its lines in order |
| LineFilter.RenderMeaning | anylinuxfs/src/utils.rs:894-938 | the rendering shows each untagged line once with one prefix, nothing of tagged ones, and one carriage return per newline |
| LineFilter.ConsoleMeaning | anylinuxfs/src/utils.rs:845-943 | the same, said of a whole stream |
| Downloader.FindFiles | freebsd-bootstrap/remoteiso/remoteiso.go:155-168 | exactly the listed paths that resolve in the image |
| Downloader.SortDependencies | freebsd-bootstrap/main.go:346-353 | names that start with a slash on one side, all others on the other |
| Downloader.AbsoluteIsAPath | freebsd-bootstrap/main.go:348-349 | a name that starts with a slash is looked up as it is |
| Downloader.LibraryIsInTwoPlaces | freebsd-bootstrap/main.go:357-361 | any other name is looked up in /lib and in /usr/lib |
| Downloader.DependsOnMeans | freebsd-bootstrap/main.go:346-364 | so the dependencies of a file are exactly the obtainable files at the places of the names it imports |
| Downloader.PossiblePaths | freebsd-bootstrap/main.go:356-362 | every place a dependency may live, in any map order |
| Downloader.Downloader.DownloadEntries | freebsd-bootstrap/main.go:331-354 | the obtainable unfinished entries are finished, each downloaded once, and exactly their dependencies collected |
| Downloader.FoundAreDependencies | freebsd-bootstrap/main.go:356-364 | the lookup finds every downloadable dependency of the new files and nothing else |
| Downloader.UniverseIsEnough | freebsd-bootstrap/main.go:356-364 | an image of finitely many files leads to finitely many lookups, however paths are spelled |
| Downloader.Downloader.DownloadWithDependencies | freebsd-bootstrap/main.go:330-368 | terminates; what it adds is closed under dependencies, contains the obtainable entries, and lies in every set that does so |
| Downloader.DownloadAll | freebsd-bootstrap/main.go:322-368 | the finished files are the least set with the obtainable start files that is closed under dependencies; no path is downloaded twice |
| Downloader.ChainStaysInside | freebsd-bootstrap/main.go:364-367 | a chain of dependencies from a start file never leaves a closed set |
| Downloader.LeastIsReachable | freebsd-bootstrap/main.go:330-368 | the least set is exactly the files reached by chains of dependencies |
| BlockCache.BlockBounds | freebsd-bootstrap/remoteiso/remoteiso.go:117-134 | truncating block arithmetic: the copied ranges are in bounds and follow each other without gap or overlap |
| BlockCache.TruncDivMeans | freebsd-bootstrap/remoteiso/remoteiso.go:117-118 | block numbers are quotients rounded toward zero, also of a negative position |
| BlockCache.PastTheEnd | freebsd-bootstrap/remoteiso/remoteiso.go:117-121 | after the last block the buffer is full, also for an empty read |
| BlockCache.CachedReader.Block | freebsd-bootstrap/remoteiso/remoteiso.go:122-132 | a cached block is returned without an attempt; any other one takes one attempt, fails exactly if the server does, and is cached with exactly the bytes the response carried |
| BlockCache.CachedReader.CopyBlock | freebsd-bootstrap/remoteiso/remoteiso.go:133-136 | copies exactly the overlap of a block with the request and leaves the rest of the buffer |
| BlockCache.CachedReader.ReadBlock | freebsd-bootstrap/remoteiso/remoteiso.go:122-136 | one block of a request: fetched if need be and shown in the buffer as far as the request covers it |
| BlockCache.CachedReader.ReadNext | freebsd-bootstrap/remoteiso/remoteiso.go:121-137 | one turn of the loop: the filled prefix grows over the next block, or the attempt failed and nothing changed |
| BlockCache.CachedReader.ReadAt | freebsd-bootstrap/remoteiso/remoteiso.go:116-139 | succeeds, with the full length, exactly if no attempt of this call failed; the filled prefix shows what the cache makes of the file and the rest is untouched; only blocks of the range not yet cached are asked for |
| BlockCache.SeenIs | freebsd-bootstrap/remoteiso/remoteiso.go:102-130 | a byte of a cached block is the file's, or zero past its end, unless the one response that delivered the block ended before it |
| BlockCache.DeliveredOnce | freebsd-bootstrap/remoteiso/remoteiso.go:123-131 | a block is cached exactly if an attempt for it succeeded, and at most one ever does |
| BlockCache.ReadFromGoodServer | freebsd-bootstrap/remoteiso/remoteiso.go:116-139 | with a server that answers in full every read succeeds and fills the buffer with the file, zeros past its end |
| BlockCache.FaithfulIff | freebsd-bootstrap/remoteiso/remoteiso.go:102-106 | the buffer equals the file padded with zeros if and only if no non-zero byte of the range was cut off |
| MountTrie.ComponentsOfJoin | anylinuxfs/src/fsutil.rs:275-281 | the components of proper directory names joined by slashes are these names |
| MountTrie.CleanConcat | anylinuxfs/src/fsutil.rs:277 | pieces are dropped or kept one by one, wherever they stand |
| MountTrie.AbsoluteComponents | anylinuxfs/src/fsutil.rs:277 | a leading slash is a component of its own |
| MountTrie.DotComponents | anylinuxfs/src/fsutil.rs:277 | so is a dot that starts a relative path |
| MountTrie.MountKeyExact | anylinuxfs/src/fsutil.rs:371-377 | the key of an exported directory is its part below the share; every other directory has the root key |
| MountTrie.UnmountKeyExact | anylinuxfs/src/fsutil.rs:422-437 | the key of a mount point: its part below the base, the root key only for the base itself, none otherwise |
| MountTrie.Trie.Insert | anylinuxfs/src/fsutil.rs:275-282 | adds the path and its missing ancestors, stores the paths at the last node only, changes no other node |
| MountTrie.Trie.InsertAfter | anylinuxfs/src/fsutil.rs:275-282 | the tree always is what the list of insertions describes, later ones winning |
| MountTrie.BuildMountTrie | anylinuxfs/src/fsutil.rs:369-377 | the mount tree holds exactly the exported directories under their keys |
| MountTrie.BuildUnmountTrie | anylinuxfs/src/fsutil.rs:411-440 | the unmount tree holds exactly the mount points at or under the base |
| MountTrie.KeptIff | anylinuxfs/src/fsutil.rs:275-282 | an insertion survives exactly when no later item with the same components follows its last copy |
| MountTrie.AllKeptIff | anylinuxfs/src/fsutil.rs:275-282 | every insertion survives if and only if items with equal components are equal |
| MountTrie.ExportKeptIff | anylinuxfs/src/fsutil.rs:371-378 | an exported directory keeps its node if and only if no different one with the same key components follows |
| MountTrie.AllExportsKeptIff | anylinuxfs/src/fsutil.rs:371-378 | all exports are mounted if and only if exports with equal key components are the same string |
| MountTrie.MountPlan | anylinuxfs/src/fsutil.rs:369-378 | on exactly this condition a directory below the share sits, with its full path, at the node its names spell |
| MountTrie.EarlierIsLost | anylinuxfs/src/fsutil.rs:371-378 | of two exports with equal key components the earlier one is lost, unless the same string follows |
| MountTrie.SpellingsCollide | anylinuxfs/src/fsutil.rs:275-281 | two spellings of one directory below the share have equal key components |
| MountTrie.OutsidersCollide | anylinuxfs/src/fsutil.rs:371-378 | the exports outside the share all go to the root, which keeps the last of them |
| MountTrie.AboveIff | anylinuxfs/src/fsutil.rs:276-279 | one node lies above another exactly if the other's path continues its own |
| MountTrie.MountPointKeptIff | anylinuxfs/src/fsutil.rs:411-440 | a mount point is taken down if and only if no different one with the same key components follows |
| MountTrie.AllMountPointsKeptIff | anylinuxfs/src/fsutil.rs:411-440 | all mount points under the base are taken down if and only if those with equal key components are the same string |
| MountTrie.UnmountPlan | anylinuxfs/src/fsutil.rs:411-440 | on exactly this condition a mount point sits at the node its names spell |
| MountSchedule.StepKeepsInv | anylinuxfs/src/fsutil.rs:313-405 | every step of either walk, at any node, keeps the invariant over statuses and events |
| MountSchedule.AncestorsOpen | anylinuxfs/src/fsutil.rs:320-356 | while a node is visited all its ancestors are in their parallel phase |
| MountSchedule.DescendantsDone | anylinuxfs/src/fsutil.rs:391-394 | when the children of a node succeeded, everything below it did |
| MountSchedule.ReachedInv | anylinuxfs/src/fsutil.rs:313-405 | the invariant holds in every schedule |
| MountSchedule.MountsAncestorsFirst | anylinuxfs/src/fsutil.rs:313-359 | in every schedule a directory's mount begins only after the mounts of all planned ancestors succeeded, and only once |
| MountSchedule.UnmountsDescendantsFirst | anylinuxfs/src/fsutil.rs:391-405 | in every schedule an unmount begins only after the unmounts of all planned descendants returned, and only once |
| MountSchedule.NestedExportsMountInOrder | anylinuxfs/src/fsutil.rs:361-387 | from the list of exports to the commands: of two nested exports the inner one is mounted after the outer one |
| MountSchedule.NestedMountPointsUnmountInOrder | anylinuxfs/src/fsutil.rs:407-444 | of two nested mount points the outer one is taken down after the inner one |
| MountSchedule.ReturnIsExact | anylinuxfs/src/fsutil.rs:313-405 | a walk returns success exactly when no command broke, then every planned directory was visited exactly once; no command is still running when it returns |
| MountSchedule.StepUsesUp | anylinuxfs/src/fsutil.rs:354-356 | every step lowers a measure over the node statuses |
| MountSchedule.NeverStuck | anylinuxfs/src/fsutil.rs:313-405 | a reached state is finished exactly when no step is possible |
| MountSchedule.SchedulesAreShort | anylinuxfs/src/fsutil.rs:313-405 | no schedule takes more than three steps per node |
| Locks.Kernel.Flock | anylinuxfs/src/utils.rs:626-633 | the non-blocking lock call on a shared table, refused conversions keeping or losing the old lock |
| Locks.LockFile.AcquireLock | anylinuxfs/src/utils.rs:550-562 | on success one guard that releases on drop |
| Locks.LockFile.Upgrade | anylinuxfs/src/utils.rs:593-615 | a guard that changes nothing if already exclusive, otherwise one that goes back to shared on drop; a refusal adds no guard |
| Locks.LockFile.DropGuard | anylinuxfs/src/utils.rs:618-624 | the innermost guard is undone, its lock call's result ignored |
| LockSafety.DowngradeIsGranted | anylinuxfs/src/utils.rs:612-621 | going back from exclusive to shared is never refused |
| LockSafety.DropRestores | anylinuxfs/src/utils.rs:618-624 | dropping a guard never fails and gives back exactly the lock the next guard stands for, touching no other handle |
| LockSafety.StepKeepsInv | anylinuxfs/src/utils.rs:550-624 | every step of any process keeps locks compatible and guards faithful to the kernel |
| LockSafety.RunInv | anylinuxfs/src/utils.rs:550-624 | so does every run of any number of processes, which may stop anywhere |
| LockSafety.StopReleases | anylinuxfs/src/utils.rs:568-624 | whoever has a file open may stop at any point, which gives its lock back and touches no other; a live guard can always be dropped |
| LockSafety.DiskClaimsExclude | anylinuxfs/src/cmd_mount.rs:383-391 | two claims of one disk, in one process or two, are both read-only |
| LockSafety.DiskClaimGrantedIff | anylinuxfs/src/cmd_mount.rs:383-391 | a claim is granted exactly when it is read-only and all other claims of the disk are, or there are none |
| LockSafety.UpgradedIsAlone | anylinuxfs/src/vm_image.rs:66-83 | while an upgrade is in force the exclusive lock is held and no other handle holds the application lock |
| LockSafety.StableUnderLock | anylinuxfs/src/vm_image.rs:66-83 | the root filesystem does not change under a session that holds the application lock and was not refused an upgrade |
| LockSafety.BracketRestores | anylinuxfs/src/utils.rs:593-624 | an upgrade and its drop bracket a critical section: alone throughout, guards and lock as before afterwards, whatever others do |
| LockSafety.UpgradeKeepsLockIff | anylinuxfs/src/utils.rs:593-615 | an upgrade can cost the lock, and is refused, if and only if another handle holds the application lock |
| LockSafety.StableWhenSoleUpgrader | anylinuxfs/src/vm_image.rs:66-83 | a session that upgrades only as the sole holder is never refused and sees a stable root filesystem |
| LockSafety.RefusedMayLoseTheLock | anylinuxfs/src/utils.rs:604-608 | the bad case is reachable: a session with a live shared guard, another one rewriting |
| DiskClaims.ClaimDevices | anylinuxfs/src/cmd_mount.rs:468-506 | the disks of one command are all claimed, exactly when each is free and, unless read-only, none is named twice; otherwise nothing stays claimed |
| DiskClaims.CloseAll | anylinuxfs/src/cmd_mount.rs:468-506 | a failed claim releases what was claimed so far and restores the table |
| LvmNames.ParseName | anylinuxfs/src/diskutil/mod.rs:411-429 | the parser's loop computes the specified split at the first odd run of dashes |
| LvmNames.CollapseEscape | anylinuxfs/src/diskutil/mod.rs:424 | replacing double dashes undoes doubling them |
| LvmNames.EscapeConcat | anylinuxfs/src/cmd_mount.rs:416-417 | names are escaped character by character |
| LvmNames.EscapePlain | anylinuxfs/src/cmd_mount.rs:416-417 | a name without dashes stays as it is |
| LvmNames.EscapeDashes | anylinuxfs/src/cmd_mount.rs:416-417 | every dash is doubled |
| LvmNames.TakeVgOfPrinted | anylinuxfs/src/diskutil/mod.rs:415-423 | where the parser stops on any printed name |
| LvmNames.ParseOfPrinted | anylinuxfs/src/diskutil/mod.rs:411-429 | what parsing a printed name gives, for all names |
| LvmNames.RoundTripIff | anylinuxfs/src/diskutil/mod.rs:411-429 | the names come back if and only if they are not empty and the volume does not start with a dash |
| LvmNames.PrintCollidesIff | anylinuxfs/src/cmd_mount.rs:414-418 | exactly which pairs of names share an escaped name, so escaping is injective on volumes without leading dash |
| LvmNames.PrintMovesDashes | anylinuxfs/src/cmd_mount.rs:414-418 | leading dashes of the volume may move to the group without changing the escaped name |
| LvmPaths.ClaimLvm | anylinuxfs/src/cmd_mount.rs:407-435 | fewer than four parts are rejected; otherwise the mapper path and the tokens between group and volume |
| LvmPaths.SplitListed | anylinuxfs/src/diskutil/mod.rs:990-999 | a listed identifier without colons in its parts splits into exactly these |
| LvmPaths.ListedLeadsBack | anylinuxfs/src/cmd_mount.rs:407-435 | a listed identifier prefixed with `lvm:` leads back to the same mapper name and device tokens |
| Sequences.SplitOfJoin | anylinuxfs/src/cmd_mount.rs:409 | splitting at a separator undoes joining with it when no part contains it |
| VolumeMap.VolumeMap.AddVolume | anylinuxfs/src/diskutil/mod.rs:900-922 | a volume is found by filesystem id or appended, and gains the host device |
| VolumeMap.VolumeMap.Record | anylinuxfs/src/diskutil/mod.rs:884-926 | the three maps always describe the devices seen so far |
| VolumeMap.VolumeMap.IterateChildren | anylinuxfs/src/diskutil/mod.rs:873-936 | the recursion records exactly the sightings of the tree, in order |
| VolumeMap.VolumeMap.FromLsblk | anylinuxfs/src/diskutil/mod.rs:870-953 | the whole map describes all block devices, each with its host device |
| VolumeMap.SightingsExact | anylinuxfs/src/diskutil/mod.rs:873-936 | the walk sees a device under a kind of parent exactly when it is a simple device of the tree, at any depth, right below such a parent |
| VolumeKinds.KindOfTypes | anylinuxfs/src/diskutil/mod.rs:842-851 | which filesystem type is which kind of container |
| VolumeKinds.SeenAcross | anylinuxfs/src/diskutil/mod.rs:870-953 | the walk over all block devices sees, under a host device, exactly the plain children right below a device of the given type in its tree |
| VolumeKinds.RaidDevices | anylinuxfs/src/diskutil/mod.rs:891-899 | the host devices of a RAID volume are exactly those with a plain child of its name right below a `linux_raid_member` |
| VolumeKinds.VolumeDevices | anylinuxfs/src/diskutil/mod.rs:900-922 | the host devices of a logical volume are exactly those with a plain child of its group and filesystem id right below an `LVM2_member` |
| VolumeKinds.DecryptedIsLast | anylinuxfs/src/diskutil/mod.rs:886-890 | what is recorded as decrypted for a host device is the last plain child right below a `crypto_LUKS` or `BitLocker` device of its tree, and there is one exactly if such a child exists |
| VolumeListing.ListedIff | anylinuxfs/src/diskutil/mod.rs:917-922 | a volume is listed under its own name exactly when it is the first seen with its filesystem id in the group |
| VolumeListing.DevsAreSeen | anylinuxfs/src/diskutil/mod.rs:990-999 | the devices of a listed volume are exactly the host devices it was seen under |
| VolumeListing.ListingLeadsBack | anylinuxfs/src/diskutil/mod.rs:978-1000 | every listed volume leads the mounter back to its device-mapper name and to all host devices it was seen under, in order |
| VolumeListing.NoRepeatsIff | anylinuxfs/src/diskutil/mod.rs:917-922 | the devices of an entry are distinct if and only if no host device was seen twice under it |
| VolumeListing.ListedClaimableIff | anylinuxfs/src/cmd_mount.rs:420-435 | with its disks otherwise free, a listed volume can be claimed exactly read-only or if no host device was seen twice under it |
| Hostname.DigitsInjective | anylinuxfs/src/cmd_mount.rs:724 | different counters have different decimal forms |
| Hostname.DigitsValue | anylinuxfs/src/cmd_mount.rs:724 | the digits are the counter's in base ten, without leading zeros |
| Hostname.CandidateIsSuffixed | anylinuxfs/src/cmd_mount.rs:724-726 | a suffixed name is the whole base, or as much as fits 63 bytes, then a dash and the counter |
| Hostname.CandidatesDiffer | anylinuxfs/src/cmd_mount.rs:721-727 | different counters give different candidates, also when the base is cut |
| Hostname.TakenAtMost | anylinuxfs/src/cmd_mount.rs:720-732 | no more suffixed candidates can be taken than there are active names |
| Hostname.PickUnique | anylinuxfs/src/cmd_mount.rs:717-733 | the first candidate that is inactive, by counter active+1: the base itself exactly if it is free, otherwise the base, cut only as far as 63 bytes demand, a dash and the counter; the 32-bit counter runs out exactly when all its candidates are active |
| EnvVars.FindEnvVars | anylinuxfs/src/utils.rs:719-794 | the reported names are exactly those of the unescaped `$NAME` and `${NAME}` occurrences, by maximal munch; the state outside a variable but in braces is never met |
| EnvVars.MentionedIsIdentifier | anylinuxfs/src/utils.rs:738-762 | every reported name is a non-empty run of identifier characters |
| Framing.FrameRoundTripIff | common-utils/src/ipc.rs:18-57 | a written frame is read back, with nothing after it touched, if and only if the payload has 1 to 1048576 bytes |
| Framing.BadSizeConsumesNoPayload | common-utils/src/ipc.rs:8-28 | an empty or oversize frame is rejected before any payload byte is consumed |
| Framing.BeRoundTrip | common-utils/src/ipc.rs:27-48 | big-endian sizes of 32 bits survive writing and reading |
| Framing.BeValue | common-utils/src/ipc.rs:47-48 | the most significant byte of the size comes first |
| Framing.DecodeCases | common-utils/src/ipc.rs:18-38 | every outcome of reading a frame, from the bytes on the stream |
| Framing.Transport.ReadExact | common-utils/src/ipc.rs:23-33 | exactly the requested bytes, however the transport splits them, or an error at its end |
| Framing.Transport.WriteAll | common-utils/src/ipc.rs:49-54 | all bytes in order, however few the transport takes at a time |
| Framing.Transport.WriteMsg | common-utils/src/ipc.rs:40-57 | exactly one frame is appended to the stream |
| Framing.Transport.ReadMsg | common-utils/src/ipc.rs:18-38 | exactly one frame is consumed, with all four error cases |
| Framing.SendAll | common-utils/src/ipc.rs:40-57 | a list of messages becomes the sequence of their frames |
| Framing.ReceiveAll | common-utils/src/ipc.rs:18-38 | reading as many messages gives back the same list and leaves what follows |
| PubSub.Hub.ReserveId | anylinuxfs/src/pubsub.rs:52 | an id is handed out that never was before |
| PubSub.Hub.Insert | anylinuxfs/src/pubsub.rs:53 | delivery to the id starts here |
| PubSub.Hub.Publish | anylinuxfs/src/pubsub.rs:63-66 | each live subscriber gets the message once, the others nothing; dead ones leave the map |
| PubSub.Hub.Unsubscribe | anylinuxfs/src/pubsub.rs:69-71 | delivery to the id ends; no queue changes |
| PubSub.Hub.DropSubscription | anylinuxfs/src/pubsub.rs:115-119 | a dropped subscription is out of the map and receives nothing more |
| PubSub.Hub.QueueIsBlock | anylinuxfs/src/pubsub.rs:50-71 | a queue is exactly the messages published while delivery went on, in publication order |
| PubSub.Hub.CommonOrder | anylinuxfs/src/pubsub.rs:63-66 | two subscribers see their common messages in the same order, as one block of the publication order |
| Deferred.Deferred.Add | common-utils/src/lib.rs:88-97 | a fresh id; the action is pending last |
| Deferred.Deferred.PopAction | common-utils/src/lib.rs:106-111 | takes out the one action with the id, if pending, and keeps the order of the others |
| Deferred.Deferred.CallNow | common-utils/src/lib.rs:100-104 | a pending action runs once and is pending no more; otherwise nothing happens |
| Deferred.Deferred.Remove | common-utils/src/lib.rs:113-115 | true exactly for a pending action, which will never run |
| Deferred.Deferred.RemoveAll | common-utils/src/lib.rs:117-119 | every pending action is cancelled |
| Deferred.Deferred.Drop | common-utils/src/lib.rs:122-128 | the survivors run in the reverse of their add order; over the whole run an action ran, once, exactly when it was not removed |

## Left out

- CtrlQuit.QuitWaitReturns: under the same assumptions as the next line; what the main thread does between its waits is left out.
- CtrlLiveness.SendReportReturns: assumes that a response write finishes and that a thread that stays able to step does step; relaxed memory ordering of the flag is not modelled, since only the accept thread reads and writes it.
- CtrlProtocol.RunSafety: channel capacity, thread spawn failure, panics and poisoned mutexes are not modelled.
- NetSearch.PickAvailable: takes a number of rounds, because the loop does not stop for every input; the theorems speak of all numbers of rounds. `Ipv4Net::aggregate` is modelled by its meaning on nested blocks.
- NetSearchTheorems.SearchSettles: the region is the /12 around the pool address, or the anchor's parent when that is wider, because the search starts there and never narrows.
- LineFilter.LineReader.ReadLine: works on characters, so reads that split a character and bytes that are not UTF-8, where the code returns an error, are outside; the size of the buffer is outside too; an end of input is final.
- LineFilter.LineReader.Refill: a read error of the inner reader, which the code returns, is not modelled.
- Downloader.DownloadAll: a path's download always has the same outcome, and what a local copy imports depends on its clean path only; `filepath.Join` is a parameter and the content of the files is left out.
- BlockCache.CachedReader.ReadAt: the server honours the requested range. Offsets are not negative and do not overflow 64 bits.
- MountTrie.Trie.Insert: nodes are addressed by their path in one map instead of being nested in each other; path bytes are characters.
- MountSchedule.ReturnIsExact: the work-stealing pool is modelled by its promise that a parallel iteration waits for what it began and may skip the rest after a failure.
- LockSafety.StableUnderLock: `list`, which attaches volumes without disk locks, and the debug mode with a writable root filesystem are outside; so is a second path to the same disk, since locks belong to files.
- LockSafety.DowngradeIsGranted: a conversion is one step. flock(2) does not promise this: where the kernel gives up the old lock first, another process may take an exclusive lock in the gap and the non-blocking downgrade fails.
- LockSafety.DropRestores: rests on the same assumption.
- DiskClaims.ClaimDevices: the disks are given; probing, mount-table checks and remounting in `claim_devices` are outside.
- LvmPaths.ClaimLvm: resolving a device token and the already-mounted check are outside.
- VolumeMap.VolumeMap.FromLsblk: group sizes and the encryption mark, used for display only, and the rendering of the list entries are left out.
- Hostname.PickUnique: names are ASCII; what the code does after its counter overflows is not modelled.
- EnvVars.FindEnvVars: the identifier test of Unicode is a parameter that rejects the four syntax characters.
- Framing.Transport.WriteMsg: a failing transport and the payload's encoding are outside; a frame of 2^32 bytes or more gets a truncated size, as in the code.
- Framing.Transport.WriteAll: a failing transport is outside.
- Framing.Transport.ReadMsg: parsing the payload, and its error, are outside.
- PubSub.Hub.Publish: every method is one critical section of the map's mutex; the atomic counter is a step of its own.
- Deferred.Deferred.Drop: an action that panics is not modelled.
- VM start-up, networking daemons, NFS commands, disk probing, rootfs and image bootstrap, preferences, mount options, privilege switching and the user interface are not part of this model: they are calls into other programs, or would add only easy members.
