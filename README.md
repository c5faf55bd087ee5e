# OSHI-FFM process layer, modelled in Dafny

This project models the process-query layer of OSHI-FFM on macOS. It covers
five things:

- how the kernel's answers about one pid become the attributes of a
  `MacOSProcess`;
- how the `kern.procargs2` blob is split into arguments and environment;
- the expiring `Memoizer`;
- the filter / stable sort / limit pipeline of `AbstractOperatingSystem`, with
  the stock predicates and comparators of `OperatingSystem`;
- the enumeration of `MacOperatingSystem` and the platform classification of
  `SystemInfo` and `PlatformEnum`.

Every native call is an input:

- `proc_pidinfo`, `proc_pidpath`, `proc_pid_rusage`, `getpwuid` and `getgrgid`
  are bundled, for one pid, in `MacProcess.Probe`, together with the
  `currentTimeMillis` reading;
- the `sysctl` answer for `kern.procargs2` is an `Option<seq<Byte>>`;
- the two `proc_listpids` answers are a `MacOperatingSystem.PidListing`;
- `System.nanoTime` is the `now` parameter of `Memoizer.ExpiringMemoizer.Get`.

Java's `int` and `long` are subset types of `int`. Wrap-around (`Wrap64`) and
truncating division (`Div`) are written out where the source relies on them.
Strings read from native memory are byte strings (`Bytes.Str`).

Modules, one per source file or shared concept:

- `Wrappers`: `Option` and `Result`.
- `JavaInt`: Java integer widths, wrap-around, truncating division, bits, decimal text.
- `Bytes`: NUL-terminated strings, `indexOf`, `split`, `join`, `trim`.
- `Process`: the `OSProcess.State` enum and the attribute record.
- `ProcArgs`: `queryArgsAndEnvironment` and `queryCommandLine`.
- `ProcArgsLayout`: an encoder of the `kern.procargs2` layout, and the round trips.
- `MacProcess`: `MacOSProcess` (`updateAttributes`, the affinity mask, the memoized queries).
- `Memoizer`: `Memoizer`.
- `Comparators`: the `Comparator` contract, and `CASE_INSENSITIVE_ORDER`.
- `Streams`: `filter`, stable `sorted`, `limit` and `distinct`.
- `OperatingSystem`: `OperatingSystem` and `AbstractOperatingSystem`.
- `MacOperatingSystem`: `MacOperatingSystem`.
- `Platform`: `PlatformEnum`.
- `SystemInfo`: `SystemInfo`.

`updateAttributes` works by assigning fields one after another. It is a method
of the class `MacProcess.MacOSProcess`, proved equal to the function
`MacProcess.Derive`, and the lemmas about `Derive` state what the update
promises. `queryArgsAndEnvironment` keeps its `while` loop
(`ProcArgs.ScanStrings`), proved equal to `ProcArgs.ArgsAndEnv` over the
strings of the buffer. Process objects parse with that method as written, so
NUL padding after the executable path reaches their arguments as empty
strings (see "## Findings"); the corrected version, which skips the padding,
stands beside it with its own round trip.
The memoizer is a class whose `Get` reads and overwrites `value` and
`expirationNanos`.

Three behaviours of the code worth noting:

- The environment loop runs to `ARGMAX`. It does not stop at the first empty
  string; an empty string simply adds no entry.
- `getProcesses(pids)` keeps encounter order, because `distinct()` on an
  ordered stream does.
- The pid array has as many slots as the first (sizing) `proc_listpids`
  answer, and the count of the second (filling) call is never used. When the
  filling call writes fewer pids than that, the array is not trimmed: unfilled
  slots stay 0, and pid 0 is then probed once. When it lists more, only those
  that fit are kept.

## Model

| member | source | states |
|---|---|---|
| Platform.Name | src/main/java/ooo/oshi/PlatformEnum.java:14-41 | MACOS is "macOS", LINUX "Linux", WINDOWS "Windows", UNSUPPORTED "Unsupported Operating System" |
| Platform.NamesDistinct | src/main/java/ooo/oshi/PlatformEnum.java:14-26 | two platforms have the same name exactly when they are the same platform |
| SystemInfo.CurrentPlatform | src/main/java/ooo/oshi/SystemInfo.java:44-56 | LINUX iff the name starts with "Linux"; MACOS iff "Mac" or "Darwin"; WINDOWS iff "Windows"; UNSUPPORTED iff none of them, so the classifier is total |
| SystemInfo.ClassificationKeepsUnderExtension | src/main/java/ooo/oshi/SystemInfo.java:47-54 | appending text to a recognised os.name keeps its platform |
| SystemInfo.OwnNameClassification | src/main/java/ooo/oshi/SystemInfo.java:47-54 | a platform's friendly name classifies back to it for every platform except MACOS ("macOS" misses the "Mac" test) |
| SystemInfo.CreateOperatingSystem | src/main/java/ooo/oshi/SystemInfo.java:98-108 | fails with "Operating system not supported: " exactly for UNSUPPORTED; otherwise builds the facade of that platform |
| SystemInfo.SystemInfo.constructor | src/main/java/ooo/oshi/SystemInfo.java:44-76 | the platform is the classification of os.name, and the operating-system supplier is empty and keeps its value forever |
| SystemInfo.SystemInfo.GetOperatingSystem | src/main/java/ooo/oshi/SystemInfo.java:94-108 | an unsupported platform fails and stores nothing; otherwise the first facade built is returned by every later call |
| Memoizer.NextExpiration | src/main/java/ooo/oshi/util/Memoizer.java:81-82 | the stored expiration is never 0: it is now + ttl modulo 2^64, or 1 when that sum is 0 |
| Memoizer.FreshWithinTtl | src/main/java/ooo/oshi/util/Memoizer.java:74-87 | less than ttl nanoseconds after a recomputation, get() does not call the delegate, even when now + ttl wraps around |
| Memoizer.StaleAfterTtl | src/main/java/ooo/oshi/util/Memoizer.java:74-83 | more than ttl (and less than 2^63) nanoseconds after a recomputation, get() calls the delegate again |
| Memoizer.ExpiringMemoizer.Memoize | src/main/java/ooo/oshi/util/Memoizer.java:65-71 | a new supplier has computed nothing: no value, expiration 0 |
| Memoizer.ExpiringMemoizer.MemoizeForever | src/main/java/ooo/oshi/util/Memoizer.java:101-103 | memoize(original) is memoize(original, -1) |
| Memoizer.ExpiringMemoizer.Get | src/main/java/ooo/oshi/util/Memoizer.java:73-88 | the first call always computes; a negative ttl computes exactly once; an unexpired value is returned with the state unchanged; an expired one is replaced and the expiration moved to now + ttl (1 for 0); the result is always the stored value |
| Memoizer.QueryExpirationConfig | src/main/java/ooo/oshi/util/Memoizer.java:37-39 | 300 milliseconds in nanoseconds |
| Memoizer.DefaultExpiration | src/main/java/ooo/oshi/util/Memoizer.java:31-50 | defaultExpiration() returns 300_000_000 and leaves that value memoized |
| Bytes.LastPieceOfJavaSplit | src/main/java/ooo/oshi/software/os/mac/MacOSProcess.java:397-400 | for a string with a non-slash byte, the last piece split keeps is its last non-empty segment |
| Bytes.Trim | src/main/java/ooo/oshi/software/os/mac/MacOSProcess.java:173 | trim() is the middle slice of the string with no blank at either end, and only blanks outside it |
| Bytes.CString | src/main/java/ooo/oshi/software/os/mac/MacOSProcess.java:209-214 | getUtf8String(offset) reads up to the next NUL, which lies inside the buffer; CStringHasNoNul states the result holds no NUL and CStringAt that it is exactly the NUL-free run before the first NUL at or after the offset |
| Bytes.SplitJoin | src/main/java/ooo/oshi/software/os/mac/MacOSProcess.java:173 | splitting a join gives the pieces back when no piece holds the separator |
| Bytes.JoinSplit | src/main/java/ooo/oshi/software/os/mac/MacOSProcess.java:173 | joining the pieces of a split gives the string back |
| ProcArgs.Put | src/main/java/ooo/oshi/software/os/mac/MacOSProcess.java:192-222 | LinkedHashMap.put: the key gets the value, other keys keep theirs, and a repeated key keeps its first position |
| ProcArgs.EnvEntry | src/main/java/ooo/oshi/software/os/mac/MacOSProcess.java:220-223 | a string is an entry iff its first "=" is past index 0; the key is the text before it and the value the text after |
| ProcArgs.EnvKeysWellFormed | src/main/java/ooo/oshi/software/os/mac/MacOSProcess.java:219-223 | every environment key is non-empty and free of "=", and there are no more entries than strings |
| ProcArgs.EnvLookupIsLastAssignment | src/main/java/ooo/oshi/software/os/mac/MacOSProcess.java:192-223 | the value of a key is the one from the last string assigning it |
| ProcArgs.EnvOfIgnoresNonEntries | src/main/java/ooo/oshi/software/os/mac/MacOSProcess.java:219-223 | strings that are not entries, empty strings included, change nothing |
| ProcArgs.ArgsAndEnvAsWritten | src/main/java/ooo/oshi/software/os/mac/MacOSProcess.java:195-237 | null buffer or count outside [1, 1024] gives no arguments and no environment; otherwise the arguments are the first nargs strings after the executable path (fewer only when the strings run out), empty ones included, and the environment is EnvOf of the strings after them |
| ProcArgs.ArgsAndEnvSkippingPadding | src/main/java/ooo/oshi/software/os/mac/MacOSProcess.java:196-227 | the same, with the NUL padding after the executable path skipped |
| ProcArgs.ScanStrings | src/main/java/ooo/oshi/software/os/mac/MacOSProcess.java:212-227 | the offset loop up to ARGMAX reads every string in order, the first nargs as arguments and the rest as environment candidates |
| ProcArgs.QueryArgsAndEnvironment | src/main/java/ooo/oshi/software/os/mac/MacOSProcess.java:186-238 | the method as written computes ArgsAndEnvAsWritten |
| ProcArgs.QueryArgsAndEnvironmentSkippingPadding | src/main/java/ooo/oshi/software/os/mac/MacOSProcess.java:186-238 | the corrected method computes ArgsAndEnvSkippingPadding |
| ProcArgs.QueryCommandLine | src/main/java/ooo/oshi/software/os/mac/MacOSProcess.java:172-174 | the command line neither starts nor ends with a blank |
| ProcArgs.CommandLineRoundTrip | src/main/java/ooo/oshi/software/os/mac/MacOSProcess.java:172-174 | splitting the command line at spaces gives back arguments that are non-empty and blank-free |
| ProcArgsLayout.SkippingPaddingRoundTrip | src/main/java/ooo/oshi/software/os/mac/MacOSProcess.java:197-227 | for any amount of padding, the corrected decoding returns exactly the encoded arguments and environment, provided the first argument is not empty |
| ProcArgsLayout.EmptyFirstArgumentIsPadding | src/main/java/ooo/oshi/software/os/mac/MacOSProcess.java:197-217 | an empty first argument encodes to the same bytes as one more padding NUL before a different argument list of the same count, so no decoder can recover both |
| ProcArgsLayout.AsWrittenRoundTripWithoutPadding | src/main/java/ooo/oshi/software/os/mac/MacOSProcess.java:203-227 | without padding, the decoding as written also returns the encoded arguments and environment |
| ProcArgsLayout.PaddingBecomesEmptyArguments | src/main/java/ooo/oshi/software/os/mac/MacOSProcess.java:207-217 | as written, each padding NUL is read as an empty argument before the real ones |
| ProcArgsLayout.PaddingLosesFirstArgument | src/main/java/ooo/oshi/software/os/mac/MacOSProcess.java:199-217 | with any padding, the first argument returned is empty and the argument list is wrong |
| MacProcess.StateOf | src/main/java/ooo/oshi/software/os/mac/MacOSProcess.java:407-429 | codes 1..6 map to SLEEPING, WAITING, RUNNING, NEW, ZOMBIE and STOPPED; every other code maps to OTHER; never INVALID |
| MacProcess.StatusCodeRoundTrip | src/main/java/ooo/oshi/software/os/mac/MacOSProcess.java:407-429 | each of the six states is reached from exactly its own code |
| MacProcess.CommName | src/main/java/ooo/oshi/software/os/mac/MacOSProcess.java:402-405 | the pbi_comm name is the NUL-free prefix of at most MAXCOMLEN bytes |
| MacProcess.NameAfterPathSegments | src/main/java/ooo/oshi/software/os/mac/MacOSProcess.java:394-401 | the name is the last non-empty path segment; a path of slashes only leaves it unchanged; an empty path gives the empty name |
| MacProcess.BitnessIsFlagBit | src/main/java/ooo/oshi/software/os/mac/MacOSProcess.java:453 | bitness is 64 iff bit P_LP64 of the flags is set, else 32 |
| MacProcess.StartTimeTruncatesToMillis | src/main/java/ooo/oshi/software/os/mac/MacOSProcess.java:450 | without overflow, the start time is the (sec, usec) timestamp truncated to milliseconds |
| MacProcess.DeriveFailsFast | src/main/java/ooo/oshi/software/os/mac/MacOSProcess.java:382-391 | the update fails iff proc_pidinfo is negative or the thread count is 0 (a result of 0 is no failure); a negative result sets INVALID and nothing else; a zero thread count sets threadCount to 0 and INVALID and nothing else; success is never INVALID |
| MacProcess.DeriveStateAndOwner | src/main/java/ooo/oshi/software/os/mac/MacOSProcess.java:407-443 | the state follows the status code, userID and groupID are decimal texts that parse back to uid and gid, and a user or group name changes only when the lookup finds one |
| MacProcess.DeriveName | src/main/java/ooo/oshi/software/os/mac/MacOSProcess.java:393-405 | the path is replaced only on success of proc_pidpath; the name is the last path segment, else the old name, else the pbi_comm name |
| MacProcess.DeriveConversions | src/main/java/ooo/oshi/software/os/mac/MacOSProcess.java:445-457 | kernel and user times are whole milliseconds of the nanoseconds; upTime + startTime is now (modulo 2^64, exactly without overflow); bitness follows P_LP64; majorFaults = pageins and minor + major = faults |
| MacProcess.DeriveDiskCounters | src/main/java/ooo/oshi/software/os/mac/MacOSProcess.java:459-471 | disk counters change only when the version is 10.9 or later (as tested) and proc_pid_rusage returns 0; the working directory changes only when the vnode call succeeds |
| MacProcess.AffinityMaskBits | src/main/java/ooo/oshi/software/os/mac/MacOSProcess.java:355-359 | for 0 <= n < 64 the mask is 2^n - 1, exactly the n low bits; for n >= 64 all 64 bits are set |
| MacProcess.AffinityMaskBelow64 | src/main/java/ooo/oshi/software/os/mac/MacOSProcess.java:358 | (1L << n) - 1 equals 2^n - 1 for n < 64, including the wrap-around at n = 63 |
| MacProcess.MacOSProcess.constructor | src/main/java/ooo/oshi/software/os/mac/MacOSProcess.java:150-155 | the new process holds its pid and version, its attributes are those of one update of the initial fields, and both suppliers are empty |
| MacProcess.MacOSProcess.UpdateAttributes | src/main/java/ooo/oshi/software/os/mac/MacOSProcess.java:377-473 | the new fields and the returned flag are Derive of the old fields |
| MacProcess.MacOSProcess.SetPathAndName | src/main/java/ooo/oshi/software/os/mac/MacOSProcess.java:393-405 | assigns the path and name as WithPathAndName |
| MacProcess.MacOSProcess.SetStateAndOwner | src/main/java/ooo/oshi/software/os/mac/MacOSProcess.java:407-443 | assigns state, parent and owner as WithStateAndOwner |
| MacProcess.MacOSProcess.SetCounters | src/main/java/ooo/oshi/software/os/mac/MacOSProcess.java:445-457 | assigns sizes, times, bitness and counters as WithCounters |
| MacProcess.MacOSProcess.SetDiskAndCwd | src/main/java/ooo/oshi/software/os/mac/MacOSProcess.java:459-471 | assigns the disk counters and working directory as WithDiskAndCwd |
| MacProcess.MacOSProcess.ArgsEnviron | src/main/java/ooo/oshi/software/os/mac/MacOSProcess.java:123 | the first call parses the blob with queryArgsAndEnvironment as written (ArgsAndEnvAsWritten); every later call returns the same pair |
| MacProcess.MacOSProcess.GetArguments | src/main/java/ooo/oshi/software/os/mac/MacOSProcess.java:176-179 | the arguments of the memoized pair, on the first call those of ArgsAndEnvAsWritten |
| MacProcess.MacOSProcess.GetEnvironmentVariables | src/main/java/ooo/oshi/software/os/mac/MacOSProcess.java:181-184 | the environment of the memoized pair, on the first call that of ArgsAndEnvAsWritten |
| MacProcess.MacOSProcess.GetCommandLine | src/main/java/ooo/oshi/software/os/mac/MacOSProcess.java:167-174 | computed once, as the trimmed space-join of the memoized arguments, on the first call those of ArgsAndEnvAsWritten |
| Comparators.CompareIgnoreCaseIsFolded | src/main/java/ooo/oshi/software/os/OperatingSystem.java:92-93 | CASE_INSENSITIVE_ORDER compares the lower-cased strings lexicographically |
| Comparators.IgnoreCaseValid | src/main/java/ooo/oshi/software/os/OperatingSystem.java:92-93 | ordering by name ignoring case keeps the Comparator contract |
| Comparators.ReversedValid | src/main/java/ooo/oshi/software/os/OperatingSystem.java:79 | a reversed comparator keeps the Comparator contract |
| Streams.FilterSubMultiset | src/main/java/ooo/oshi/software/os/common/AbstractOperatingSystem.java:22 | filter only drops elements |
| Streams.FilterKeeps | src/main/java/ooo/oshi/software/os/common/AbstractOperatingSystem.java:22 | every element the predicate accepts is kept |
| Streams.SortByPermutes | src/main/java/ooo/oshi/software/os/common/AbstractOperatingSystem.java:23 | sorted is a permutation |
| Streams.SortBySorted | src/main/java/ooo/oshi/software/os/common/AbstractOperatingSystem.java:23 | sorted leaves the list ordered by a valid comparator |
| Streams.SortByStable | src/main/java/ooo/oshi/software/os/common/AbstractOperatingSystem.java:23 | elements comparing equal keep their relative order |
| Streams.SortByAllEqual | src/main/java/ooo/oshi/software/os/common/AbstractOperatingSystem.java:23 | a comparator calling every pair equal leaves the list as it is |
| Streams.Distinct | src/main/java/ooo/oshi/software/os/mac/MacOperatingSystem.java:61 | distinct has no repeats, loses no value and adds none |
| Streams.DistinctFirstOccurrence | src/main/java/ooo/oshi/software/os/mac/MacOperatingSystem.java:61 | distinct keeps values in the order of their first occurrence |
| OperatingSystem.BitnessFiltersDisjoint | src/main/java/ooo/oshi/software/os/OperatingSystem.java:42-46 | no process passes both BITNESS_64 and BITNESS_32; one of them passes exactly bitness 32 or 64 |
| OperatingSystem.StockOrdersValid | src/main/java/ooo/oshi/software/os/OperatingSystem.java:61-93 | NO_SORTING, RSS_DESC, UPTIME_ASC, UPTIME_DESC, PID_ASC, PARENTPID_ASC and NAME_ASC all keep the Comparator contract |
| OperatingSystem.StockOrdersMeaning | src/main/java/ooo/oshi/software/os/OperatingSystem.java:70-93 | RSS_DESC puts larger RSS first, UPTIME_DESC is UPTIME_ASC reversed, PID_ASC and PARENTPID_ASC ascend, NAME_ASC ties exactly the names equal up to case |
| OperatingSystem.GetProcessesFiltered | src/main/java/ooo/oshi/software/os/common/AbstractOperatingSystem.java:21-25 | every result passes the filter, and the result is a sub-multiset of queryAllProcesses |
| OperatingSystem.GetProcessesCount | src/main/java/ooo/oshi/software/os/common/AbstractOperatingSystem.java:23 | the result has limit elements when limit > 0 and fewer than accepted, else every accepted element |
| OperatingSystem.GetProcessesOrdered | src/main/java/ooo/oshi/software/os/common/AbstractOperatingSystem.java:22-24 | the result is sorted, is a prefix of the stably sorted accepted list, and keeps the order of equal elements |
| OperatingSystem.GetProcessesDefault | src/main/java/ooo/oshi/software/os/OperatingSystem.java:103-105 | getProcesses() returns queryAllProcesses unchanged |
| OperatingSystem.GetProcessesUnsorted | src/main/java/ooo/oshi/software/os/common/AbstractOperatingSystem.java:22-23 | with a null sort the result is a prefix of the filtered list in its original order |
| OperatingSystem.ResolvedElements | src/main/java/ooo/oshi/software/os/OperatingSystem.java:131-132 | the mapped list holds exactly the non-null, non-INVALID answers for the given pids |
| OperatingSystem.GetProcessesByPidsContents | src/main/java/ooo/oshi/software/os/OperatingSystem.java:130-133 | getProcesses(pids) holds at most one process per distinct pid, and exactly the valid answers for requested pids |
| OperatingSystem.GetProcessesByPidsDistinct | src/main/java/ooo/oshi/software/os/OperatingSystem.java:130-133 | when each answer carries its pid, no pid appears twice |
| OperatingSystem.ResolvedInOrder | src/main/java/ooo/oshi/software/os/OperatingSystem.java:131-132 | when each answer carries its pid, the pids of the mapped list are the given pids with some dropped, in their order |
| OperatingSystem.GetProcessesByPidsInOrder | src/main/java/ooo/oshi/software/os/OperatingSystem.java:130-133 | when each answer carries its pid, the pids of getProcesses(pids) are Distinct(pids) with some dropped, so they keep the first-occurrence order |
| MacOperatingSystem.PidBuffer | src/main/java/ooo/oshi/software/os/mac/MacOperatingSystem.java:55-60 | the array has the length fixed by the first call; its leading slots are the listed pids and the rest 0 |
| MacOperatingSystem.Resolve | src/main/java/ooo/oshi/software/os/mac/MacOperatingSystem.java:66-69 | null exactly when the first update fails; otherwise the process carries the pid and is not INVALID |
| MacOperatingSystem.QueryAllContents | src/main/java/ooo/oshi/software/os/mac/MacOperatingSystem.java:54-63 | throws only for a sizing answer of -4 or less; otherwise at most one process per slot, none INVALID, no pid twice, each pid a listed one that fit or 0 from an unfilled slot |
| MacOperatingSystem.QueryAllInOrder | src/main/java/ooo/oshi/software/os/mac/MacOperatingSystem.java:60-62 | the pids of queryAllProcesses are the first occurrences in the pid array, some dropped, in array order |
| MacOperatingSystem.MacOperatingSystem.GetProcess | src/main/java/ooo/oshi/software/os/mac/MacOperatingSystem.java:66-69 | returns null iff the new process is INVALID, else that process |
| MacOperatingSystem.MacOperatingSystem.ListPids | src/main/java/ooo/oshi/software/os/mac/MacOperatingSystem.java:56-60 | the zeroed array filled from the kernel's list is PidBuffer |
| MacOperatingSystem.MacOperatingSystem.QueryAllProcesses | src/main/java/ooo/oshi/software/os/mac/MacOperatingSystem.java:54-63 | computes QueryAll |
| MacOperatingSystem.MacOperatingSystem.GetProcesses | src/main/java/ooo/oshi/software/os/common/AbstractOperatingSystem.java:21-25 | the pipeline over this platform's queryAllProcesses |
| Bytes.JavaSplit | src/main/java/ooo/oshi/software/os/mac/MacOSProcess.java:397 | no piece holds the separator, trailing empty pieces are dropped and an empty string gives one empty piece; LastPieceOfJavaSplit states the last piece |
| Memoizer.MustCompute | src/main/java/ooo/oshi/util/Memoizer.java:74-76 | the test that decides recomputation; FreshWithinTtl and StaleAfterTtl state when it holds and Get what follows |
| MacProcess.Bitness | src/main/java/ooo/oshi/software/os/mac/MacOSProcess.java:453 | 64 iff bit P_LP64 of the flags is set, as BitnessIsFlagBit states |
| MacProcess.StartTime | src/main/java/ooo/oshi/software/os/mac/MacOSProcess.java:450 | sec * 1000 + usec / 1000 with long wrap-around and truncating division, as StartTimeTruncatesToMillis states |
| MacProcess.UpdatedName | src/main/java/ooo/oshi/software/os/mac/MacOSProcess.java:393-405 | the name after proc_pidpath and the pbi_comm fallback, as DeriveName and NameAfterPathSegments state |
| MacProcess.Fill | src/main/java/ooo/oshi/software/os/mac/MacOSProcess.java:387-471 | the attributes of a successful update; DeriveStateAndOwner, DeriveName, DeriveConversions and DeriveDiskCounters state each part |
| MacProcess.Derive | src/main/java/ooo/oshi/software/os/mac/MacOSProcess.java:377-473 | updateAttributes as a function of the old fields; DeriveFailsFast states its two exits and the Derive* lemmas the rest |
| MacProcess.AffinityMask | src/main/java/ooo/oshi/software/os/mac/MacOSProcess.java:355-359 | (1L << n) - 1 for n < 64, else -1 (all bits); AffinityMaskBits and AffinityMaskBelow64 state its value |
| Comparators.CompareIgnoreCase | src/main/java/ooo/oshi/software/os/OperatingSystem.java:92-93 | String.CASE_INSENSITIVE_ORDER on bytes; CompareIgnoreCaseIsFolded and IgnoreCaseValid state its meaning and contract |
| OperatingSystem.AllProcesses | src/main/java/ooo/oshi/software/os/OperatingSystem.java:30 | ALL_PROCESSES accepts every process; GetProcessesDefault uses it |
| OperatingSystem.ValidProcess | src/main/java/ooo/oshi/software/os/OperatingSystem.java:34 | VALID_PROCESS rejects exactly the INVALID state; ResolvedElements and GetProcessesByPidsContents use it |
| OperatingSystem.NoParent | src/main/java/ooo/oshi/software/os/OperatingSystem.java:38 | NO_PARENT accepts a process that is its own parent |
| OperatingSystem.Bitness64 | src/main/java/ooo/oshi/software/os/OperatingSystem.java:42 | BITNESS_64 accepts bitness 64; BitnessFiltersDisjoint states it against BITNESS_32 |
| OperatingSystem.Bitness32 | src/main/java/ooo/oshi/software/os/OperatingSystem.java:46 | BITNESS_32 accepts bitness 32; BitnessFiltersDisjoint states it against BITNESS_64 |
| OperatingSystem.NoSorting | src/main/java/ooo/oshi/software/os/OperatingSystem.java:61 | NO_SORTING calls every pair equal; SortByAllEqual states it keeps the list |
| OperatingSystem.RssDesc | src/main/java/ooo/oshi/software/os/OperatingSystem.java:70-71 | RSS_DESC, larger resident set first; StockOrdersValid and StockOrdersMeaning state it |
| OperatingSystem.UptimeAsc | src/main/java/ooo/oshi/software/os/OperatingSystem.java:75 | UPTIME_ASC, ascending upTime; StockOrdersValid and StockOrdersMeaning state it |
| OperatingSystem.UptimeDesc | src/main/java/ooo/oshi/software/os/OperatingSystem.java:79 | UPTIME_DESC, UPTIME_ASC reversed; StockOrdersValid and StockOrdersMeaning state it |
| OperatingSystem.PidAsc | src/main/java/ooo/oshi/software/os/OperatingSystem.java:83 | PID_ASC, ascending pid; StockOrdersValid and StockOrdersMeaning state it |
| OperatingSystem.ParentPidAsc | src/main/java/ooo/oshi/software/os/OperatingSystem.java:87-88 | PARENTPID_ASC, ascending parent pid; StockOrdersValid and StockOrdersMeaning state it |
| OperatingSystem.NameAsc | src/main/java/ooo/oshi/software/os/OperatingSystem.java:92-93 | NAME_ASC, names under CASE_INSENSITIVE_ORDER; StockOrdersValid and StockOrdersMeaning state it |
| OperatingSystem.GetProcesses | src/main/java/ooo/oshi/software/os/common/AbstractOperatingSystem.java:21-25 | filter (ALL_PROCESSES for null), stable sort (NO_SORTING for null), limit; GetProcessesFiltered, GetProcessesCount, GetProcessesOrdered and GetProcessesUnsorted state the result |
| OperatingSystem.Resolved | src/main/java/ooo/oshi/software/os/OperatingSystem.java:131-132 | map(getProcess), nonNull, VALID_PROCESS, never longer than its pids; ResolvedElements states its elements |
| OperatingSystem.GetProcessesByPids | src/main/java/ooo/oshi/software/os/OperatingSystem.java:130-133 | distinct, then Resolved; GetProcessesByPidsContents and GetProcessesByPidsDistinct state the result |
| MacOperatingSystem.QueryAll | src/main/java/ooo/oshi/software/os/mac/MacOperatingSystem.java:54-63 | queryAllProcesses over the two proc_listpids answers; QueryAllContents states its result |

## Left out

- Native calls and their struct layouts (`proc_pidinfo`, `proc_pidpath`, `proc_pid_rusage`, `getpwuid`, `getgrgid`, `sysctl`, `proc_listpids`) are inputs; the byte offsets of `proc_taskallinfo`, `rusage_info_v2`, `vnode_pathinfo`, `passwd` and `group` are not modelled, so the `proc_taskallinfo` record arrives already decoded.
- `SysctlUtil` is not part of this model: `kern.argmax`, `hw.logicalcpu` and `kern.procargs2` answers are parameters.
- UTF-8 decoding is not modelled: strings are byte strings and offsets advance by their byte length + 1, which assumes well-formed UTF-8. For malformed bytes the source decodes to U+FFFD and advances by the re-encoded length (3 bytes for one bad byte), so its later offsets drift from the buffer's strings; that drift is not captured.
- ProcArgs.QueryArgsAndEnvironment: requires a NUL at the end of the buffer, because the source never handles a buffer with no terminator before `ARGMAX`. It also requires a buffer longer than `INT_SIZE` bytes, although `ARGMAX` is 0 when the `kern.argmax` read fails and the buffer then has that size: the `IndexOutOfBoundsException` a buffer shorter than 4 bytes raises (and a 4-byte buffer with a count in [1, 1024] raises), and the empty result of a 4-byte buffer whose count is out of range, are not modelled. The same holds for `ArgsAndEnvAsWritten`, `ArgsAndEnvSkippingPadding`, `ScanStrings`, `QueryArgsAndEnvironmentSkippingPadding` and the argument getters of `MacOSProcess`.
- Concurrency is left out: `synchronized`/`volatile` and the lost-race recheck of `Memoizer.get()`, and the `.parallel()` streams, are modelled sequentially; single-flight under concurrent access is not captured.
- Memoizer.ExpiringMemoizer.Get: the delegate's result is passed in as a value, so a delegate that throws is not modelled.
- `CPU_DESC` is left out: it sorts by a `double` (`getProcessCpuLoadCumulative`).
- Clocks (`currentTimeMillis`, `nanoTime`) are parameters.
- The `MacOperatingSystem` constructor's version parsing (`ParseUtil`, `sw_vers`) and its `kern.maxproc` read are not part of this model; the version is a constructor parameter.
- `getThreadDetails` is left out: its body is commented out and it returns an empty list.
- `getProcessId`, the Linux and Windows facades (stubs), the hardware layer, logging and the warning for a failed sysctl are left out.
- SkippingPaddingRoundTrip: holds only when the first argument is not empty, because an empty first argument and one more padding NUL give the same bytes (EmptyFirstArgumentIsPadding), so the corrected decoding reads it as padding.
- MacProcess.CommName: when `pbi_comm` has no NUL in its first `MAXCOMLEN` bytes, `getUtf8String(0)` on the slice throws `IndexOutOfBoundsException` out of `updateAttributes`; the model returns the 16 bytes instead. The kernel always NUL-terminates `pbi_comm`, so this exception path is not modelled.
- MacProcess.AffinityMaskBits: states nothing for a negative `hw.logicalcpu` answer, which the kernel does not give; `AffinityMask` itself models that case (shift distance modulo 64).
- NAME_ASC folds case for ASCII bytes only; Java's full Unicode case folding is not modelled.
- MacOperatingSystem.MacOperatingSystem.GetProcess: returns the process object and its snapshot; aliasing between process objects held by callers is not modelled.

## Findings

| source | as written | input that shows it | evidently intended | confidence | as-written member | corrected member |
|---|---|---|---|---|---|---|
| src/main/java/ooo/oshi/software/os/mac/MacOSProcess.java:207-217 | after skipping the executable path and its one terminator, the next string is taken as the first argument, so the NUL bytes that pad the path (the comment at line 199 mentions them) are read as empty arguments and push the real ones out of the first `nargs` | a `kern.procargs2` blob with count 1, path "/bin/x", two padding NULs, argument "x", environment "A=1": arguments come back as [""] and "x" and the second padding string fall into the environment scan | skip the run of NUL padding after the executable path before reading arguments (which recovers every argument list whose first argument is not empty) | medium, not executed | ProcArgsLayout.PaddingLosesFirstArgument | ProcArgsLayout.SkippingPaddingRoundTrip |
