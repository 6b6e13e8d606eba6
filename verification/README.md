# A verified model of the stateful cores of a POSIX layer for Windows

The repository implements POSIX calls on top of the Windows API. Most of its files are wrappers;
this project models the algorithms inside them and proves what callers rely on. Calls into
Windows are inputs (what the system answers) or nondeterministic steps; everything between them
is modelled line by line: loops are loops over arrays and cursors, objects whose fields change
are classes, and each such method is proved against a specification that stands on its own.

| file | what it holds |
|---|---|
| `CommandLine.dfy` | argv to one command line and envp to one block (`source/posix_spawn.c`, repeated in `source/posix_spawnp.c`), with the argument rules of the Microsoft C runtime as the reader |
| `CommandLineRules.dfy` | what printer and reader each do with spaces, tabs, quotes and backslashes, by themselves |
| `Fnmatch.dfy` | the backtracking matcher of `source/fnmatch.c`, the token relation it decides under every flag, and FNM_PATHNAME component by component |
| `FnmatchAtoms.dfy` | what a character, `?`, `\`, a bracket with its ranges, and `*` match, character by character |
| `FnmatchPosix.dfy` | the reading of section 2.13 of XCU, POSIX.1-2017, and exactly when the matcher agrees with it |
| `ChildWait.dfy`, `ChildWaitRuns.dfy`, `ChildWaitEnds.dfy` | the chain of helper threads behind a blocking `waitid`, as a state machine over all interleavings, and its end |
| `LazyInit.dfy` | the double-checked start of the socket library under the global lock, for any number of threads |
| `ScatterGather.dfy` | `process_vm_readv` and `process_vm_writev`: two cursors over two segmentations |
| `Madvise.dfy` | the counting and the filling walk over the region map, which changes in between |
| `MadviseRules.dfy` | the entries of a range, region by region, in pages of 4096 and strides of 1048576 bytes |
| `PasswdDb.dfy` | who owns which string in `getpwent`, `getpwnam`, `getpwuid`, `setpwent`, `endpwent` |
| `PasswdDbRules.dfy` | which call of a run returns a record, and what the record is after it, from the calls before |
| `PasswdBuffer.dfy`, `HomePath.dfy` | carving the caller's buffer in `getpwnam_r` and `getpwuid_r`; the directory beside HOME |
| `PasswdBufferRules.dfy` | which source each string of the record shows, where it stands, and how many bytes it takes |
| `Services.dfy` | the services file: `strtok` in place on a line buffer, one shared stream, two searches |
| `ServicesRules.dfy` | lines, words, ports and lookups of the services file, in characters and numbers |
| `Poll.dfy` | the three passes of `poll` and the count they must agree on |
| `SpawnActions.dfy` | the growable array of `posix_spawn_file_actions_t` |
| `CStrings.dfy` | C strings and small facts about sequences |

What code and specification share (what a range holds, who is a child, what a blank is, which step of
the lock goes where, what a pipe reports) is stated a second time by laws that do not use those
definitions: in `FnmatchAtoms`, `CommandLineRules`, `PasswdDbRules`, `PasswdBufferRules`,
`ServicesRules` and `MadviseRules`, and beside the other modules' main results.

Where the code and its documentation or POSIX differ, the model follows the code. What came out:

- `fnmatch` never lets a `*` that more pattern follows match the exhausted string, so a pattern that
  ends in two stars behaves as if a `?` stood before the last one (`FnmatchPosix.TwoStarsTakeOneMore`).
  It lets a first `]` close a bracket, where POSIX takes it as a member, and fails at an open bracket,
  where POSIX takes `[` for itself (`FnmatchPosix.BracketsMissMembers`). A backslash that ends the
  pattern unescaped matches a backslash, where POSIX has it match nothing
  (`FnmatchPosix.DanglingMatchesItself`). Those are all differences in stars, escapes and brackets of
  single characters and ranges: the patterns that agree on every string are characterised exactly
  (`FnmatchPosix.AgreesWithPosixExactly`). Under FNM_PATHNAME a final `*` crosses slashes, and matching
  is componentwise exactly without one (`FnmatchPosix.ComponentwiseExactly`). FNM_PERIOD neither stops a
  `*` at a leading period nor remembers what a `*` has taken; it does what POSIX asks exactly for the
  safe patterns (`FnmatchPosix.LeadingPeriodExactly`, and with FNM_PATHNAME
  `FnmatchPosix.PathPeriodExactly`). A pattern that matches nothing in either reading agrees, too, and
  which those are is told from the tokens (`FnmatchPosix.MatchesSomethingExactly`).
- Empty later arguments vanish from the command line, and argv[0] is wrapped but not escaped: the round
  trip holds for exactly the other vectors (`CommandLine.RoundTripExactly`).
- A blocking `waitid` may return with no child exited exactly when the number of openable children is a
  multiple of 63 (`ChildWaitRuns.WaitsForAChildExactly`). It may be stuck although a child has exited,
  joining a helper that waits for the others, exactly when that number is above 63 and not a multiple of
  63 (`ChildWaitRuns.GoesOnExactly`). So it is right exactly for 1 to 62 children
  (`ChildWaitRuns.RightExactly`). Its waiters take at most 19 steps for each entry of the snapshot and 9
  more (`ChildWaitEnds.TurnsBounded`), so where it goes on it returns (`ChildWaitEnds.ReturnsExactly`).
- The lock excludes exactly when `init_lock` ran before the first call (`LazyInit.ExclusionExactly`). A
  thread that goes on is sure to find the library started exactly when it came by the locked path and
  `init_lock` had run (`LazyInit.StartedAtUseExactly`): the unlocked fast path may be early.
- An empty segment ends a scatter/gather transfer (`ScatterGather.MovesAllExactly`). A process that copies
  between overlapping bytes of its own reads what earlier blocks have stored
  (`ScatterGather.OverlapReadsStored`).
- `madvise` takes the first region to be longer than it is exactly for an unaligned address
  (`Madvise.FirstRegionTiledExactly`), describes the region in which the range ends from the start of the
  range (`Madvise.RegionTiledExactly`), and sizes the last entry of a range inside one region by the
  region (`Madvise.RangeInFirstRegionTiledExactly`).
- `getpwnam` and `getpwuid` lose blocks on some error paths; which ones is exact (`PasswdDb.Loses`,
  `PasswdDb.LossExactly`). The iteration calls never do (`PasswdDb.IterationLosesNothing`).
- In `getpwnam_r` a directory variable that is set but empty gets two bytes, into which the directory of
  the registry, or else the default one, is written if it fits into the rest of the buffer: with two
  characters or more it runs into a shell stored behind it, exactly when SHELL is not set
  (`PasswdBuffer.StringsApartExactly`, `PasswdBuffer.OverlappingRegistryInput`). Where it does not fit, the
  string is empty (`PasswdBuffer.ShowsMeantDirExactly`).
- The services parser looks for aliases before the port, where a services file has none: a standard line
  keeps its aliases exactly when it has none (`Services.AliasesSeenExactly`). `getservbyport` takes its
  port in host order; called as POSIX says, with the port in network order, it is right for every file
  exactly when the two bytes of the port agree (`Services.NetworkOrderExactly`).
- `poll` reports POLLIN, POLLOUT and POLLPRI on sockets that asked only for POLLRDNORM or POLLWRNORM, or
  that another entry asked about; the arrays for which it can do so are exact (`Poll.UnrequestedExactly`).
  It hears questions about the first 64 sockets of each kind only (`Poll.HeardExactly`).

## Model

| member | source | states |
|---|---|---|
| CommandLine.ReadArgument | source/posix_spawn.c:31-87 | the reader of one later argument under the runtime's backslash and quote rules leaves at most what it got, and stops at the end or at a blank |
| CommandLine.ReadsUnquoted | source/posix_spawn.c:60-77 | escaped text outside quotes reads back as the pending backslashes followed by the text |
| CommandLine.ReadsQuoted | source/posix_spawn.c:60-86 | text inside quotes, with the run before the closing quote doubled, reads back whole and leaves the quotes |
| CommandLine.ArgumentRoundTrip | source/posix_spawn.c:31-87 | any mix of backslashes, quotes, blanks and other characters survives printing and reading, and reading stops where the argument ends |
| CommandLine.ProgramNameRoundTrip | source/posix_spawn.c:138-149 | a program name without a double quote survives wrapping and reading |
| CommandLine.TailRoundTrip | source/posix_spawn.c:118-168 | the arguments after the first come back in order; empty ones vanish |
| CommandLine.PrintThenRead | source/posix_spawn.c:90-171 | what a started process sees for every argv whose name has no double quote: the name and the nonempty arguments, in order |
| CommandLine.RoundTripExactly | source/posix_spawn.c:90-171 | reading the printed line gives back argv if and only if argv[0] has no double quote and no later argument is empty |
| CommandLine.SizePart | source/posix_spawn.c:40-51 | the sizing loop finds whether quotes are needed and how many characters escaping adds, to the character |
| CommandLine.WriteEscaped | source/posix_spawn.c:60-77 | the writing loop stores exactly the escaped text and counts the final run of backslashes, inside the buffer |
| CommandLine.ArgvToCommandLinePart | source/posix_spawn.c:31-87 | the result is the quoted argument and its terminator and fills the allocation exactly; NULL only when allocation fails |
| CommandLine.SizeCommandLine | source/posix_spawn.c:102-131 | the sizing pass asks for the printed line and its terminator, plus the one byte the read past argv[0] may add |
| CommandLine.WriteArguments | source/posix_spawn.c:153-168 | the printing loop extends the line argument by argument, never leaves the buffer, and gives up exactly when an allocation fails |
| CommandLine.ArgvToCommandLine | source/posix_spawn.c:90-171 | on success the line is the printed text in an allocation with at most one spare byte; it fails exactly on a missing argv or a failed allocation |
| CommandLine.StartedProcessSees | source/posix_spawn.c:90-171 | from the buffer that is filled to the arguments the new process reads: argv if and only if the printer can represent it |
| CommandLine.BlockRoundTrip | source/posix_spawn.c:174-212 | the environment block reads back as exactly the nonempty entries in order; two terminators if and only if there are none |
| CommandLine.EnvpToEnvironment | source/posix_spawn.c:174-212 | the block fills its whole allocation |
| CommandLineRules.QuotedExactly | source/posix_spawn.c:40-58 | the printed argument begins with a double quote if and only if the argument has a space or a tab |
| CommandLineRules.NameQuotedExactly | source/posix_spawn.c:138-149 | a program name without a double quote is wrapped in quotes if and only if it has a space or a tab, and is else printed as it is |
| CommandLineRules.QuoteWithoutMarks | source/posix_spawn.c:52-86 | an argument without a double quote is printed as it is, or in quotes with the backslashes at its end doubled, and nothing else changed |
| CommandLineRules.EscapeMark | source/posix_spawn.c:60-77 | n backslashes and a double quote inside an argument are printed as 2n + 1 backslashes and the double quote |
| CommandLineRules.PrintedAfterSpace | source/posix_spawn.c:151-168 | each argument is printed behind the ones before it and one space |
| CommandLineRules.WordEndsExactly | source/posix_spawn.c:107-118 | the reader ends an argument at a character outside quotes if and only if that is a space or a tab |
| CommandLineRules.QuotesProtect | source/posix_spawn.c:52-86 | inside quotes the reader keeps every character, spaces and tabs included, and drops the quotes |
| CommandLineRules.DoubledQuote | source/posix_spawn.c:60-86 | two double quotes inside quotes read as one, and the quotes stay open |
| CommandLineRules.EvenBackslashes | source/posix_spawn.c:60-86 | 2n backslashes before a double quote read as n backslashes, and the quote opens or closes |
| CommandLineRules.OddBackslashes | source/posix_spawn.c:60-77 | 2n + 1 backslashes before a double quote read as n backslashes and a literal double quote |
| CommandLineRules.OtherBackslashes | source/posix_spawn.c:60-77 | backslashes before any other character read as themselves |
| CommandLineRules.TrailingBackslashes | source/posix_spawn.c:78-86 | backslashes at the end of an argument outside quotes read as themselves |
| CommandLineRules.BareWordsRead | source/posix_spawn.c:151-168 | words without quotes, blanks and backslashes between any gaps of spaces and tabs read as exactly those words |
| CommandLineRules.NameEndsExactly | source/posix_spawn.c:138-149 | the reader ends an unquoted program name at a character if and only if that is a space or a tab |
| CommandLineRules.NameQuotesProtect | source/posix_spawn.c:138-149 | between quotes the program name keeps every character, and backslashes escape nothing |
| CommandLineRules.EmptyBlock | source/posix_spawn.c:174-212 | an environment without nonempty entries is two terminators |
| CommandLineRules.BlockGrows | source/posix_spawn.c:174-212 | one more entry adds itself and a terminator before the last terminator of the block, and an empty one adds nothing |
| Fnmatch.RunBracket | source/fnmatch.c:50-64 | the bracket loop computes the bracket scan on the array and never passes the terminator |
| Fnmatch.FnmatchInternal | source/fnmatch.c:11-92 | the pointer loop with its recursion decides the recursive matching relation, terminates, and stays between the pointers and the terminators |
| Fnmatch.Fnmatch | source/fnmatch.c:94-97 | returns 0 exactly on a match of two non-NULL strings, else FNM_NOMATCH |
| Fnmatch.ScanIsItems | source/fnmatch.c:51-64 | the scan of a bracket accepts a character if and only if one of its listed characters or ranges does |
| Fnmatch.MatchesIffDecomposes | source/fnmatch.c:11-92 | under every combination of flags a match exists if and only if the string can be cut into segments that the tokens accept, with the code's own reading of a final `*`, and with FNM_PERIOD only a literal period taking a period at the start, behind a `*` and, under FNM_PATHNAME, behind a slash |
| Fnmatch.LaterIffDecomposes | source/fnmatch.c:17-28 | under every combination of flags the `*` loop succeeds if and only if some cut leaves the `*` a prefix it may take and the other tokens the rest |
| Fnmatch.MatchesIffFits | source/fnmatch.c:11-92 | without FNM_PATHNAME a pattern that does not end in two unescaped stars matches by the token relation, in which a final `*` is like any other |
| Fnmatch.FitsComponentwise | source/fnmatch.c:17-91 | the token relation under FNM_PATHNAME, with or without FNM_PERIOD, splits at literal slashes into as many components, pairwise |
| Fnmatch.PathnameIsComponentwise | source/fnmatch.c:17-91 | fnmatch with FNM_PATHNAME, with or without FNM_PERIOD, for a last token other than `*`, succeeds if and only if equally many components match pairwise without FNM_PATHNAME |
| Fnmatch.PathnameOfComponents | source/fnmatch.c:17-91 | the same for patterns as strings: fnmatch of a joined path is fnmatch of its components |
| Fnmatch.CaseFoldIsLowering | source/fnmatch.c:4-9 | with FNM_CASEFOLD the result is that of the lowered pattern and string, brackets and ranges included |
| Fnmatch.AsciiLowerIsGood | source/fnmatch.c:4-9 | ASCII lower-casing meets the conditions of that theorem |
| FnmatchAtoms.OrdinaryExactly | source/fnmatch.c:78-91 | a pattern without metacharacters matches exactly itself, up to case under FNM_CASEFOLD; all laws of this module have any such text in front |
| FnmatchAtoms.QuestionExactly | source/fnmatch.c:28-37 | a final `?` takes one character: no slash under FNM_PATHNAME, no leading period under FNM_PERIOD |
| FnmatchAtoms.EscapeExactly | source/fnmatch.c:72-87 | a final backslash and character match that character alone |
| FnmatchAtoms.BackslashExactly | source/fnmatch.c:72-87 | under FNM_NOESCAPE a backslash matches itself |
| FnmatchAtoms.BracketExactly | source/fnmatch.c:39-70 | a bracket of characters and ranges, negated or not, takes one character if and only if one of the characters is it or one of the ranges, both ends included, holds it; characters are ordered as signed bytes, under FNM_CASEFOLD after lowering both ends and the character as `tolower` does |
| FnmatchAtoms.RangeExactly | source/fnmatch.c:53-57 | below 128 and without FNM_CASEFOLD, `[lo-hi]` matches c if and only if lo <= c <= hi and c is no slash or period that the flags forbid |
| FnmatchAtoms.LastDashExactly | source/fnmatch.c:53-63 | a `-` before the closing `]` is a character |
| FnmatchAtoms.FinalStarExactly | source/fnmatch.c:17-19 | a final `*` takes any rest, slashes included |
| FnmatchAtoms.StarExactly | source/fnmatch.c:21-26 | a `*` between two texts takes whatever stands between them, and under FNM_PATHNAME only without a slash |
| FnmatchAtoms.CompleteExactly | source/fnmatch.c:39-77 | a pattern has no open bracket and no dangling backslash if and only if nothing written behind it changes how it is read |
| FnmatchPosix.TwoStarsTakeOneMore | source/fnmatch.c:17-28 | a pattern ending in two stars matches as if a `?` stood before the last one |
| FnmatchPosix.MatchesSomethingExactly | source/fnmatch.c:11-92 | under every combination of flags a pattern matches some string if and only if each of its tokens but the stars accepts some character, and at a guarded place one that it may take there |
| FnmatchPosix.AgreesWithPosixExactly | source/fnmatch.c:17-77 | without FNM_PATHNAME and FNM_PERIOD the code agrees on every string with the POSIX reading of stars, brackets of characters and ranges, and escapes, if and only if no bracket is open or begins with `]`, no backslash is left dangling at the end and the pattern does not end in two stars, or some token has nothing to take in either reading |
| FnmatchPosix.TwoStarsMissExhausted | source/fnmatch.c:21 | the smallest disagreement over stars: a star-star pattern that rejects an exhausted string |
| FnmatchPosix.BracketsMissMembers | source/fnmatch.c:52-65 | the smallest disagreements over brackets: `[]a]` rejects `]`, and `[` rejects itself |
| FnmatchPosix.DanglingMatchesItself | source/fnmatch.c:72-77 | the smallest disagreement over escapes: a lone backslash, which POSIX lets match nothing, matches itself |
| FnmatchPosix.ComponentwiseExactly | source/fnmatch.c:19 | with FNM_PATHNAME matching is componentwise for every string if and only if the last token is not a `*`, or some token has nothing to take |
| FnmatchPosix.FinalStarTakesSlash | source/fnmatch.c:19 | the smallest case: `a*` matches `a/b` |
| FnmatchPosix.LeadingPeriodExactly | source/fnmatch.c:17-86 | without FNM_PATHNAME, FNM_PERIOD rejects exactly the strings whose leading period the pattern does not begin with, if and only if the pattern begins with no `*` and no token behind a `*` but a literal period takes a period, or some token has nothing to take |
| FnmatchPosix.PathPeriodExactly | source/fnmatch.c:17-86 | with FNM_PATHNAME and FNM_PERIOD a match is a componentwise match with every component's leading period explicit, if and only if the last token is not a `*` and every part of the pattern is safe in that sense, or some token has nothing to take |
| FnmatchPosix.PeriodAndStar | source/fnmatch.c:17-34 | the smallest cases: `*` takes a leading period, and `*?` rejects a period that does not lead |
| FnmatchPosix.PathPeriodAndStar | source/fnmatch.c:17-34 | the case of both flags: `a/*x` matches `a/.x` |
| ChildWait.StepKeepsInv | source/waitid.c:34-100 | every step of a waiter, and every process exit, keeps the invariant of the chain |
| ChildWaitRuns.RunKeepsInv | source/waitid.c:403-496 | the invariant holds in every state of every run, for any interleaving |
| ChildWaitRuns.OneWaiterAdvances | source/waitid.c:34-61 | at most one waiter can move the shared snapshot cursor, it is the last of the chain, and the snapshot is open |
| ChildWaitRuns.WaitsFit | source/waitid.c:46-83 | a wait beside a helper is for exactly 63 children, 64 handles in all, and any other for 1 to 62 |
| ChildWaitRuns.NothingLostBeforeFirstWake | source/waitid.c:34-56 | until the first wake the chain holds exactly the openable children enumerated so far, in order, each once |
| ChildWaitRuns.ChildrenMeaning | source/waitid.c:36-44 | the children are exactly the pids whose snapshot entry has the requested parent and whose process can be opened |
| ChildWaitRuns.CountIsLength | source/waitid.c:36-44 | the number of openable children, on which all exact results rest, is the number of such entries |
| ChildWaitRuns.SnapshotOutlivesWaiters | source/waitid.c:479-496 | the snapshot is closed only after every helper has ended and every handle is closed |
| ChildWaitRuns.ReportIsOneExitedChild | source/waitid.c:56-94 | the pid and status reported belong to one and the same exited child of the requested process |
| ChildWaitRuns.NoReportMeansDrained | source/waitid.c:403-496 | without a report the number of openable children is a multiple of 63 |
| ChildWaitRuns.NoDeadlock | source/waitid.c:56-94 | once all children have exited some waiter can always go on, until the call is over |
| ChildWaitRuns.GetsStuck | source/waitid.c:453-463 | for every number of children above 63 that is not a multiple of 63 there is a run in which a child has exited, the caller has stored it and joins a helper, every helper waits for children that live, and no waiter can take a step |
| ChildWaitRuns.GoesOnExactly | source/waitid.c:56-94 | in every reachable state with an exited child some waiter can go on, if and only if there are at most 63 openable children or a multiple of 63 |
| ChildWaitRuns.RightExactly | source/waitid.c:403-496 | waitid is sure both to wait for a child and to go on when one has exited, if and only if there are 1 to 62 openable children |
| ChildWaitRuns.ReturnsWithoutExit | source/waitid.c:403-496 | for every multiple of 63 there is a run that returns while every process is still alive |
| ChildWaitRuns.WaitsForAChildExactly | source/waitid.c:403-496 | waitid is sure to wait for a child if and only if the number of openable children is not a multiple of 63 |
| ChildWaitEnds.StepLowersRank | source/waitid.c:34-100 | every step of every waiter lowers a rank made of the entries ahead and of where the waiters stand |
| ChildWaitEnds.TurnsBounded | source/waitid.c:34-100 | in every run the waiters take at most 19 steps for each entry of the snapshot, and 9 more |
| ChildWaitEnds.GoesOnToReturn | source/waitid.c:34-100 | with one batch at most, or only full ones, every run in which a child has exited goes on, by steps of waiters alone and within the rank, to the return |
| ChildWaitEnds.ReturnsExactly | source/waitid.c:56-94 | every run in which a child has exited can return without another exit, if and only if the number of children is at most 63 or a multiple of 63 |
| ChildWaitEnds.ReturnsWithAReport | source/waitid.c:403-496 | for 1 to 62 children it returns with the pid and status of a child that had exited |
| LazyInit.RunKeepsInv | source/socket.c:28-66 | the invariant of lock, handle and counters holds in every state of every run, for unboundedly many threads |
| LazyInit.MutualExclusion | source/__436F64657252436C69626D696E677733325F657874656E646564.c:51-73 | after init_lock no two threads are ever inside the lock |
| LazyInit.StartedAtMostOnce | source/socket.c:28-66 | WSAStartup succeeds at most once, and the library is never loaded twice at a time |
| LazyInit.SettledWhenFree | source/socket.c:28-66 | whenever the lock is free, loads minus unloads is 1 if and only if the handle is set, if and only if the library is started |
| LazyInit.LockedPathIsStarted | source/socket.c:31-66 | a thread that took the locked path and did not return -1 leaves with the library started |
| LazyInit.StartedForGood | source/socket.c:28-66 | once started, the library stays loaded and is never loaded again |
| LazyInit.HolderGoesOn | source/socket.c:31-66 | the holder of the lock can always take a step, and each brings the release closer |
| LazyInit.FastPathMayBeEarly | source/socket.c:28-45 | with or without init_lock, a run in which an unlocked reader goes on before the library is started |
| LazyInit.StartedAtUseExactly | source/socket.c:28-66 | every thread that goes on by the locked (unlocked) path finds the library started and loaded in every run, if and only if init_lock ran first and the path is the locked one |
| LazyInit.BothOutcomes | source/socket.c:34-63 | in every reachable state the holder that is about to load can find itself about to start with one load more, or leave empty-handed; one that is about to start can leave ready with one start more, or go on to unload, with nothing else changed |
| LazyInit.StartWorks | source/socket.c:26-66 | for both values of `init_lock`, a run that ends with the library loaded and started once, the lock free and the caller past the locked path |
| LazyInit.LoadFails | source/socket.c:36-43 | a run in which the library cannot be loaded: -1, the lock free, nothing loaded |
| LazyInit.StartFails | source/socket.c:52-62 | a run in which WSAStartup fails: -1, loaded and unloaded once, the handle cleared, the lock free |
| LazyInit.FailureIsNotFinal | source/socket.c:28-62 | a later call may start the library after a failure |
| LazyInit.FastPathGoesOn | source/socket.c:29 | a later call goes on without the lock |
| LazyInit.SecondFindsItStarted | source/socket.c:33-34 | two threads race to the lock: the second finds the handle set, and the library is started once |
| LazyInit.LazyLockIsNotSafe | source/__436F64657252436C69626D696E677733325F657874656E646564.c:19-59 | a run in which two threads that both find the lock uninitialised meet inside it |
| LazyInit.ExclusionExactly | source/__436F64657252436C69626D696E677733325F657874656E646564.h:42-46 | the lock excludes in every run if and only if init_lock ran first |
| ScatterGather.Transfer | source/process_vm_readv.c:33-36 | one system call copies one block, read before it is written, and changes nothing else |
| ScatterGather.Advance | source/process_vm_readv.c:37-49 | a cursor that has passed n bytes and no empty segment has passed n + w of them after a chunk of w bytes, in the same segment or at the next |
| ScatterGather.PieceNext | source/process_vm_readv.c:31-36 | wherever a cursor stands, its next chunk holds the next bytes of the flattened view |
| ScatterGather.Run | source/process_vm_readv.c:25-57 | for any segments, in two memories or overlapping in one, the memory after the loop is that of the blocks of the two lists moved one after the other, in at most one chunk less than there are segments; unless bytes that are read are also stored to, the leading bytes of one flattened view stand at the addresses of the other, in order |
| ScatterGather.ProcessVmReadv | source/process_vm_readv.c:5-58 | returns -1 and changes nothing, or the number of bytes moved with the local memory they were stored in, also for a process that copies between overlapping bytes of its own |
| ScatterGather.ProcessVmWritev | source/process_vm_writev.c:10-59 | the mirror image |
| ScatterGather.OverlapReadsStored | source/process_vm_readv.c:31-36 | copied one place up byte by byte inside one memory, two bytes become twice the first |
| ScatterGather.TransferMeaning | source/process_vm_readv.c:25-57 | with disjoint target segments the first n bytes of the target view become those of the source view, and no other byte changes |
| ScatterGather.NonemptySegmentsMoveAll | source/process_vm_readv.c:25-57 | with nonempty segments n is the smaller of the two totals |
| ScatterGather.MovesAllExactly | source/process_vm_readv.c:31 | n is the smaller total if and only if no empty segment stands before that many bytes |
| ScatterGather.EmptySegmentStops | source/process_vm_readv.c:31 | an empty first segment moves nothing |
| Madvise.FillAllLength | source/madvise.c:413-644 | on one region map the filling walk writes as many entries as the counting walk counts |
| Madvise.CountSplit | source/madvise.c:494-644 | splitting a free region and skipping the new mapping leaves the count as it was |
| Madvise.SplitNeverGrows | source/madvise.c:494-644 | mapping a bookkeeping region never makes the walk longer |
| Madvise.FillFitsAllocation | source/madvise.c:466-644 | after both mappings the filling walk writes no more entries than were allocated |
| Madvise.CommittedStartFillsExactly | source/madvise.c:466-644 | exactly as many when the range begins in committed memory |
| Madvise.UnchangedMapFillsExactly | source/madvise.c:413-644 | exactly as many when the map has not changed |
| Madvise.BlockTiles | source/madvise.c:545-573 | the inner loop's entries tile their bytes in 2^20-byte steps |
| Madvise.BlockTilesExactly | source/madvise.c:500-526 | they tile n bytes at an address if and only if they start there and their sizes, the last one included, add up to n |
| Madvise.RegionTiledExactly | source/madvise.c:538-603 | a listed later region has a run of entries of its own, which tile what the range holds of it if and only if the range goes on behind it |
| Madvise.FirstRegionTiledExactly | source/madvise.c:494-532 | the first region's entries tile it up to its end if and only if the address is page aligned; else they reach twice the offset in the page behind it |
| Madvise.RangeInFirstRegionTiledExactly | source/madvise.c:619-643 | a range inside the first region is tiled if and only if it is a whole number of strides or as far from one as the region |
| Madvise.LastRegionIsMisplaced | source/madvise.c:577-603 | the smallest case: two committed pages are described by two entries for the first one |
| Madvise.CountLater | source/madvise.c:431-460 | the counting loop computes the count of the walk |
| Madvise.FillLater | source/madvise.c:533-617 | the filling loop stores the entries of the walk, inside the array |
| Madvise.Madvise | source/madvise.c:398-645 | both walks together, over a map that changes twice in between, never overflow the array and leave the walk's entries in it |
| Madvise.Sweep | source/madvise.c:63-90 | one sweep passes every entry once, in order, in whole batches of the stride but for the last one, which is no longer |
| Madvise.Prefetch | source/madvise.c:24-92 | five sweeps in batches of 1024, five of 16 and five of 1: every entry is passed fifteen times, and no batch leaves the array |
| MadviseRules.PageExactly | source/madvise.c:413-419 | VirtualQuery answers an address with the multiple of 4096 at or below it, up to the end of its region |
| MadviseRules.OutsideExactly | source/madvise.c:413-419 | it answers no address outside every region, and every other |
| MadviseRules.BlockExactly | source/madvise.c:545-573 | the run of entries for n bytes has as many as n / 1048576 rounded up; each stands 1048576 bytes behind the one before, and all but an incomplete last one hold 1048576 bytes |
| MadviseRules.FillExactly | source/madvise.c:533-617 | the walk writes, region by region, a run for each committed region that the range meets and that neither mapping begins; the one in which the range ends is described from the start of the range |
| MadviseRules.EntriesExactly | source/madvise.c:484-645 | the whole array, for any map, address and length: a run for the first region, taken to be longer by twice the offset of the address in its page, and then the runs of the regions behind it, or one run of the range inside it |
| MadviseRules.CountExactly | source/madvise.c:411-464 | the allocation has room for exactly those entries |
| MadviseRules.EveryMappingSplits | source/madvise.c:466-484 | every mapping of whole pages inside a free region is one of those that the results on both walks cover |
| HomePath.ParentExactly | source/getpwent.c:323-348 | HOME has a parent if and only if it is a parent, a separator, a nonempty leaf and trailing separators, which then determine it |
| HomePath.TrimInPlace | source/getpwent.c:327-333 | the loop that removes trailing separators leaves the trimmed path as the C string in the copy |
| HomePath.CutToParent | source/getpwent.c:323-348 | the copy of HOME is cut to its parent in place, if it has one |
| PasswdBuffer.Carve | source/getpwnam_r.c:205-436 | succeeds if and only if sources and space suffice, and else returns exactly the code of the first source that is missing or does not fit; bytes used and bytes remaining always add up to the buffer; on success both strings are in the buffer, an empty variable's included, with the registry text or the default in its place |
| PasswdBuffer.GetPwNamR | source/getpwnam_r.c:108-437 | EINVAL exactly for a missing argument; fills the record if and only if the lookup succeeds and name, directory and shell fit; else returns exactly the code of the first step that fails, ERANGE only where space is missing; success without a record only for an unknown name |
| PasswdBuffer.GetPwUidR | source/getpwuid_r.c:108-459 | the same for the user's own id |
| PasswdBuffer.RecordReadsBack | source/getpwnam_r.c:39-75 | the three strings read back from the buffer as the name and as what was written for directory and shell: for an empty directory variable the registry text, or else the default, if it fits, and where the shell was stored into the directory, its first two characters and the shell |
| PasswdBuffer.StringsApartExactly | source/getpwnam_r.c:310-436 | the strings that read back are pairwise apart if and only if the directory does not come from an empty variable, or SHELL gave the shell, or less than two characters are written for the directory |
| PasswdBuffer.ShowsMeantDirExactly | source/getpwnam_r.c:36-75 | the directory reads back as the one that is meant (for an empty variable the registry text, or else the default) if and only if it is not from an empty variable, or it fits and the shell does not run over it or happens to continue it |
| PasswdBuffer.ShowsMeantShellExactly | source/getpwnam_r.c:77-106 | the shell reads back as the one that is meant if and only if it is not from an empty variable or the default fits into the rest of the buffer |
| PasswdBuffer.DirBesideHome | source/getpwnam_r.c:205-252 | a directory taken from HOME is the parent of HOME, a backslash and the name |
| PasswdBuffer.EmptyVariableOverlaps | source/getpwnam_r.c:39-72 | when two characters or more are written into the two bytes of an empty variable, the shell starts at the third of them and the directory reads as the first two and the shell |
| PasswdBuffer.OverlappingInput | source/getpwnam_r.c:39-50 | an environment in which that happens with the default directory: an empty USERPROFILE, without HOME and SHELL |
| PasswdBuffer.OverlappingRegistryInput | source/getpwnam_r.c:52-72 | an environment in which it happens with the directory of the registry, in a buffer of ten bytes |
| PasswdBufferRules.ShellIsShown | source/getpwnam_r.c:259-271 | a nonempty SHELL is the shell shown |
| PasswdBufferRules.OtherShellIsShown | source/getpwnam_r.c:277-436 | without it the shell of the user information, else a nonempty COMSPEC, else the default; an empty COMSPEC shows the default if it fits |
| PasswdBufferRules.HomeIsShown | source/getpwnam_r.c:209-253 | with a HOME that has a parent the directory shown is the parent, a backslash and the name |
| PasswdBufferRules.OtherDirIsShown | source/getpwnam_r.c:310-362 | without it the directory of the user information, else a nonempty USERPROFILE, else the default |
| PasswdBufferRules.EmptyProfileShows | source/getpwnam_r.c:36-75 | an empty USERPROFILE shows the registry text, or the default, or nothing, as it fits, and behind its first two characters the shell where that runs over it |
| PasswdBufferRules.RecordOrder | source/getpwnam_r.c:170-436 | the name stands first, then directory and shell, the shell before the directory exactly when SHELL is set and HOME gives nothing; how many bytes each source takes |
| PasswdBufferRules.UsableExactly | source/getpwnam_r.c:287-345 | the lookup can succeed if and only if nothing that it falls back on is unconvertible and the user is not unknown where the user information is asked |
| PasswdBufferRules.CodesExactly | source/getpwnam_r.c:205-436 | how the carving ends for any room: EOK, ENOENT, ENOMEM and else ERANGE, each in its exact case and in the order in which the sources are asked |
| PasswdBufferRules.NamedCodesExactly | source/getpwnam_r.c:108-203 | how the steps before it end: ERANGE without room for the name, then ENOEXEC, EIO and ENOMEM, each if and only if its step is the first to fail |
| PasswdDb.Database.FreeFields | source/getpwent.c:184-211 | releases exactly what the current record owns |
| PasswdDb.Database.Complete | source/getpwent.c:318-463 | both strings are found or everything is freed, but for the shell that one file forgets |
| PasswdDb.Database.GetPwEnt | source/getpwent.c:213-480 | one step of the state machine, leaving every other block as it was; a record that is returned has its directory and its shell |
| PasswdDb.Database.GetPwNam | source/getpwnam.c:212-457 | one step, losing the copied name, if it could be copied, exactly when the library, the conversion or the wide buffer fails |
| PasswdDb.Database.GetPwUid | source/getpwuid.c:212-472 | one step, losing both names exactly without the library, or a shell when no directory is found |
| PasswdDb.Database.SetPwEnt | source/setpwent.c:38-69 | releases the record and rewinds, unless the library cannot be loaded |
| PasswdDb.Database.EndPwEnt | source/endpwent.c:35-62 | detaches and releases the record, clears the handle, rewinds |
| PasswdDb.Database.Calls | source/getpwent.c:184-256 | any sequence of calls keeps the ownership invariant (handle set exactly with a current record, only it owns strings, none freed twice), returns what the state machine says, and leaves as many blocks as it loses |
| PasswdDb.RunIsConsistent | source/getpwent.c:222-246 | in every run the handle is set if and only if a record is current, and the index is 0 or 1 |
| PasswdDb.OneEntryPerPass | source/getpwent.c:252-257 | without a rewind getpwent hands out its record at most once, and the index says whether it has |
| PasswdDb.LoadedExactly | source/getpwnam.c:254-277 | after any run the handle is set if and only if some call found the library, or it was set at the start, and no endpwent came after that |
| PasswdDb.LossExactly | source/getpwuid.c:399-420 | a run loses nothing if and only if no call of it meets a forgetting outcome, given whether the library is loaded before it |
| PasswdDb.IterationLosesNothing | source/setpwent.c:38-69 | getpwent, setpwent and endpwent lose nothing, whatever the system answers |
| PasswdDbRules.GetPwEntExactly | source/getpwent.c:213-480 | after any calls getpwent returns a record if and only if the library is or can be loaded, none was handed out since the last setpwent or endpwent, and the system answers everything |
| PasswdDbRules.HandsOutAgain | source/setpwent.c:66-68 | after setpwent or endpwent getpwent hands out its record again, and once more NULL |
| PasswdDbRules.GetPwNamExactly | source/getpwnam.c:212-457 | after any calls getpwnam returns a record if and only if the name is known, the library is or can be loaded, and everything it needs is found |
| PasswdDbRules.GetPwUidExactly | source/getpwuid.c:212-472 | the same for getpwuid and the own id |
| PasswdDbRules.OthersReturnNothing | source/setpwent.c:38-69 | setpwent, endpwent and the reentrant calls hand out no shared record |
| PasswdDbRules.CurrentExactly | source/getpwent.c:222-246 | after any calls a record is current if and only if the library is loaded, and it is the one of the call that loaded it |
| PasswdDbRules.FullExactly | source/getpwent.c:184-211 | after any calls the record is filled if and only if some call returned it and none after that released it |
| Services.JoinThenTokens | source/getservent.c:25-35 | strtok over blanks and newlines finds exactly the words that were written |
| Services.LineReadsBack | source/getservent.c:20-56 | a written line reads back as its name, at most 31 words before the port, the port and the protocol; words after the port are not seen |
| Services.RecordsOfLines | source/getservent.c:20 | a file whose lines fit the buffer has the entries of its lines, in order |
| Services.FileReadsBack | source/getservent.c:20-58 | a whole written file reads back, line for line |
| Services.AliasesSeenExactly | source/getservent.c:31-36 | the aliases of the entry are all words beside name and port if and only if none stands behind the port and at most 31 before it; a standard line keeps its aliases if and only if it has none |
| Services.HostOrderFindsTheLine | source/getservbyport.c:9 | in every written file a port in host order finds the first line with that port and protocol |
| Services.NetworkOrderExactly | source/getservbyport.c:9 | a port in network order, as POSIX passes it, finds that line in every written file if and only if the two bytes of the port agree |
| Services.MissedInNetworkOrder | source/getservbyport.c:9 | for every other port a file that has it and in which the call finds nothing |
| Services.StrTok | source/getservent.c:25-31 | strtok in place: the token is cut out as a C string, the rest follows, and nothing at or before the start changes |
| Services.AliasLoop | source/getservent.c:31-36 | the alias loop keeps the first 31 words before the one with a slash, all intact in the buffer |
| Services.TrimProtocol | source/getservent.c:49-53 | trailing white space is cut off in place, but for a first character |
| Services.ParseLine | source/getservent.c:21-55 | the pointers into the buffer show the entry of the pure line parser, or there is none |
| Services.ServDb.Fgets | source/getservent.c:20 | takes a line or 1023 characters and leaves them as a C string |
| Services.ServDb.GetServEnt | source/getservent.c:11-59 | returns the next entry of the file and moves past it; NULL if and only if there is none left |
| Services.ServDb.SetServEnt | source/setservent.c:6-10 | all entries are ahead again |
| Services.ServDb.EndServEnt | source/endservent.c:6-11 | the stream is closed and all entries are ahead again |
| Services.ServDb.GetServByName | source/getservbyname.c:4-29 | returns the first entry of the file with that name or alias and protocol, whatever the state before |
| Services.ServDb.GetServByPort | source/getservbyport.c:4-17 | returns the first entry with that port modulo 2^16 and protocol, whatever the state before |
| Services.ServDb.GetServByNetworkPort | source/getservbyport.c:4-17 | the call as POSIX makes it finds a line with the swapped port; the right line when the two bytes agree |
| Services.ServDb.AfterAnyHistory | source/getservbyname.c:7-28 | after any history of calls both lookups depend on the file alone |
| ServicesRules.TokensExactly | source/getservent.c:25-31 | strtok finds exactly the words of a line between any gaps of spaces, tabs and line ends |
| ServicesRules.EveryLineIsSpread | source/getservent.c:20-31 | every text is such words and gaps, so that these laws cover all lines |
| ServicesRules.NoEntryLine | source/getservent.c:22-23 | a line that is blank, or whose first character behind spaces and tabs is `#` or a line end, gives no entry |
| ServicesRules.NoPortNoEntry | source/getservent.c:31-42 | a line in which no word behind the first has a slash gives no entry |
| ServicesRules.LineExactly | source/getservent.c:21-55 | every other line gives its first word, the first 31 words before the first one with a slash, and port and protocol from the two parts of that one |
| ServicesRules.TrimExactly | source/getservent.c:49-53 | spaces, tabs, line ends and carriage returns at the end of the protocol go, but a first character stays |
| ServicesRules.AtoiGrows | source/getservent.c:45 | one more digit is ten times the number and the digit, up to 2147483647 |
| ServicesRules.AtoiGrowsDown | source/getservent.c:45 | behind a minus sign down to -2147483648 |
| ServicesRules.AtoiStops | source/getservent.c:45 | the number ends at the first character that is no digit |
| ServicesRules.AtoiStarts | source/getservent.c:45 | the six white-space characters in front are skipped, and any other character that is neither digit nor sign gives zero |
| ServicesRules.AtoiPlus | source/getservent.c:45 | a plus sign changes nothing |
| ServicesRules.PortBytes | source/getservent.c:45 | the stored port has the two low bytes of the number in the opposite order |
| ServicesRules.LinesExactly | source/getservent.c:20 | a line of up to 1022 characters and its end is parsed by itself, and so are 1023 characters of a longer one and the last line without an end |
| ServicesRules.LineEndsAtNul | source/getservent.c:20-25 | a terminator inside a line ends the text that is parsed |
| ServicesRules.NameFoundExactly | source/getservbyname.c:7-26 | the entry found is the first whose name or one of whose aliases is the name, with the protocol unless that is NULL |
| ServicesRules.PortFoundExactly | source/getservbyport.c:8-14 | the entry found is the first with the two bytes of the port and the protocol unless that is NULL |
| ServicesRules.WindowsFirst | source/getservent.c:12-18 | the entries are those of the Windows file, of /etc/services where that cannot be opened, or none |
| Poll.FirstPass | source/poll.c:136-194 | every entry reports its immediate state, the count matches, and the wait map holds the first 64 pipes that report nothing, in order |
| Poll.WaitForPipes | source/poll.c:197-249 | at most the one entry the map names changes, and only it is counted |
| Poll.FillSets | source/poll.c:269-282 | the select sets hold exactly what the entries insert, each socket once and up to 64; descriptors gone bad report POLLNVAL and are counted |
| Poll.SetOfExactly | source/poll.c:270-282 | a select set holds a socket if and only if some entry asks about it before 64 other sockets have been asked about |
| Poll.HeardExactly | source/poll.c:270-282 | every question about a socket is heard if and only if they are about at most 64 sockets |
| Poll.ReadSets | source/poll.c:291-314 | the loop after select reports each pending socket and counts it |
| Poll.PollSockets | source/poll.c:251-315 | only pending sockets change, within the bits of a socket, and each reports exactly its outcome: an error, or what select says of everything that was asked about its handle and heard |
| Poll.Poll | source/poll.c:118-324 | at every return the result is the number of entries with nonzero revents; every entry reports exactly the bits it should: the entries that are no sockets by BitsDecided, the sockets, for any number of them, by SocketsDecided, both stated without the functions that the code uses; negative descriptors report nothing |
| Poll.CountUpdate | source/poll.c:136-314 | changing one entry changes the count by that entry alone |
| Poll.CountMeaning | source/poll.c:323 | the count is the number of indices with nonzero revents |
| Poll.SelectDecides | source/poll.c:291-314 | a pending socket reports readable, writable or urgent if and only if some entry with its handle asked, was heard, and select agrees |
| Poll.UnrequestedExactly | source/poll.c:302-310 | some answer of the system makes a socket report a bit it did not request, if and only if its entry leaves out POLLIN, POLLOUT or POLLPRI and some entry with its handle asks for that bit or for its normal-data form and is heard |
| Poll.NormalDataReportsPollin | source/poll.c:302 | the smallest case: POLLRDNORM alone reports POLLIN |
| Poll.PipesInBits | source/poll.c:136-249 | what the passes before select leave in each entry that is no socket, bit by bit: a pipe reports POLLIN (POLLRDNORM) if and only if it asked and has a byte, POLLHUP (POLLERR) if and only if it asked to read and is broken (the peek fails otherwise), POLLOUT (POLLWRNORM) if and only if it asked; a bad handle or type POLLNVAL alone; any other file what it asked of three bits; the pipe that ends the wait a second look or, without the thread, all that it asked |
| Poll.SocketsInBits | source/poll.c:251-315 | every socket bit by bit: POLLERR alone without the library, POLLNVAL alone when its descriptor has gone bad, else POLLIN (POLLHUP) if and only if select finds it readable, an entry with its handle asked among the first 64, and it has bytes (none), and likewise POLLOUT and POLLPRI |
| Poll.AskedForAll | include/poll.h:16-25 | the reports of entries that ask for all five bits, in the numbers of the header |
| SpawnActions.StepKeepsInv | source/posix_spawn_file_actions_addopen.c:46-68 | every add, successful or not, keeps the shape of the array |
| SpawnActions.FailureShowsNothing | source/posix_spawn_file_actions_addopen.c:52-65 | a failed add leaves the actions as they were, even after the array has grown |
| SpawnActions.RunKeepsInv | source/posix_spawn_file_actions_addclose.c:41-56 | after any adds the array holds the successful actions in order, its capacity is 0 or a power of two and at most max(1, 2 used), and growing has moved capacity - 1 elements |
| SpawnActions.AmortisedMoves | source/posix_spawn_file_actions_addopen.c:46-58 | n successful adds move fewer than 2n elements |
| SpawnActions.CallExactly | source/posix_spawn_file_actions_adddup2.c:37-58 | the result of an add is EINVAL exactly for a bad argument, ENOMEM exactly where growing or copying fails; a successful one appends one action that shows its arguments, each in its own field, and the capacity doubles, or becomes one, exactly when the array is full |
| SpawnActions.AllShown | source/posix_spawn_file_actions_adddup2.c:54-57 | any sequence of adds that work shows every argument, in order |
| SpawnActions.FileActions.Grow | source/posix_spawn_file_actions_addopen.c:46-58 | a new block of twice the size (or one) with the old elements, or nothing changes |
| SpawnActions.FileActions.AddOpen | source/posix_spawn_file_actions_addopen.c:32-70 | result and new state of the open action, growth before the copy of the path that may fail |
| SpawnActions.FileActions.AddClose | source/posix_spawn_file_actions_addclose.c:31-58 | result and new state of the close action, for any descriptor |
| SpawnActions.FileActions.AddDup2 | source/posix_spawn_file_actions_adddup2.c:31-59 | result and new state of the dup2 action |
| SpawnActions.FileActions.Destroy | source/posix_spawn_file_actions_destroy.c:6-20 | the array is empty again |
| SpawnActions.FileActions.constructor | source/posix_spawn_file_actions_init.c:5-15 | a fresh array is empty and meets the invariant |
| SpawnActions.FileActions.Calls | source/posix_spawn_file_actions_adddup2.c:41-57 | any sequence of adds on an empty array ends with the successful actions, in order |

## Left out

- The process creation in `posix_spawn` and `posix_spawnp` (handle duplication, dup2, CreateProcess, the path search): it rests on C runtime behaviour that is not part of this model.
- `posix_spawnp`'s own copies of the three printer functions: they repeat `source/posix_spawn.c`, and one model serves both.
- Overflow of `size_t` and wrapping pointers: sizes and addresses are unbounded.
- FnmatchPosix.PosixTokens: character classes, equivalence classes and collating symbols (`[:`, `[=`, `[.`) are not modelled, the code has none of them; a backslash inside a bracket is an ordinary character, and a range from `]` that would be empty makes the bracket invalid, both of which POSIX leaves open.
- Fnmatch.CaseFoldIsLowering: `tolower` is any idempotent function that fixes the metacharacters; other locales are not modelled.
- ScatterGather.ProcessVmReadv: ReadProcessMemory and WriteProcessMemory transfer every chunk completely, and read it whole before they store it. Whether OpenProcess is taken to have worked is an input; the code compares its result with INVALID_HANDLE_VALUE, where the API returns NULL.
- ScatterGather.Peek: the read of one segment past the end after the last advance yields a length that is never used.
- ChildWaitRuns.RunKeepsInv: CreateThread, the waits and GetExitCodeProcess succeed; the WNOHANG, P_PID and stopped-process branches of waitid, and its error paths, which abandon handles, are not modelled.
- The fallback of madvise that reads the pages, and the other advice values.
- PasswdDb.Database.GetPwNam: the name does not point into the record that the call releases; a copy of the name that cannot be allocated is a NULL name in the record, also where HOME has a parent and the code takes its length (source/getpwnam.c:329), which is undefined.
- PasswdDb.Database.Complete: each fallback for directory and shell (`get_user_home_directory_alloc`, `get_user_shell_alloc`, `wcs_to_mbs_alloc`) is one allocation that may fail; errno and the contents of the strings are not modelled here.
- PasswdBuffer.Carve: the two default texts are fields of the environment, and all results hold for any; `PasswdBuffer.AsCompiled` gives those of the source. A registry value is a terminated text, and one that does not fit leaves the buffer as it was.
- PasswdBuffer.GetPwNamR: for a directory variable that is not set the registry lookup finds nothing, because the size query would take the length of a missing buffer there; what the ERANGE paths abandon is not modelled.
- Services.ServDb.GetServEnt: a stream that fails in the middle of the file is not modelled, and the lookups show the static entry, which the next call overwrites.
- Services.Atoi: saturates at the bounds of int, as the Microsoft runtime does; the C standard leaves this case open.
- Poll.WaitForPipes: the array of handles is represented by the map; the system's answers are arbitrary. Poll.Poll leaves out errno and the final Sleep.
- Poll.SocketOutcome: bytes that arrive or a descriptor that changes between the loops of one call are inputs.
- SpawnActions.FileActions.AddOpen: NULL pointers to the structure are not modelled (addclose dereferences one when the descriptor is -1), and destroy does not free the copied paths.
- The `aio_*` functions, the remaining socket and inet wrappers, `dlopen` and relatives, `mmap`, `msync`, `shm_*`, `glob`, message queues, catalogs, groups, `strfmon`, `ftok` and the wait-status macros: foreign calls, stubs, tables, or members that would only add easy claims.
