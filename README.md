# autorun: a verified model of the watch-and-rebuild core

autorun watches a Go project directory and rebuilds and restarts the program whenever
a Go source file changes. This project models its core in Dafny and proves properties
of the model:

- **Filters** (`filter.dfy`, module `Filter`). `SkipChange` decides whether a change
  event is ignored. `SkipDir` decides whether the directory walk prunes a directory.
  Both read the configuration main derives from the `-delay`, `-exclude` and
  `-exclude-dirs` flags: the debounce window in nanoseconds (an int64 product that
  wraps), the excluded file-name prefixes and the excluded directory names.
- **Coordinator** (`coordinator.dfy`, module `Coordinator`). The body of the main
  loop in `startWatching`, as the class `Loop` with the loop's three variables as
  fields. The method `HandleEvent` handles one change event and `HandleError` handles
  one watcher error. Ghost logs record the build-and-run dispatches and the context
  cancellations. The method `Serve` runs the loop over a finite sequence of messages.
  Each method is proved against the pure state machine `Step` / `Run`. The
  counting properties are proved about `Run`, and the debounce window about `Step`.
- **Registrar** (`registrar.dfy`, module `Registrar`). `watchDir`: a `filepath.Walk`
  over a directory tree that adds every unpruned directory to the watcher.
  - The tree is a datatype whose children are in the order the walk visits them.
  - Which paths the watcher refuses is an oracle: a set of failing paths.
  - `Walk` is the walk with its callback's prune test as a parameter. `WatchDir` is
    the imperative walk against a `Watcher` object, and it is proved equal to
    `Walk` with `skipDir` as the prune test. Its recursion is in `Visit` and
    `VisitEntries`, which carry that prune test as a ghost parameter.
  - Pruning is proved in both directions: a walk the watcher never refuses registers
    exactly "." and the directories whose path components are all visible.
- **Go string helpers** (`gostrings.dfy`, module `GoStrings`). `strings.HasPrefix`,
  `HasSuffix`, `Split` and `Join` for a one-character separator, and `path.Base`.
  Each comes with the round-trip and shape lemmas the other modules use.
- `optional.dfy` holds the `Option` type. `None` stands for Go's nil: no cancel func
  yet, no error.

Times are integer nanoseconds. A context is identified by its generation number: the
n-th accepted change creates context n. fsnotify's operation bits are
Create = 1, Write = 2, Remove = 4, Rename = 8 and Chmod = 16.

## Model

| member | source | states |
|---|---|---|
| Filter.SkipChange | main.go:135-154 | An event is ignored iff at least one of four things holds: it is neither a Write nor a Create; it names the last accepted file within the delay (`<=`); its name does not end in ".go"; or its base name starts with an excluded prefix. The result is this disjunction, so the order of the checks does not matter. |
| Filter.SkipDir | main.go:156-171 | "." is never pruned. Any other path is pruned iff its base name starts with "." or equals an excluded directory name. |
| Filter.AnyPrefix | main.go:148-152 | The prefix scan is true iff some listed prefix is a prefix of the name. |
| Filter.AnyEqual | main.go:165-169 | The directory-name scan is true iff the name is in the list. |
| Filter.WrapInt64 | main.go:47 | The result is in int64 range, is congruent to the input modulo 2^64, and equals the input when the input already fits. |
| Filter.DelayDuration | main.go:47 | The duration fits in int64 and is congruent to delay × 1,000,000 ns modulo 2^64, as Go's wrapping int64 product is. It is exactly that product whenever the product fits. |
| Filter.PolicyFromFlags | main.go:44-47 | Each list holds at least one entry, and no entry contains ','. |
| Filter.DefaultPolicy | main.go:20-24 | The default flags give a 1 s window, the prefixes ".", "#", "flymake", "#flymake", and the directories "vendor", "node_modules". |
| Filter.DefaultPrefixes | main.go:22 | Splitting the default -exclude value on ',' gives exactly its four prefixes. |
| Filter.DefaultDirNames | main.go:24 | Splitting the default -exclude-dirs value on ',' gives exactly its two names. |
| Filter.EmptyPrefixSkipsEverything | main.go:148-152 | If the empty string is among the excluded prefixes, every event is ignored. |
| Filter.EmptyExcludeFlagSkipsEverything | main.go:44 | An -exclude value that is empty or ends in ',' yields an empty prefix, so no event ever triggers a rebuild. |
| Filter.EmptyDirNameExcludesNothing | main.go:165-169 | Adding an empty directory name to the list changes no skipDir decision. |
| Filter.DefaultSkipsHiddenFiles | main.go:147-152 | Under the defaults, a file whose base name starts with "." is always ignored. |
| Filter.PlainNameNotExcluded | main.go:147-152 | Under the defaults, a root-level name not starting with '.', '#' or 'f' is its own base and passes the prefix check. |
| Coordinator.AcceptsExactly | main.go:67-70 | The loop acts on a message iff it is a change event that skipChange lets through: a Write or Create, not the last accepted file within the delay, a ".go" name, and a base name with no excluded prefix. An error is never acted on. |
| Coordinator.Step | main.go:67-83 | A rejected event or an error leaves the state unchanged. An accepted event records the name and time, adds one dispatch, makes the new context (number dispatches + 1) the cancel handle, and adds one cancel iff a cancel func existed. Supersession (only the newest context is live) is preserved. |
| Coordinator.Run | main.go:64-85 | Running the loop preserves supersession and never decreases the dispatch or cancel counts. |
| Coordinator.RunCounts | main.go:73-80 | After any message sequence: dispatches grow by the number of accepted changes; cancels grow by that number, or one less when there was no cancel func; with no accepted change the state is unchanged; otherwise the last accepted name is remembered and the cancel handle is the newest context. |
| Coordinator.SupersessionFromStart | main.go:57-80 | From the loop's initial state, N accepted changes give N dispatches, max(N-1, 0) cancels, and the handle of context N. |
| Coordinator.DebounceWindow | main.go:139-143 | Once a change is accepted at t, the same change at t + d is accepted iff d > delay. |
| Coordinator.EmptyNameNeverAccepted | main.go:144-146 | The initial empty lastModFile never matters: an event named "" is always ignored. |
| Coordinator.FirstWriteAccepted | main.go:67-80 | Under the defaults, the loop's first write to a plain root-level Go file is accepted, giving one dispatch and no cancel. |
| Coordinator.BurstCoalesced | main.go:139-143 | Under the defaults, two writes to the same plain Go file 50 ms apart are one accepted change, with one dispatch and no cancel. |
| Coordinator.Loop.constructor | main.go:57-62 | The loop starts with an empty name, zero time, no cancel func and empty logs. |
| Coordinator.Loop.HandleEvent | main.go:67-81 | The new state is `Step` of the old. A skipped event changes nothing. An accepted event sets the name and time, cancels the previous context (if any) exactly once, and dispatches exactly once under the new context. The log invariant is kept. |
| Coordinator.Loop.HandleError | main.go:82-83 | An error changes no state. |
| Coordinator.Loop.Serve | main.go:64-85 | After the messages, the state is `Run` of the initial state, and the log invariant is kept. |
| Registrar.Watcher.Add | main.go:126 | A refused path returns its error and is not watched; any other path is appended to the watch list. |
| Registrar.WatchDir | main.go:117-133 | The watch list grows by exactly the paths `Walk` (with skipDir as the prune test) adds, and the error returned is `Walk`'s. |
| Registrar.Visit | main.go:119-131 | Visiting the node at a path, with a ghost prune test that agrees with skipDir, adds exactly what `Walk` adds and returns its error. |
| Registrar.VisitEntries | main.go:119-131 | Visiting a directory's first k entries in order adds what the walk over them adds, and returns its error. |
| Registrar.Walk | main.go:119-132 | The walk's error, when there is one, is a path the watcher refuses. |
| Registrar.WalkEntries | main.go:119-131 | The walk over a directory's entries fails only with a path the watcher refuses. |
| Registrar.ChildPathBase | main.go:119-123 | The path the walk forms for an entry is never "." and its base name, which skipDir inspects, is the entry's name. |
| Registrar.WalkStopsAtFirstFailure | main.go:119-132 | The walk adds the unpruned directories in pre-order. Without an error it adds all of them, none refused. Otherwise it adds a prefix of them, none refused, and returns the error of the next one, which is refused. |
| Registrar.EntriesStopAtFirstFailure | main.go:119-131 | The same first-failure relation holds for a directory's entries. |
| Registrar.AbortedWalkStops | main.go:127-129 | Once an entry's walk has failed, no later entry is visited, and the error stands. |
| Registrar.RootRegisteredFirst | main.go:123-130 | A walk from "." adds "." first, unless the watcher refuses it, in which case the walk adds nothing and fails with that error. |
| Registrar.CandidatesPruned | main.go:123-125 | Every directory a walk would add, apart from ".", has a path none of whose components is hidden or an excluded name. |
| Registrar.RegisteredPruned | main.go:123-126 | Every directory a walk from "." actually adds, apart from ".", has only visible components. |
| Registrar.CandidatesComplete | main.go:123-126 | Conversely, every directory of an unpruned subtree whose path has only visible components is one the walk would add. |
| Registrar.CandidatesAreDirectories | main.go:120-122 | Whatever the prune test, the walk would add only directories of the tree, never files. |
| Registrar.RegistersExactlyVisible | main.go:119-132 | A walk from "." that ends without error adds a path iff it is a directory of the tree and is "." or has only visible components. |
| Registrar.SkippedSubtreeNeverRegistered | main.go:123-125 | No directory anywhere below a pruned directory is ever added, whatever the tree and whichever paths the watcher refuses. |
| GoStrings.HasPrefixCharwise | main.go:149 | strings.HasPrefix holds iff the prefix is no longer than the string and agrees with it character by character from the start. |
| GoStrings.HasSuffixCharwise | main.go:144 | strings.HasSuffix holds iff the suffix is no longer than the string and agrees with its last characters. |
| GoStrings.Split | main.go:44-45 | strings.Split yields at least one piece, and no piece contains the separator. |
| GoStrings.JoinSplit | main.go:44-45 | Joining the pieces of a split with the separator gives back the flag value. |
| GoStrings.SplitJoin | main.go:44-45 | Splitting a join of separator-free pieces gives back the pieces. |
| GoStrings.SplitAtSeparator | main.go:44 | Splitting a + sep + b gives the pieces of a followed by the pieces of b. |
| GoStrings.Base | main.go:147 | path.Base never returns "", and returns either "/" or a name without '/'. |
| GoStrings.BaseIsLastElement | main.go:160 | For a path not ending in '/', the base is a non-empty suffix without '/' that is the whole path or follows a '/'. |
| GoStrings.BaseOfName | main.go:147 | The base of a plain name is that name. |
| GoStrings.BaseOfChild | main.go:160 | The base of dir + "/" + n is n. |

## Left out

- The fsnotify watcher's creation and closing, its event and error channels, and the
  `select` (main.go:37-42, 66). The loop consumes a finite sequence of messages.
  fsnotify's Op bit values are taken as constants.
- runCmds (main.go:89-113): `go build`, starting `./goapp` and waiting for it, and
  the goroutine that runs them. A dispatch is recorded as the generation number of the
  context it runs under.
- Context semantics (main.go:75-78): a cancel is recorded, but its effect on a running
  build or program is not modelled.
- Flag parsing in init (main.go:31-33) and the -args value split on spaces
  (main.go:51), which only feeds runCmds. The three flag values the filters read are
  parameters.
- The clock: time.Now and time.Since are replaced by a parameter `now` per message.
  The source reads the clock twice per accepted event (main.go:74 and main.go:140);
  the model uses one reading for both. time.Since's saturation and monotonic clock
  readings are not modelled; times are unbounded integers.
- main ignores watchDir's error (main.go:49); the model returns it but models no
  caller.
- The walk callback's error parameter and a nil FileInfo after a failed lstat
  (main.go:119-121). The tree is taken to be readable: readdir and lstat errors,
  symbolic links and the file system's own listing order are not modelled.
  Children are given in the order the walk visits them (lexical).
- Registrar.Watcher.Add: a watcher error is represented by the path it was raised for,
  not by fsnotify's error value.
- Split and Join are modelled for a one-character separator only, which is all the
  filters use. Base is path.Base, which equals filepath.Base on Unix.
- Go strings are byte sequences; the model's strings are Dafny character sequences.
  The filters compare only whole strings, prefixes, suffixes and the characters '/'
  and ','. File names that are not valid UTF-8 cannot be represented.
- Registrar.ChildPath: joins with a single '/', which matches filepath.Join only for a
  directory path that does not end in '/'. Every path a walk from "." forms is such a
  path; a walk from "/" or from a root ending in '/' is not modelled.
