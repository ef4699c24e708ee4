# orch: dependency-ordered command runner, modelled in Dafny

`orch` reads a map of named shell commands. Each entry has a `run` string and an optional
comma-separated `dep` string naming the entries it waits for. The runner turns every entry
into a `Command` that tracks its dependencies in a `trackdep` map of flags, one per
dependency name. Each command is also a notifier: it keeps a set of observers and broadcasts
its lifecycle events to them. Its dependents and the console updater (`UI`) observe it.
`Start` drives a run:

1. It creates one command per entry, numbered 0..n-1, with the UI observing each.
2. It wires every command as an observer of each of its dependencies and records the
   dependency edge in a graph. It stops at the first missing dependency.
3. It stops when the cycle check rejects the graph.
4. Only then does it offer every command for execution.

A command launches when all of its flags are set. It broadcasts "start" when it launches
and "end" when it finishes. An "end" sets the sender's flag in every dependent, and the
dependent then runs its readiness check again.

The model has four modules:

- `GoStrings` (`strings.dfy`): Go's `strings.Split` on one separator, with its round trip
  through `Join`.
- `Deps` (`deps.dfy`): the value-level view of one command:
  - the decoded entry;
  - the event;
  - the initial `trackdep` map;
  - what delivering a sequence of events does to the map and to the readiness check;
  - the dependency graph as a set of index pairs.
- `DepGraph` (`graph.dfy`): the mutable edge set that the wiring writes into.
- `Orch` and `Driver` (`orch.dfy`): the `Command` and `UI` classes. Their methods update
  fields in place. The `Observer` datatype has the one `OnNotify` method of the observer
  interface. The `Driver` module holds `Start` and the loops it runs.

Both `internal/orch/orch.go` and its near-copy `command/command.go` are modelled by the
one `Command` class. `RegisterNotifications` takes the command map as a parameter, which is
the `command/command.go` form. `internal/orch/orch.go` reads the same map from a package
variable that `Start` fills.

Events are delivered synchronously. The goroutine that runs a launched command is replaced
by `Finish`. `Finish` records the command's result, marks it done and broadcasts "end". The
ghost counter `launches` records how often the readiness check found the command ready.
That is how often the source would start the shell command.

## Model

| member | source | states |
|---|---|---|
| GoStrings.Split | internal/orch/orch.go:65 | splitting always yields at least one piece, even for the empty string |
| GoStrings.JoinSplit | internal/orch/orch.go:65 | joining the pieces of `s` with the separator gives `s` back: nothing is trimmed or dropped |
| GoStrings.SplitPiecesHaveNoSeparator | internal/orch/orch.go:65 | no piece contains the separator |
| GoStrings.SplitWithoutSeparator | internal/orch/orch.go:65 | a string without the separator splits into itself alone |
| GoStrings.SplitAtFirstSeparator | internal/orch/orch.go:65 | the first separator ends the first piece, and the rest splits independently |
| GoStrings.SplitJoin | internal/orch/orch.go:65 | pieces free of the separator are recovered by splitting their join |
| DepGraph.Graph.constructor | internal/orch/orch.go:178 | a new graph has no edges |
| DepGraph.Graph.Edge | internal/orch/orch.go:130 | the edge query answers true iff the edge is already in the set |
| DepGraph.Graph.Add | internal/orch/orch.go:131 | inserting an edge adds exactly that edge |
| Deps.InitialTrackdepShape | internal/orch/orch.go:63-69 | the initial `trackdep` keys are exactly the comma-split pieces of "dep" (join back to "dep", contain no comma), every flag is false, no "dep" gives no key, an empty "dep" gives the single key "" |
| Deps.ReadyAtStart | internal/orch/orch.go:107-111 | a freshly initialised command is ready iff its entry has no "dep" |
| Deps.MarkOnlySetsSender | internal/orch/orch.go:75-78 | an "end" sets the sender's flag and touches no other flag; other event kinds change nothing; no flag is ever cleared |
| Deps.DeliverKeepsSatisfied | internal/orch/orch.go:75-78 | along any sequence of deliveries no key disappears and no set flag reverts |
| Deps.UnsatisfiedAfterMark | internal/orch/orch.go:75-78 | an "end" removes exactly the sender from the set of awaited dependencies |
| Deps.ReadyIffNothingUnsatisfied | internal/orch/orch.go:107-111 | the readiness check passes iff no dependency is awaited |
| Deps.ReadyIffAllEnded | internal/orch/orch.go:73-79 | after a sequence of deliveries the command is ready iff every awaited dependency has sent "end" |
| Deps.LaunchesAtMostOnce | internal/orch/orch.go:105-113 | when the deliveries are "end" events from distinct awaited dependencies, the readiness check fires on at most one of them, exactly when every awaited dependency has ended |
| Deps.StartsExactlyOnce | internal/orch/orch.go:100-113 | `Execute` followed by one "end" per distinct dependency launches the command exactly once if every dependency ends, and never otherwise |
| Deps.DependencyGraphStep | internal/orch/orch.go:181-186 | wiring one more command adds exactly the edges from it to its dependencies |
| Orch.Observer.OnNotify | internal/orch/orch.go:29-32 | the observer interface: a command observer's flags change as `Mark` says and it launches iff now ready; a UI observer counts one per "end" |
| Orch.UI.constructor | internal/orch/orch.go:155 | the completion counter starts at zero |
| Orch.UI.OnNotify | internal/orch/orch.go:144-149 | the completion counter grows by exactly one per "end" event and is unchanged otherwise |
| Orch.Command.Init | internal/orch/orch.go:52-70 | index, key and command text as given, no result, not done, no observers, `trackdep` the initial map of "dep" |
| Orch.Command.OnNotify | internal/orch/orch.go:73-79 | a non-"end" event changes nothing; an "end" sets only the sender's flag and launches the command iff all flags are now set |
| Orch.Command.Notify | internal/orch/orch.go:82-87 | every current observer gets the event once: each observing command has the sender's flag set and launches iff ready, each observing UI counts one completion; a "start" changes nothing |
| Orch.Command.Register | internal/orch/orch.go:90-92 | set semantics: the observer is a member afterwards, and registering twice gives one membership |
| Orch.Command.Deregister | internal/orch/orch.go:95-97 | the observer is not a member afterwards; removing a non-member changes nothing |
| Orch.Command.Ready | internal/orch/orch.go:107-111 | the readiness loop returns true iff every flag is set (an empty map is ready) |
| Orch.Command.ExecuteIfReady | internal/orch/orch.go:105-113 | the command is launched once iff every flag is set, and otherwise nothing happens |
| Orch.Command.Execute | internal/orch/orch.go:100-103 | offering a command for execution launches it iff it is ready |
| Orch.Command.Finish | internal/orch/orch.go:114-121 | the result is recorded, the command is done, and every observer receives its "end"; no other command's result or done flag changes |
| Orch.Command.SubscribeTo | command/command.go:130-134 | the command observes `notifier` and the graph holds the edge to it; an edge already present is not added twice |
| Orch.Command.RegisterNotifications | command/command.go:127-143 | fails iff some dependency names no command, with the message "missing dependency [key] -> [dep]" for such a dependency; on success every dependency is observed by the command and the graph gains exactly the edges to the dependencies; no observer set gains anything but this command |
| Driver.NewCommand | internal/orch/orch.go:171-174 | a fresh command initialised from the entry, with no result, not done and not launched, observed by the UI only |
| Driver.InitCommands | internal/orch/orch.go:168-176 | one fresh command per entry under its key, initialised from it, with distinct indices below n, no result, not done and not launched, each observed by the UI only |
| Driver.WireCommand | internal/orch/orch.go:182-185 | one wiring step, as `RegisterNotifications` states it, in terms of the input entry; on success each command is observed by the UI, by its dependents wired before, and by this command exactly when it names that command; the UI observes every command either way |
| Driver.DependentsSplit | internal/orch/orch.go:181-186 | the observers gained from a set of wired entries do not depend on the order in which the loop visits them: any one entry's subscription can be taken out |
| Driver.DependentsStep | internal/orch/orch.go:181-186 | wiring one more entry adds its command to the observers of exactly the commands it names |
| Driver.DependentsMembers | internal/orch/orch.go:128-129 | the observers gained from the wired entries are exactly their commands, each observing the commands its entry names |
| Driver.ObservedExactlyStep | internal/orch/orch.go:181-186 | one more wired entry carries "observed by the UI and exactly the dependents wired so far" over to that entry |
| Driver.WiredObservers | internal/orch/orch.go:128-129 | once every entry is wired, every dependent observes each of its dependencies, and every other observer of a command is the UI |
| Driver.WireAll | internal/orch/orch.go:180-186 | fails iff some entry names a missing dependency, reporting one such pair; otherwise the graph is exactly the dependency graph of the input and every command is observed by the UI and by exactly the commands whose entries name it; the UI observes every command either way |
| Driver.ExecuteAll | internal/orch/orch.go:195-198 | every command is offered once and launches iff it is ready |
| Driver.LaunchIfAcyclic | internal/orch/orch.go:188-198 | when the cycle check rejects the edge set nothing launches; otherwise exactly the commands without "dep" launch |
| Driver.Orchestrate | internal/orch/orch.go:178-198 | the outcome is a missing dependency iff the input has one, a cycle iff the wiring succeeded and the cycle check rejects the edge set, and a launch otherwise; only a launch starts anything; without a missing dependency every command is observed by the UI and by exactly the commands whose entries name it, and the UI observes every command either way |
| Driver.Start | internal/orch/orch.go:163-203 | one command per entry with distinct indices 0..n-1, with no result and not done, observed by the UI; the returned UI has counted no completions yet; missing dependency, cycle or launch as above; without a missing dependency every command is observed by the UI and by exactly the commands whose entries name it; nothing executes unless wiring succeeded and the cycle check accepts the edge set, and then exactly the commands without "dep" launch |

## Left out

- Running the shell command (`exec.Command`), the goroutine around it and the `sync.WaitGroup` accounting are left out. They are process I/O and concurrency. `Finish` is the sequential step that stands in for the end of a run. It requires only that the command has launched at least once. It is not limited to one call per launch, while the source's goroutine sends exactly one "end" per launch (internal/orch/orch.go:114-121).
- The goroutine scheduler is left out. `Start`'s contract covers only the order in which it offers every command before any command finishes. The class steps themselves allow any order. In the source a dependency can finish before a dependent's `Execute` runs. `execute` (internal/orch/orch.go:105-113) has no guard against a second launch, so the dependent then launches twice. Calling `Finish` on the dependency and then `Execute` on the dependent does the same in the model. `Done` can also run before `Add` in the source, and the model has no `sync.WaitGroup` to show that.
- `graph.Acyclic` and `graph.StrongComponents` come from a graph library that is not part of this model. The cycle check is the parameter `acyclic` of `Start`, applied to the recorded edge set. The printed strongly connected components are not modelled.
- The graph's vertex count (`graph.New(n)`) is not kept. Instead `Start` ensures that every index is below n.
- Console output (`fmt.Println`, `cast.ToString`) is left out. Only the `completedCount` arithmetic of the UI is kept.
- The `UI.OnNotify` of `command/command.go` only prints. It is covered by `Orch.UI.OnNotify` without its counter.
- `main.go` is I/O: argument checks, file reading and JSON decoding. Its driver loop duplicates `Start`.
- The type assertions in `Init` and the panics they raise on malformed input are left out. An entry arrives already decoded as `Definition(run, dep)`.
- Go's map iteration order is modelled by a nondeterministic choice. When several dependencies are missing, the contracts do not say which one is reported. They also do not say which registrations happened before the error.
- Orch.Command.RegisterNotifications: its ensures does not say that only the observer sets of the command's own dependencies change. Only its `modifies` frame (`Notifiers(commands)`) says so.
- Driver.Start: `internal/orch/orch.go` keeps its command map in a package variable, which keeps entries from an earlier call to `Start`. The model returns a fresh map per call.
- Orch.UI: `completedCount` is a package variable in `internal/orch/orch.go` (line 155). It is zeroed once per process and shared by every `UI`, so a second `Start` keeps counting from where the first stopped. The model makes it a field of each `UI`, starting at 0, so a second `Start` counts from 0 again.
- Error values are reduced to an optional message string. `Finish` takes the command's result as a parameter.
