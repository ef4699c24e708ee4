/**
 * The orchestrator's per-command dependency tracker and its validation driver.
 *
 * A `Command` tracks which of its dependencies have finished (`trackdep`), keeps a
 * set of observers it broadcasts its lifecycle events to, and launches itself once
 * every dependency has finished. `Start` builds the commands, wires each one as an
 * observer of its dependencies while recording the dependency graph, checks the
 * graph, and only then offers every command for execution.
 *
 * Events are delivered synchronously. A "start" broadcast changes no observer, so the
 * only cascade is: an "end" reaches a dependent, which sets one flag and re-runs its
 * readiness check. Running the shell command is replaced by `Finish`, the step that
 * records the outcome and broadcasts "end"; the ghost counter `launches` records how
 * often the readiness check succeeded, which is how often the command was launched.
 */
module Orch {
  import opened Wrappers
  import opened Deps
  import opened DepGraph

  /** An observer of a command's events, by identity: another command or the console updater. */
  datatype Observer = CommandObserver(cmd: Command) | UIObserver(ui: UI)
  {
    function Target(): object
    {
      match this
      case CommandObserver(c) => c
      case UIObserver(u) => u
    }

    /** The observer interface's one method: hands `e` to the command or the UI behind this observer. */
    method OnNotify(e: Event)
      modifies if e.evt == "end" then {Target()} else {}
      decreases Depth(e), 2
      ensures CommandObserver? ==>
        && cmd.trackdep == Mark(old(cmd.trackdep), e)
        && cmd.launches == old(cmd.launches) + (if e.evt == "end" && AllSatisfied(cmd.trackdep) then 1 else 0)
        && cmd.observers == old(cmd.observers) && cmd.ret == old(cmd.ret) && cmd.done == old(cmd.done)
      ensures UIObserver? ==> ui.completedCount == old(ui.completedCount) + (if e.evt == "end" then 1 else 0)
    {
      match this
      case CommandObserver(c) => c.OnNotify(e);
      case UIObserver(u) => u.OnNotify(e);
    }
  }

  /** How deep a delivery can cascade: an "end" may cause a "start" broadcast, a "start" causes nothing. */
  function Depth(e: Event): nat
  {
    if e.evt == "end" then 1 else 0
  }

  /** The index each command was given, by key. */
  function Indices(commands: map<string, Command>): map<string, nat>
  {
    map k | k in commands :: commands[k].idx
  }

  /** The console updater: it counts the "end" events it sees. */
  class UI {
    var completedCount: int

    constructor ()
      ensures completedCount == 0
    {
      completedCount := 0;
    }

    /** One more completion per "end" event; any other event changes nothing. */
    method OnNotify(e: Event)
      modifies if e.evt == "end" then {this} else {}
      ensures completedCount == old(completedCount) + (if e.evt == "end" then 1 else 0)
    {
      if e.evt == "end" {
        completedCount := completedCount + 1;
      }
    }
  }

  class Command {
    const idx: nat
    const key: string
    const cmd: string
    var ret: Option<string>
    var done: bool
    var observers: set<Observer>
    var trackdep: map<string, bool>
    /** How many times the readiness check found the command ready and launched it. */
    ghost var launches: nat

    /** The objects an "end" broadcast reaches. */
    ghost function Targets(): set<object>
      reads this
    {
      set o | o in observers :: o.Target()
    }

    /**
     * `Init`: a command with the given key and index, no observers, no result yet,
     * and one unsatisfied flag per comma-separated dependency name.
     */
    constructor Init(k: string, def: Definition, i: nat)
      ensures idx == i && key == k && cmd == def.run
      ensures ret == None && !done && observers == {}
      ensures trackdep == InitialTrackdep(def.dep)
      ensures launches == 0
    {
      var td: map<string, bool> := map[];
      if def.dep.Some? {
        var deps := GoStrings.Split(def.dep.value, ',');
        for j := 0 to |deps|
          invariant td == map d | d in deps[..j] :: false
        {
          assert deps[..j + 1] == deps[..j] + [deps[j]];
          td := td[deps[j] := false];
        }
        assert deps[..|deps|] == deps;
      }
      idx, key, cmd := i, k, def.run;
      ret, done := None, false;
      observers := {};
      trackdep := td;
      launches := 0;
    }

    /** Reacts to a dependency's event: an "end" satisfies the sender and re-runs the readiness check; other kinds are ignored. */
    method OnNotify(e: Event)
      modifies if e.evt == "end" then {this} else {}
      decreases Depth(e), 1
      ensures trackdep == Mark(old(trackdep), e)
      ensures launches == old(launches) + (if e.evt == "end" && AllSatisfied(trackdep) then 1 else 0)
      ensures observers == old(observers) && ret == old(ret) && done == old(done)
    {
      if e.evt == "end" {
        trackdep := trackdep[e.key := true];
        ExecuteIfReady();
      }
    }

    /**
     * Delivers `e` to every current observer once. An "end" sets the sender's flag in
     * every observing command (which may then launch) and counts one completion in
     * every observing UI; a "start" changes nothing.
     */
    method Notify(e: Event)
      modifies if e.evt == "end" then Targets() else {}
      decreases Depth(e), 3
      ensures observers == old(observers)
      ensures e.evt == "end" ==> forall c: Command :: CommandObserver(c) in observers ==>
        && c.trackdep == old(c.trackdep)[e.key := true]
        && c.launches == old(c.launches) + (if AllSatisfied(c.trackdep) then 1 else 0)
        && c.observers == old(c.observers) && c.ret == old(c.ret) && c.done == old(c.done)
      ensures e.evt == "end" ==> forall u: UI :: UIObserver(u) in observers ==>
        u.completedCount == old(u.completedCount) + 1
    {
      var pending := observers;
      while pending != {}
        invariant pending <= observers && observers == old(observers)
        invariant forall c: Command :: CommandObserver(c) in observers ==>
          c.observers == old(c.observers) && c.ret == old(c.ret) && c.done == old(c.done)
        invariant forall c: Command :: CommandObserver(c) in pending ==>
          c.trackdep == old(c.trackdep) && c.launches == old(c.launches)
        invariant e.evt == "end" ==> forall c: Command :: CommandObserver(c) in observers - pending ==>
          && c.trackdep == old(c.trackdep)[e.key := true]
          && c.launches == old(c.launches) + (if AllSatisfied(c.trackdep) then 1 else 0)
        invariant forall u: UI :: UIObserver(u) in pending ==> u.completedCount == old(u.completedCount)
        invariant e.evt == "end" ==> forall u: UI :: UIObserver(u) in observers - pending ==>
          u.completedCount == old(u.completedCount) + 1
        decreases pending
      {
        var o :| o in pending;
        o.OnNotify(e);
        pending := pending - {o};
      }
    }

    /** Adds `o` to the observers; a second registration of the same observer changes nothing. */
    method Register(o: Observer)
      modifies this`observers
      ensures observers == old(observers) + {o}
    {
      observers := observers + {o};
    }

    /** Removes `o` from the observers; removing a non-member changes nothing. */
    method Deregister(o: Observer)
      modifies this`observers
      ensures observers == old(observers) - {o}
    {
      observers := observers - {o};
    }

    /** The readiness loop: are all dependency flags set? */
    method Ready() returns (ready: bool)
      ensures ready <==> AllSatisfied(trackdep)
    {
      var pending := trackdep.Keys;
      while pending != {}
        invariant pending <= trackdep.Keys
        invariant forall d :: d in trackdep && d !in pending ==> trackdep[d]
        decreases pending
      {
        var d :| d in pending;
        if !trackdep[d] {
          return false;
        }
        pending := pending - {d};
      }
      return true;
    }

    /** `Execute`: offers the command for execution, which launches it if it is ready. */
    method Execute()
      modifies this`launches
      ensures launches == old(launches) + (if AllSatisfied(trackdep) then 1 else 0)
    {
      ExecuteIfReady();
    }

    /** The readiness check: when every flag is set, broadcast "start" and launch; otherwise do nothing. */
    method ExecuteIfReady()
      modifies this`launches
      decreases 1, 0
      ensures launches == old(launches) + (if AllSatisfied(trackdep) then 1 else 0)
    {
      var ready := Ready();
      if ready {
        Notify(Event(key, "start", None));
        launches := launches + 1;
      }
    }

    /**
     * The end of a launched run: records the command's result, marks it done and
     * broadcasts "end" with that result to every observer.
     */
    method Finish(r: Option<string>)
      requires launches > 0
      modifies this`ret, this`done, Targets()
      ensures ret == r && done && observers == old(observers)
      ensures forall c: Command :: CommandObserver(c) in observers ==>
        && c.trackdep == old(c.trackdep)[key := true]
        && c.launches == old(c.launches) + (if AllSatisfied(c.trackdep) then 1 else 0)
        && c.observers == old(c.observers)
        && (c != this ==> c.ret == old(c.ret) && c.done == old(c.done))
      ensures forall u: UI :: UIObserver(u) in observers ==>
        u.completedCount == old(u.completedCount) + 1
    {
      ret := r;
      done := true;
      Notify(Event(key, "end", ret));
    }

    /** One step of `RegisterNotifications`: observe `notifier` and record the edge to it, once. */
    method SubscribeTo(notifier: Command, g: Graph)
      modifies notifier`observers, g
      ensures notifier.observers == old(notifier.observers) + {CommandObserver(this)}
      ensures g.edges == old(g.edges) + {(idx, notifier.idx)}
    {
      notifier.Register(CommandObserver(this));
      var present := g.Edge(idx, notifier.idx);
      if !present {
        g.Add(idx, notifier.idx);
      }
    }

    /** The commands this one depends on, among `commands`. */
    ghost function Notifiers(commands: map<string, Command>): set<Command>
      reads this
    {
      set d | d in trackdep && d in commands :: commands[d]
    }

    /**
     * Wires this command to its dependencies: for each dependency name, either
     * report it missing, or register this command as an observer of that command
     * and add the edge from this command's index to the dependency's, if absent.
     * The names are taken in no particular order, so on an error some
     * registrations may already have been made.
     */
    method RegisterNotifications(commands: map<string, Command>, g: Graph) returns (err: Option<string>)
      modifies Notifiers(commands)`observers, g
      ensures err.None? <==> trackdep.Keys <= commands.Keys
      ensures err.Some? ==> exists d :: d in trackdep && d !in commands && err.value == MissingDependencyMessage(key, d)
      ensures err.None? ==> g.edges == old(g.edges) + EdgesFrom(idx, trackdep.Keys, Indices(commands))
      ensures err.Some? ==> old(g.edges) <= g.edges <= old(g.edges) + EdgesFrom(idx, trackdep.Keys, Indices(commands))
      ensures err.None? ==> forall d :: d in trackdep ==> CommandObserver(this) in commands[d].observers
      ensures forall k :: k in commands ==>
        old(commands[k].observers) <= commands[k].observers <= old(commands[k].observers) + {CommandObserver(this)}
    {
      var pending := trackdep.Keys;
      ghost var wired: set<string> := {};
      err := None;
      while pending != {} && err.None?
        invariant pending <= trackdep.Keys
        invariant err.None? ==> wired == trackdep.Keys - pending
        invariant wired <= trackdep.Keys && wired <= commands.Keys
        invariant err.Some? ==> exists d :: d in trackdep && d !in commands && err.value == MissingDependencyMessage(key, d)
        invariant g.edges == old(g.edges) + EdgesFrom(idx, wired, Indices(commands))
        invariant forall d :: d in wired ==> CommandObserver(this) in commands[d].observers
        invariant forall k :: k in commands ==>
          old(commands[k].observers) <= commands[k].observers <= old(commands[k].observers) + {CommandObserver(this)}
        decreases pending
      {
        var d :| d in pending;
        if d in commands {
          SubscribeTo(commands[d], g);
          wired := wired + {d};
        } else {
          err := Some(MissingDependencyMessage(key, d));
        }
        pending := pending - {d};
      }
    }
  }
}

module Driver {
  import opened Wrappers
  import opened Deps
  import opened DepGraph
  import opened Orch

  /** How a run ends: a configuration error found before anything runs, or every command offered for execution. */
  datatype Outcome = MissingDependency(message: string) | CyclicDependency | Launched

  /** Some entry names a dependency that is not an entry. */
  ghost predicate HasMissingDependency(input: map<string, Definition>)
  {
    exists k, d :: k in input && d in DepNames(input[k].dep) && d !in input
  }

  /** One command per entry, under the entry's key, initialised from that entry. */
  ghost predicate InitialisedFrom(input: map<string, Definition>, commands: map<string, Command>)
    reads commands.Values`trackdep
  {
    && (forall k :: k in commands <==> k in input)
    && (forall k :: k in commands ==>
          && commands[k].key == k && commands[k].cmd == input[k].run
          && commands[k].trackdep == InitialTrackdep(input[k].dep))
  }

  /** The commands carry distinct indices below `n`, the graph's vertex count. */
  ghost predicate Numbered(commands: map<string, Command>, n: nat)
  {
    && (forall k :: k in commands ==> commands[k].idx < n)
    && (forall k, k' :: k in commands && k' in commands && k != k' ==> commands[k].idx != commands[k'].idx)
  }

  /** The observer that wiring the entry under `k` adds to the command under `d`: the command under `k`, if it names `d`. */
  function Subscription(input: map<string, Definition>, commands: map<string, Command>, k: string, d: string): set<Observer>
  {
    if k in input && k in commands && d in DepNames(input[k].dep) then {CommandObserver(commands[k])} else {}
  }

  /** The observers that wiring the entries under `keys` adds to the command under `d`. */
  ghost function Dependents(input: map<string, Definition>, commands: map<string, Command>, keys: set<string>, d: string): set<Observer>
    decreases keys
  {
    if keys == {} then {}
    else
      var k :| k in keys;
      Dependents(input, commands, keys - {k}, d) + Subscription(input, commands, k, d)
  }

  /** Any one entry's subscription can be peeled off, whichever entry `Dependents` takes first. */
  lemma {:induction false} DependentsSplit(input: map<string, Definition>, commands: map<string, Command>, keys: set<string>, j: string, d: string)
    requires j in keys
    ensures Dependents(input, commands, keys, d) == Dependents(input, commands, keys - {j}, d) + Subscription(input, commands, j, d)
    decreases keys
  {
    var k :| k in keys && Dependents(input, commands, keys, d) == Dependents(input, commands, keys - {k}, d) + Subscription(input, commands, k, d);
    if k != j {
      DependentsSplit(input, commands, keys - {k}, j, d);
      DependentsSplit(input, commands, keys - {j}, k, d);
      assert keys - {k} - {j} == keys - {j} - {k};
    }
  }

  /** Wiring one more entry adds its command to the dependents of exactly the commands it names. */
  lemma DependentsStep(input: map<string, Definition>, commands: map<string, Command>, keys: set<string>, k: string)
    requires k !in keys
    ensures forall d ::
      Dependents(input, commands, keys + {k}, d) == Dependents(input, commands, keys, d) + Subscription(input, commands, k, d)
  {
    forall d
      ensures Dependents(input, commands, keys + {k}, d) == Dependents(input, commands, keys, d) + Subscription(input, commands, k, d)
    {
      DependentsSplit(input, commands, keys + {k}, k, d);
      assert keys + {k} - {k} == keys;
    }
  }

  /**
   * What `Dependents` holds: the command of every entry under `keys` that names `d`,
   * and nothing else; each such observer is found again under its command's key.
   */
  lemma {:induction false} DependentsMembers(input: map<string, Definition>, commands: map<string, Command>, keys: set<string>, d: string)
    requires forall k :: k in commands ==> commands[k].key == k
    ensures forall k :: k in keys && k in input && k in commands && d in DepNames(input[k].dep) ==>
      CommandObserver(commands[k]) in Dependents(input, commands, keys, d)
    ensures forall o :: o in Dependents(input, commands, keys, d) ==>
      && o.CommandObserver? && o.cmd.key in keys && o.cmd.key in input && o.cmd.key in commands
      && commands[o.cmd.key] == o.cmd && d in DepNames(input[o.cmd.key].dep)
    decreases keys
  {
    if keys != {} {
      var k :| k in keys && Dependents(input, commands, keys, d) == Dependents(input, commands, keys - {k}, d) + Subscription(input, commands, k, d);
      var rest := Dependents(input, commands, keys - {k}, d);
      DependentsMembers(input, commands, keys - {k}, d);
      forall k' | k' in keys && k' in input && k' in commands && d in DepNames(input[k'].dep)
        ensures CommandObserver(commands[k']) in Dependents(input, commands, keys, d)
      {
        if k' == k {
          assert CommandObserver(commands[k']) in Subscription(input, commands, k, d);
        } else {
          assert k' in keys - {k};
          assert CommandObserver(commands[k']) in rest;
        }
      }
      forall o | o in Dependents(input, commands, keys, d)
        ensures && o.CommandObserver? && o.cmd.key in keys && o.cmd.key in input && o.cmd.key in commands
                && commands[o.cmd.key] == o.cmd && d in DepNames(input[o.cmd.key].dep)
      {
        if o !in rest {
          assert o in Subscription(input, commands, k, d);
          assert k in input && k in commands && o == CommandObserver(commands[k]);
          assert o.cmd.key == k;
        }
      }
    }
  }

  /** One turn of `Start`'s first loop: a command initialised from the entry, observed by `ui`. */
  method NewCommand(k: string, def: Definition, i: nat, ui: UI) returns (c: Command)
    ensures fresh(c)
    ensures c.key == k && c.cmd == def.run && c.idx == i && c.trackdep == InitialTrackdep(def.dep)
    ensures c.observers == {UIObserver(ui)} && c.launches == 0
    ensures c.ret == None && !c.done
  {
    c := new Command.Init(k, def, i);
    c.Register(UIObserver(ui));
  }

  /** The first loop of `Start`: one command per entry, numbered 0..n-1 in visiting order, each observed by `ui`. */
  method InitCommands(input: map<string, Definition>, ui: UI) returns (commands: map<string, Command>)
    ensures InitialisedFrom(input, commands) && Numbered(commands, |input|)
    ensures forall k :: k in commands ==>
      fresh(commands[k]) && commands[k].observers == {UIObserver(ui)} && commands[k].launches == 0 &&
      commands[k].ret == None && !commands[k].done
  {
    commands := map[];
    var i := 0;
    var pending := input.Keys;
    while pending != {}
      invariant pending <= input.Keys
      invariant forall k :: k in commands <==> k in input && k !in pending
      invariant i + |pending| == |input.Keys|
      invariant forall k :: k in commands ==>
        && fresh(commands[k])
        && commands[k].key == k && commands[k].cmd == input[k].run
        && commands[k].trackdep == InitialTrackdep(input[k].dep)
        && commands[k].observers == {UIObserver(ui)} && commands[k].launches == 0
        && commands[k].ret == None && !commands[k].done
      invariant Numbered(commands, i)
      decreases pending
    {
      var k :| k in pending;
      var c := NewCommand(k, input[k], i, ui);
      commands := commands[k := c];
      i := i + 1;
      pending := pending - {k};
    }
    assert |input| == |input.Keys|;
  }

  /**
   * What the wiring loop keeps once the entries under `wired` are wired: none of them
   * names a missing dependency, the graph holds exactly their dependency edges, and
   * every command is observed by the UI and by exactly its dependents among them.
   */
  ghost predicate WiredSoFar(input: map<string, Definition>, commands: map<string, Command>, g: Graph, ui: UI, wired: set<string>)
    reads commands.Values`observers, g
  {
    && (forall k :: k in wired && k in input ==> DepNames(input[k].dep) <= input.Keys)
    && g.edges == DependencyGraph(input, Indices(commands), wired)
    && ObservedExactly(input, commands, ui, wired)
  }

  /** The UI observes every command. */
  ghost predicate ObservedByUI(commands: map<string, Command>, ui: UI)
    reads commands.Values`observers
  {
    forall d :: d in commands ==> UIObserver(ui) in commands[d].observers
  }

  /** Every command is observed by the UI and by exactly its dependents among the entries under `keys`. */
  ghost predicate ObservedExactly(input: map<string, Definition>, commands: map<string, Command>, ui: UI, keys: set<string>)
    reads commands.Values`observers
  {
    forall d :: d in commands ==> commands[d].observers == {UIObserver(ui)} + Dependents(input, commands, keys, d)
  }

  /**
   * The second loop of `Start`: wires every command, stopping at the first missing
   * dependency. Without an error every command is observed by the UI and by exactly
   * its dependents, and the graph has gained exactly the dependency edges.
   */
  method WireAll(input: map<string, Definition>, commands: map<string, Command>, g: Graph, ui: UI) returns (err: Option<string>)
    requires InitialisedFrom(input, commands) && g.edges == {}
    requires forall k :: k in commands ==> commands[k].observers == {UIObserver(ui)}
    modifies commands.Values`observers, g
    ensures err.None? <==> !HasMissingDependency(input)
    ensures err.Some? ==>
      exists k, d :: k in input && d in DepNames(input[k].dep) && d !in input && err.value == MissingDependencyMessage(k, d)
    ensures err.None? ==> g.edges == DependencyGraph(input, Indices(commands), input.Keys)
    ensures ObservedByUI(commands, ui)
    ensures err.None? ==> ObservedExactly(input, commands, ui, input.Keys)
  {
    var toWire := input.Keys;
    ghost var wired: set<string> := {};
    while toWire != {}
      invariant toWire <= input.Keys && wired == input.Keys - toWire
      invariant WiredSoFar(input, commands, g, ui, wired)
      decreases toWire
    {
      var k :| k in toWire;
      err := WireCommand(input, commands, g, ui, k, wired);
      if err.Some? {
        return;
      }
      DependencyGraphStep(input, Indices(commands), wired, k);
      ObservedExactlyStep(input, commands, ui, wired, k);
      TakeKey(input.Keys, toWire, wired, k);
      toWire := toWire - {k};
      wired := wired + {k};
    }
    assert wired == input.Keys;
    err := None;
  }

  /** Adding one entry's subscription to every command carries `ObservedExactly` over to that entry. */
  lemma ObservedExactlyStep(input: map<string, Definition>, commands: map<string, Command>, ui: UI,
                            wired: set<string>, k: string)
    requires k !in wired
    requires forall d :: d in commands ==>
      commands[d].observers == {UIObserver(ui)} + Dependents(input, commands, wired, d) + Subscription(input, commands, k, d)
    ensures ObservedExactly(input, commands, ui, wired + {k})
  {
    DependentsStep(input, commands, wired, k);
  }

  /**
   * Once every entry is wired, each command is observed exactly by the UI and by the
   * commands that name it: every dependent observes each of its dependencies, and any
   * other observer of a command is the UI.
   */
  lemma WiredObservers(input: map<string, Definition>, commands: map<string, Command>, ui: UI)
    requires InitialisedFrom(input, commands)
    requires ObservedExactly(input, commands, ui, input.Keys)
    ensures forall k, d :: k in input && d in commands && d in DepNames(input[k].dep) ==>
      CommandObserver(commands[k]) in commands[d].observers
    ensures forall d, o :: d in commands && o in commands[d].observers && o != UIObserver(ui) ==>
      && o.CommandObserver? && o.cmd.key in input && commands[o.cmd.key] == o.cmd
      && d in DepNames(input[o.cmd.key].dep)
  {
    forall d | d in commands
      ensures forall k :: k in input && d in DepNames(input[k].dep) ==> CommandObserver(commands[k]) in commands[d].observers
      ensures forall o :: o in commands[d].observers && o != UIObserver(ui) ==>
        && o.CommandObserver? && o.cmd.key in input && commands[o.cmd.key] == o.cmd
        && d in DepNames(input[o.cmd.key].dep)
    {
      DependentsMembers(input, commands, input.Keys, d);
    }
  }

  /** Moving one pending key over to the wired keys keeps the two sets complementary within `keys`. */
  lemma TakeKey(keys: set<string>, toWire: set<string>, wired: set<string>, k: string)
    requires toWire <= keys && wired == keys - toWire && k in toWire
    ensures toWire - {k} <= keys && wired + {k} == keys - (toWire - {k}) && k !in wired
  {
  }

  /** One turn of `Start`'s wiring loop: `RegisterNotifications` on the command under `k`. */
  method WireCommand(input: map<string, Definition>, commands: map<string, Command>, g: Graph, ui: UI, k: string,
                     ghost wired: set<string>) returns (err: Option<string>)
    requires (forall k' :: k' in commands <==> k' in input) && k in commands
    requires forall k' :: k' in commands ==> commands[k'].key == k'
    requires commands[k].trackdep == InitialTrackdep(input[k].dep)
    requires ObservedExactly(input, commands, ui, wired)
    modifies commands.Values`observers, g
    ensures err.None? <==> DepNames(input[k].dep) <= input.Keys
    ensures err.Some? ==> exists d :: d in DepNames(input[k].dep) && d !in input && err.value == MissingDependencyMessage(k, d)
    ensures err.None? ==> g.edges == old(g.edges) + EdgesFrom(Indices(commands)[k], DepNames(input[k].dep), Indices(commands))
    ensures err.None? ==> forall d :: d in DepNames(input[k].dep) ==> CommandObserver(commands[k]) in commands[d].observers
    ensures err.None? ==> forall d :: d in commands ==>
      commands[d].observers == old(commands[d].observers) + Subscription(input, commands, k, d)
    ensures forall k' :: k' in commands ==> old(commands[k'].observers) <= commands[k'].observers
    ensures ObservedByUI(commands, ui)
    ensures err.None? ==> forall d :: d in commands ==>
      commands[d].observers == {UIObserver(ui)} + Dependents(input, commands, wired, d) + Subscription(input, commands, k, d)
  {
    ghost var notifiers := commands[k].Notifiers(commands);
    err := commands[k].RegisterNotifications(commands, g);
    if err.None? {
      forall d | d in commands && d !in DepNames(input[k].dep)
        ensures commands[d].observers == old(commands[d].observers)
      {
        assert commands[d] !in notifiers;
      }
    }
  }

  /** The last loop of `Start`: `Execute` on every command. */
  method ExecuteAll(commands: map<string, Command>)
    modifies commands.Values`launches
    ensures forall k :: k in commands ==>
      commands[k].launches == old(commands[k].launches) + (if AllSatisfied(commands[k].trackdep) then 1 else 0)
  {
    var toRun := commands.Values;
    while toRun != {}
      invariant toRun <= commands.Values
      invariant forall c :: c in commands.Values ==>
        c.launches == old(c.launches) + (if c in toRun || !AllSatisfied(c.trackdep) then 0 else 1)
      decreases toRun
    {
      var c :| c in toRun;
      c.Execute();
      toRun := toRun - {c};
    }
  }

  /**
   * The tail of `Start` once every dependency is wired: the cycle check, and when it
   * passes, one `Execute` per command, which launches exactly the commands without "dep".
   */
  method LaunchIfAcyclic(input: map<string, Definition>, commands: map<string, Command>, g: Graph,
                         acyclic: set<(nat, nat)> -> bool) returns (outcome: Outcome)
    requires InitialisedFrom(input, commands)
    requires forall k :: k in commands ==> commands[k].launches == 0
    modifies commands.Values`launches
    ensures outcome == if acyclic(g.edges) then Launched else CyclicDependency
    ensures forall k :: k in commands ==>
      commands[k].launches == if outcome.Launched? && input[k].dep.None? then 1 else 0
  {
    if !acyclic(g.edges) {
      return CyclicDependency;
    }
    forall k | k in commands
      ensures AllSatisfied(commands[k].trackdep) <==> input[k].dep.None?
    {
      ReadyAtStart(input[k].dep);
    }
    ExecuteAll(commands);
    outcome := Launched;
  }

  /**
   * `Start` once the commands exist: builds the graph, wires every command, runs the
   * cycle check and, when it passes, executes every command.
   */
  method Orchestrate(input: map<string, Definition>, commands: map<string, Command>, ui: UI,
                     acyclic: set<(nat, nat)> -> bool) returns (g: Graph, outcome: Outcome)
    requires InitialisedFrom(input, commands)
    requires forall k :: k in commands ==> commands[k].launches == 0 && commands[k].observers == {UIObserver(ui)}
    modifies commands.Values`observers, commands.Values`launches
    ensures fresh(g)
    ensures InitialisedFrom(input, commands)
    ensures ObservedByUI(commands, ui)
    ensures !outcome.MissingDependency? ==> ObservedExactly(input, commands, ui, input.Keys)
    ensures outcome.MissingDependency? <==> HasMissingDependency(input)
    ensures outcome.MissingDependency? ==>
      exists k, d :: k in input && d in DepNames(input[k].dep) && d !in input && outcome.message == MissingDependencyMessage(k, d)
    ensures !outcome.MissingDependency? ==> g.edges == DependencyGraph(input, Indices(commands), input.Keys)
    ensures outcome.CyclicDependency? <==> !HasMissingDependency(input) && !acyclic(g.edges)
    ensures outcome.Launched? <==> !HasMissingDependency(input) && acyclic(g.edges)
    ensures forall k :: k in commands ==>
      commands[k].launches == if outcome.Launched? && input[k].dep.None? then 1 else 0
  {
    g := new Graph();
    var err := WireAll(input, commands, g, ui);
    if err.Some? {
      outcome := MissingDependency(err.value);
    } else {
      outcome := LaunchIfAcyclic(input, commands, g, acyclic);
    }
  }

  /**
   * `Start`: builds one command per entry with distinct indices 0..n-1 and the UI
   * as an observer of each, wires every command to its dependencies, and offers
   * every command for execution only if no dependency is missing and the graph
   * passes the cycle check (`acyclic` stands for the graph library's `Acyclic`).
   */
  method Start(input: map<string, Definition>, acyclic: set<(nat, nat)> -> bool)
    returns (commands: map<string, Command>, ui: UI, g: Graph, outcome: Outcome)
    ensures fresh(ui) && fresh(g) && ui.completedCount == 0
    ensures forall k :: k in commands ==> fresh(commands[k])
    ensures InitialisedFrom(input, commands) && Numbered(commands, |input|)
    ensures forall k :: k in commands ==> commands[k].ret == None && !commands[k].done
    ensures ObservedByUI(commands, ui)
    ensures !outcome.MissingDependency? ==> ObservedExactly(input, commands, ui, input.Keys)
    ensures outcome.MissingDependency? <==> HasMissingDependency(input)
    ensures outcome.MissingDependency? ==>
      exists k, d :: k in input && d in DepNames(input[k].dep) && d !in input && outcome.message == MissingDependencyMessage(k, d)
    ensures !outcome.MissingDependency? ==> g.edges == DependencyGraph(input, Indices(commands), input.Keys)
    ensures outcome.CyclicDependency? <==> !HasMissingDependency(input) && !acyclic(g.edges)
    ensures outcome.Launched? <==> !HasMissingDependency(input) && acyclic(g.edges)
    ensures forall k :: k in commands ==>
      commands[k].launches == if outcome.Launched? && input[k].dep.None? then 1 else 0
  {
    ui := new UI();
    commands := InitCommands(input, ui);
    g, outcome := Orchestrate(input, commands, ui, acyclic);
  }
}
