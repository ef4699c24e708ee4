/**
 * The value-level view of one command's dependency tracking: the decoded input entry,
 * the lifecycle event, the `trackdep` map a command starts with, and what a sequence
 * of delivered events does to that map and to the readiness check.
 */
module Deps {
  import opened Wrappers
  import opened GoStrings

  /** A decoded input entry: the shell command ("run") and the optional comma-separated "dep" value. */
  datatype Definition = Definition(run: string, dep: Option<string>)

  /** A lifecycle event: the sender's key, the kind ("start" or "end") and its error (None for nil). */
  datatype Event = Event(key: string, evt: string, ret: Option<string>)

  /** The dependency names of an entry: the comma-split pieces of "dep", none without it. */
  function DepNames(dep: Option<string>): set<string>
  {
    match dep
    case None => {}
    case Some(s) => set p | p in Split(s, ',')
  }

  /** The `trackdep` map `Init` builds: one unsatisfied flag per dependency name. */
  function InitialTrackdep(dep: Option<string>): map<string, bool>
  {
    map d | d in DepNames(dep) :: false
  }

  /** The readiness condition: every flag is set (vacuously so for an empty map). */
  predicate AllSatisfied(trackdep: map<string, bool>)
  {
    forall d :: d in trackdep ==> trackdep[d]
  }

  /** The dependencies still waited for. */
  function Unsatisfied(trackdep: map<string, bool>): set<string>
  {
    set d | d in trackdep && !trackdep[d]
  }

  /** What `OnNotify` does to `trackdep`: an "end" event sets the sender's flag, any other kind is ignored. */
  function Mark(trackdep: map<string, bool>, e: Event): map<string, bool>
  {
    if e.evt == "end" then trackdep[e.key := true] else trackdep
  }

  /** `trackdep` after the events are delivered in order. */
  function Deliver(trackdep: map<string, bool>, events: seq<Event>): map<string, bool>
    decreases |events|
  {
    if events == [] then trackdep else Deliver(Mark(trackdep, events[0]), events[1..])
  }

  /** The senders of the "end" events among `events`. */
  function EndKeys(events: seq<Event>): set<string>
    decreases |events|
  {
    if events == [] then {}
    else (if events[0].evt == "end" then {events[0].key} else {}) + EndKeys(events[1..])
  }

  /** How many of the deliveries find the command ready, each of which launches it once more. */
  function Launches(trackdep: map<string, bool>, events: seq<Event>): nat
    decreases |events|
  {
    if events == [] then 0
    else
      var next := Mark(trackdep, events[0]);
      (if events[0].evt == "end" && AllSatisfied(next) then 1 else 0) + Launches(next, events[1..])
  }

  /** The edges from vertex `from` to the index of each of `deps` that has one. */
  function EdgesFrom(from: nat, deps: set<string>, index: map<string, nat>): set<(nat, nat)>
  {
    set d | d in deps && d in index :: (from, index[d])
  }

  /** The dependency graph over indices: an edge from each entry among `keys` to each dependency it names. */
  function DependencyGraph(input: map<string, Definition>, index: map<string, nat>, keys: set<string>): set<(nat, nat)>
  {
    set k, d | k in keys && k in input && k in index && d in DepNames(input[k].dep) && d in index :: (index[k], index[d])
  }

  /** Wiring one more entry adds exactly the edges from it to its dependencies. */
  lemma DependencyGraphStep(input: map<string, Definition>, index: map<string, nat>, keys: set<string>, k: string)
    requires k in input && k in index
    ensures DependencyGraph(input, index, keys + {k})
         == DependencyGraph(input, index, keys) + EdgesFrom(index[k], DepNames(input[k].dep), index)
  {
  }

  /** The error `RegisterNotifications` returns for a dependency that names no command. */
  function MissingDependencyMessage(key: string, dep: string): string
  {
    "missing dependency [" + key + "] -> [" + dep + "]"
  }

  /**
   * `Init`'s map: its keys are the pieces of "dep" split on ',' (duplicates collapsed,
   * nothing trimmed: joining the pieces gives "dep" back), every flag starts false, an
   * absent "dep" gives no key and an empty "dep" gives the single key "".
   */
  lemma InitialTrackdepShape(dep: Option<string>)
    ensures InitialTrackdep(dep).Keys == DepNames(dep)
    ensures forall d :: d in InitialTrackdep(dep) ==> !InitialTrackdep(dep)[d]
    ensures Unsatisfied(InitialTrackdep(dep)) == DepNames(dep)
    ensures dep.Some? ==> Join(Split(dep.value, ','), ',') == dep.value
    ensures dep.Some? ==> forall d :: d in DepNames(dep) ==> ',' !in d
    ensures dep == None ==> DepNames(dep) == {}
    ensures dep == Some("") ==> DepNames(dep) == {""}
  {
    if dep.Some? {
      JoinSplit(dep.value, ',');
      SplitPiecesHaveNoSeparator(dep.value, ',');
    }
  }

  /** A command is ready right after `Init` exactly when its entry has no "dep": a present "dep" always names something. */
  lemma ReadyAtStart(dep: Option<string>)
    ensures AllSatisfied(InitialTrackdep(dep)) <==> dep.None?
  {
    if dep.Some? {
      var first := Split(dep.value, ',')[0];
      assert first in DepNames(dep);
      assert !InitialTrackdep(dep)[first];
    }
  }

  /** Delivering an event sets at most the sender's flag and never clears one. */
  lemma MarkOnlySetsSender(trackdep: map<string, bool>, e: Event)
    ensures forall d :: d in trackdep ==> d in Mark(trackdep, e) && (trackdep[d] ==> Mark(trackdep, e)[d])
    ensures forall d :: d in Mark(trackdep, e) && d != e.key ==> d in trackdep && Mark(trackdep, e)[d] == trackdep[d]
    ensures e.evt == "end" ==> e.key in Mark(trackdep, e) && Mark(trackdep, e)[e.key]
    ensures e.evt != "end" ==> Mark(trackdep, e) == trackdep
  {
  }

  /** Flags are monotone along any sequence of deliveries. */
  lemma {:induction false} DeliverKeepsSatisfied(trackdep: map<string, bool>, events: seq<Event>)
    ensures trackdep.Keys <= Deliver(trackdep, events).Keys
    ensures forall d :: d in trackdep && trackdep[d] ==> Deliver(trackdep, events)[d]
    decreases |events|
  {
    if events != [] {
      DeliverKeepsSatisfied(Mark(trackdep, events[0]), events[1..]);
    }
  }

  /** The removal of the sender from the waited-for set is all an event does to it. */
  lemma UnsatisfiedAfterMark(trackdep: map<string, bool>, e: Event)
    ensures Unsatisfied(Mark(trackdep, e)) == if e.evt == "end" then Unsatisfied(trackdep) - {e.key} else Unsatisfied(trackdep)
  {
  }

  /** A command is ready after a sequence of deliveries exactly when every dependency it was waiting for has sent "end". */
  lemma {:induction false} ReadyIffAllEnded(trackdep: map<string, bool>, events: seq<Event>)
    ensures AllSatisfied(Deliver(trackdep, events)) <==> Unsatisfied(trackdep) <= EndKeys(events)
    decreases |events|
  {
    if events == [] {
      assert AllSatisfied(trackdep) <==> Unsatisfied(trackdep) == {} by {
        if !AllSatisfied(trackdep) {
          var d :| d in trackdep && !trackdep[d];
          assert d in Unsatisfied(trackdep);
        }
      }
    } else {
      var e := events[0];
      ReadyIffAllEnded(Mark(trackdep, e), events[1..]);
      UnsatisfiedAfterMark(trackdep, e);
    }
  }

  /** An empty waited-for set is the readiness condition. */
  lemma ReadyIffNothingUnsatisfied(trackdep: map<string, bool>)
    ensures AllSatisfied(trackdep) <==> Unsatisfied(trackdep) == {}
  {
    if !AllSatisfied(trackdep) {
      var d :| d in trackdep && !trackdep[d];
      assert d in Unsatisfied(trackdep);
    }
  }

  /**
   * When the deliveries are "end" events from distinct awaited dependencies, the
   * readiness check fires on at most one of them: the one that completes the awaited set.
   */
  lemma {:induction false} LaunchesAtMostOnce(trackdep: map<string, bool>, events: seq<Event>)
    requires forall i :: 0 <= i < |events| ==> events[i].evt == "end" && events[i].key in Unsatisfied(trackdep)
    requires forall i, j :: 0 <= i < j < |events| ==> events[i].key != events[j].key
    ensures Launches(trackdep, events) == if events != [] && Unsatisfied(trackdep) <= EndKeys(events) then 1 else 0
    decreases |events|
  {
    if events != [] {
      var e, rest := events[0], events[1..];
      var next := Mark(trackdep, e);
      UnsatisfiedAfterMark(trackdep, e);
      assert Unsatisfied(next) == Unsatisfied(trackdep) - {e.key};
      forall i | 0 <= i < |rest|
        ensures rest[i].evt == "end" && rest[i].key in Unsatisfied(next)
      {
        assert rest[i] == events[i + 1];
      }
      forall i, j | 0 <= i < j < |rest|
        ensures rest[i].key != rest[j].key
      {
        assert rest[i] == events[i + 1] && rest[j] == events[j + 1];
      }
      LaunchesAtMostOnce(next, rest);
      ReadyIffNothingUnsatisfied(next);
      if Unsatisfied(next) != {} && rest == [] {
        var d :| d in Unsatisfied(next);
        assert d !in EndKeys(events);
      }
    }
  }

  /**
   * A command initialised from `dep`, whose readiness check runs once from `Execute`
   * and then once per "end" of a distinct dependency, launches exactly once if every
   * dependency ends and never otherwise.
   */
  lemma StartsExactlyOnce(dep: Option<string>, events: seq<Event>)
    requires forall i :: 0 <= i < |events| ==> events[i].evt == "end" && events[i].key in DepNames(dep)
    requires forall i, j :: 0 <= i < j < |events| ==> events[i].key != events[j].key
    ensures (if AllSatisfied(InitialTrackdep(dep)) then 1 else 0) + Launches(InitialTrackdep(dep), events)
            == if DepNames(dep) <= EndKeys(events) then 1 else 0
  {
    var td := InitialTrackdep(dep);
    InitialTrackdepShape(dep);
    LaunchesAtMostOnce(td, events);
    ReadyIffNothingUnsatisfied(td);
  }
}
