/** Stopping at a size target: the shared size estimate under concurrent callers, the iterator that ends
early, and the root of what was read. */
module EarlyStop {
  import opened Wrappers
  import opened TreeSpec
  import opened BuilderSteps
  import opened StackTrie
  import opened TrieRun
  import Pipeline

  // ----- the size estimate

  /** A call of EstimatedActual. `floor` is the published maximum when the call began. The estimate is
  arbitrary, which covers every byte count and every recalibration of the ratio. */
  datatype Call =
    | Waiting(floor: nat, est: nat)
    | Read(floor: nat, est: nat, prev: nat)
    | Returned(floor: nat, result: nat)

  /** Published maximum and all calls so far. */
  datatype Tracker = Tracker(lastReport: nat, calls: seq<Call>)

  datatype Action = Begin(est: nat) | Load(t: nat) | CompareAndSwap(t: nat)

  predicate CanAct(k: Tracker, a: Action) {
    match a
    case Begin(_) => true
    case Load(t) => t < |k.calls| && k.calls[t].Waiting?
    case CompareAndSwap(t) => t < |k.calls| && k.calls[t].Read?
  }

  function Act(k: Tracker, a: Action): Tracker
    requires CanAct(k, a)
  {
    match a
    case Begin(est) => k.(calls := k.calls + [Waiting(k.lastReport, est)])
    case Load(t) =>
      var c := k.calls[t];
      if c.est <= k.lastReport then k.(calls := k.calls[t := Returned(c.floor, k.lastReport)])
      else k.(calls := k.calls[t := Read(c.floor, c.est, k.lastReport)])
    case CompareAndSwap(t) =>
      var c := k.calls[t];
      if k.lastReport == c.prev then Tracker(c.est, k.calls[t := Returned(c.floor, c.est)])
      else k.(calls := k.calls[t := Waiting(c.floor, c.est)])
  }

  /** A call never returns less than what was published when it began, nor more than what is published
  now; a pending swap would raise the maximum. */
  ghost predicate CallsOk(k: Tracker) {
    forall t :: 0 <= t < |k.calls| ==>
      match k.calls[t]
      case Waiting(floor, _) => floor <= k.lastReport
      case Read(floor, est, prev) => floor <= prev <= k.lastReport && prev < est
      case Returned(floor, result) => floor <= result <= k.lastReport
  }

  lemma {:induction false} ActKeepsCalls(k: Tracker, a: Action)
    requires CallsOk(k) && CanAct(k, a)
    ensures CallsOk(Act(k, a)) && k.lastReport <= Act(k, a).lastReport
  {
  }

  function Run(k: Tracker, actions: seq<Action>): Option<Tracker> {
    if actions == [] then Some(k) else
      var p := Run(k, actions[..|actions| - 1]);
      if p.Some? && CanAct(p.value, actions[|actions| - 1]) then Some(Act(p.value, actions[|actions| - 1])) else None
  }

  /** The published maximum never falls, earlier calls stay, and results stay. */
  lemma {:induction false} RunIsMonotone(k: Tracker, actions: seq<Action>)
    requires CallsOk(k) && Run(k, actions).Some?
    ensures var m := Run(k, actions).value;
      && CallsOk(m) && k.lastReport <= m.lastReport && |k.calls| <= |m.calls|
      && (forall t :: 0 <= t < |k.calls| && k.calls[t].Returned? ==> m.calls[t] == k.calls[t])
      && (forall t :: |k.calls| <= t < |m.calls| ==> k.lastReport <= m.calls[t].floor)
  {
    if actions != [] {
      var init := actions[..|actions| - 1];
      RunIsMonotone(k, init);
      ActKeepsCalls(Run(k, init).value, actions[|actions| - 1]);
    }
  }

  /** ShouldStop is sticky across all threads: once any call has returned at least the target, every call
  that begins later returns at least the target, whatever its own estimate says. */
  lemma {:induction false} ShouldStopSticks(k: Tracker, actions: seq<Action>, t: nat, u: nat, target: nat)
    requires CallsOk(k) && Run(k, actions).Some?
    requires t < |k.calls| && k.calls[t].Returned? && k.calls[t].result >= target
    requires |k.calls| <= u < |Run(k, actions).value.calls| && Run(k, actions).value.calls[u].Returned?
    ensures Run(k, actions).value.calls[u].result >= target
  {
    RunIsMonotone(k, actions);
  }

  /** A call returns the greater of its own estimate and the value published at that moment, and leaves
  that value published; no other step changes what is published. */
  lemma {:induction false} SeesOwnEstimate(k: Tracker, a: Action, t: nat)
    requires CallsOk(k) && CanAct(k, a) && t < |k.calls| && !k.calls[t].Returned? && Act(k, a).calls[t].Returned?
    ensures var own, m := k.calls[t].est, Act(k, a);
      && m.calls[t].result == m.lastReport == (if own >= k.lastReport then own else k.lastReport)
      && (forall u :: 0 <= u < |k.calls| && u != t ==> m.calls[u] == k.calls[u])
  {
  }

  /** The estimates of the calls begun in a run, in the order of their beginnings. */
  function Begun(actions: seq<Action>): seq<nat> {
    if actions == [] then [] else
      var a := actions[|actions| - 1];
      Begun(actions[..|actions| - 1]) + if a.Begin? then [a.est] else []
  }

  lemma {:induction false} BegunFrom(actions: seq<Action>)
    ensures forall est :: est in Begun(actions) <==> Begin(est) in actions
    decreases |actions|
  {
    if actions != [] {
      var init, a := actions[..|actions| - 1], actions[|actions| - 1];
      BegunFrom(init);
      assert actions == init + [a];
    }
  }

  /** v is 0 or the estimate of a call that has returned. */
  ghost predicate FromReturned(k: Tracker, ests: seq<nat>, v: nat) {
    v == 0 || exists u :: 0 <= u < |k.calls| && u < |ests| && k.calls[u].Returned? && ests[u] == v
  }

  /** Call t works with estimate t, and everything published or returned is the estimate of a call that has
  returned, and no less than the call's own. */
  ghost predicate Sourced(k: Tracker, ests: seq<nat>) {
    && |k.calls| == |ests|
    && FromReturned(k, ests, k.lastReport)
    && forall t :: 0 <= t < |ests| ==> CallSourced(k, ests, t)
  }

  ghost predicate CallSourced(k: Tracker, ests: seq<nat>, t: int) {
    0 <= t < |k.calls| && t < |ests| &&
    if k.calls[t].Returned? then ests[t] <= k.calls[t].result && FromReturned(k, ests, k.calls[t].result)
    else k.calls[t].est == ests[t]
  }

  lemma {:induction false} ReturnedStay(k: Tracker, a: Action, ests: seq<nat>, more: seq<nat>, v: nat)
    requires CanAct(k, a) && |k.calls| == |ests| && FromReturned(k, ests, v)
    ensures FromReturned(Act(k, a), ests + more, v)
  {
    if v != 0 {
      var u :| 0 <= u < |k.calls| && k.calls[u].Returned? && ests[u] == v;
      assert Act(k, a).calls[u].Returned? && (ests + more)[u] == v;
    }
  }

  /** A step that does not touch call t. */
  lemma {:induction false} CallKeepsSource(k: Tracker, a: Action, ests: seq<nat>, more: seq<nat>, t: nat)
    requires CanAct(k, a) && |k.calls| == |ests| && CallSourced(k, ests, t) && Act(k, a).calls[t] == k.calls[t]
    ensures CallSourced(Act(k, a), ests + more, t)
  {
    if k.calls[t].Returned? { ReturnedStay(k, a, ests, more, k.calls[t].result); }
    hide FromReturned;
  }

  lemma {:induction false} BeginKeepsSource(k: Tracker, ests: seq<nat>, est: nat)
    requires Sourced(k, ests)
    ensures Sourced(Act(k, Begin(est)), ests + [est])
  {
    hide FromReturned;
    var m := Act(k, Begin(est));
    ReturnedStay(k, Begin(est), ests, [est], k.lastReport);
    assert CallSourced(m, ests + [est], |ests|);
    hide CallSourced;
    forall t | 0 <= t < |ests| ensures CallSourced(m, ests + [est], t) {
      CallKeepsSource(k, Begin(est), ests, [est], t);
    }
  }

  /** The call that a step moves. */
  lemma {:induction false} MovedCall(k: Tracker, a: Action, ests: seq<nat>)
    requires CallsOk(k) && CanAct(k, a) && Sourced(k, ests) && !a.Begin?
    ensures var m, t := Act(k, a), a.t;
      && m.calls == k.calls[t := m.calls[t]]
      && (m.lastReport == k.lastReport || (m.calls[t].Returned? && m.lastReport == ests[t]))
      && if m.calls[t].Returned? then ests[t] <= m.calls[t].result == m.lastReport else m.calls[t].est == ests[t]
  {
    hide FromReturned;
    assert CallSourced(k, ests, a.t);
  }

  lemma {:induction false} MoveKeepsSource(k: Tracker, a: Action, ests: seq<nat>)
    requires CallsOk(k) && CanAct(k, a) && Sourced(k, ests) && !a.Begin?
    ensures Sourced(Act(k, a), ests)
  {
    var m := Act(k, a);
    MovedCall(k, a, ests);
    ReturnedStay(k, a, ests, [], k.lastReport);
    assert ests + [] == ests;
    assert FromReturned(m, ests, m.lastReport);
    hide FromReturned, CallsOk, CanAct, Act;
    assert CallSourced(m, ests, a.t);
    hide CallSourced;
    forall t | 0 <= t < |ests| && t != a.t ensures CallSourced(m, ests, t) {
      CallKeepsSource(k, a, ests, [], t);
    }
  }

  lemma {:induction false} RunIsSourced(actions: seq<Action>)
    requires Run(Tracker(0, []), actions).Some?
    ensures CallsOk(Run(Tracker(0, []), actions).value)
    ensures Sourced(Run(Tracker(0, []), actions).value, Begun(actions))
    decreases |actions|
  {
    hide Sourced, CallsOk;
    if actions != [] {
      var init, a := actions[..|actions| - 1], actions[|actions| - 1];
      RunIsSourced(init);
      var k := Run(Tracker(0, []), init).value;
      ActKeepsCalls(k, a);
      if a.Begin? { BeginKeepsSource(k, Begun(init), a.est); } else { MoveKeepsSource(k, a, Begun(init)); }
      assert !a.Begin? ==> Begun(actions) == Begun(init);
    } else {
      NothingBegun();
    }
  }

  lemma {:induction false} NothingBegun()
    ensures CallsOk(Tracker(0, [])) && Sourced(Tracker(0, []), [])
  {
  }

  /** In every run of a new tracker the published value is the greatest estimate of the calls that have
  returned, 0 if there is none; every result is the estimate of a call of that run and at least the call's
  own. */
  lemma {:induction false} PublishedIsGreatest(actions: seq<Action>)
    requires Run(Tracker(0, []), actions).Some?
    ensures var k, ests := Run(Tracker(0, []), actions).value, Begun(actions);
      && |k.calls| == |ests|
      && (k.lastReport == 0 || exists u :: 0 <= u < |ests| && k.calls[u].Returned? && ests[u] == k.lastReport)
      && (k.lastReport == 0 || Begin(k.lastReport) in actions)
      && (forall t :: 0 <= t < |ests| && k.calls[t].Returned? ==>
            && ests[t] <= k.calls[t].result <= k.lastReport
            && (k.calls[t].result == 0 || Begin(k.calls[t].result) in actions))
  {
    hide Run;
    RunIsSourced(actions);
    BegunFrom(actions);
    var k, ests := Run(Tracker(0, []), actions).value, Begun(actions);
    forall t | 0 <= t < |ests| && k.calls[t].Returned?
      ensures ests[t] <= k.calls[t].result <= k.lastReport
      ensures k.calls[t].result == 0 || Begin(k.calls[t].result) in actions
    {
      assert CallSourced(k, ests, t);
    }
  }

  /** The target is reached exactly when a call whose estimate reaches it has returned, so as long as every
  estimate begun is below the target no call asks to stop. */
  lemma {:induction false} ReachedIff(actions: seq<Action>, target: nat)
    requires Run(Tracker(0, []), actions).Some? && target > 0
    ensures var k, ests := Run(Tracker(0, []), actions).value, Begun(actions);
      && |k.calls| == |ests|
      && (k.lastReport >= target <==> exists u :: 0 <= u < |ests| && k.calls[u].Returned? && ests[u] >= target)
      && ((forall est: nat :: Begin(est) in actions ==> est < target) ==>
            forall t :: 0 <= t < |ests| && k.calls[t].Returned? ==> k.calls[t].result < target)
  {
    hide Run;
    PublishedIsGreatest(actions);
  }

  // ----- the iterator

  /** Wraps a sorted source and ends early once asked to stop. */
  class StoppableIterator {
    const source: seq<TrieEntry>
    var yielded: nat
    var stopped: bool

    constructor (source: seq<TrieEntry>)
      ensures this.source == source && yielded == 0 && !stopped
    {
      this.source := source;
      yielded, stopped := 0, false;
    }

    /** shouldStop is the answer of the stop predicate at the time of the call. */
    method Next(shouldStop: bool) returns (more: bool)
      requires yielded <= |source|
      modifies this
      ensures stopped == (old(stopped) || shouldStop)
      ensures more == (!stopped && old(yielded) < |source|)
      ensures yielded == old(yielded) + (if more then 1 else 0)
    {
      if stopped { return false; }
      if shouldStop {
        stopped := true;
        return false;
      }
      more := yielded < |source|;
      if more { yielded := yielded + 1; }
    }
  }

  lemma {:induction false} OrderedPrefix(entries: seq<TrieEntry>, n: nat)
    requires OrderedStems(entries) && n <= |entries|
    ensures OrderedStems(entries[..n])
  {
  }

  /** How many entries are read from entry i on: up to the first call that is told to stop. answers(i) is
  what the stop predicate says at call i. */
  function StopAt(source: seq<TrieEntry>, answers: nat -> bool, i: nat): (n: nat)
    requires i <= |source|
    ensures i <= n <= |source|
    ensures forall j: nat :: i <= j < n ==> !answers(j)
    ensures n < |source| ==> answers(n)
    decreases |source| - i
  {
    if i == |source| || answers(i) then i else StopAt(source, answers, i + 1)
  }

  /** The part of the source that is read. */
  function UntilStop(source: seq<TrieEntry>, answers: nat -> bool): seq<TrieEntry> {
    source[..StopAt(source, answers, 0)]
  }

  /** Reads until the iterator ends. */
  method ReadUntilStopped(source: seq<TrieEntry>, answers: nat -> bool) returns (read: seq<TrieEntry>)
    ensures read == UntilStop(source, answers)
  {
    var it := new StoppableIterator(source);
    read := [];
    while true
      invariant it.source == source && it.yielded == |read| <= |source| && !it.stopped
      invariant read == source[..|read|]
      invariant StopAt(source, answers, |read|) == StopAt(source, answers, 0)
      decreases |source| - it.yielded
    {
      var more := it.Next(answers(it.yielded));
      if !more { return; }
      read := read + [source[it.yielded - 1]];
    }
  }

  /** The reader's part: the entries up to the stop, cut into stems; the last one may be incomplete. */
  method ReadWork(source: seq<TrieEntry>, answers: nat -> bool) returns (work: seq<StemWork>)
    requires OrderedStems(source)
    ensures IsGrouping(work, UntilStop(source, answers))
  {
    hide IsGrouping, StopAt;
    var read := ReadUntilStopped(source, answers);
    OrderedPrefix(source, StopAt(source, answers, 0));
    work := ReadStems(read);
  }

  /** A run of the pipeline that is stopped at any point, even inside a stem: whatever the interleaving, a run
  that succeeds on what its reader read yields the root and the store of the recursive tree over exactly
  those entries. */
  method BuildUntilStopped(
    source: seq<TrieEntry>, answers: nat -> bool, c: Pipeline.Config, steps: seq<Pipeline.Step>,
    groupDepth: nat, w: TrieNodeWriter?) returns (r: Outcome)
    requires OrderedStems(source) && IsGrouping(c.work, UntilStop(source, answers))
    requires Pipeline.After(c, steps).Some? && Pipeline.Succeeded(Pipeline.After(c, steps).value)
    requires w != null ==> w.store == map[] && w.nodes == 0
    modifies if w == null then {} else {w}
    ensures r == if Fits(Hashed(c.work), groupDepth) then Done(Root(Hashed(c.work), groupDepth)) else Panic
    ensures r.Done? && w != null ==> FinalStore(w.store, Hashed(c.work), groupDepth) && w.nodes == |w.store|
  {
    hide TreeSpec.Node, TreeSpec.Under, BuilderSteps.Fits, BuilderSteps.FinalStore, TreeSpec.Ascending,
      OrderedStems, Hashed, Pipeline.After, Pipeline.Succeeded, StopAt;
    var work := ReadWork(source, answers);
    GroupingIsUnique(work, c.work, UntilStop(source, answers));
    r := Pipeline.BuildFromRun(c.(work := work), steps, groupDepth, w);
  }
}
