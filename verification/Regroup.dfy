/** The second route to the grouped layout: rewriting an ungrouped store group by group. */
module Regroup {
  import opened Stems
  import opened TreeSpec
  import opened Groups
  import opened BuilderSpec
  import opened BuilderSteps
  import opened GroupNodes
  import opened TrieReader
  import opened TrieRun

  const MAX_GROUP_DEPTH: nat := 8

  /** The children of the group at p with their hashes in the ungrouped tree. */
  ghost function UngroupedSlots(s: seq<Item>, p: Path, gd: nat): map<nat, Hash> {
    map t: nat | t < Pow2(gd) && Under(s, Child(p, t, gd)) != [] :: Node(s, Child(p, t, gd), 0)
  }

  /** The node a regrouped store holds at p. */
  ghost function RegroupedAt(s: seq<Item>, p: Path, gd: nat): TrieNode {
    var u := Under(s, p);
    if |u| == 1 then StemNode(u[0].stem, u[0].entries)
    else GroupNode(gd, ChildList(UngroupedSlots(s, p, gd), Pow2(gd)))
  }

  // ----- collecting the children of one group

  datatype StackEntry = StackEntry(path: Path, relDepth: nat, position: nat)

  /** An entry stands for a node of the group at p that is reached through shared nodes only. */
  ghost predicate EntryOk(s: seq<Item>, p: Path, e: StackEntry, gd: nat) {
    && p <= e.path && |e.path| == |p| + e.relDepth && e.relDepth <= gd
    && e.position == SlotOf(e.path[|p|..])
    && (e.relDepth > 0 ==> |Under(s, e.path[..|e.path| - 1])| >= 2)
  }

  ghost predicate Covered(stack: seq<StackEntry>, q: Path) {
    exists i :: 0 <= i < |stack| && stack[i].path <= q
  }

  /** What has been collected so far: every non-empty slot not covered by a pending entry. */
  ghost predicate Collected(m: map<nat, Hash>, stack: seq<StackEntry>, s: seq<Item>, p: Path, gd: nat) {
    forall t: nat ::
      && (t in m <==> t < Pow2(gd) && Under(s, Child(p, t, gd)) != [] && !Covered(stack, Child(p, t, gd)))
      && (t in m ==> m[t] == Node(s, Child(p, t, gd), 0))
  }

  lemma {:induction false} StoredUngrouped(s: seq<Item>, q: Path)
    requires |q| <= MAX_DEPTH && Under(s, q) != [] && (q != [] ==> |Under(s, q[..|q| - 1])| >= 2)
    ensures Stored(s, q, 0)
  {
    hide TreeSpec.Under;
    forall k | 0 <= k < |q| ensures |Under(s, q[..k])| >= 2 {
      assert q[..k] <= q[..|q| - 1];
      UnderAntitone(s, q[..k], q[..|q| - 1]);
    }
  }

  lemma {:induction false} CoveredSnoc(stack: seq<StackEntry>, e: StackEntry, q: Path)
    ensures Covered(stack + [e], q) <==> Covered(stack, q) || e.path <= q
  {
    if Covered(stack, q) {
      var i :| 0 <= i < |stack| && stack[i].path <= q;
      assert (stack + [e])[i].path <= q;
    }
    if e.path <= q { assert (stack + [e])[|stack|].path <= q; }
  }

  lemma {:induction false} PathHalves(p: Path, q: Path)
    requires p <= q && |p| < |q|
    ensures p + [false] <= q <==> !q[|p|]
    ensures p + [true] <= q <==> q[|p|]
  {
    assert (p + [false])[|p|] == false && (p + [true])[|p|] == true;
    assert q[..|p| + 1] == p + [q[|p|]];
  }

  ghost predicate Disjoint(stack: seq<StackEntry>) {
    forall i, j :: 0 <= i < j < |stack| ==> !(stack[i].path <= stack[j].path) && !(stack[j].path <= stack[i].path)
  }

  ghost predicate EntriesOk(stack: seq<StackEntry>, s: seq<Item>, p: Path, gd: nat) {
    forall i :: 0 <= i < |stack| ==> EntryOk(s, p, stack[i], gd)
  }

  /** Two prefixes of one path are comparable. */
  lemma {:induction false} Comparable(a: Path, b: Path, q: Path)
    requires a <= q && b <= q
    ensures a <= b || b <= a
  {
    assert a == q[..|a|] && b == q[..|b|];
    assert |a| <= |b| ==> q[..|b|][..|a|] == q[..|a|];
    assert |b| <= |a| ==> q[..|a|][..|b|] == q[..|b|];
  }

  lemma {:induction false} NotBothPrefixes(a: Path, b: Path, q: Path)
    requires !(a <= b) && !(b <= a) && b <= q
    ensures !(a <= q)
  {
    if a <= q { Comparable(a, b, q); }
  }

  lemma {:induction false} NotCoveredTwice(rest: seq<StackEntry>, e: StackEntry, q: Path)
    requires Disjoint(rest + [e]) && e.path <= q
    ensures !Covered(rest, q)
  {
    var st := rest + [e];
    assert st[|rest|] == e;
    forall i | 0 <= i < |rest| ensures !(rest[i].path <= q) {
      assert st[i] == rest[i];
      NotBothPrefixes(rest[i].path, e.path, q);
    }
  }

  /** An entry with nothing under it contributes nothing. */
  lemma {:induction false} DropEmpty(
    m: map<nat, Hash>, rest: seq<StackEntry>, e: StackEntry, s: seq<Item>, p: Path, gd: nat)
    requires Collected(m, rest + [e], s, p, gd) && Under(s, e.path) == []
    ensures Collected(m, rest, s, p, gd)
  {
    hide TreeSpec.Under, TreeSpec.Node, Covered, Groups.Child;
    forall t: nat ensures t in m <==>
        t < Pow2(gd) && Under(s, Child(p, t, gd)) != [] && !Covered(rest, Child(p, t, gd)) {
      CoveredSnoc(rest, e, Child(p, t, gd));
      if e.path <= Child(p, t, gd) { UnderAntitone(s, e.path, Child(p, t, gd)); }
    }
  }

  /** An entry with a single non-empty slot under it contributes that slot. */
  lemma {:induction false} TakeSlot(
    m: map<nat, Hash>, rest: seq<StackEntry>, e: StackEntry, s: seq<Item>, p: Path, t0: nat, gd: nat)
    requires Collected(m, rest + [e], s, p, gd) && Disjoint(rest + [e])
    requires t0 < Pow2(gd) && e.path <= Child(p, t0, gd) && Under(s, Child(p, t0, gd)) != []
    requires forall t: nat :: t < Pow2(gd) && e.path <= Child(p, t, gd) && Under(s, Child(p, t, gd)) != [] ==> t == t0
    ensures Collected(m[t0 := Node(s, Child(p, t0, gd), 0)], rest, s, p, gd)
  {
    hide TreeSpec.Under, TreeSpec.Node, Covered, Groups.Child, Disjoint;
    var m' := m[t0 := Node(s, Child(p, t0, gd), 0)];
    forall t: nat ensures t in m' <==>
        t < Pow2(gd) && Under(s, Child(p, t, gd)) != [] && !Covered(rest, Child(p, t, gd)) {
      CoveredSnoc(rest, e, Child(p, t, gd));
      if t == t0 { NotCoveredTwice(rest, e, Child(p, t, gd)); }
    }
  }

  function LeftEntry(e: StackEntry): StackEntry {
    StackEntry(e.path + [false], e.relDepth + 1, e.position * 2)
  }

  function RightEntry(e: StackEntry): StackEntry {
    StackEntry(e.path + [true], e.relDepth + 1, e.position * 2 + 1)
  }

  /** Replacing a shared node by its two children covers the same slots. */
  lemma {:induction false} SplitEntry(
    m: map<nat, Hash>, rest: seq<StackEntry>, e: StackEntry, s: seq<Item>, p: Path, gd: nat)
    requires Collected(m, rest + [e], s, p, gd) && |e.path| < |p| + gd
    ensures Collected(m, rest + [LeftEntry(e)] + [RightEntry(e)], s, p, gd)
  {
    hide TreeSpec.Under, TreeSpec.Node, Covered;
    forall t: nat ensures Covered(rest + [LeftEntry(e)] + [RightEntry(e)], Child(p, t, gd)) <==>
        Covered(rest + [e], Child(p, t, gd)) {
      var q := Child(p, t, gd);
      CoveredSnoc(rest, e, q);
      CoveredSnoc(rest, LeftEntry(e), q);
      CoveredSnoc(rest + [LeftEntry(e)], RightEntry(e), q);
      if e.path <= q { PathHalves(e.path, q); }
      assert e.path <= e.path + [false] && e.path <= e.path + [true];
    }
  }

  lemma {:induction false} SplitOk(rest: seq<StackEntry>, e: StackEntry, s: seq<Item>, p: Path, gd: nat)
    requires EntriesOk(rest + [e], s, p, gd) && Disjoint(rest + [e]) && e.relDepth < gd && |Under(s, e.path)| >= 2
    ensures EntriesOk(rest + [LeftEntry(e)] + [RightEntry(e)], s, p, gd)
    ensures Disjoint(rest + [LeftEntry(e)] + [RightEntry(e)])
  {
    hide EntryOk, TreeSpec.Under;
    var st := rest + [e];
    assert st[|rest|] == e;
    forall i | 0 <= i < |rest| ensures EntryOk(s, p, rest[i], gd) { assert st[i] == rest[i]; }
    ChildEntriesOk(e, s, p, gd);
    SplitDisjoint(rest, e);
  }

  lemma {:induction false} ChildEntriesOk(e: StackEntry, s: seq<Item>, p: Path, gd: nat)
    requires EntryOk(s, p, e, gd) && e.relDepth < gd && |Under(s, e.path)| >= 2
    ensures EntryOk(s, p, LeftEntry(e), gd) && EntryOk(s, p, RightEntry(e), gd)
  {
    hide TreeSpec.Under;
    var l, r := LeftEntry(e), RightEntry(e);
    assert l.path[|p|..][..e.relDepth] == e.path[|p|..] && r.path[|p|..][..e.relDepth] == e.path[|p|..];
    assert l.path[..|e.path|] == e.path && r.path[..|e.path|] == e.path;
  }

  lemma {:induction false} SplitDisjoint(rest: seq<StackEntry>, e: StackEntry)
    requires Disjoint(rest + [e])
    ensures Disjoint(rest + [LeftEntry(e)] + [RightEntry(e)])
  {
    var l, r := LeftEntry(e), RightEntry(e);
    var st, st' := rest + [e], rest + [l] + [r];
    assert (e.path + [false])[|e.path|] == false && (e.path + [true])[|e.path|] == true;
    forall i, j | 0 <= i < j < |st'| ensures !(st'[i].path <= st'[j].path) && !(st'[j].path <= st'[i].path) {
      if j < |rest| {
        assert st[i] == st'[i] && st[j] == st'[j];
      } else if i < |rest| {
        assert st[i] == st'[i] && st[|rest|] == e;
        ChildIncomparable(st[i].path, e.path, j > |rest|);
      }
    }
  }

  lemma {:induction false} PrefixTrans(a: Path, b: Path, c: Path)
    requires a <= b && b <= c
    ensures a <= c
  {
  }

  lemma {:induction false} ChildIncomparable(a: Path, b: Path, bit: bool)
    requires !(a <= b) && !(b <= a)
    ensures !(a <= b + [bit]) && !(b + [bit] <= a)
  {
    NotBothPrefixes(a, b, b + [bit]);
    if b + [bit] <= a { PrefixTrans(b, b + [bit], a); }
  }

  // ----- the walk

  ghost function Weight(stack: seq<StackEntry>, gd: nat): nat
    requires forall i :: 0 <= i < |stack| ==> stack[i].relDepth <= gd
  {
    if stack == [] then 0
    else Weight(stack[..|stack| - 1], gd) + 2 * Pow2(gd - stack[|stack| - 1].relDepth) - 1
  }

  lemma {:induction false} WeightSnoc(stack: seq<StackEntry>, e: StackEntry, gd: nat)
    requires (forall i :: 0 <= i < |stack| ==> stack[i].relDepth <= gd) && e.relDepth <= gd
    ensures Weight(stack + [e], gd) == Weight(stack, gd) + 2 * Pow2(gd - e.relDepth) - 1
  {
    assert (stack + [e])[..|stack|] == stack;
  }

  lemma {:induction false} UngroupedFits(s: seq<Item>)
    requires Ascending(s)
    ensures Fits(s, 0)
  {
    FitsIff(s, 0);
  }

  /** The walk's invariant. */
  ghost predicate Walking(m: map<nat, Hash>, stack: seq<StackEntry>, s: seq<Item>, p: Path, gd: nat) {
    Collected(m, stack, s, p, gd) && EntriesOk(stack, s, p, gd) && Disjoint(stack)
  }

  lemma {:induction false} WalkStart(s: seq<Item>, p: Path, gd: nat)
    ensures Walking(map[], [StackEntry(p, 0, 0)], s, p, gd)
  {
    var e := StackEntry(p, 0, 0);
    assert e.path[|p|..] == [];
    forall t: nat ensures Covered([e], Child(p, t, gd)) { assert [e][0].path <= Child(p, t, gd); }
  }

  lemma {:induction false} WalkEnd(m: map<nat, Hash>, s: seq<Item>, p: Path, gd: nat)
    requires Walking(m, [], s, p, gd)
    ensures m == UngroupedSlots(s, p, gd)
  {
    hide TreeSpec.Under, TreeSpec.Node;
  }

  lemma {:induction false} PopOk(
    m: map<nat, Hash>, rest: seq<StackEntry>, e: StackEntry, s: seq<Item>, p: Path, gd: nat)
    requires Walking(m, rest + [e], s, p, gd)
    ensures EntryOk(s, p, e, gd) && EntriesOk(rest, s, p, gd) && Disjoint(rest) && e.relDepth <= gd
    ensures forall i :: 0 <= i < |rest| ==> rest[i].relDepth <= gd
  {
    hide Collected;
    var st := rest + [e];
    assert st[|rest|] == e;
    assert forall i :: 0 <= i < |rest| ==> st[i] == rest[i];
  }

  /** The slot, under a node of the group at p, that leads towards stem x. */
  lemma {:induction false} LoneSlot(s: seq<Item>, p: Path, e: StackEntry, x: Item, gd: nat)
    requires EntryOk(s, p, e, gd) && Under(s, e.path) == [x] && |p| + gd <= MAX_DEPTH
    ensures e.path <= x.stem && p == x.stem[..|p|]
    ensures var t0 := SlotAt(x.stem, |p|, gd);
      && t0 < Pow2(gd) && Child(p, t0, gd) == x.stem[..|p| + gd] && e.path <= Child(p, t0, gd)
      && Under(s, Child(p, t0, gd)) == [x] && Node(s, Child(p, t0, gd), 0) == x.hash
      && forall t: nat :: t < Pow2(gd) && e.path <= Child(p, t, gd) && Under(s, Child(p, t, gd)) != [] ==> t == t0
  {
    hide TreeSpec.Under, TreeSpec.Node, Groups.SlotAt, Groups.Child;
    UnderSelects(s, e.path);
    assert Under(s, e.path)[0] == x;
    PrefixTrans(p, e.path, x.stem);
    var t0, q := SlotAt(x.stem, |p|, gd), x.stem[..|p| + gd];
    ChildOnPath(x.stem, |p|, 0, gd);
    assert e.path == x.stem[..|e.path|] <= q;
    LoneBelow(s, e.path, q, x);
    LoneNode(s, x, q, 0);
    forall t: nat | t < Pow2(gd) && e.path <= Child(p, t, gd) && Under(s, Child(p, t, gd)) != [] ensures t == t0 {
      OnlyLoneSlot(s, p, e.path, x, t, gd);
    }
  }

  lemma {:induction false} OnlyLoneSlot(s: seq<Item>, p: Path, r: Path, x: Item, t: nat, gd: nat)
    requires |p| + gd <= MAX_DEPTH && p == x.stem[..|p|] && |Under(s, r)| == 1 && r <= x.stem[..|p| + gd]
    requires Under(s, x.stem[..|p| + gd]) != []
    requires t < Pow2(gd) && r <= Child(p, t, gd) && Under(s, Child(p, t, gd)) != []
    ensures t == SlotAt(x.stem, |p|, gd)
  {
    hide TreeSpec.Under, Groups.SlotAt, Groups.Child;
    LonePath(s, r, Child(p, t, gd), x.stem[..|p| + gd]);
    ChildOnPath(x.stem, |p|, t, gd);
  }

  lemma {:induction false} LoneBelow(s: seq<Item>, p: Path, q: Path, x: Item)
    requires p <= q && q <= x.stem && Under(s, p) == [x]
    ensures Under(s, q) == [x]
  {
    var init, last := s[..|s| - 1], s[|s| - 1];
    if p <= last.stem {
      assert Under(s, p) == Under(init, p) + [last];
      assert |Under(s, p)| == 1 && Under(s, p)[0] == last;
      UnderAntitone(init, p, q);
    } else {
      LoneBelow(init, p, q, x);
      if q <= last.stem { PrefixTrans(p, q, last.stem); }
    }
  }

  /** Position of a lone stem within the group, from the position of the node that holds it. */
  method ExtendPosition(stem: Stem, from: nat, to: nat, position: nat, ghost base: nat) returns (leafPos: nat)
    requires base <= from <= to <= MAX_DEPTH && position == SlotOf(stem[base..from])
    ensures leafPos == SlotOf(stem[base..to])
  {
    leafPos := position;
    for d := from to to
      invariant leafPos == SlotOf(stem[base..d])
    {
      assert stem[base..d + 1][..d - base] == stem[base..d];
      leafPos := leafPos * 2 + if stem[d] then 1 else 0;
    }
  }

  /** In a group that reaches below the last bit the walk is certain to meet a stem. */
  ghost predicate Wandering(stack: seq<StackEntry>, s: seq<Item>, p: Path, gd: nat) {
    EntriesOk(stack, s, p, gd) && exists i :: 0 <= i < |stack| && Under(s, stack[i].path) != []
  }

  ghost predicate OnWalk(m: map<nat, Hash>, stack: seq<StackEntry>, s: seq<Item>, p: Path, gd: nat) {
    if |p| + gd <= MAX_DEPTH then Walking(m, stack, s, p, gd) else Wandering(stack, s, p, gd)
  }

  lemma {:induction false} OnWalkStart(s: seq<Item>, p: Path, gd: nat)
    requires |Under(s, p)| >= 2
    ensures OnWalk(map[], [StackEntry(p, 0, 0)], s, p, gd)
  {
    hide TreeSpec.Under, Collected, Disjoint;
    WalkStart(s, p, gd);
    assert [StackEntry(p, 0, 0)][0].path == p;
  }

  lemma {:induction false} OnWalkPop(
    m: map<nat, Hash>, rest: seq<StackEntry>, e: StackEntry, s: seq<Item>, p: Path, gd: nat)
    requires OnWalk(m, rest + [e], s, p, gd)
    ensures EntryOk(s, p, e, gd) && EntriesOk(rest, s, p, gd) && e.relDepth <= gd
    ensures forall i :: 0 <= i < |rest| ==> rest[i].relDepth <= gd
  {
    hide Collected, TreeSpec.Under;
    var st := rest + [e];
    assert st[|rest|] == e;
    assert forall i :: 0 <= i < |rest| ==> st[i] == rest[i];
  }

  lemma {:induction false} WanderDrop(rest: seq<StackEntry>, e: StackEntry, s: seq<Item>, p: Path, gd: nat)
    requires Wandering(rest + [e], s, p, gd) && Under(s, e.path) == []
    ensures Wandering(rest, s, p, gd)
  {
    hide TreeSpec.Under, EntryOk;
    var st := rest + [e];
    assert forall i :: 0 <= i < |rest| ==> st[i] == rest[i];
    var i :| 0 <= i < |st| && Under(s, st[i].path) != [];
    assert rest[i] == st[i];
  }

  lemma {:induction false} WanderSplit(rest: seq<StackEntry>, e: StackEntry, s: seq<Item>, p: Path, gd: nat)
    requires Wandering(rest + [e], s, p, gd) && e.relDepth < gd && |Under(s, e.path)| >= 2 && |e.path| < MAX_DEPTH
    ensures Wandering(rest + [LeftEntry(e)] + [RightEntry(e)], s, p, gd)
  {
    hide TreeSpec.Under, EntryOk;
    var st, st' := rest + [e], rest + [LeftEntry(e)] + [RightEntry(e)];
    assert st[|rest|] == e;
    forall i | 0 <= i < |rest| ensures EntryOk(s, p, rest[i], gd) { assert st[i] == rest[i]; }
    ChildEntriesOk(e, s, p, gd);
    assert st'[|rest|] == LeftEntry(e) && st'[|rest| + 1] == RightEntry(e);
    OneSideHolds(s, e.path);
  }

  lemma {:induction false} OneSideHolds(s: seq<Item>, q: Path)
    requires |q| < MAX_DEPTH && |Under(s, q)| >= 2
    ensures Under(s, q + [false]) != [] || Under(s, q + [true]) != []
  {
    hide TreeSpec.Under;
    UnderSplits(s, q);
  }

  lemma {:induction false} SharedIsInner(s: seq<Item>, q: Path)
    requires Ascending(s) && |Under(s, q)| >= 2
    ensures |q| < MAX_DEPTH
  {
    hide TreeSpec.Under, TreeSpec.Ascending;
    UngroupedFits(s);
    TwoUnderFit(s, q, 0);
  }

  /** Depth-first walk over one group of an ungrouped store, with an explicit stack. A stem in a group
  that reaches below the last bit makes it panic. */
  method CollectChildren(nodes: Store, bPath: Path, gd: nat, ghost s: seq<Item>)
    returns (panicked: bool, collected: map<nat, Hash>)
    requires FinalStore(nodes, s, 0) && Ascending(s) && WellHashed(s) && gd > 0
    requires |Under(s, bPath)| >= 2
    ensures panicked <==> |bPath| + gd > MAX_DEPTH
    ensures !panicked ==> collected == UngroupedSlots(s, bPath, gd)
  {
    hide TreeSpec.Under, TreeSpec.Node, Collected, EntriesOk, Disjoint, BuilderSteps.FinalStore,
      TreeSpec.Ascending, Weight, Walking, EntryOk;
    panicked, collected := false, map[];
    var stack := [StackEntry(bPath, 0, 0)];
    OnWalkStart(s, bPath, gd);
    while |stack| > 0 && !panicked
      invariant !panicked ==> OnWalk(collected, stack, s, bPath, gd)
      invariant panicked ==> |bPath| + gd > MAX_DEPTH
      invariant forall i :: 0 <= i < |stack| ==> stack[i].relDepth <= gd
      decreases Weight(stack, gd)
    {
      var top := stack[|stack| - 1];
      var rest := stack[..|stack| - 1];
      assert stack == rest + [top];
      panicked, collected, stack := WalkStep(nodes, bPath, gd, collected, rest, top, s);
    }
    if !panicked {
      assert stack == [];
      assert |bPath| + gd <= MAX_DEPTH;
      WalkEnd(collected, s, bPath, gd);
    }
  }

  /** Handles one popped entry. */
  method WalkStep(
    nodes: Store, bPath: Path, gd: nat, m: map<nat, Hash>, rest: seq<StackEntry>, top: StackEntry, ghost s: seq<Item>)
    returns (panicked: bool, m': map<nat, Hash>, stack: seq<StackEntry>)
    requires FinalStore(nodes, s, 0) && Ascending(s) && WellHashed(s) && gd > 0
    requires |Under(s, bPath)| >= 2
    requires OnWalk(m, rest + [top], s, bPath, gd)
    requires forall i :: 0 <= i < |rest + [top]| ==> (rest + [top])[i].relDepth <= gd
    ensures panicked ==> |bPath| + gd > MAX_DEPTH
    ensures !panicked ==> OnWalk(m', stack, s, bPath, gd)
    ensures forall i :: 0 <= i < |stack| ==> stack[i].relDepth <= gd
    ensures Weight(stack, gd) < Weight(rest + [top], gd)
  {
    hide TreeSpec.Under, TreeSpec.Node, Collected, EntriesOk, Disjoint, Covered, TreeSpec.Ascending, Weight,
      EntryOk, BuilderSpec.Stored, BuilderSpec.NodeAt, BuilderSteps.FinalStore, WellHashed, Groups.SlotAt,
      Groups.Child, Walking, Wandering;
    OnWalkPop(m, rest, top, s, bPath, gd);
    WeightSnoc(rest, top, gd);
    EntryNode(nodes, s, bPath, top, gd);
    EntryDepth(s, bPath, top, gd);
    panicked, m', stack := false, m, rest;
    if top.path !in nodes {
      AfterDrop(m, rest, top, s, bPath, gd);
    } else if top.relDepth == gd {
      m' := m[top.position := NodeHash(nodes[top.path])];
      AfterBottom(m, rest, top, s, bPath, gd);
    } else if nodes[top.path].StemNode? {
      var n := nodes[top.path];
      if |bPath| + gd > MAX_DEPTH {
        panicked := true;
      } else {
        PositionAt(s, bPath, top, n.stem, gd);
        var leafPos := ExtendPosition(n.stem, |bPath| + top.relDepth, |bPath| + gd, top.position, |bPath|);
        m' := m[leafPos := NodeHash(n)];
        AfterStem(m, rest, top, s, bPath, n.stem, gd);
      }
    } else {
      var left := StackEntry(top.path + [false], top.relDepth + 1, top.position * 2);
      var right := StackEntry(top.path + [true], top.relDepth + 1, top.position * 2 + 1);
      AfterSplit(m, rest, top, s, bPath, gd);
      WeightSnoc(rest, left, gd);
      WeightSnoc(rest + [left], right, gd);
      assert Pow2(gd - top.relDepth) == 2 * Pow2(gd - top.relDepth - 1);
      stack := rest + [left] + [right];
    }
  }

  lemma {:induction false} EntryDepth(s: seq<Item>, p: Path, e: StackEntry, gd: nat)
    requires EntryOk(s, p, e, gd)
    ensures p <= e.path && |e.path| == |p| + e.relDepth && e.relDepth <= gd
  {
  }

  lemma {:induction false} AfterDrop(
    m: map<nat, Hash>, rest: seq<StackEntry>, e: StackEntry, s: seq<Item>, p: Path, gd: nat)
    requires OnWalk(m, rest + [e], s, p, gd) && Under(s, e.path) == []
    ensures OnWalk(m, rest, s, p, gd)
  {
    hide TreeSpec.Under, TreeSpec.Node, Collected, EntriesOk, Disjoint, EntryOk, Wandering;
    if |p| + gd <= MAX_DEPTH {
      PopOk(m, rest, e, s, p, gd);
      DropEmpty(m, rest, e, s, p, gd);
    } else {
      WanderDrop(rest, e, s, p, gd);
    }
  }

  lemma {:induction false} AfterBottom(
    m: map<nat, Hash>, rest: seq<StackEntry>, e: StackEntry, s: seq<Item>, p: Path, gd: nat)
    requires OnWalk(m, rest + [e], s, p, gd) && EntryOk(s, p, e, gd) && e.relDepth == gd
    requires |e.path| <= MAX_DEPTH && Under(s, e.path) != []
    ensures OnWalk(m[e.position := Node(s, e.path, 0)], rest, s, p, gd)
  {
    hide TreeSpec.Under, TreeSpec.Node, Collected, EntriesOk, Disjoint, Wandering, Groups.Child;
    PopOk(m, rest, e, s, p, gd);
    BottomSlot(s, p, e, gd);
    TakeSlot(m, rest, e, s, p, e.position, gd);
  }

  lemma {:induction false} AfterStem(
    m: map<nat, Hash>, rest: seq<StackEntry>, e: StackEntry, s: seq<Item>, p: Path, x: Stem, gd: nat)
    requires OnWalk(m, rest + [e], s, p, gd) && EntryOk(s, p, e, gd) && |p| + gd <= MAX_DEPTH
    requires |Under(s, e.path)| == 1 && Under(s, e.path) == [Under(s, e.path)[0]] && Under(s, e.path)[0].stem == x
    ensures OnWalk(m[SlotOf(x[|p|..|p| + gd]) := Under(s, e.path)[0].hash], rest, s, p, gd)
  {
    hide TreeSpec.Under, TreeSpec.Node, Collected, EntriesOk, Disjoint, EntryOk, Wandering, Groups.Child,
      Groups.SlotAt;
    PopOk(m, rest, e, s, p, gd);
    LoneSlot(s, p, e, Under(s, e.path)[0], gd);
    SlotAtIs(x, |p|, gd);
    TakeSlot(m, rest, e, s, p, SlotOf(x[|p|..|p| + gd]), gd);
  }

  lemma {:induction false} AfterSplit(
    m: map<nat, Hash>, rest: seq<StackEntry>, e: StackEntry, s: seq<Item>, p: Path, gd: nat)
    requires OnWalk(m, rest + [e], s, p, gd) && EntryOk(s, p, e, gd) && e.relDepth < gd && |Under(s, e.path)| >= 2 &&
        Ascending(s)
    ensures OnWalk(m, rest + [LeftEntry(e)] + [RightEntry(e)], s, p, gd)
  {
    hide TreeSpec.Under, TreeSpec.Node, Collected, EntriesOk, Disjoint, EntryOk, Wandering;
    if |p| + gd <= MAX_DEPTH {
      InsideGroup(s, p, e, gd);
      SplitEntry(m, rest, e, s, p, gd);
      SplitOk(rest, e, s, p, gd);
    } else {
      SharedIsInner(s, e.path);
      WanderSplit(rest, e, s, p, gd);
    }
  }

  lemma {:induction false} SlotAtIs(x: Stem, b: nat, gd: nat)
    requires b + gd <= MAX_DEPTH
    ensures SlotAt(x, b, gd) == SlotOf(x[b..b + gd])
  {
  }

  lemma {:induction false} InsideGroup(s: seq<Item>, p: Path, e: StackEntry, gd: nat)
    requires EntryOk(s, p, e, gd) && e.relDepth < gd
    ensures |e.path| < |p| + gd
  {
  }

  lemma {:induction false} PositionAt(s: seq<Item>, p: Path, e: StackEntry, x: Stem, gd: nat)
    requires EntryOk(s, p, e, gd) && e.path <= x && |p| + gd <= MAX_DEPTH
    ensures e.position == SlotOf(x[|p|..|p| + e.relDepth])
  {
    assert e.path[|p|..] == x[|p|..|p| + e.relDepth];
  }

  /** A node at the bottom of the group is the child in its own position. */
  lemma {:induction false} BottomSlot(s: seq<Item>, p: Path, e: StackEntry, gd: nat)
    requires EntryOk(s, p, e, gd) && e.relDepth == gd
    ensures e.position < Pow2(gd) && Child(p, e.position, gd) == e.path
    ensures forall t: nat :: t < Pow2(gd) && e.path <= Child(p, t, gd) ==> t == e.position
  {
    ToBitsSlotOf(e.path[|p|..]);
    assert p + e.path[|p|..] == e.path;
    forall t: nat | t < Pow2(gd) && e.path <= Child(p, t, gd) ensures t == e.position {
      assert Child(p, t, gd) == e.path;
      assert ToBits(t, gd) == e.path[|p|..];
      SlotOfToBits(t, gd);
    }
  }

  /** What the store says about an entry: absent iff empty, otherwise its node with its hash. */
  lemma {:induction false} EntryNode(nodes: Store, s: seq<Item>, p: Path, e: StackEntry, gd: nat)
    requires FinalStore(nodes, s, 0) && Ascending(s) && WellHashed(s) && EntryOk(s, p, e, gd)
    requires |Under(s, p)| >= 2
    ensures e.path in nodes ==> |e.path| <= MAX_DEPTH
    ensures e.path in nodes && nodes[e.path].StemNode? ==> e.path <= nodes[e.path].stem
    ensures e.path !in nodes <==> Under(s, e.path) == []
    ensures e.path in nodes ==> NodeHash(nodes[e.path]) == Node(s, e.path, 0)
    ensures e.path in nodes && nodes[e.path].StemNode? ==>
      |Under(s, e.path)| == 1 && Under(s, e.path) == [Under(s, e.path)[0]] &&
      nodes[e.path].stem == Under(s, e.path)[0].stem && Node(s, e.path, 0) == Under(s, e.path)[0].hash
    ensures e.path in nodes && !nodes[e.path].StemNode? ==> |Under(s, e.path)| >= 2
  {
    hide TreeSpec.Under;
    if e.relDepth == 0 { assert e.path == p; }
    UnderSelects(s, e.path);
    if Under(s, e.path) != [] { assert e.path <= Under(s, e.path)[0].stem; }
    if Under(s, e.path) != [] && e.relDepth > 0 { StoredUngrouped(s, e.path); }
    if Under(s, e.path) != [] {
      UngroupedFits(s);
      RecomputedHash(s, e.path, 0);
    }
  }

  // ----- where the stems go

  /** The store holds the regrouped tree over s. */
  ghost predicate RegroupedStore(store: Store, s: seq<Item>, gd: nat) {
    forall p: Path ::
      && (p in store <==> Stored(s, p, gd))
      && (p in store ==> store[p] == RegroupedAt(s, p, gd))
  }

  /** A stem node lying strictly inside a group of nodes ends up at p. */
  ghost predicate MovedHere(nodes: Store, p: Path, gd: nat) {
    exists r: Path :: r in nodes && MovesTo(nodes[r], r, p, gd)
  }

  predicate MovesTo(node: TrieNode, r: Path, p: Path, gd: nat) {
    && node.StemNode? && !Collapses(|r|, gd)
    && TargetDepth(|r|, gd) <= MAX_DEPTH && p == node.stem[..TargetDepth(|r|, gd)]
  }

  lemma {:induction false} PrefixOfPrefix(p: Path, k: nat, m: nat)
    requires m <= k <= |p|
    ensures p[..k][..m] == p[..m] && (m > 0 ==> p[..k][..m - 1] == p[..m - 1])
  {
  }

  /** Shortest prefix of p with a single item under it. */
  ghost function FirstLone(s: seq<Item>, p: Path): (m: nat)
    requires |Under(s, p)| == 1
    ensures m <= |p| && |Under(s, p[..m])| == 1
    ensures m > 0 ==> |Under(s, p[..m - 1])| >= 2
    decreases |p|
  {
    if p == [] then 0 else
      var q := p[..|p| - 1];
      UnderAntitone(s, q, p);
      assert p[..|p|] == p;
      if |Under(s, q)| == 1 then
        var m := FirstLone(s, q);
        PrefixOfPrefix(p, |p| - 1, m);
        m
      else |p|
  }

  lemma {:induction false} LoneStemAt(s: seq<Item>, p: Path, x: Item)
    requires Under(s, p) == [x]
    ensures p <= x.stem && |p| <= MAX_DEPTH && p == x.stem[..|p|]
  {
    UnderSelects(s, p);
    assert Under(s, p)[0] == x;
  }

  /** A stored lone stem of the grouped layout either was stored there before or is moved there. */
  lemma {:induction false} LoneArrives(nodes: Store, s: seq<Item>, p: Path, gd: nat)
    requires FinalStore(nodes, s, 0) && gd > 0 && |p| % gd == 0 && |p| <= MAX_DEPTH && |Under(s, p)| == 1 &&
        Stored(s, p, gd)
    ensures p in nodes || MovedHere(nodes, p, gd)
  {
    hide TreeSpec.Under, TreeSpec.Node;
    var x := Under(s, p)[0];
    LoneStemAt(s, p, x);
    var m := FirstLone(s, p);
    var r := p[..m];
    if m > 0 { assert r[..m - 1] == p[..m - 1]; }
    StoredUngrouped(s, r);
    LoneSame(s, r, p);
    if m < |p| {
      assert !Collapses(m, gd);
      assert TargetDepth(m, gd) == |p| by {
        forall k | m <= k < |p| ensures !Collapses(k, gd) {
          assert p[..k][..m] == r;
          UnderAntitone(s, r, p[..k]);
        }
        assert Collapses(|p|, gd);
      }
      assert nodes[r] == NodeAt(s, r, 0);
      assert MovesTo(nodes[r], r, p, gd);
    } else {
      assert r == p;
    }
  }

  lemma {:induction false} LoneSame(s: seq<Item>, r: Path, p: Path)
    requires r <= p && |Under(s, r)| == 1 && |Under(s, p)| == 1
    ensures Under(s, r) == Under(s, p)
  {
    var x := Under(s, r)[0];
    UnderMembers(s, r, p);
    assert Under(s, r) == [x];
    LoneBelow(s, r, p, x);
  }

  /** A moved stem is a stored lone stem of the grouped layout. */
  lemma {:induction false} MovedIsStored(nodes: Store, s: seq<Item>, r: Path, p: Path, gd: nat)
    requires FinalStore(nodes, s, 0) && gd > 0 && r in nodes && MovesTo(nodes[r], r, p, gd)
    ensures Stored(s, p, gd) && |Under(s, p)| == 1 && Under(s, p) == Under(s, r)
    ensures nodes[r] == StemNode(Under(s, p)[0].stem, Under(s, p)[0].entries) && |p| % gd == 0 && p !in nodes
  {
    hide TreeSpec.Under, TreeSpec.Node;
    assert Stored(s, r, 0) && nodes[r] == NodeAt(s, r, 0);
    assert |Under(s, r)| == 1;
    var x := Under(s, r)[0];
    assert Under(s, r) == [x];
    LoneStemAt(s, r, x);
    assert r == x.stem[..|r|] <= p;
    LoneBelow(s, r, p, x);
    forall k | 0 <= k < |p| && Collapses(k, gd) ensures |Under(s, p[..k])| >= 2 {
      assert k < |r|;
      assert p[..k] == r[..k];
    }
    assert |r| < |p| && p[..|r|] == r;
  }

  // ----- the rewrite

  /** Queued writes; the last operation on a key wins. */
  class Batch {
    var puts: Store
    var deletes: set<Path>

    constructor ()
      ensures puts == map[] && deletes == {}
    {
      puts, deletes := map[], {};
    }

    method Put(path: Path, node: TrieNode)
      modifies this
      ensures puts == old(puts)[path := node] && deletes == old(deletes) - {path}
    {
      puts, deletes := puts[path := node], deletes - {path};
    }

    method Delete(path: Path)
      modifies this
      ensures puts == old(puts) - {path} && deletes == old(deletes) + {path}
    {
      puts, deletes := puts - {path}, deletes + {path};
    }
  }

  class Database {
    var store: Store

    method Write(batch: Batch)
      modifies this
      ensures store == (old(store) - batch.deletes) + batch.puts
    {
      store := (store - batch.deletes) + batch.puts;
    }
  }

  ghost predicate IsBoundaryInternal(nodes: Store, p: Path, gd: nat) {
    p in nodes && !nodes[p].StemNode? && Collapses(|p|, gd)
  }

  /** Internal nodes of a final ungrouped store are the shared paths. */
  lemma {:induction false} InternalIsShared(nodes: Store, s: seq<Item>, p: Path)
    requires FinalStore(nodes, s, 0) && p in nodes
    ensures |p| <= MAX_DEPTH && Under(s, p) != []
    ensures nodes[p].StemNode? <==> |Under(s, p)| == 1
    ensures nodes[p].StemNode? ==> nodes[p] == StemNode(Under(s, p)[0].stem, Under(s, p)[0].entries)
  {
    assert Stored(s, p, 0) && nodes[p] == NodeAt(s, p, 0);
  }

  /** Steps 2 and 3: one group node per internal node at a boundary depth. */
  method WriteGroups(nodes: Store, gd: nat, batch: Batch, ghost s: seq<Item>) returns (panicked: bool)
    requires FinalStore(nodes, s, 0) && Ascending(s) && WellHashed(s) && gd > 0
    requires batch.puts == map[] && batch.deletes == {}
    modifies batch
    ensures panicked <==> !Fits(s, gd)
    ensures !panicked ==> batch.deletes == {}
    ensures !panicked ==> forall p: Path :: p in batch.puts <==> IsBoundaryInternal(nodes, p, gd)
    ensures !panicked ==> forall p: Path :: p in batch.puts ==> batch.puts[p] == RegroupedAt(s, p, gd)
  {
    hide TreeSpec.Under, TreeSpec.Node, BuilderSteps.FinalStore, TreeSpec.Ascending, WellHashed,
      BuilderSteps.Fits, RegroupedAt, UngroupedSlots;
    var todo := nodes.Keys;
    panicked := false;
    while todo != {}
      invariant todo <= nodes.Keys && batch.deletes == {}
      invariant forall p: Path :: p in batch.puts <==> IsBoundaryInternal(nodes, p, gd) && p !in todo
      invariant forall p: Path :: p in batch.puts ==> batch.puts[p] == RegroupedAt(s, p, gd) && |p| + gd <= MAX_DEPTH
      decreases |todo|
    {
      var bPath :| bPath in todo;
      todo := todo - {bPath};
      if !nodes[bPath].StemNode? && |bPath| % gd == 0 {
        InternalIsShared(nodes, s, bPath);
        BoundaryFits(s, bPath, gd);
        var collected;
        panicked, collected := CollectChildren(nodes, bPath, gd, s);
        if panicked { return; }
        SlotsBound(s, bPath, gd);
        var children := SortedChildren(collected, Pow2(gd));
        batch.Put(bPath, GroupNode(gd, children));
      }
    }
    AllFit(nodes, s, gd);
  }

  lemma {:induction false} BoundaryFits(s: seq<Item>, p: Path, gd: nat)
    requires Ascending(s) && gd > 0 && |Under(s, p)| >= 2 && Collapses(|p|, gd)
    ensures Fits(s, gd) ==> |p| + gd <= MAX_DEPTH
  {
    hide TreeSpec.Under, BuilderSteps.Fits;
    if Fits(s, gd) { TwoUnderFit(s, p, gd); }
  }

  /** If every boundary node of the store leaves room for its group, the stems fit. */
  lemma {:induction false} AllFit(nodes: Store, s: seq<Item>, gd: nat)
    requires FinalStore(nodes, s, 0) && Ascending(s) && gd > 0
    requires forall p: Path :: IsBoundaryInternal(nodes, p, gd) ==> |p| + gd <= MAX_DEPTH
    ensures Fits(s, gd)
  {
    hide TreeSpec.Under, BuilderSteps.Fits, BuilderSteps.FinalStore, TreeSpec.Ascending, IsBoundaryInternal,
      LastBoundary;
    FitsIff(s, gd);
    forall i: nat | 0 < i < |s| ensures NeighbourCPL(s, i) < LastBoundary(gd) {
      NeighbourFits(nodes, s, i, gd);
    }
  }

  lemma {:induction false} TwoUnder(s: seq<Item>, i: nat, j: nat, p: Path)
    requires i < j < |s| && p <= s[i].stem && p <= s[j].stem
    ensures |Under(s, p)| >= 2
  {
    if j < |s| - 1 { TwoUnder(s[..|s| - 1], i, j, p); } else { UnderKeeps(s[..|s| - 1], p, i); }
  }

  lemma {:induction false} SharedInStore(nodes: Store, s: seq<Item>, p: Path)
    requires FinalStore(nodes, s, 0) && |Under(s, p)| >= 2 && |p| <= MAX_DEPTH
    ensures p in nodes && !nodes[p].StemNode?
  {
    hide TreeSpec.Under;
    forall k | 0 <= k < |p| ensures |Under(s, p[..k])| >= 2 { UnderAntitone(s, p[..k], p); }
    assert Stored(s, p, 0);
  }

  lemma {:induction false} LastBoundaryIsLast(t: nat, gd: nat)
    requires gd > 0 && t % gd == 0 && t <= MAX_DEPTH
    ensures t <= LastBoundary(gd)
  {
    var b := LastBoundary(gd);
    if b < t { BoundariesApart(b, t, gd); }
  }

  lemma {:induction false} NeighbourFits(nodes: Store, s: seq<Item>, i: nat, gd: nat)
    requires FinalStore(nodes, s, 0) && Ascending(s) && gd > 0 && 0 < i < |s|
    requires forall p: Path :: IsBoundaryInternal(nodes, p, gd) ==> |p| + gd <= MAX_DEPTH
    ensures NeighbourCPL(s, i) < LastBoundary(gd)
  {
    hide TreeSpec.Under, Stems.CommonPrefixLen, BuilderSteps.FinalStore, TreeSpec.Ascending, LastBoundary,
      Groups.BoundaryOf;
    var c := NeighbourCPL(s, i);
    var b := BoundaryOf(c, gd);
    var p := s[i].stem[..b];
    AgreeIffCommonPrefix(s[i - 1].stem, s[i].stem, b);
    assert s[i - 1].stem[..b] == p;
    TwoUnder(s, i - 1, i, p);
    SharedInStore(nodes, s, p);
    assert IsBoundaryInternal(nodes, p, gd);
    BoundaryStep(b, gd);
    LastBoundaryIsLast(b + gd, gd);
  }

  lemma {:induction false} SlotsBound(s: seq<Item>, p: Path, gd: nat)
    requires |Under(s, p)| != 1
    ensures forall t :: t in UngroupedSlots(s, p, gd) ==> t < Pow2(gd)
    ensures RegroupedAt(s, p, gd) == GroupNode(gd, ChildList(UngroupedSlots(s, p, gd), Pow2(gd)))
  {
  }

  /** The batch once the groups are queued and the nodes in done were handled. */
  ghost predicate Queued(puts: Store, deletes: set<Path>, nodes: Store, done: Store, s: seq<Item>, gd: nat) {
    && (forall p: Path :: p in deletes <==> p in done && !Collapses(|p|, gd))
    && (forall p: Path :: p in puts <==> IsBoundaryInternal(nodes, p, gd) || MovedHere(done, p, gd))
    && (forall p: Path :: p in puts ==> puts[p] == RegroupedAt(s, p, gd))
  }

  lemma {:induction false} QueuedStart(puts: Store, nodes: Store, s: seq<Item>, gd: nat)
    requires forall p: Path :: p in puts <==> IsBoundaryInternal(nodes, p, gd)
    requires forall p: Path :: p in puts ==> puts[p] == RegroupedAt(s, p, gd)
    ensures Queued(puts, {}, nodes, map[], s, gd)
  {
    hide RegroupedAt, IsBoundaryInternal;
  }

  /** Steps 4 and 4b: everything off the boundaries is deleted, and stems move to the bottom of their
  group. */
  method MoveOffBoundary(nodes: Store, gd: nat, batch: Batch, ghost s: seq<Item>)
    requires FinalStore(nodes, s, 0) && gd > 0 && Fits(s, gd) && Ascending(s)
    requires Queued(batch.puts, batch.deletes, nodes, map[], s, gd)
    modifies batch
    ensures Queued(batch.puts, batch.deletes, nodes, nodes, s, gd)
  {
    hide TreeSpec.Under, TreeSpec.Node, BuilderSteps.FinalStore, Queued, BuilderSteps.Fits, TreeSpec.Ascending,
      Groups.TargetDepth;
    var todo := nodes.Keys;
    ghost var doneNodes: Store := map[];
    while todo != {}
      invariant todo <= nodes.Keys && doneNodes == nodes - todo
      invariant Queued(batch.puts, batch.deletes, nodes, doneNodes, s, gd)
      decreases |todo|
    {
      var path :| path in todo;
      todo := todo - {path};
      MoveOne(nodes, doneNodes, path, gd, batch, s);
      doneNodes := doneNodes[path := nodes[path]];
    }
    assert doneNodes == nodes;
  }

  method MoveOne(nodes: Store, ghost before: Store, path: Path, gd: nat, batch: Batch, ghost s: seq<Item>)
    requires FinalStore(nodes, s, 0) && gd > 0 && Fits(s, gd) && Ascending(s)
    requires path in nodes && path !in before
    requires Queued(batch.puts, batch.deletes, nodes, before, s, gd)
    modifies batch
    ensures Queued(batch.puts, batch.deletes, nodes, before[path := nodes[path]], s, gd)
  {
    hide TreeSpec.Under, TreeSpec.Node, BuilderSteps.FinalStore, RegroupedAt, BuilderSteps.Fits,
      TreeSpec.Ascending, Queued, Groups.TargetDepth;
    if |path| % gd == 0 {
      StaysPut(batch.puts, batch.deletes, nodes, before, path, s, gd);
    } else if !nodes[path].StemNode? {
      InternalGoes(batch.puts, batch.deletes, nodes, before, path, s, gd);
      batch.Delete(path);
    } else {
      StemTargetFits(nodes, s, path, gd);
      var nextBoundary := TargetDepth(|path|, gd);
      var extended := nodes[path].stem[..nextBoundary];
      StemMoves(batch.puts, batch.deletes, nodes, before, path, extended, s, gd);
      batch.Delete(path);
      batch.Put(extended, nodes[path]);
    }
  }

  lemma {:induction false} StaysPut(
    puts: Store, deletes: set<Path>, nodes: Store, before: Store, path: Path, s: seq<Item>, gd: nat)
    requires path in nodes && path !in before && gd > 0 && Queued(puts, deletes, nodes, before, s, gd)
    requires |path| % gd == 0
    ensures Queued(puts, deletes, nodes, before[path := nodes[path]], s, gd)
  {
    hide RegroupedAt, MovedHere, Groups.TargetDepth, IsBoundaryInternal;
    forall p: Path ensures MovedHere(before[path := nodes[path]], p, gd) <==> MovedHere(before, p, gd) {
      MovedSnoc(before, path, nodes[path], p, gd);
    }
  }

  lemma {:induction false} InternalGoes(
    puts: Store, deletes: set<Path>, nodes: Store, before: Store, path: Path, s: seq<Item>, gd: nat)
    requires path in nodes && path !in before && gd > 0 && Queued(puts, deletes, nodes, before, s, gd)
    requires |path| % gd != 0 && !nodes[path].StemNode?
    ensures Queued(puts - {path}, deletes + {path}, nodes, before[path := nodes[path]], s, gd)
  {
    hide RegroupedAt, MovedHere, Groups.TargetDepth;
    forall p: Path ensures MovedHere(before[path := nodes[path]], p, gd) <==> MovedHere(before, p, gd) {
      MovedSnoc(before, path, nodes[path], p, gd);
    }
    forall p: Path | MovedHere(before, p, gd) ensures Collapses(|p|, gd) { MovedCollapses(before, p, gd); }
  }

  lemma {:induction false} StemMoves(
    puts: Store, deletes: set<Path>, nodes: Store, before: Store, path: Path, to: Path, s: seq<Item>, gd: nat)
    requires FinalStore(nodes, s, 0) && gd > 0 && Fits(s, gd) && Ascending(s)
    requires path in nodes && path !in before && Queued(puts, deletes, nodes, before, s, gd)
    requires |path| % gd != 0 && nodes[path].StemNode? && TargetDepth(|path|, gd) <= MAX_DEPTH
    requires to == nodes[path].stem[..TargetDepth(|path|, gd)]
    ensures Queued((puts - {path})[to := nodes[path]], (deletes + {path}) - {to}, nodes, before[path := nodes[path]],
        s, gd)
  {
    hide TreeSpec.Under, TreeSpec.Node, BuilderSteps.FinalStore, RegroupedAt, BuilderSteps.Fits,
      TreeSpec.Ascending, MovedHere, Groups.TargetDepth;
    forall p: Path ensures MovedHere(before[path := nodes[path]], p, gd) <==> MovedHere(before, p, gd) || p == to {
      MovedSnoc(before, path, nodes[path], p, gd);
    }
    forall p: Path | MovedHere(before, p, gd) ensures Collapses(|p|, gd) { MovedCollapses(before, p, gd); }
    MovedIsStored(nodes, s, path, to, gd);
    LoneRegrouped(s, to, gd);
  }

  lemma {:induction false} LoneRegrouped(s: seq<Item>, p: Path, gd: nat)
    requires |Under(s, p)| == 1
    ensures RegroupedAt(s, p, gd) == StemNode(Under(s, p)[0].stem, Under(s, p)[0].entries)
  {
  }

  lemma {:induction false} MovedCollapses(nodes: Store, p: Path, gd: nat)
    requires MovedHere(nodes, p, gd)
    ensures Collapses(|p|, gd)
  {
  }

  lemma {:induction false} MovedSnoc(before: Store, path: Path, node: TrieNode, p: Path, gd: nat)
    requires path !in before
    ensures MovedHere(before[path := node], p, gd) <==> MovedHere(before, p, gd) || MovesTo(node, path, p, gd)
  {
    hide MovesTo;
    var after := before[path := node];
    if MovedHere(before, p, gd) {
      var r :| r in before && MovesTo(before[r], r, p, gd);
      assert r in after && MovesTo(after[r], r, p, gd);
    }
    if MovesTo(node, path, p, gd) { assert path in after && MovesTo(after[path], path, p, gd); }
  }

  /** The bottom of a lone stem's group is within the stem. */
  lemma {:induction false} StemTargetFits(nodes: Store, s: seq<Item>, p: Path, gd: nat)
    requires FinalStore(nodes, s, 0) && Ascending(s) && Fits(s, gd) && p in nodes && nodes[p].StemNode? && gd > 0 &&
        |p| % gd != 0
    ensures TargetDepth(|p|, gd) <= MAX_DEPTH
  {
    hide TreeSpec.Under, TreeSpec.Node;
    InternalIsShared(nodes, s, p);
    var b := BoundaryOf(|p|, gd);
    assert Stored(s, p, 0);
    assert |Under(s, p[..b])| >= 2;
    TwoUnderFit(s, p[..b], gd);
    BoundaryStep(b, gd);
    assert Collapses(b + gd, gd);
  }

  datatype Regrouping = Rejected | Panicked | Regrouped

  /** Rewrites an ungrouped store in place into the grouped layout. It panics, before anything is written,
  on the stems on which the builder panics for the same group depth. */
  method RegroupTrieNodes(db: Database, groupDepth: nat, ghost s: seq<Item>) returns (r: Regrouping)
    requires FinalStore(db.store, s, 0) && Ascending(s) && WellHashed(s)
    modifies db
    ensures r == if !(1 <= groupDepth <= 8) then Rejected
                 else if !Fits(s, groupDepth) then Panicked
                 else Regrouped
    ensures !r.Regrouped? ==> db.store == old(db.store)
    ensures r.Regrouped? ==> RegroupedStore(db.store, s, groupDepth)
  {
    hide TreeSpec.Under, TreeSpec.Node, BuilderSteps.FinalStore, RegroupedAt, BuilderSteps.Fits,
      TreeSpec.Ascending, WellHashed;
    if groupDepth < 1 || groupDepth > MAX_GROUP_DEPTH { return Rejected; }
    var nodes := db.store;
    var batch := new Batch();
    var panicked := WriteGroups(nodes, groupDepth, batch, s);
    if panicked { return Panicked; }
    QueuedStart(batch.puts, nodes, s, groupDepth);
    MoveOffBoundary(nodes, groupDepth, batch, s);
    db.Write(batch);
    forall p: Path
      ensures p in db.store <==> Stored(s, p, groupDepth)
      ensures p in db.store ==> db.store[p] == RegroupedAt(s, p, groupDepth)
    {
      RegroupPoint(nodes, s, p, groupDepth);
    }
    r := Regrouped;
  }

  /** Which paths survive the rewrite. */
  lemma {:induction false} RegroupPoint(nodes: Store, s: seq<Item>, p: Path, gd: nat)
    requires FinalStore(nodes, s, 0) && gd > 0
    ensures Stored(s, p, gd) <==>
      IsBoundaryInternal(nodes, p, gd) || MovedHere(nodes, p, gd) || (p in nodes && Collapses(|p|, gd))
    ensures p in nodes && Collapses(|p|, gd) && !IsBoundaryInternal(nodes, p, gd) ==> nodes[p] == RegroupedAt(s, p, gd)
  {
    hide TreeSpec.Node;
    if Stored(s, p, gd) {
      if |Under(s, p)| == 1 {
        LoneArrives(nodes, s, p, gd);
      } else {
        assert Stored(s, p, 0);
      }
    }
    if MovedHere(nodes, p, gd) {
      var r :| r in nodes && MovesTo(nodes[r], r, p, gd);
      MovedIsStored(nodes, s, r, p, gd);
    }
    if p in nodes {
      InternalIsShared(nodes, s, p);
      assert Stored(s, p, 0);
    }
  }
}
