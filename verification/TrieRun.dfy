/** Whole runs: the reader groups sorted entries by stem, the builder loop feeds the stems and
finishes. */
module TrieRun {
  import opened Stems
  import opened TreeSpec
  import opened Groups
  import opened BuilderSpec
  import opened BuilderSteps
  import opened StackTrie
  import opened StemHash
  import opened TrieReader

  // ----- the builder loop

  datatype Outcome = Panic | Done(root: Hash)

  /** Feeds all items to a fresh builder and finishes. Panics exactly when neighbouring stems branch too
  deep for the group depth; otherwise the root and the store are those of the recursive tree. */
  method BuildRoot(items: seq<Item>, groupDepth: nat, w: TrieNodeWriter?) returns (r: Outcome)
    requires Ascending(items) && (w != null && groupDepth > 0 ==> NonZero(items))
    requires w != null ==> w.store == map[] && w.nodes == 0
    modifies if w == null then {} else {w}
    ensures r == if Fits(items, groupDepth) then Done(Root(items, groupDepth)) else Panic
    ensures r.Done? && w != null ==> FinalStore(w.store, items, groupDepth) && w.nodes == |w.store|
  {
    hide TreeSpec.Node, TreeSpec.Under, BuilderSteps.Fits, BuilderSteps.FinalStore, StreamingBuilder.Valid;
    var sb := new StreamingBuilder(groupDepth, w);
    for i := 0 to |items|
      invariant sb.Valid() && sb.fed == items[..i] && sb.groupDepth == groupDepth && sb.w == w
      invariant fresh(sb) && fresh(sb.stack) && fresh(sb.occupied) && fresh(sb.isRight) && fresh(sb.stemBits)
    {
      var x := items[i];
      assert items[..i + 1] == items[..i] + [Item(x.stem, x.hash, x.entries)];
      AscendingPrefix(items, i + 1);
      var panicked := sb.FeedStem(x.stem, x.hash, x.entries);
      if panicked {
        FitsPrefix(items, i + 1, groupDepth);
        return Panic;
      }
    }
    assert items[..|items|] == items;
    ValidFits(sb);
    var root := sb.Finish();
    r := Done(root);
  }

  lemma {:induction false} ValidFits(sb: StreamingBuilder)
    requires sb.Valid()
    ensures Fits(sb.fed, sb.groupDepth)
  {
    hide BuilderSteps.Fits;
  }

  lemma {:induction false} AscendingPrefix(s: seq<Item>, k: nat)
    requires Ascending(s) && k <= |s|
    ensures Ascending(s[..k])
  {
  }

  lemma {:induction false} FitsPrefix(s: seq<Item>, k: nat, gd: nat)
    requires k <= |s|
    ensures Fits(s, gd) ==> Fits(s[..k], gd)
    decreases |s|
  {
    hide Groups.TargetDepth, BuilderSpec.NextCPL;
    if k < |s| {
      FitsPrefix(s[..|s| - 1], k, gd);
      assert s[..|s| - 1][..k] == s[..k];
    } else {
      assert s[..k] == s;
    }
  }

  // ----- when the builder panics

  /** The deepest boundary within a stem. */
  function LastBoundary(gd: nat): nat
    requires gd > 0
  {
    BoundaryOf(MAX_DEPTH, gd)
  }

  lemma {:induction false} TargetFits(c: nat, gd: nat)
    requires gd > 0 && c < MAX_DEPTH
    ensures TargetDepth(c + 1, gd) <= MAX_DEPTH <==> c < LastBoundary(gd)
  {
    var b, t := LastBoundary(gd), TargetDepth(c + 1, gd);
    if t <= MAX_DEPTH {
      if b < t { BoundariesApart(b, t, gd); }
    } else if c < b {
      assert !Collapses(b, gd) by { if c + 1 <= b < t { } }
    }
  }

  /** Number of leading bits item i shares with its left neighbour. */
  function NeighbourCPL(s: seq<Item>, i: nat): nat
    requires 0 < i < |s|
  {
    CommonPrefixLen(s[i - 1].stem, s[i].stem)
  }

  /** A run fits exactly when no two neighbouring stems agree on all bits up to the last boundary. */
  lemma {:induction false} FitsIff(s: seq<Item>, gd: nat)
    requires Ascending(s)
    ensures Fits(s, gd) <==> gd == 0 || forall i: nat :: 0 < i < |s| ==> NeighbourCPL(s, i) < LastBoundary(gd)
  {
    hide Groups.TargetDepth, LastBoundary, Stems.CommonPrefixLen, TreeSpec.Ascending;
    if |s| > 1 {
      var init, last := s[..|s| - 1], s[|s| - 1];
      assert s == init + [last];
      AscendingInit(init, last);
      NeighbourBits(init, last);
      FitsIff(init, gd);
      if gd == 0 {
        UngroupedTarget(NextCPL(init, [last]));
      } else {
        TargetFits(NextCPL(init, [last]), gd);
        assert NextCPL(init, [last]) == NeighbourCPL(s, |s| - 1);
        assert forall i: nat :: 0 < i < |init| ==> NeighbourCPL(init, i) == NeighbourCPL(s, i);
      }
    }
  }

  lemma {:induction false} UngroupedTarget(c: nat)
    requires c < MAX_DEPTH
    ensures TargetDepth(c + 1, 0) <= MAX_DEPTH
  {
  }

  /** No run panics for a group depth that divides the stem length, in particular 1, 2, 4 and 8. */
  lemma {:induction false} DividingDepthFits(s: seq<Item>, gd: nat)
    requires Ascending(s) && gd > 0 && MAX_DEPTH % gd == 0
    ensures Fits(s, gd)
  {
    hide Stems.CommonPrefixLen;
    var b := LastBoundary(gd);
    if b < MAX_DEPTH { BoundariesApart(b, MAX_DEPTH, gd); }
    FitsIff(s, gd);
    forall i: nat | 0 < i < |s| ensures NeighbourCPL(s, i) < b {
      assert Before(s[i - 1].stem, s[i].stem);
    }
  }

  /** With group depth 3 the last boundary is 246: two stems that differ only in their last bit do not
  fit, and the builder panics on them. */
  lemma {:induction false} PanicWitness(h: Hash)
    ensures var zeros: Stem := seq(MAX_DEPTH, _ => false);
      var s := [Item(zeros, h, []), Item(zeros[MAX_DEPTH - 1 := true], h, [])];
      Ascending(s) && !Fits(s, 3)
  {
    var zeros: Stem := seq(MAX_DEPTH, _ => false);
    var one: Stem := zeros[MAX_DEPTH - 1 := true];
    var s := [Item(zeros, h, []), Item(one, h, [])];
    FirstDifference(zeros, one, MAX_DEPTH - 1);
    assert Ascending(s);
    FitsIff(s, 3);
    assert NeighbourCPL(s, 1) == 247;
    assert LastBoundary(3) == 246;
  }

  // ----- the reader

  /** A key-value pair of the sorted input: stem, suffix and value. */
  datatype TrieEntry = TrieEntry(stem: Stem, entry: Entry)

  /** One stem with its entries, as handed to a worker. */
  datatype StemWork = StemWork(stem: Stem, entries: seq<Entry>)

  predicate OrderedStems(entries: seq<TrieEntry>) {
    forall i, j :: 0 <= i < j < |entries| ==>
      entries[i].stem == entries[j].stem || Before(entries[i].stem, entries[j].stem)
  }

  /** The entries of a work list, in order. */
  function Flatten(work: seq<StemWork>): seq<TrieEntry> {
    if work == [] then [] else
      var last := work[|work| - 1];
      Flatten(work[..|work| - 1]) +
          seq(|last.entries|, i requires 0 <= i < |last.entries| => TrieEntry(last.stem, last.entries[i]))
  }

  predicate AscendingWork(work: seq<StemWork>) {
    forall i, j :: 0 <= i < j < |work| ==> Before(work[i].stem, work[j].stem)
  }

  /** work cuts the entries into non-empty pieces with strictly ascending stems, losing nothing. */
  ghost predicate IsGrouping(work: seq<StemWork>, entries: seq<TrieEntry>) {
    && Flatten(work) == entries && AscendingWork(work)
    && forall i :: 0 <= i < |work| ==> work[i].entries != []
  }

  /** Cuts the sorted input at every change of stem. Nothing is lost, duplicated or reordered, and the
  stems of the pieces are strictly ascending. */
  method ReadStems(entries: seq<TrieEntry>) returns (work: seq<StemWork>)
    requires OrderedStems(entries)
    ensures IsGrouping(work, entries)
  {
    hide Stems.CommonPrefixLen, Stems.Before, Flatten;
    work := [];
    EmptyFlatten(work);
    if entries == [] { return; }
    var currentStem := entries[0].stem;
    var current: seq<Entry> := [];
    FlattenOpen(work, currentStem);
    for i := 0 to |entries|
      invariant Flatten(work + [StemWork(currentStem, current)]) == entries[..i]
      invariant AscendingWork(work) && forall k :: 0 <= k < |work| ==> work[k].entries != []
      invariant i > 0 ==> current != [] && currentStem == entries[i - 1].stem
      invariant i == 0 ==> currentStem == entries[0].stem && work == []
      invariant forall k :: 0 <= k < |work| ==> Before(work[k].stem, currentStem)
    {
      if entries[i].stem != currentStem {
        NextPiece(work, currentStem, current, entries[i].stem);
        work := work + [StemWork(currentStem, current)];
        current := [];
        currentStem := entries[i].stem;
        FlattenOpen(work, currentStem);
      }
      FlattenSnoc(work, currentStem, current, entries[i].entry);
      current := current + [entries[i].entry];
      assert entries[..i + 1] == entries[..i] + [entries[i]];
    }
    assert entries[..|entries|] == entries;
    work := work + [StemWork(currentStem, current)];
  }

  lemma {:induction false} NextPiece(work: seq<StemWork>, stem: Stem, current: seq<Entry>, next: Stem)
    requires AscendingWork(work) && Before(stem, next)
    requires forall k :: 0 <= k < |work| ==> Before(work[k].stem, stem)
    ensures AscendingWork(work + [StemWork(stem, current)])
    ensures forall k :: 0 <= k < |work| ==> Before(work[k].stem, next)
  {
    hide Stems.CommonPrefixLen, Stems.Before;
    forall k | 0 <= k < |work| ensures Before(work[k].stem, next) { MiddleIsCloser(work[k].stem, stem, next); }
  }

  lemma {:induction false} FlattenOpen(work: seq<StemWork>, stem: Stem)
    ensures Flatten(work + [StemWork(stem, [])]) == Flatten(work)
  {
    assert (work + [StemWork(stem, [])])[..|work|] == work;
  }

  lemma {:induction false} FlattenSnoc(work: seq<StemWork>, stem: Stem, current: seq<Entry>, e: Entry)
    ensures Flatten(work + [StemWork(stem, current + [e])]) == Flatten(work + [StemWork(stem, current)]) +
        [TrieEntry(stem, e)]
  {
    assert (work + [StemWork(stem, current)])[..|work|] == work;
    assert (work + [StemWork(stem, current + [e])])[..|work|] == work;
  }

  lemma {:induction false} FlattenLast(work: seq<StemWork>)
    requires work != [] && forall i :: 0 <= i < |work| ==> work[i].entries != []
    ensures var f, l := Flatten(work), work[|work| - 1]; var n := |Flatten(work[..|work| - 1])|;
      && n + |l.entries| == |f| && f[..n] == Flatten(work[..|work| - 1])
      && (forall k :: 0 <= k < |l.entries| ==> f[n + k] == TrieEntry(l.stem, l.entries[k]))
      && f[|f| - 1].stem == l.stem
  {
    var l := work[|work| - 1];
    assert l.entries != [];
    var k := |l.entries| - 1;
    assert Flatten(work)[|Flatten(work[..|work| - 1])| + k] == TrieEntry(l.stem, l.entries[k]);
  }

  /** The last piece of one grouping is at least as long as that of any other. */
  lemma {:induction false} LastPieceLongest(a: seq<StemWork>, b: seq<StemWork>, entries: seq<TrieEntry>)
    requires IsGrouping(a, entries) && IsGrouping(b, entries) && a != [] && b != []
    ensures |a[|a| - 1].entries| >= |b[|b| - 1].entries|
  {
    hide Stems.CommonPrefixLen, Flatten;
    var n := |Flatten(a[..|a| - 1])|;
    FlattenLast(a);
    FlattenLast(b);
    var m := |Flatten(b[..|b| - 1])|;
    if m < n {
      EmptyFlatten(a[..|a| - 1]);
      FlattenLast(a[..|a| - 1]);
      assert entries[n - 1] == Flatten(a[..|a| - 1])[n - 1];
      assert entries[n - 1] == TrieEntry(b[|b| - 1].stem, b[|b| - 1].entries[n - 1 - m]);
      assert Before(a[|a| - 2].stem, a[|a| - 1].stem);
      NotBothBefore(a[|a| - 2].stem, a[|a| - 1].stem);
    }
  }

  lemma {:induction false} EmptyFlatten(work: seq<StemWork>)
    ensures work == [] ==> Flatten(work) == []
  {
  }

  /** The sorted input determines its pieces. */
  lemma {:induction false} GroupingIsUnique(a: seq<StemWork>, b: seq<StemWork>, entries: seq<TrieEntry>)
    requires IsGrouping(a, entries) && IsGrouping(b, entries)
    ensures a == b
    decreases |a|
  {
    hide Stems.CommonPrefixLen, Stems.Before, Flatten;
    EmptyFlatten(a);
    EmptyFlatten(b);
    if a != [] { FlattenLast(a); }
    if b != [] { FlattenLast(b); }
    if a != [] && b != [] {
      LastPieceLongest(a, b, entries);
      LastPieceLongest(b, a, entries);
      var x, y := a[|a| - 1], b[|b| - 1];
      var n := |entries| - |x.entries|;
      forall k | 0 <= k < |x.entries| ensures x.entries[k] == y.entries[k] {
        assert entries[n + k] == TrieEntry(x.stem, x.entries[k]) && entries[n + k] == TrieEntry(y.stem, y.entries[k]);
      }
      assert x == y;
      GroupingIsUnique(a[..|a| - 1], b[..|b| - 1], entries[..n]);
      assert a == a[..|a| - 1] + [x] && b == b[..|b| - 1] + [y];
    }
  }

  // ----- hashing the work

  /** What the workers make of the work, in order. */
  function Hashed(work: seq<StemWork>): (items: seq<Item>)
    ensures |items| == |work|
    ensures forall i :: 0 <= i < |work| ==>
      items[i] == Item(work[i].stem, StemNodeHash(work[i].stem, work[i].entries), work[i].entries)
  {
    seq(|work|, i requires 0 <= i < |work| =>
      Item(work[i].stem, StemNodeHash(work[i].stem, work[i].entries), work[i].entries))
  }

  lemma {:induction false} HashedAscending(work: seq<StemWork>)
    requires AscendingWork(work)
    ensures Ascending(Hashed(work)) && WellHashed(Hashed(work)) && NonZero(Hashed(work))
    ensures forall i :: 0 <= i < |work| ==>
      var x := Hashed(work)[i];
      x.stem == work[i].stem && x.entries == work[i].entries && IsStemHash(x.hash, work[i].stem, work[i].entries)
  {
    hide Stems.CommonPrefixLen, Stems.Before, Groups.ReaderHash, StemHash.LeavesAre;
    forall i | 0 <= i < |work| ensures IsStemHash(Hashed(work)[i].hash, work[i].stem, work[i].entries) {
      StemNodeHashIs(work[i].stem, work[i].entries);
    }
  }

  /** The sequential computation from sorted entries to root and store. */
  method ComputeBinaryRootFromSlice(entries: seq<TrieEntry>, groupDepth: nat, w: TrieNodeWriter?)
    returns (r: Outcome, ghost pieces: seq<StemWork>)
    requires OrderedStems(entries)
    requires w != null ==> w.store == map[] && w.nodes == 0
    modifies if w == null then {} else {w}
    ensures IsGrouping(pieces, entries)
    ensures r == if Fits(Hashed(pieces), groupDepth) then Done(Root(Hashed(pieces), groupDepth)) else Panic
    ensures r.Done? && w != null ==> FinalStore(w.store, Hashed(pieces), groupDepth) && w.nodes == |w.store|
  {
    hide TreeSpec.Node, TreeSpec.Under, BuilderSteps.Fits, BuilderSteps.FinalStore, StemHash.StemNodeHash,
      StemHash.IsStemHash, TreeSpec.Ascending;
    var work := ReadStems(entries);
    var list: seq<Item> := [];
    for i := 0 to |work|
      invariant list == Hashed(work)[..i]
      invariant w != null ==> w.store == map[] && w.nodes == 0
    {
      var h := ComputeStemNodeHash(work[i].stem, work[i].entries);
      list := list + [Item(work[i].stem, h, work[i].entries)];
    }
    HashedAscending(work);
    pieces := work;
    assert list == Hashed(work);
    r := BuildRoot(list, groupDepth, w);
  }
}
