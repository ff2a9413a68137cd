/** Materializing a group's children in slot order and recomputing its hash level by level. */
module GroupNodes {
  import opened TreeSpec
  import opened Groups
  import opened BuilderSpec

  /** The first |ChildList(m, t)| children are exactly those with a slot below t. */
  lemma {:induction false} ChildListSplit(m: map<nat, Hash>, t: nat, n: nat)
    requires t <= n
    ensures ChildList(m, t) <= ChildList(m, n)
    ensures forall i :: 0 <= i < |ChildList(m, t)| ==> ChildList(m, n)[i].slot < t
    ensures forall i :: |ChildList(m, t)| <= i < |ChildList(m, n)| ==> t <= ChildList(m, n)[i].slot
    ensures forall i :: 0 <= i < |ChildList(m, n)| ==> ChildList(m, n)[i].slot in m
    decreases n
  {
    if t < n {
      ChildListSplit(m, t, n - 1);
    } else if n > 0 {
      ChildListSplit(m, n - 1, n - 1);
    }
  }

  /** Adding a slot to a bucket inserts its child at that position of the list. */
  lemma {:induction false} ChildListInsert(m: map<nat, Hash>, t: nat, h: Hash, n: nat)
    requires t !in m && t < n
    ensures |ChildList(m, t)| <= |ChildList(m, n)|
    ensures var k := |ChildList(m, t)|;
            ChildList(m[t := h], n) == ChildList(m, n)[..k] + [GroupChild(t, h)] + ChildList(m, n)[k..]
    decreases n
  {
    ChildListSplit(m, t, n);
    if t < n - 1 {
      ChildListInsert(m, t, h, n - 1);
    } else {
      ChildListSame(m, m[t := h], t);
    }
  }

  lemma {:induction false} ChildListSame(m: map<nat, Hash>, m': map<nat, Hash>, n: nat)
    requires forall i: nat :: i < n ==> (i in m <==> i in m') && (i in m ==> m[i] == m'[i])
    ensures ChildList(m, n) == ChildList(m', n)
  {
    if n > 0 { ChildListSame(m, m', n - 1); }
  }

  /** Inserts a child before the first larger slot. */
  method InsertBySlot(cs: seq<GroupChild>, c: GroupChild) returns (r: seq<GroupChild>, k: nat)
    ensures k <= |cs| && r == cs[..k] + [c] + cs[k..]
    ensures forall i :: 0 <= i < k ==> cs[i].slot < c.slot
    ensures k < |cs| ==> c.slot <= cs[k].slot
  {
    k := 0;
    while k < |cs| && cs[k].slot < c.slot
      invariant 0 <= k <= |cs|
      invariant forall i :: 0 <= i < k ==> cs[i].slot < c.slot
    {
      k := k + 1;
    }
    r := cs[..k] + [c] + cs[k..];
  }

  lemma {:induction false} InsertPosition(m: map<nat, Hash>, t: nat, n: nat, k: nat)
    requires t !in m && t < n && k <= |ChildList(m, n)|
    requires forall i :: 0 <= i < k ==> ChildList(m, n)[i].slot < t
    requires k < |ChildList(m, n)| ==> t <= ChildList(m, n)[k].slot
    ensures k == |ChildList(m, t)|
  {
    hide BuilderSpec.ChildList;
    ChildListSplit(m, t, n);
    var j := |ChildList(m, t)|;
    assert k < |ChildList(m, n)| ==> (k < j <==> ChildList(m, n)[k].slot < t);
    assert j < |ChildList(m, n)| ==> t <= ChildList(m, n)[j].slot;
  }

  /** The bucket's children, gathered in any order and sorted by slot: the order in which the map is
  iterated does not matter. */
  method SortedChildren(bucket: map<nat, Hash>, n: nat) returns (cs: seq<GroupChild>)
    requires forall t :: t in bucket ==> t < n
    ensures cs == ChildList(bucket, n)
  {
    hide BuilderSpec.ChildList;
    cs := [];
    var todo := bucket.Keys;
    ghost var m: map<nat, Hash> := map[];
    EmptyList(n);
    while todo != {}
      invariant todo <= bucket.Keys && m == bucket - todo
      invariant cs == ChildList(m, n)
      decreases |todo|
    {
      var t :| t in todo;
      var k;
      cs, k := InsertBySlot(cs, GroupChild(t, bucket[t]));
      InsertPosition(m, t, n, k);
      ChildListInsert(m, t, bucket[t], n);
      todo := todo - {t};
      m := m[t := bucket[t]];
    }
    assert m == bucket;
  }

  lemma {:induction false} EmptyList(n: nat)
    ensures ChildList(map[], n) == []
  {
    if n > 0 { EmptyList(n - 1); }
  }

  /** Recomputes a group's hash the way a reader of the stored node does: place the children in
  their slots, then reduce pairs level by level, two empty halves giving an empty parent. */
  method GroupedRecursiveHash(gd: nat, children: seq<GroupChild>, ghost m: map<nat, Hash>) returns (h: Hash)
    requires children == ChildList(m, Pow2(gd))
    ensures h == ReaderHash(m, gd, 0)
  {
    var leaves := PlaceLeaves(Pow2(gd), children, m);
    var level := leaves;
    ghost var height := 0;
    while level.Length > 1
      invariant height <= gd && level.Length == Pow2(gd - height)
      invariant forall i :: 0 <= i < level.Length ==> level[i] == ReaderHash(m, height, i)
      decreases gd - height
    {
      assert Pow2(gd - height) == 2 * Pow2(gd - height - 1);
      level := ReduceLevel(level, m, height);
      height := height + 1;
    }
    h := level[0];
  }

  method PlaceLeaves(n: nat, children: seq<GroupChild>, ghost m: map<nat, Hash>) returns (leaves: array<Hash>)
    requires children == ChildList(m, n)
    ensures fresh(leaves) && leaves.Length == n
    ensures forall i :: 0 <= i < n ==> leaves[i] == ReaderHash(m, 0, i)
  {
    ChildListSplit(m, n, n);
    leaves := new Hash[n](_ => Zero);
    for k := 0 to |children|
      invariant forall i :: 0 <= i < n ==> leaves[i] == LeafAt(children[..k], i)
    {
      assert children[..k + 1][..k] == children[..k];
      leaves[children[k].slot] := children[k].hash;
    }
    assert children[..|children|] == children;
    forall i | 0 <= i < n ensures leaves[i] == ReaderHash(m, 0, i) {
      LeafAtChildList(m, n, i);
    }
  }

  method ReduceLevel(level: array<Hash>, ghost m: map<nat, Hash>, ghost height: nat) returns (next: array<Hash>)
    requires level.Length % 2 == 0
    requires forall i :: 0 <= i < level.Length ==> level[i] == ReaderHash(m, height, i)
    ensures fresh(next) && next.Length == level.Length / 2
    ensures forall i :: 0 <= i < next.Length ==> next[i] == ReaderHash(m, height + 1, i)
  {
    next := new Hash[level.Length / 2](_ => Zero);
    for i := 0 to next.Length
      invariant forall j :: 0 <= j < i ==> next[j] == ReaderHash(m, height + 1, j)
      invariant forall j :: i <= j < next.Length ==> next[j] == Zero
    {
      var l, r := level[2 * i], level[2 * i + 1];
      if l != Zero || r != Zero {
        next[i] := Pair(l, r);
      }
      assert next[i] == ReaderHash(m, height + 1, i);
    }
  }
}
