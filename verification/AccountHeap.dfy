/** The min-heap that puts account results back in order: a slice ordered like a binary tree, and the loop
that drains it as long as its top is the next number. */
module AccountHeap {

  /** A worker's result; `fails` says that applying it returns an error. */
  datatype AccountResult = AccountResult(seqNum: nat, fails: bool)

  function Parent(k: int): int
    requires k > 0
  {
    (k - 1) / 2
  }

  ghost predicate HeapOrdered(s: seq<AccountResult>) {
    forall k :: 0 < k < |s| ==> s[Parent(k)].seqNum <= s[k].seqNum
  }

  /** Ordered except that position j may be smaller than its parent. */
  ghost predicate OrderedBut(s: seq<AccountResult>, j: nat) {
    && (forall k :: 0 < k < |s| && k != j ==> s[Parent(k)].seqNum <= s[k].seqNum)
    && (forall k :: 0 < k < |s| && Parent(k) == j && j > 0 ==> s[Parent(j)].seqNum <= s[k].seqNum)
  }

  /** Ordered except that position j may be greater than its children. */
  ghost predicate OrderedBelow(s: seq<AccountResult>, j: nat) {
    && (forall k :: 0 < k < |s| && Parent(k) != j ==> s[Parent(k)].seqNum <= s[k].seqNum)
    && (forall k :: 0 < k < |s| && Parent(k) == j && j > 0 ==> s[Parent(j)].seqNum <= s[k].seqNum)
  }

  function Swapped(s: seq<AccountResult>, i: nat, j: nat): (t: seq<AccountResult>)
    requires i < |s| && j < |s|
    ensures |t| == |s| && multiset(t) == multiset(s)
  {
    s[i := s[j]][j := s[i]]
  }

  /** The first result of a heap is a least one. */
  lemma {:induction false} TopIsLeast(s: seq<AccountResult>, k: nat)
    requires HeapOrdered(s) && k < |s|
    ensures s[0].seqNum <= s[k].seqNum
    decreases k
  {
    if k > 0 { TopIsLeast(s, Parent(k)); }
  }

  lemma {:induction false} UpStep(s: seq<AccountResult>, j: nat)
    requires 0 < j < |s| && OrderedBut(s, j) && s[j].seqNum < s[Parent(j)].seqNum
    ensures OrderedBut(Swapped(s, Parent(j), j), Parent(j))
  {
    var i := Parent(j);
    var t := Swapped(s, i, j);
    forall k | 0 < k < |t| && k != i ensures t[Parent(k)].seqNum <= t[k].seqNum {
      assert Parent(k) != k;
      if k != j && Parent(k) == i { assert s[i].seqNum <= s[k].seqNum; }
    }
    forall k | 0 < k < |t| && Parent(k) == i && i > 0 ensures t[Parent(i)].seqNum <= t[k].seqNum {
      assert s[Parent(i)].seqNum <= s[i].seqNum;
      if k != j { assert s[i].seqNum <= s[k].seqNum; }
    }
  }

  lemma {:induction false} DownStep(s: seq<AccountResult>, i: nat, j: nat)
    requires i < j < |s| && Parent(j) == i && OrderedBelow(s, i) && s[j].seqNum < s[i].seqNum
    requires forall k :: 0 < k < |s| && Parent(k) == i ==> s[j].seqNum <= s[k].seqNum
    ensures OrderedBelow(Swapped(s, i, j), j)
  {
    var t := Swapped(s, i, j);
    forall k | 0 < k < |t| && Parent(k) != j ensures t[Parent(k)].seqNum <= t[k].seqNum {
      if k == i { assert s[Parent(i)].seqNum <= s[j].seqNum; }
    }
    forall k | 0 < k < |t| && Parent(k) == j && j > 0 ensures t[Parent(j)].seqNum <= t[k].seqNum {
      assert s[Parent(k)].seqNum <= s[k].seqNum;
    }
  }

  class ResultHeap {
    var items: seq<AccountResult>

    ghost predicate Valid()
      reads this
    {
      HeapOrdered(items)
    }

    constructor ()
      ensures Valid() && items == []
    {
      items := [];
    }

    /** Appends x and moves it up. */
    method Push(x: AccountResult)
      requires Valid()
      modifies this
      ensures Valid() && multiset(items) == multiset(old(items)) + multiset{x}
    {
      items := items + [x];
      var j := |items| - 1;
      while j > 0 && items[j].seqNum < items[Parent(j)].seqNum
        invariant 0 <= j < |items| && OrderedBut(items, j)
        invariant multiset(items) == multiset(old(items)) + multiset{x}
        decreases j
      {
        UpStep(items, j);
        items := Swapped(items, Parent(j), j);
        j := Parent(j);
      }
    }

    /** Removes the top: the last result takes its place and moves down. */
    method Pop() returns (x: AccountResult)
      requires Valid() && items != []
      modifies this
      ensures Valid() && x == old(items)[0]
      ensures multiset(items) + multiset{x} == multiset(old(items))
    {
      var n := |items| - 1;
      x := items[0];
      ghost var all := Swapped(items, 0, n);
      assert all == all[..n] + [x];
      items := Swapped(items, 0, n)[..n];
      Exposed(old(items), items);
      Down();
    }

    method Down()
      requires OrderedBelow(items, 0)
      modifies this
      ensures Valid() && multiset(items) == multiset(old(items))
    {
      var i: nat := 0;
      var j := SmallerChild(i);
      while j < |items| && items[j].seqNum < items[i].seqNum
        invariant OrderedBelow(items, i) && multiset(items) == multiset(old(items))
        invariant i < j && IsSmallerChild(items, i, j)
        decreases |items| - i
      {
        DownStep(items, i, j);
        items := Swapped(items, i, j);
        i := j;
        j := SmallerChild(i);
      }
    }

    method SmallerChild(i: nat) returns (j: nat)
      ensures i < j && IsSmallerChild(items, i, j)
    {
      j := 2 * i + 1;
      if j + 1 < |items| && items[j + 1].seqNum < items[j].seqNum { j := j + 1; }
      ChildrenOf(i);
    }
  }

  lemma {:induction false} ChildrenOf(i: nat)
    ensures forall k {:trigger Parent(k)} :: k > 0 ==> (Parent(k) == i <==> k == 2 * i + 1 || k == 2 * i + 2)
  {
  }

  /** j is the child of i with the smaller number, or out of range when i has none. */
  ghost predicate IsSmallerChild(s: seq<AccountResult>, i: nat, j: nat)
  {
    && j > 0 && Parent(j) == i
    && forall k :: 0 < k < |s| && Parent(k) == i ==> j < |s| && s[j].seqNum <= s[k].seqNum
  }

  /** Replacing the top by the last result disturbs only the top. */
  lemma {:induction false} Exposed(s: seq<AccountResult>, t: seq<AccountResult>)
    requires s != [] && HeapOrdered(s) && |t| == |s| - 1
    requires t == Swapped(s, 0, |s| - 1)[..|s| - 1]
    ensures OrderedBelow(t, 0)
  {
    forall k | 0 < k < |t| && Parent(k) != 0 ensures t[Parent(k)].seqNum <= t[k].seqNum {
      assert t[k] == s[k] && t[Parent(k)] == s[Parent(k)];
    }
  }
}
