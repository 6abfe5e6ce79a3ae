/** The bounded cache of parsed sources: at most 32 trees and 8 MiB of source, oldest use out first. */
module SourceTreeCaches {
  import opened Base

  const MAX_TREES: nat := 32
  const MAX_BYTES: nat := 8388608

  /** The parser's signature and the exact source text. */
  datatype Key = Key(signature: Bytes, source: Bytes)

  function TotalSize(order: seq<Key>): nat {
    if order == [] then 0 else |order[0].source| + TotalSize(order[1..])
  }

  lemma {:induction false} TotalSizeConcat(a: seq<Key>, b: seq<Key>)
    ensures TotalSize(a + b) == TotalSize(a) + TotalSize(b)
    decreases |a|
  {
    if a == [] {
      assert a + b == b;
    } else {
      assert (a + b)[1..] == a[1..] + b;
      TotalSizeConcat(a[1..], b);
    }
  }

  function Without(order: seq<Key>, k: Key): seq<Key> {
    if order == [] then [] else if order[0] == k then order[1..] else [order[0]] + Without(order[1..], k)
  }

  /** Moving an entry to the end changes neither the entries nor their total. */
  lemma {:induction false} MoveToEnd(order: seq<Key>, k: Key)
    requires Distinct(order) && k in order
    ensures |Without(order, k)| == |order| - 1 && Distinct(Without(order, k)) && k !in Without(order, k)
    ensures forall j :: j in Without(order, k) <==> j in order && j != k
    ensures TotalSize(Without(order, k)) + |k.source| == TotalSize(order)
    decreases |order|
  {
    assert order == [order[0]] + order[1..];
    if order[0] != k {
      MoveToEnd(order[1..], k);
      HeadIsFresh(order);
      WithoutIsPart(order[1..], k);
    }
  }

  lemma HeadIsFresh(order: seq<Key>)
    requires Distinct(order) && order != []
    ensures order[0] !in order[1..]
  {
  }

  lemma {:induction false} WithoutIsPart(order: seq<Key>, k: Key)
    ensures forall j :: j in Without(order, k) ==> j in order
    decreases |order|
  {
    if order != [] && order[0] != k {
      WithoutIsPart(order[1..], k);
    }
  }

  lemma FirstLeaves(order: seq<Key>)
    requires Distinct(order) && order != []
    ensures Distinct(order[1..]) && Elements(order[1..]) == Elements(order) - {order[0]}
    ensures TotalSize(order) == |order[0].source| + TotalSize(order[1..])
  {
    assert order == [order[0]] + order[1..];
  }

  lemma {:induction false} MemberFits(order: seq<Key>, k: Key)
    requires k in order
    ensures |k.source| <= TotalSize(order)
    decreases |order|
  {
    if order[0] != k {
      MemberFits(order[1..], k);
    }
  }

  predicate Over(count: nat, size: nat) {
    count > MAX_TREES || size > MAX_BYTES
  }

  predicate TooLarge(order: seq<Key>, drift: nat) {
    Over(|order|, TotalSize(order) + drift)
  }

  /** What is left after evicting from the front, when the recorded size exceeds the entries' own by `drift`. */
  function Kept(order: seq<Key>, drift: nat): seq<Key> {
    if order != [] && TooLarge(order, drift) then Kept(order[1..], drift) else order
  }

  /** The longest suffix that fits is kept, and nothing shorter. */
  lemma {:induction false} KeptIsLongestFit(order: seq<Key>, drift: nat) returns (n: nat)
    ensures n <= |order| && Kept(order, drift) == order[n..]
    ensures drift <= MAX_BYTES ==> |order[n..]| <= MAX_TREES && TotalSize(order[n..]) + drift <= MAX_BYTES
    ensures forall m | 0 <= m < n :: |order[m..]| > MAX_TREES || TotalSize(order[m..]) + drift > MAX_BYTES
    decreases |order|
  {
    assert order[0..] == order;
    if order != [] && TooLarge(order, drift) {
      var k := KeptIsLongestFit(order[1..], drift);
      n := k + 1;
      forall m | 0 <= m < n ensures |order[m..]| > MAX_TREES || TotalSize(order[m..]) + drift > MAX_BYTES {
        assert m > 0 ==> order[m..] == order[1..][m - 1..];
      }
      assert order[n..] == order[1..][k..];
    } else {
      n := 0;
    }
  }

  /** With no drift, an entry that fits by itself is never evicted by its own arrival. */
  lemma {:induction false} NewestStays(order: seq<Key>, k: Key)
    requires |k.source| <= MAX_BYTES
    ensures k in Kept(order + [k], 0)
    decreases |order|
  {
    assert (order + [k])[|order|] == k;
    if order == [] {
      assert [k][1..] == [] && TotalSize([k]) == |k.source|;
      assert order + [k] == [k];
    } else {
      assert (order + [k])[1..] == order[1..] + [k];
      NewestStays(order[1..], k);
    }
  }

  class SourceTrees<T> {
    var order: seq<Key>
    var trees: map<Key, T>
    var size: nat
    var active: bool

    /** The recorded size is that of the entries plus `drift`, within both limits. */
    ghost predicate Valid(drift: nat)
      reads this
    {
      && Distinct(order) && trees.Keys == Elements(order)
      && size == TotalSize(order) + drift && !Over(|order|, size)
    }

    constructor ()
      ensures Valid(0) && order == [] && active
    {
      order, trees, size, active := [], map[], 0, true;
    }

    /** `get`: a hit becomes the most recently used entry. */
    method Get(k: Key, ghost drift: nat) returns (tree: Option<T>)
      requires Valid(drift)
      modifies this`order
      ensures Valid(drift) && tree == if active && k in trees then Some(trees[k]) else None
      ensures order == if tree.Some? then Without(old(order), k) + [k] else old(order)
    {
      if !active || k !in trees {
        return None;
      }
      MoveToEnd(order, k);
      TotalSizeConcat(Without(order, k), [k]);
      order := Without(order, k) + [k];
      assert Elements(order) == Elements(old(order));
      return Some(trees[k]);
    }

    /** The eviction loop; the drift fits the budget, so there is always an entry left to evict. */
    method Evict(ghost drift: nat)
      requires Distinct(order) && trees.Keys == Elements(order) && size == TotalSize(order) + drift
              && drift <= MAX_BYTES
      modifies this`order, this`trees, this`size
      ensures Valid(drift) && order == Kept(old(order), drift)
      ensures forall j :: j in order ==> j in old(trees) && trees[j] == old(trees)[j]
    {
      ghost var all := order;
      while Over(|order|, size)
        invariant Kept(order, drift) == Kept(all, drift) && size == TotalSize(order) + drift
        invariant Distinct(order) && trees.Keys == Elements(order)
        invariant forall j :: j in order ==> j in old(trees) && trees[j] == old(trees)[j]
        decreases |order|
      {
        FirstLeaves(order);
        var k := order[0];
        size := size - |k.source|;
        trees := trees - {k};
        order := order[1..];
      }
    }

    /**
     `retain`. An absent key keeps the recorded size exact and is itself kept; a key already
     present is counted a second time, and that much of the budget is lost for good.
     */
    method Retain(k: Key, tree: T, ghost drift: nat) returns (ghost drift': nat)
      requires Valid(drift)
      modifies this`order, this`trees, this`size
      ensures Valid(drift')
      ensures drift' == drift + if active && |k.source| <= MAX_BYTES && k in old(trees) then |k.source| else 0
      ensures !active || |k.source| > MAX_BYTES ==> order == old(order) && trees == old(trees) && size == old(size)
      ensures active && |k.source| <= MAX_BYTES ==>
        var grown := if k in old(trees) then old(order) else old(order) + [k];
        order == Kept(grown, drift') && forall j :: j in order ==>
            j in trees && (if j == k then trees[j] == tree else j in old(trees) && trees[j] == old(trees)[j])
      ensures active && |k.source| <= MAX_BYTES && k !in old(trees) && drift == 0 ==> k in trees
    {
      drift' := drift;
      if active && |k.source| <= MAX_BYTES {
        if k in trees {
          MemberFits(order, k);
          drift' := drift + |k.source|;
        } else {
          TotalSizeConcat(order, [k]);
          order := order + [k];
        }
        trees := trees[k := tree];
        size := size + |k.source|;
        Evict(drift');
        if k !in old(trees) && drift == 0 {
          NewestStays(old(order), k);
        }
      }
    }
  }
}
