/**
 Merkle roots over any pair hash: the batch computation of
 libraries/chain/merkle.cpp and the incremental one of
 libraries/chain/include/eosio/chain/incremental_merkle.hpp.
 */
module Merkle {
  import opened Bits
  import opened MerkleDepth

  /** digest_type::hash(make_canonical_pair(l, r)) */
  type PairHash<!D> = (D, D) -> D

  // ----------------------------------------------------------- the definition

  /** The next level over a level of complete pairs; an odd last node is left out. */
  function Paired<D>(h: PairHash<D>, s: seq<D>): (t: seq<D>)
    ensures |t| == |s| / 2
    ensures forall i | 0 <= i < |t| :: t[i] == h(s[2 * i], s[2 * i + 1])
  {
    seq(|s| / 2, i requires 0 <= i < |s| / 2 => h(s[2 * i], s[2 * i + 1]))
  }

  /** An odd level is completed by repeating its last node. */
  function Completed<D>(s: seq<D>): (t: seq<D>)
    ensures |t| % 2 == 0 && s <= t && |t| <= |s| + 1
  {
    if |s| % 2 == 1 then s + [s[|s| - 1]] else s
  }

  function Level<D>(h: PairHash<D>, s: seq<D>): seq<D> { Paired(h, Completed(s)) }

  function Root<D>(h: PairHash<D>, s: seq<D>): D
    requires s != []
    decreases |s|
  {
    if |s| == 1 then s[0] else Root(h, Level(h, s))
  }

  /** The roots of the complete subtrees, smallest first: one for every one in the binary form of |s|. */
  function Peaks<D>(h: PairHash<D>, s: seq<D>): seq<D>
    decreases |s|
  {
    if s == [] then []
    else (if |s| % 2 == 1 then [s[|s| - 1]] else []) + Peaks(h, Paired(h, s))
  }

  /** What the incremental tree keeps: the peaks, and the root unless it is the only peak. */
  function Active<D>(h: PairHash<D>, s: seq<D>): seq<D>
  {
    if s == [] then [] else if |Peaks(h, s)| == 1 then Peaks(h, s) else Peaks(h, s) + [Root(h, s)]
  }

  /** The root over two complete halves is the hash of their roots, the left one first. */
  lemma {:induction false} RootOfHalves<D>(h: PairHash<D>, s: seq<D>, t: seq<D>, k: nat)
    requires |s| == |t| == Pow2(k)
    ensures Root(h, s + t) == h(Root(h, s), Root(h, t))
    decreases k
  {
    hide Root, Pow2, Paired;
    var all := s + t;
    RootStep(h, all);
    if k == 0 {
      PowZero();
      assert all == [s[0], t[0]] && s == [s[0]] && t == [t[0]];
      RootOfOne(h, s[0]);
      RootOfOne(h, t[0]);
      assert Level(h, all) == [h(s[0], t[0])];
      RootOfOne(h, h(s[0], t[0]));
    } else {
      Pow2Next(k - 1, k);
      RootStep(h, s);
      RootStep(h, t);
      RootOfHalves(h, Level(h, s), Level(h, t), k - 1);
      assert Level(h, all) == Level(h, s) + Level(h, t);
    }
  }

  lemma PowZero()
    ensures Pow2(0) == 1
  {}

  /** Lists of different lengths can share a root: an odd list, and the same with its last leaf repeated. */
  lemma RepeatedLast<D>(h: PairHash<D>, s: seq<D>)
    requires |s| % 2 == 1 && |s| > 1
    ensures Root(h, s + [s[|s| - 1]]) == Root(h, s)
  {
    hide Root, Paired;
    var t := s + [s[|s| - 1]];
    assert Completed(s) == t == Completed(t);
    RootStep(h, s);
    RootStep(h, t);
  }

  // ------------------------------------------------------------ realized nodes

  /** The nodes k levels up whose subtrees are complete. */
  function Realized<D>(h: PairHash<D>, s: seq<D>, k: nat): seq<D>
    decreases k
  {
    if k == 0 then s else Realized(h, Paired(h, s), k - 1)
  }

  /** Appending leaves never changes a node whose subtree is complete. */
  lemma {:induction false} RealizedStable<D>(h: PairHash<D>, s: seq<D>, t: seq<D>, k: nat)
    requires s <= t
    ensures Realized(h, s, k) <= Realized(h, t, k)
    decreases k
  {
    if k > 0 { RealizedStable(h, Paired(h, s), Paired(h, t), k - 1); }
  }

  /** It is the root of its own leaves. */
  lemma {:induction false} RealizedIsRoot<D>(h: PairHash<D>, s: seq<D>, k: nat, i: nat)
    requires i < |Realized(h, s, k)|
    ensures Scaled(i, k) < Scaled(i + 1, k) <= |s|
    ensures Realized(h, s, k)[i] == Root(h, s[Scaled(i, k)..Scaled(i + 1, k)])
    decreases k
  {
    hide Root, Paired;
    if k > 0 {
      RealizedIsRoot(h, Paired(h, s), k - 1, i);
      RootOfPart(h, s, Scaled(i, k - 1), Scaled(i + 1, k - 1));
    } else {
      RootOfOne(h, s[i]);
      assert s[i..i + 1] == [s[i]];
    }
  }

  lemma RootOfOne<D>(h: PairHash<D>, x: D)
    ensures Root(h, [x]) == x
  {}

  lemma RootOfPart<D>(h: PairHash<D>, s: seq<D>, a: nat, b: nat)
    requires a < b <= |Paired(h, s)|
    ensures Root(h, s[2 * a..2 * b]) == Root(h, Paired(h, s)[a..b])
  {
    hide Root;
    var part := s[2 * a..2 * b];
    assert Completed(part) == part;
    assert Paired(h, s)[a..b] == Paired(h, part);
    RootStep(h, part);
  }

  // -------------------------------------------------------------- batch root

  /** merkle: folds the list onto itself level by level. */
  method BatchRoot<D>(h: PairHash<D>, leaves: seq<D>, none: D) returns (root: D)
    ensures root == if leaves == [] then none else Root(h, leaves)
  {
    if |leaves| == 0 {
      return none;
    }
    var ids := leaves;
    while |ids| > 1
      invariant ids != [] && Root(h, ids) == Root(h, leaves)
      decreases |ids|
    {
      RootStep(h, ids);
      ids := Fold(h, ids);
    }
    root := ids[0];
  }

  /** One turn of the loop: completes the level and pairs it up in place. */
  method Fold<D>(h: PairHash<D>, level: seq<D>) returns (ids: seq<D>)
    requires |level| > 1
    ensures ids == Level(h, level) && 0 < |ids| < |level|
  {
    ids := level;
    if |ids| % 2 == 1 {
      ids := ids + [ids[|ids| - 1]];
    }
    ghost var full := ids;
    assert full == Completed(level);
    var i := 0;
    while i < |ids| / 2
      invariant 0 <= i <= |ids| / 2 && |ids| == |full|
      invariant forall k | 0 <= k < i :: ids[k] == h(full[2 * k], full[2 * k + 1])
      invariant forall k | 2 * i <= k < |ids| :: ids[k] == full[k]
    {
      ids := ids[i := h(ids[2 * i], ids[2 * i + 1])];
      i := i + 1;
    }
    ids := ids[..|ids| / 2];
  }

  // ---------------------------------------------------------- incremental root

  lemma LevelOfEven<D>(h: PairHash<D>, left: seq<D>, top: D)
    requires |left| % 2 == 0
    ensures Level(h, left + [top]) == Paired(h, left) + [h(top, top)]
    ensures Paired(h, left + [top]) == Paired(h, left)
  {
    var s := left + [top];
    assert Completed(s) == left + [top, top];
    assert |Completed(s)| / 2 == |left| / 2 + 1;
  }

  lemma LevelOfOdd<D>(h: PairHash<D>, left: seq<D>, top: D)
    requires |left| % 2 == 1
    ensures Level(h, left + [top]) == Paired(h, left) + [h(left[|left| - 1], top)]
    ensures Paired(h, left + [top]) == Level(h, left + [top])
  {
    var s := left + [top];
    assert |s| / 2 == |left| / 2 + 1 && 2 * (|left| / 2) == |left| - 1;
  }

  /**
   A position in the climb: the complete nodes of a level, the node over the new
   leaf to the right of them, and the nodes gathered so far.
   */
  ghost predicate Climbing<D>(h: PairHash<D>, all: seq<D>, left: seq<D>, top: D, partial: bool, updated: seq<D>) {
    && all != [] && Root(h, all) == Root(h, left + [top])
    && (!partial ==> updated == [] && Peaks(h, all) == Peaks(h, left + [top]))
    && (partial ==> updated != [] && Peaks(h, all) == updated + Peaks(h, left))
  }

  lemma RootStep<D>(h: PairHash<D>, s: seq<D>)
    requires |s| > 1
    ensures Level(h, s) != [] && Root(h, s) == Root(h, Level(h, s))
  {}

  lemma PeaksStep<D>(h: PairHash<D>, s: seq<D>)
    ensures |s| % 2 == 1 ==> Peaks(h, s) == [s[|s| - 1]] + Peaks(h, Paired(h, s))
    ensures |s| % 2 == 0 ==> Peaks(h, s) == Peaks(h, Paired(h, s))
  {
    if |s| % 2 == 0 && s != [] {
      var none: seq<D> := [];
      assert none + Peaks(h, Paired(h, s)) == Peaks(h, Paired(h, s));
    }
  }

  /** The left neighbour is only implied: the new node is paired with itself. */
  lemma ClimbEven<D>(h: PairHash<D>, all: seq<D>, left: seq<D>, top: D, partial: bool, updated: seq<D>)
    requires Climbing(h, all, left, top, partial, updated) && left != [] && |left| % 2 == 0
    ensures Climbing(h, all, Paired(h, left), h(top, top), true, if partial then updated else updated + [top])
    ensures Peaks(h, left) == Peaks(h, Paired(h, left))
  {
    hide Root, Peaks, Paired, Level;
    LevelOfEven(h, left, top);
    RootStep(h, left + [top]);
    PeaksStep(h, left);
    PeaksStep(h, left + [top]);
  }

  /** The left neighbour is complete: it is the next old peak. */
  lemma ClimbOdd<D>(h: PairHash<D>, all: seq<D>, left: seq<D>, top: D, partial: bool, updated: seq<D>)
    requires Climbing(h, all, left, top, partial, updated) && |left| % 2 == 1
    ensures var leftValue := left[|left| - 1];
            && Peaks(h, left) == [leftValue] + Peaks(h, Paired(h, left))
            && Climbing(h, all, Paired(h, left), h(leftValue, top), partial,
                        if partial then updated + [leftValue] else updated)
  {
    hide Root, Peaks, Paired, Level;
    var leftValue := left[|left| - 1];
    LevelOfOdd(h, left, top);
    RootStep(h, left + [top]);
    PeaksStep(h, left);
    PeaksStep(h, left + [top]);
    if partial {
      assert updated + ([leftValue] + Peaks(h, Paired(h, left))) == updated + [leftValue] + Peaks(h, Paired(h, left));
    }
  }

  /** At the top the climb has the root, and the gathered nodes are what must be kept. */
  lemma ClimbEnds<D>(h: PairHash<D>, all: seq<D>, top: D, partial: bool, updated: seq<D>)
    requires Climbing(h, all, [], top, partial, updated)
    requires partial ==> |Peaks(h, all)| > 1
    ensures Root(h, all) == top && Active(h, all) == updated + [top]
  {
    assert [] + [top] == [top];
    assert Root(h, [top]) == top && Peaks(h, [top]) == [top] + Peaks(h, Paired(h, [top]));
    assert updated + Peaks(h, []) == updated;
  }

  lemma {:induction false} PeaksNonEmpty<D>(h: PairHash<D>, s: seq<D>)
    requires s != []
    ensures Peaks(h, s) != []
    decreases |s|
  {
    if |s| % 2 == 0 { PeaksNonEmpty(h, Paired(h, s)); }
  }

  class IncrementalMerkle<D> {
    const h: PairHash<D>
    var nodeCount: nat
    var activeNodes: seq<D>
    ghost var leaves: seq<D>

    /** The object stands for the leaves appended so far. */
    ghost predicate Valid()
      reads this
    {
      nodeCount == |leaves| < Pow2(64) && (leaves != [] ==> activeNodes == Active(h, leaves))
    }

    constructor (hash: PairHash<D>)
      ensures Valid() && leaves == [] && h == hash
    {
      h, nodeCount, activeNodes, leaves := hash, 0, [], [];
    }

    /**
     Appends a leaf in as many steps as the tree is deep, and returns the new root. When the
     64-bit node count wraps to 0 the climb is empty, and the object starts again without leaves.
     */
    method Append(digest: D) returns (root: D)
      requires Valid()
      modifies this
      ensures Valid()
      ensures old(|leaves|) + 1 < Pow2(64) ==> leaves == old(leaves) + [digest] && root == Root(h, leaves)
      ensures old(|leaves|) + 1 == Pow2(64) ==> leaves == [] && root == digest
    {
      hide Root, Peaks, Paired, Level, Climbing, BitLength, Pow2;
      if nodeCount + 1 == Pow2(64) {
        assert MaxDepth(0) - 1 < 0;
        activeNodes, nodeCount, leaves := [digest], 0, [];
        return digest;
      }
      var partial := false;
      var maxDepth := MaxDepth(nodeCount + 1);
      var currentDepth := maxDepth - 1;
      var index := nodeCount;
      var top := digest;
      var next := 0;
      var updated: seq<D> := [];
      ghost var all, left := leaves + [digest], leaves;
      StartClimb(h, leaves, digest);
      while currentDepth > 0
        invariant currentDepth == BitLength(index) && |left| == index && |all| == nodeCount + 1
        invariant Climbing(h, all, left, top, partial, updated)
        invariant 0 <= next <= |activeNodes| && Peaks(h, left) <= activeNodes[next..]
        invariant partial ==> |Peaks(h, all)| > 1
      {
        HalvedDepth(index);
        if index % 2 == 0 {
          ClimbEven(h, all, left, top, partial, updated);
          if !partial {
            ManyPeaks(h, all, left, top, updated);
            updated := updated + [top];
          }
          top := h(top, top);
          partial := true;
        } else {
          ClimbOdd(h, all, left, top, partial, updated);
          var leftValue := activeNodes[next];
          NextPeak(activeNodes[next..], left[|left| - 1], Peaks(h, Paired(h, left)));
          next := next + 1;
          if partial {
            updated := updated + [leftValue];
          }
          top := h(leftValue, top);
        }
        left := Paired(h, left);
        currentDepth := currentDepth - 1;
        index := index / 2;
      }
      NoDigits(index);
      ClimbEnds(h, all, top, partial, updated);
      updated := updated + [top];
      activeNodes := updated;
      nodeCount := nodeCount + 1;
      leaves := all;
      root := activeNodes[|activeNodes| - 1];
    }

    /** The last active node is the root. */
    method GetRoot(none: D) returns (root: D)
      requires Valid()
      ensures root == if leaves == [] then none else Root(h, leaves)
    {
      if nodeCount > 0 {
        LastActiveIsRoot(h, leaves);
        root := activeNodes[|activeNodes| - 1];
      } else {
        root := none;
      }
    }
  }

  lemma StartClimb<D>(h: PairHash<D>, leaves: seq<D>, digest: D)
    ensures Climbing(h, leaves + [digest], leaves, digest, false, [])
    ensures Peaks(h, leaves) <= Active(h, leaves)
  {}

  lemma HalvedDepth(index: nat)
    requires BitLength(index) > 0
    ensures BitLength(index / 2) == BitLength(index) - 1 && index > 0
  {}

  lemma NoDigits(index: nat)
    requires BitLength(index) == 0
    ensures index == 0
  {}

  lemma NextPeak<D>(active: seq<D>, x: D, rest: seq<D>)
    requires [x] + rest <= active
    ensures active != [] && active[0] == x && rest <= active[1..]
  {}

  /** When the climb first meets an implied neighbour, old peaks remain above it. */
  lemma ManyPeaks<D>(h: PairHash<D>, all: seq<D>, left: seq<D>, top: D, updated: seq<D>)
    requires Climbing(h, all, left, top, false, updated) && left != [] && |left| % 2 == 0
    ensures |Peaks(h, all)| > 1
  {
    LevelOfEven(h, left, top);
    PeaksStep(h, left + [top]);
    PeaksNonEmpty(h, Paired(h, left));
  }

  lemma {:induction false} LastActiveIsRoot<D>(h: PairHash<D>, s: seq<D>)
    requires s != []
    ensures Active(h, s) != [] && Active(h, s)[|Active(h, s)| - 1] == Root(h, s)
    decreases |s|
  {
    if |Peaks(h, s)| == 1 { SinglePeak(h, s); }
  }

  /** A single peak is the root. */
  lemma {:induction false} SinglePeak<D>(h: PairHash<D>, s: seq<D>)
    requires s != [] && |Peaks(h, s)| == 1
    ensures Peaks(h, s) == [Root(h, s)]
    decreases |s|
  {
    if |s| > 1 {
      PeaksStep(h, s);
      PeaksNonEmpty(h, Paired(h, s));
      assert |s| % 2 == 0;
      SinglePeak(h, Paired(h, s));
      assert Completed(s) == s;
    }
  }
}
