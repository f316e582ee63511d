/**
 The k-th smallest number of a list, which is what std::nth_element leaves at
 position k, characterised by counting.
 */
module OrderStatistic {

  function Insert(s: seq<nat>, x: nat): (t: seq<nat>)
    ensures |t| == |s| + 1
  {
    if s == [] || x <= s[0] then [x] + s else [s[0]] + Insert(s[1..], x)
  }

  function Sorted(s: seq<nat>): (t: seq<nat>)
    ensures |t| == |s|
  {
    if s == [] then [] else Insert(Sorted(s[1..]), s[0])
  }

  /** The k-th smallest, counting from zero. */
  function Nth(s: seq<nat>, k: nat): nat
    requires k < |s|
  {
    Sorted(s)[k]
  }

  /** How many numbers are at least w. */
  function CountAtLeast(s: seq<nat>, w: nat): (n: nat)
    ensures n <= |s|
  {
    if s == [] then 0 else CountAtLeast(s[1..], w) + (if s[0] >= w then 1 else 0)
  }

  predicate IsSorted(s: seq<nat>) { forall i, j | 0 <= i < j < |s| :: s[i] <= s[j] }

  lemma {:induction false} InsertKeeps(s: seq<nat>, x: nat, w: nat)
    requires IsSorted(s)
    ensures IsSorted(Insert(s, x)) && (s != [] && x > s[0] ==> Insert(s, x)[0] == s[0])
    ensures CountAtLeast(Insert(s, x), w) == CountAtLeast(s, w) + if x >= w then 1 else 0
  {
    if s == [] || x <= s[0] {
      assert ([x] + s)[1..] == s;
    } else {
      InsertKeeps(s[1..], x, w);
      var t := Insert(s[1..], x);
      assert ([s[0]] + t)[1..] == t;
      assert s[0] <= t[0] by {
        if |s| > 1 { assert s[1] == s[1..][0]; }
      }
      assert forall j | 0 <= j < |t| :: t[0] <= t[j];
    }
  }

  lemma {:induction false} SortedKeeps(s: seq<nat>, w: nat)
    ensures IsSorted(Sorted(s)) && CountAtLeast(Sorted(s), w) == CountAtLeast(s, w)
  {
    if s != [] {
      SortedKeeps(s[1..], w);
      InsertKeeps(Sorted(s[1..]), s[0], w);
    }
  }

  lemma {:induction false} SortedCount(s: seq<nat>, k: nat, w: nat)
    requires IsSorted(s) && k < |s|
    ensures s[k] >= w <==> CountAtLeast(s, w) >= |s| - k
  {
    if k > 0 {
      SortedCount(s[1..], k - 1, w);
    } else if s[0] >= w {
      CountOfAll(s, w);
    }
  }

  lemma {:induction false} CountOfAll(s: seq<nat>, w: nat)
    requires forall i | 0 <= i < |s| :: s[i] >= w
    ensures CountAtLeast(s, w) == |s|
  {
    if s != [] { CountOfAll(s[1..], w); }
  }

  /** The k-th smallest is at least w exactly when all but at most k numbers are. */
  lemma NthAtLeast(s: seq<nat>, k: nat, w: nat)
    requires k < |s|
    ensures Nth(s, k) >= w <==> CountAtLeast(s, w) >= |s| - k
  {
    SortedKeeps(s, w);
    SortedCount(Sorted(s), k, w);
  }

  lemma {:induction false} CountMonotone(s: seq<nat>, t: seq<nat>, w: nat)
    requires |s| == |t| && forall i | 0 <= i < |s| :: s[i] <= t[i]
    ensures CountAtLeast(s, w) <= CountAtLeast(t, w)
  {
    if s != [] { CountMonotone(s[1..], t[1..], w); }
  }

  /** Larger numbers have a larger k-th smallest. */
  lemma NthMonotone(s: seq<nat>, t: seq<nat>, k: nat)
    requires k < |s| == |t| && forall i | 0 <= i < |s| :: s[i] <= t[i]
    ensures Nth(s, k) <= Nth(t, k)
  {
    NthAtLeast(s, k, Nth(s, k));
    CountMonotone(s, t, Nth(s, k));
    NthAtLeast(t, k, Nth(s, k));
  }
}
