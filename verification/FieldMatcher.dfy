/**
 The two-cursor loop of validate_file in tools/validate_reflection.py, and the
 object it consumes.
 */
module FieldMatcher {
  import opened FieldOrder

  /** list.remove: drops the first occurrence. */
  function Remove<T(==)>(s: seq<T>, x: T): seq<T>
    requires x in s
  {
    if s[0] == x then s[1..] else [s[0]] + Remove(s[1..], x)
  }

  lemma {:induction false} RemoveDistinct<T>(s: seq<T>, x: T)
    requires x in s && Distinct(s)
    ensures Distinct(Remove(s, x)) && Elems(Remove(s, x)) == Elems(s) - {x}
  {
    if s[0] == x {
      assert s == [x] + s[1..];
    } else {
      RemoveDistinct(s[1..], x);
      var t := Remove(s[1..], x);
      assert s == [s[0]] + s[1..];
      assert Elems(s) == {s[0]} + Elems(s[1..]);
      assert Elems([s[0]] + t) == {s[0]} + Elems(t);
      assert s[0] !in Elems(t);
    }
  }

  lemma AppendDistinct<T>(s: seq<T>, x: T)
    requires Distinct(s) && x !in s
    ensures Distinct(s + [x]) && Elems(s + [x]) == Elems(s) + {x}
  {}

  // ------------------------------------------------------- what a step keeps

  /** The loop's variables: two indices and five lists. */
  datatype Cursor = Cursor(f: nat, rf: nat, swapped: seq<Name>, ignored: seq<Name>,
                           back: seq<Name>, fwd: seq<Name>, seen: seq<Name>)

  function Passed(s: seq<Name>, n: nat): set<Name>
    requires n <= |s|
  {
    Elems(s[..n])
  }

  /** What the annotations must satisfy for the matcher's lists to behave as sets. */
  ghost predicate WellFormed(p: Annotated) {
    && Distinct(p.cls) && Distinct(p.refl)
    && p.swapped * p.ignored * Elems(p.refl) == {}
  }

  /** The annotations still open, by what has been passed on either side. */
  ghost predicate Accounted(p: Annotated, cs: set<Name>, rs: set<Name>,
                            swapped: set<Name>, ignored: set<Name>, back: set<Name>, fwd: set<Name>, seen: set<Name>) {
    && swapped == p.swapped - cs - rs
    && back == p.swapped * cs - rs
    && fwd == p.swapped * rs - cs
    && ignored == p.ignored - cs
    && seen == p.ignored * cs
    && p.swapped * cs <= Elems(p.refl)
    && rs <= p.swapped + cs
    && rs !! p.ignored
  }

  /** Every list is determined by how far the two cursors are. */
  ghost predicate ListsAgree(p: Annotated, c: Cursor) {
    && c.f <= |p.cls| && c.rf <= |p.refl|
    && Distinct(c.swapped) && Distinct(c.ignored) && Distinct(c.back) && Distinct(c.fwd)
    && Accounted(p, Passed(p.cls, c.f), Passed(p.refl, c.rf),
                 Elems(c.swapped), Elems(c.ignored), Elems(c.back), Elems(c.fwd), Elems(c.seen))
  }

  /** The fields matched plainly so far are the same on both sides. */
  ghost predicate PlainAgree(p: Annotated, c: Cursor)
    requires c.f <= |p.cls| && c.rf <= |p.refl|
  {
    Without(p.cls[..c.f], p.swapped + p.ignored) == Without(p.refl[..c.rf], p.swapped + p.ignored)
  }

  predicate Fresh(p: Annotated, s: seq<Name>, n: nat, c: Cursor) {
    n < |s| && s[n] in c.swapped
  }

  /** Since the lists were last in step, only unmentioned swapped class fields were passed. */
  ghost predicate InStep(p: Annotated, f: nat, rf: nat, i0: nat) {
    && i0 <= f <= |p.cls| && rf <= |p.refl|
    && Aligned(p, i0, rf)
    && forall k | i0 <= k < f :: p.cls[k] in p.swapped && p.cls[k] !in p.refl[..rf]
  }

  /** Both heads can be unmentioned swapped fields only while the lists are in step. */
  ghost predicate HeadsAgree(p: Annotated, c: Cursor) {
    (Fresh(p, p.cls, c.f, c) && Fresh(p, p.refl, c.rf, c)) ==> exists i0: nat :: InStep(p, c.f, c.rf, i0)
  }

  /** No swapped field that is already in order has been passed. */
  ghost predicate NoneMissed(p: Annotated, c: Cursor) {
    forall j: nat, i0: nat, i: nat | AlreadyInOrder(p, j, i0, i) ::
      (c.f <= i0 && c.rf <= j) || (c.rf == j && i0 <= c.f <= i)
  }

  ghost predicate Invariant(p: Annotated, c: Cursor) {
    ListsAgree(p, c) && PlainAgree(p, c) && HeadsAgree(p, c) && NoneMissed(p, c)
  }

  // ------------------------------------------------------------- the steps

  lemma {:induction false} WithoutElems(s: seq<Name>, drop: set<Name>, x: Name)
    ensures x in Without(s, drop) <==> x in s && x !in drop
  {
    if s != [] {
      var n := |s| - 1;
      WithoutElems(s[..n], drop, x);
      assert s == s[..n] + [s[n]];
    }
  }

  /** A plain field has been passed on both sides or on neither. */
  lemma PlainTogether(p: Annotated, c: Cursor, x: Name)
    requires ListsAgree(p, c) && PlainAgree(p, c) && x !in p.swapped + p.ignored
    ensures x in Passed(p.cls, c.f) <==> x in Passed(p.refl, c.rf)
  {
    WithoutElems(p.cls[..c.f], p.swapped + p.ignored, x);
    WithoutElems(p.refl[..c.rf], p.swapped + p.ignored, x);
  }

  /** The cursors reach an aligned pair of positions together. */
  lemma ReachedTogether(p: Annotated, c: Cursor, i0: nat, j: nat)
    requires WellFormed(p) && ListsAgree(p, c) && PlainAgree(p, c)
    requires c.f <= i0 <= |p.cls| && c.rf <= j <= |p.refl| && Aligned(p, i0, j)
    ensures c.f == i0 <==> c.rf == j
  {
    if i0 > 0 {
      PlainTogether(p, c, p.cls[i0 - 1]);
      IndexPassed(p.cls, c.f, i0 - 1);
      IndexPassed(p.refl, c.rf, j - 1);
    }
  }

  lemma IndexPassed(s: seq<Name>, n: nat, k: nat)
    requires Distinct(s) && n <= |s| && k < |s|
    ensures s[k] in Passed(s, n) <==> k < n
  {
    if k < n {
      assert s[..n][k] == s[k];
    }
  }

  /** Inside an already-ordered stretch the class head is unmentioned. */
  lemma StretchIsFresh(p: Annotated, c: Cursor, j: nat, i0: nat, i: nat)
    requires WellFormed(p) && ListsAgree(p, c) && AlreadyInOrder(p, j, i0, i)
    requires c.rf == j && i0 <= c.f <= i
    ensures Fresh(p, p.cls, c.f, c)
  {
    IndexPassed(p.cls, c.f, c.f);
    assert p.cls[c.f] in Elems(c.swapped);
  }

  /** With a settled class head, advancing either side misses nothing. */
  lemma NoneMissedNext(p: Annotated, c: Cursor, c': Cursor)
    requires WellFormed(p) && ListsAgree(p, c) && PlainAgree(p, c) && NoneMissed(p, c)
    requires !Fresh(p, p.cls, c.f, c)
    requires (c'.f == c.f && c'.rf == c.rf + 1) || (c'.f == c.f + 1 && c'.rf == c.rf)
    ensures NoneMissed(p, c')
  {
    forall j: nat, i0: nat, i: nat | AlreadyInOrder(p, j, i0, i)
      ensures (c'.f <= i0 && c'.rf <= j) || (c'.rf == j && i0 <= c'.f <= i)
    {
      hide ListsAgree, PlainAgree, AlreadyInOrder, Fresh, Distinct;
      AlreadyInOrderBounds(p, j, i0, i);
      if c.f <= i0 && c.rf <= j { ReachedTogether(p, c, i0, j); }
      if c.rf == j && i0 <= c.f <= i { StretchIsFresh(p, c, j, i0, i); }
    }
  }

  lemma AlreadyInOrderBounds(p: Annotated, j: nat, i0: nat, i: nat)
    requires AlreadyInOrder(p, j, i0, i)
    ensures j < |p.refl| && i0 <= i < |p.cls| && Aligned(p, i0, j)
  {}

  // ------------------------------------------------------ the lists, by step

  lemma SwappedNotIgnored(p: Annotated, x: Name)
    requires WellFormed(p) && x in p.swapped && x in p.refl
    ensures x !in p.ignored && x in Elems(p.refl)
  {
    assert x !in p.swapped * p.ignored * Elems(p.refl);
  }

  lemma BackLists(p: Annotated, c: Cursor, c': Cursor)
    requires WellFormed(p) && ListsAgree(p, c) && PlainAgree(p, c)
    requires Fresh(p, p.cls, c.f, c) && p.cls[c.f] in p.refl
    requires c' == c.(f := c.f + 1, swapped := Remove(c.swapped, p.cls[c.f]), back := c.back + [p.cls[c.f]])
    ensures ListsAgree(p, c') && PlainAgree(p, c')
  {
    hide Without;
    var x := p.cls[c.f];
    PrefixNext(p.cls, c.f);
    assert x in Elems(c.swapped) && x !in Elems(c.back);
    SwappedNotIgnored(p, x);
    RemoveDistinct(c.swapped, x);
    AppendDistinct(c.back, x);
    WithoutNext(p.cls, c.f, p.swapped + p.ignored);
  }

  lemma ForwardLists(p: Annotated, c: Cursor, c': Cursor)
    requires WellFormed(p) && ListsAgree(p, c) && PlainAgree(p, c)
    requires Fresh(p, p.refl, c.rf, c)
    requires c' == c.(rf := c.rf + 1, swapped := Remove(c.swapped, p.refl[c.rf]), fwd := c.fwd + [p.refl[c.rf]])
    ensures ListsAgree(p, c') && PlainAgree(p, c')
  {
    hide Without;
    var x := p.refl[c.rf];
    PrefixNext(p.refl, c.rf);
    assert x in Elems(c.swapped) && x !in Elems(c.fwd);
    SwappedNotIgnored(p, x);
    RemoveDistinct(c.swapped, x);
    AppendDistinct(c.fwd, x);
    WithoutNext(p.refl, c.rf, p.swapped + p.ignored);
  }

  lemma IgnoreLists(p: Annotated, c: Cursor, c': Cursor)
    requires WellFormed(p) && ListsAgree(p, c) && PlainAgree(p, c)
    requires c.f < |p.cls| && !Fresh(p, p.cls, c.f, c) && p.cls[c.f] in c.ignored
    requires c' == c.(f := c.f + 1, ignored := Remove(c.ignored, p.cls[c.f]), seen := c.seen + [p.cls[c.f]])
    ensures ListsAgree(p, c') && PlainAgree(p, c')
  {
    hide Without;
    var x := p.cls[c.f];
    PrefixNext(p.cls, c.f);
    assert x in Elems(c.ignored) && x !in Elems(c.swapped);
    assert x !in p.swapped;
    RemoveDistinct(c.ignored, x);
    assert Elems(c.seen + [x]) == Elems(c.seen) + {x};
    WithoutNext(p.cls, c.f, p.swapped + p.ignored);
  }

  lemma MeetBackLists(p: Annotated, c: Cursor, c': Cursor)
    requires WellFormed(p) && ListsAgree(p, c) && PlainAgree(p, c)
    requires c.rf < |p.refl| && p.refl[c.rf] in c.back
    requires c' == c.(rf := c.rf + 1, back := Remove(c.back, p.refl[c.rf]))
    ensures ListsAgree(p, c') && PlainAgree(p, c')
  {
    hide Without;
    var x := p.refl[c.rf];
    PrefixNext(p.refl, c.rf);
    assert x in Elems(c.back);
    SwappedNotIgnored(p, x);
    RemoveDistinct(c.back, x);
    WithoutNext(p.refl, c.rf, p.swapped + p.ignored);
  }

  lemma MeetForwardLists(p: Annotated, c: Cursor, c': Cursor)
    requires WellFormed(p) && ListsAgree(p, c) && PlainAgree(p, c)
    requires c.f < |p.cls| && p.cls[c.f] in c.fwd
    requires c' == c.(f := c.f + 1, fwd := Remove(c.fwd, p.cls[c.f]))
    ensures ListsAgree(p, c') && PlainAgree(p, c')
  {
    hide Without;
    var x := p.cls[c.f];
    PrefixNext(p.cls, c.f);
    assert x in Elems(c.fwd);
    assert x in Elems(p.refl) by { assert x in p.refl[..c.rf]; }
    assert x !in p.ignored;
    RemoveDistinct(c.fwd, x);
    WithoutNext(p.cls, c.f, p.swapped + p.ignored);
  }

  lemma PlainLists(p: Annotated, c: Cursor, c': Cursor)
    requires WellFormed(p) && ListsAgree(p, c) && PlainAgree(p, c)
    requires c.f < |p.cls| && c.rf < |p.refl| && p.cls[c.f] == p.refl[c.rf]
    requires !Fresh(p, p.cls, c.f, c) && p.cls[c.f] !in c.fwd && p.cls[c.f] !in c.ignored
    requires c' == c.(f := c.f + 1, rf := c.rf + 1)
    ensures ListsAgree(p, c') && PlainAgree(p, c') && p.cls[c.f] !in p.swapped + p.ignored
  {
    hide Without;
    var x := p.cls[c.f];
    PrefixNext(p.cls, c.f);
    PrefixNext(p.refl, c.rf);
    assert x !in Elems(c.swapped) && x !in Elems(c.fwd) && x !in Elems(c.ignored);
    WithoutNext(p.cls, c.f, p.swapped + p.ignored);
    WithoutNext(p.refl, c.rf, p.swapped + p.ignored);
  }

  // ------------------------------------------------- the invariant, by step

  /** The class field is declared swapped and not met before. */
  lemma BackStep(p: Annotated, c: Cursor, c': Cursor)
    requires WellFormed(p) && Invariant(p, c)
    requires Fresh(p, p.cls, c.f, c) && p.cls[c.f] in p.refl
    requires c.rf < |p.refl| ==> p.refl[c.rf] != p.cls[c.f]
    requires c' == c.(f := c.f + 1, swapped := Remove(c.swapped, p.cls[c.f]), back := c.back + [p.cls[c.f]])
    ensures Invariant(p, c')
  {
    BackLists(p, c, c');
    BackHeads(p, c, c');
    forall j: nat, i0: nat, i: nat | AlreadyInOrder(p, j, i0, i)
      ensures (c'.f <= i0 && c'.rf <= j) || (c'.rf == j && i0 <= c'.f <= i)
    {
      hide ListsAgree, PlainAgree, Fresh, Distinct;
      if c.f <= i0 && c.rf <= j { ReachedTogether(p, c, i0, j); }
    }
  }

  lemma BackHeads(p: Annotated, c: Cursor, c': Cursor)
    requires WellFormed(p) && ListsAgree(p, c) && ListsAgree(p, c') && HeadsAgree(p, c)
    requires Fresh(p, p.cls, c.f, c)
    requires c'.f == c.f + 1 && c'.rf == c.rf && Elems(c'.swapped) <= Elems(c.swapped)
    ensures HeadsAgree(p, c')
  {
    if Fresh(p, p.cls, c'.f, c') && Fresh(p, p.refl, c'.rf, c') {
      assert p.refl[c.rf] in Elems(c'.swapped);
      var i0: nat :| InStep(p, c.f, c.rf, i0);
      assert p.cls[c.f] in Elems(c.swapped);
      assert InStep(p, c'.f, c'.rf, i0);
    }
  }

  /** The reflected field is declared swapped and not met before. */
  lemma ForwardStep(p: Annotated, c: Cursor, c': Cursor)
    requires WellFormed(p) && Invariant(p, c)
    requires !Fresh(p, p.cls, c.f, c) && Fresh(p, p.refl, c.rf, c)
    requires c' == c.(rf := c.rf + 1, swapped := Remove(c.swapped, p.refl[c.rf]), fwd := c.fwd + [p.refl[c.rf]])
    ensures Invariant(p, c')
  {
    ForwardLists(p, c, c');
    NoneMissedNext(p, c, c');
    StaysSettled(p, p.cls, c.f, c, c');
  }

  /** A field once met does not become unmentioned again. */
  lemma StaysSettled(p: Annotated, s: seq<Name>, n: nat, c: Cursor, c': Cursor)
    requires ListsAgree(p, c) && ListsAgree(p, c') && c.f <= c'.f && c.rf <= c'.rf
    requires !Fresh(p, s, n, c)
    ensures !Fresh(p, s, n, c')
  {
    assert Passed(p.cls, c.f) <= Passed(p.cls, c'.f) by { assert p.cls[..c'.f][..c.f] == p.cls[..c.f]; }
    assert Passed(p.refl, c.rf) <= Passed(p.refl, c'.rf) by { assert p.refl[..c'.rf][..c.rf] == p.refl[..c.rf]; }
    assert Elems(c'.swapped) <= Elems(c.swapped);
    if n < |s| { assert s[n] in c.swapped <==> s[n] in Elems(c.swapped); }
  }

  /** The class field is declared ignored. */
  lemma IgnoreStep(p: Annotated, c: Cursor, c': Cursor)
    requires WellFormed(p) && Invariant(p, c)
    requires c.f < |p.cls| && !Fresh(p, p.cls, c.f, c) && !Fresh(p, p.refl, c.rf, c) && p.cls[c.f] in c.ignored
    requires c' == c.(f := c.f + 1, ignored := Remove(c.ignored, p.cls[c.f]), seen := c.seen + [p.cls[c.f]])
    ensures Invariant(p, c')
  {
    IgnoreLists(p, c, c');
    NoneMissedNext(p, c, c');
    StaysSettled(p, p.refl, c.rf, c, c');
  }

  /** A swapped field that the class listed earlier. */
  lemma MeetBackStep(p: Annotated, c: Cursor, c': Cursor)
    requires WellFormed(p) && Invariant(p, c)
    requires !Fresh(p, p.cls, c.f, c)
    requires c.rf < |p.refl| && p.refl[c.rf] in c.back
    requires c' == c.(rf := c.rf + 1, back := Remove(c.back, p.refl[c.rf]))
    ensures Invariant(p, c')
  {
    MeetBackLists(p, c, c');
    NoneMissedNext(p, c, c');
    StaysSettled(p, p.cls, c.f, c, c');
  }

  /** A swapped field that the reflection listed earlier. */
  lemma MeetForwardStep(p: Annotated, c: Cursor, c': Cursor)
    requires WellFormed(p) && Invariant(p, c)
    requires c.f < |p.cls| && !Fresh(p, p.cls, c.f, c) && !Fresh(p, p.refl, c.rf, c) && p.cls[c.f] in c.fwd
    requires c' == c.(f := c.f + 1, fwd := Remove(c.fwd, p.cls[c.f]))
    ensures Invariant(p, c')
  {
    MeetForwardLists(p, c, c');
    NoneMissedNext(p, c, c');
    StaysSettled(p, p.refl, c.rf, c, c');
  }

  /** The same plain field on both sides. */
  lemma PlainStep(p: Annotated, c: Cursor, c': Cursor)
    requires WellFormed(p) && Invariant(p, c)
    requires c.f < |p.cls| && c.rf < |p.refl| && p.cls[c.f] == p.refl[c.rf]
    requires !Fresh(p, p.cls, c.f, c) && p.cls[c.f] !in c.fwd && p.cls[c.f] !in c.ignored
    requires c' == c.(f := c.f + 1, rf := c.rf + 1)
    ensures Invariant(p, c')
  {
    PlainLists(p, c, c');
    assert InStep(p, c'.f, c'.rf, c'.f);
    forall j: nat, i0: nat, i: nat | AlreadyInOrder(p, j, i0, i)
      ensures (c'.f <= i0 && c'.rf <= j) || (c'.rf == j && i0 <= c'.f <= i)
    {
      hide ListsAgree, PlainAgree, Fresh, Distinct;
      if c.f <= i0 && c.rf <= j { ReachedTogether(p, c, i0, j); }
      assert p.cls[i0] in p.swapped;
    }
  }

  // ------------------------------------------- complaints are never mistaken

  lemma StartIsFine(p: Annotated, swapped: seq<Name>, ignored: seq<Name>)
    requires WellFormed(p) && Distinct(swapped) && Distinct(ignored)
    requires p.swapped == Elems(swapped) && p.ignored == Elems(ignored)
    ensures Invariant(p, Cursor(0, 0, swapped, ignored, [], [], []))
  {
    assert InStep(p, 0, 0, 0);
  }

  lemma SwapNotReflectedIsRight(p: Annotated, c: Cursor)
    requires Invariant(p, c) && Fresh(p, p.cls, c.f, c) && p.cls[c.f] !in p.refl
    ensures Justified(p, SwapNotReflected)
  {
    assert p.cls[c.f] in Elems(c.swapped);
  }

  lemma SwapInOrderIsRight(p: Annotated, c: Cursor)
    requires WellFormed(p) && Invariant(p, c) && Fresh(p, p.cls, c.f, c)
    requires c.rf < |p.refl| && p.refl[c.rf] == p.cls[c.f]
    ensures Justified(p, SwapInOrder)
  {
    var i0: nat :| InStep(p, c.f, c.rf, i0);
    assert p.cls[c.f] in Elems(c.swapped);
    assert p.cls[c.f] !in Passed(p.refl, c.rf);
    assert AlreadyInOrder(p, c.rf, i0, c.f);
  }

  lemma IgnoreReflectedIsRight(p: Annotated, c: Cursor, x: Name)
    requires ListsAgree(p, c) && x in p.refl && (x in c.seen || x in c.ignored)
    ensures Justified(p, IgnoreReflected) && Justified(p, IgnoreInOrder)
  {
    assert x in Elems(c.seen) || x in Elems(c.ignored);
  }

  /** Once the class is used up, a matching reflection only has fields left that the class put back. */
  lemma TailIsBack(p: Annotated, c: Cursor)
    requires WellFormed(p) && ListsAgree(p, c) && PlainAgree(p, c) && SameFields(p)
    requires c.f == |p.cls| && c.rf < |p.refl|
    ensures p.refl[c.rf] in c.back
  {
    var x := p.refl[c.rf];
    assert p.cls[..c.f] == p.cls;
    PrefixNext(p.refl, c.rf);
    WithoutPrefix(p.refl, c.rf, p.swapped + p.ignored);
    assert x in Elems(p.refl) && x in Elems(p.refl[c.rf..]);
    assert x in Elems(c.back);
  }

  lemma UnknownFieldIsRight(p: Annotated, c: Cursor)
    requires WellFormed(p) && ListsAgree(p, c) && PlainAgree(p, c)
    requires c.f == |p.cls| && c.rf < |p.refl| && p.refl[c.rf] !in c.back
    ensures Justified(p, UnknownFields)
  {
    if SameFields(p) { TailIsBack(p, c); }
  }

  /** Heads without annotation must be the same field if the lists match. */
  lemma PlainHeadsEqual(p: Annotated, c: Cursor)
    requires WellFormed(p) && ListsAgree(p, c) && PlainAgree(p, c) && SameFields(p)
    requires c.f < |p.cls| && !Fresh(p, p.cls, c.f, c) && p.cls[c.f] !in c.fwd && p.cls[c.f] !in c.ignored
    requires !Fresh(p, p.refl, c.rf, c) && (c.rf < |p.refl| ==> p.refl[c.rf] !in c.back)
    ensures c.rf < |p.refl| && p.refl[c.rf] == p.cls[c.f]
  {
    hide Without, Distinct;
    var x, drop := p.cls[c.f], p.swapped + p.ignored;
    PrefixNext(p.cls, c.f);
    assert x !in Elems(c.swapped) && x !in Elems(c.fwd) && x !in Elems(c.ignored);
    WithoutNext(p.cls, c.f, drop);
    WithoutPrefix(p.cls, c.f + 1, drop);
    WithoutPrefix(p.refl, c.rf, drop);
    var plain := Without(p.cls[..c.f], drop);
    assert c.rf < |p.refl| by {
      assert |plain + [x]| <= |Without(p.refl, drop)|;
    }
    ReflectedHeadIsPlain(p, c);
    WithoutNext(p.refl, c.rf, drop);
    WithoutPrefix(p.refl, c.rf + 1, drop);
    assert (plain + [x])[|plain|] == (plain + [p.refl[c.rf]])[|plain|];
  }

  lemma WrongFieldIsRight(p: Annotated, c: Cursor)
    requires WellFormed(p) && ListsAgree(p, c) && PlainAgree(p, c)
    requires c.f < |p.cls| && !Fresh(p, p.cls, c.f, c) && p.cls[c.f] !in c.fwd && p.cls[c.f] !in c.ignored
    requires !Fresh(p, p.refl, c.rf, c) && (c.rf < |p.refl| ==> p.refl[c.rf] !in c.back)
    requires c.rf < |p.refl| ==> p.refl[c.rf] != p.cls[c.f]
    ensures Justified(p, WrongField)
  {
    if SameFields(p) { PlainHeadsEqual(p, c); }
  }

  lemma ReflectedHeadIsPlain(p: Annotated, c: Cursor)
    requires WellFormed(p) && ListsAgree(p, c) && SameFields(p)
    requires c.rf < |p.refl| && !Fresh(p, p.refl, c.rf, c) && p.refl[c.rf] !in c.back
    ensures p.refl[c.rf] !in p.swapped + p.ignored
  {
    var y := p.refl[c.rf];
    PrefixNext(p.refl, c.rf);
    assert y !in Elems(c.swapped) && y !in Elems(c.back);
    assert y in Elems(p.refl);
  }

  /** Annotations left over when the lists are used up. */
  lemma LeftoverIsRight(p: Annotated, c: Cursor, x: Name)
    requires ListsAgree(p, c) && c.f == |p.cls|
    ensures x in c.ignored ==> Justified(p, ErroneousIgnores)
    ensures c.rf == |p.refl| && x in c.swapped ==> Justified(p, ErroneousSwaps)
    ensures c.rf == |p.refl| && x in c.back ==> Justified(p, SwapNotProvided)
    ensures c.rf == |p.refl| && x in c.fwd ==> Justified(p, SwapNotInClass)
  {
    assert p.cls[..c.f] == p.cls && (c.rf == |p.refl| ==> p.refl[..c.rf] == p.refl);
    assert x in c.ignored <==> x in Elems(c.ignored);
    assert x in c.swapped <==> x in Elems(c.swapped);
    assert x in c.back <==> x in Elems(c.back);
    assert x in c.fwd <==> x in Elems(c.fwd);
  }

  /** Both lists are used up and so are all annotations. */
  lemma AcceptanceIsRight(p: Annotated, c: Cursor)
    requires WellFormed(p) && Invariant(p, c)
    requires c.f == |p.cls| && c.rf == |p.refl|
    requires c.ignored == [] && c.swapped == [] && c.back == [] && c.fwd == []
    ensures Matches(p)
  {
    assert p.cls[..c.f] == p.cls && p.refl[..c.rf] == p.refl;
    var cs, rs := Elems(p.cls), Elems(p.refl);
    assert p.ignored - cs == {} && p.swapped - cs - rs == {} && p.swapped * cs - rs == {} && p.swapped * rs - cs == {};
    forall x | x in p.ignored ensures x in cs { assert x !in p.ignored - cs; }
    forall x | x in p.swapped ensures x in cs * rs {
      assert x !in p.swapped - cs - rs && x !in p.swapped * cs - rs && x !in p.swapped * rs - cs;
    }
    forall x ensures x in cs - p.ignored <==> x in rs {
      if x !in p.swapped + p.ignored { PlainTogether(p, c, x); }
    }
  }
}
