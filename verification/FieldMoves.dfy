/**
 What the header comment of tools/validate_reflection.py promises: a field out
 of place is excused by declaring that field swapped, either of two exchanged
 neighbours will do, and both must not be declared. And what the flag of a chainbase
 object does: its `id` need not be reflected.
 */
module FieldMoves {
  import opened FieldOrder
  import opened ReflectionValidator

  function Insert(d: seq<Name>, i: nat, x: Name): seq<Name>
    requires i <= |d|
  {
    d[..i] + [x] + d[i..]
  }

  lemma {:induction false} WithoutConcat(s: seq<Name>, t: seq<Name>, drop: set<Name>)
    ensures Without(s + t, drop) == Without(s, drop) + Without(t, drop)
  {
    if t == [] {
      assert s + t == s;
    } else {
      var n := |t| - 1;
      WithoutConcat(s, t[..n], drop);
      assert (s + t)[..|s + t| - 1] == s + t[..n];
    }
  }

  lemma {:induction false} WithoutNothing(s: seq<Name>, drop: set<Name>)
    requires Elems(s) !! drop
    ensures Without(s, drop) == s
  {
    if s != [] {
      var n := |s| - 1;
      assert s == s[..n] + [s[n]];
      assert s[n] in Elems(s) && Elems(s[..n]) <= Elems(s);
      WithoutNothing(s[..n], drop);
    }
  }

  lemma InsertElems(d: seq<Name>, i: nat, x: Name)
    requires i <= |d| && Distinct(d) && x !in d
    ensures Distinct(Insert(d, i, x)) && Elems(Insert(d, i, x)) == Elems(d) + {x}
    ensures Without(Insert(d, i, x), {x}) == d
  {
    hide Without;
    assert d == d[..i] + d[i..];
    InsertDistinct(d, i, x);
    assert Elems(Insert(d, i, x)) == Elems(d) + {x} by {
      assert forall y :: y in d <==> y in d[..i] || y in d[i..];
    }
    WithoutConcat(d[..i] + [x], d[i..], {x});
    WithoutConcat(d[..i], [x], {x});
    WithoutNothing(d[..i], {x});
    WithoutNothing(d[i..], {x});
    WithoutSelf(x);
  }

  lemma WithoutSelf(x: Name)
    ensures Without([x], {x}) == []
  {}

  lemma InsertDistinct(d: seq<Name>, i: nat, x: Name)
    requires i <= |d| && Distinct(d) && x !in d
    ensures Distinct(Insert(d, i, x))
  {
    var s := Insert(d, i, x);
    assert forall k | 0 <= k < |s| :: s[k] == if k < i then d[k] else if k == i then x else d[k - 1];
  }

  lemma DropOne(s: seq<Name>, k: nat)
    requires k < |s| && Distinct(s)
    ensures var t := s[..k] + s[k + 1..]; Distinct(t) && s[k] !in t && Insert(t, k, s[k]) == s
  {
    var t := s[..k] + s[k + 1..];
    assert forall m | 0 <= m < |t| :: t[m] == s[if m < k then m else m + 1];
  }

  /** One field moved anywhere else: declaring just that field is right, and wrong exactly when it did not move. */
  lemma MovedField(d: seq<Name>, i: nat, j: nat, x: Name)
    requires Distinct(d) && x !in d && i <= |d| && j <= |d|
    ensures Matches(Annotated(Insert(d, i, x), Insert(d, j, x), {x}, {})) <==> i != j
  {
    hide Without;
    var p := Annotated(Insert(d, i, x), Insert(d, j, x), {x}, {});
    InsertElems(d, i, x);
    InsertElems(d, j, x);
    assert p.swapped + p.ignored == {x};
    if i == j {
      assert AlreadyInOrder(p, j, i, i);
    } else {
      forall k: nat, i0: nat, i': nat ensures !AlreadyInOrder(p, k, i0, i') {
        if AlreadyInOrder(p, k, i0, i') { OnlyItself(d, i, j, x, k, i0, i'); }
      }
    }
  }

  /** With one swapped field, the stretch before it is empty and the positions coincide. */
  lemma OnlyItself(d: seq<Name>, i: nat, j: nat, x: Name, k: nat, i0: nat, i': nat)
    requires Distinct(d) && x !in d && i <= |d| && j <= |d|
    requires AlreadyInOrder(Annotated(Insert(d, i, x), Insert(d, j, x), {x}, {}), k, i0, i')
    ensures i == j
  {
    var cls, refl := Insert(d, i, x), Insert(d, j, x);
    assert i' == i && k == j by {
      assert cls[i'] == x && refl[k] == x;
    }
    assert i0 == i by {
      assert cls[i0] == x;
    }
    if i > 0 {
      assert cls[i - 1] == d[i - 1];
      assert j > 0 && refl[j - 1] == d[j - 1];
    }
  }

  /** Two exchanged neighbours: either one may be declared swapped, both may not, and one must be. */
  lemma ExchangedNeighbours(before: seq<Name>, a: Name, b: Name, after: seq<Name>)
    requires Distinct(before + [a, b] + after)
    ensures var cls, refl := before + [a, b] + after, before + [b, a] + after;
            && Matches(Annotated(cls, refl, {a}, {}))
            && Matches(Annotated(cls, refl, {b}, {}))
            && !Matches(Annotated(cls, refl, {a, b}, {}))
            && !Matches(Annotated(cls, refl, {}, {}))
  {
    hide Matches, Distinct;
    FirstMoved(before, a, b, after);
    SecondMoved(before, a, b, after);
    BothRefused(before, a, b, after);
    NoneRefused(before + [a, b] + after, before + [b, a] + after, |before|);
  }

  lemma FirstMoved(before: seq<Name>, a: Name, b: Name, after: seq<Name>)
    requires Distinct(before + [a, b] + after)
    ensures Matches(Annotated(before + [a, b] + after, before + [b, a] + after, {a}, {})) && a != b
  {
    hide Matches, Distinct;
    var cls, d, n := before + [a, b] + after, before + [b] + after, |before|;
    DropOne(cls, n);
    assert cls[..n] + cls[n + 1..] == d && d[n] == b;
    assert Insert(d, n + 1, a) == before + [b, a] + after;
    MovedField(d, n, n + 1, a);
  }

  lemma SecondMoved(before: seq<Name>, a: Name, b: Name, after: seq<Name>)
    requires Distinct(before + [a, b] + after)
    ensures Matches(Annotated(before + [a, b] + after, before + [b, a] + after, {b}, {}))
  {
    hide Matches, Distinct;
    var cls, d, n := before + [a, b] + after, before + [a] + after, |before|;
    DropOne(cls, n + 1);
    assert cls[..n + 1] + cls[n + 2..] == d;
    assert Insert(d, n, b) == before + [b, a] + after;
    MovedField(d, n + 1, n, b);
  }

  lemma BothRefused(before: seq<Name>, a: Name, b: Name, after: seq<Name>)
    requires Distinct(before + [a, b] + after)
    ensures !Matches(Annotated(before + [a, b] + after, before + [b, a] + after, {a, b}, {}))
  {
    var cls, refl, n := before + [a, b] + after, before + [b, a] + after, |before|;
    var both := Annotated(cls, refl, {a, b}, {});
    assert cls[n] == a && cls[n + 1] == b && refl[..n] == before == cls[..n];
    assert Aligned(both, n, n) by {
      if n > 0 { assert cls[n - 1] == refl[n - 1] == before[n - 1]; }
    }
    assert AlreadyInOrder(both, n, n, n + 1);
  }

  lemma NoneRefused(cls: seq<Name>, refl: seq<Name>, n: nat)
    requires n < |cls| && n < |refl| && cls[n] != refl[n]
    ensures !Matches(Annotated(cls, refl, {}, {}))
  {
    WithoutNothing(cls, {});
    WithoutNothing(refl, {});
    var none: set<Name> := {};
    assert none + none == none;
  }

  // ------------------------------------------------------------------- object ids

  /** The flag stands for an @ignore of `id`, unless `id` is ignored or reflected already; then it changes nothing. */
  lemma FlagIsAnnotation(cls: seq<Name>, fields: seq<Name>, swapped: seq<Name>, ignored: seq<Name>)
    ensures var mentioned := "id" in ignored || "id" in fields;
            Case(cls, fields, swapped, ignored, true)
            == Case(cls, fields, swapped, if mentioned then ignored else ignored + ["id"], false)
    ensures Case(cls, fields, swapped, ignored, false) == Annotated(cls, fields, Elems(swapped), Elems(ignored))
  {}

  /** A reflection of all fields but the `id` matches exactly when the flag is set, wherever the class has its `id`. */
  lemma UnreflectedId(d: seq<Name>, i: nat, ignoreId: bool)
    requires Distinct(d) && "id" !in d && i <= |d|
    ensures Matches(Case(Insert(d, i, "id"), d, [], [], ignoreId)) <==> ignoreId
  {
    hide Without;
    var p := Case(Insert(d, i, "id"), d, [], [], ignoreId);
    InsertElems(d, i, "id");
    if ignoreId {
      assert p == Annotated(Insert(d, i, "id"), d, {}, {"id"});
      assert p.swapped + p.ignored == {"id"};
      WithoutNothing(d, {"id"});
    } else {
      assert "id" in Elems(p.cls) && "id" !in Elems(p.refl) && p.ignored == {};
    }
  }
}
