/**
 When a reflection macro matches its class: the rule behind
 tools/validate_reflection.py, stated on whole field lists.
 */
module FieldOrder {

  type Name = string

  ghost predicate Distinct<T>(s: seq<T>) {
    forall i, j | 0 <= i < j < |s| :: s[i] != s[j]
  }

  function Elems<T>(s: seq<T>): set<T> {
    set x | x in s
  }

  /** s without the members of `drop`, in order. */
  function Without(s: seq<Name>, drop: set<Name>): seq<Name>
  {
    if s == [] then []
    else Without(s[..|s| - 1], drop) + (if s[|s| - 1] in drop then [] else [s[|s| - 1]])
  }

  /** A class, its reflection and the two annotations above the macro. */
  datatype Annotated = Annotated(cls: seq<Name>, refl: seq<Name>, swapped: set<Name>, ignored: set<Name>)

  /** Class position i0 and reflection position j both follow the same plain field, or both are the start. */
  predicate Aligned(p: Annotated, i0: nat, j: nat)
    requires i0 <= |p.cls| && j <= |p.refl|
  {
    || (i0 == 0 && j == 0)
    || (i0 > 0 && j > 0 && p.cls[i0 - 1] == p.refl[j - 1] && p.cls[i0 - 1] !in p.swapped + p.ignored)
  }

  /**
   Position j of the reflection and i of the class hold the same swapped field,
   and between i and a class position aligned with j the class lists only
   swapped fields that the reflection has not mentioned yet.
   */
  predicate AlreadyInOrder(p: Annotated, j: nat, i0: nat, i: nat) {
    && j < |p.refl| && i0 <= i < |p.cls| && p.cls[i] == p.refl[j]
    && Aligned(p, i0, j)
    && forall k | i0 <= k <= i :: p.cls[k] in p.swapped && p.cls[k] !in p.refl[..j]
  }

  /** The reflection has the class fields that are not ignored, and the plain ones in the class order. */
  ghost predicate SameFields(p: Annotated) {
    && Elems(p.refl) == Elems(p.cls) - p.ignored
    && Without(p.cls, p.swapped + p.ignored) == Without(p.refl, p.swapped + p.ignored)
  }

  /** The rule of the header comment, made exact. */
  ghost predicate Matches(p: Annotated) {
    && p.ignored <= Elems(p.cls)
    && p.swapped <= Elems(p.cls) * Elems(p.refl)
    && SameFields(p)
    && !exists j: nat, i0: nat, i: nat :: AlreadyInOrder(p, j, i0, i)
  }

  /** The assertions of the matcher, by what they complain about. */
  datatype Complaint =
    | SwapNotReflected | SwapInOrder | IgnoreReflected | IgnoreInOrder | WrongField
    | ErroneousIgnores | UnknownFields | ErroneousSwaps | SwapNotProvided | SwapNotInClass

  /** What is wrong with the annotated lists when a complaint is made. */
  ghost predicate Justified(p: Annotated, complaint: Complaint) {
    match complaint
    case SwapNotReflected | SwapNotProvided => exists x <- p.swapped :: x in p.cls && x !in p.refl
    case SwapInOrder => exists j: nat, i0: nat, i: nat :: AlreadyInOrder(p, j, i0, i)
    case IgnoreReflected | IgnoreInOrder => exists x <- p.ignored :: x in p.refl
    case WrongField | UnknownFields => !SameFields(p)
    case ErroneousIgnores => exists x <- p.ignored :: x !in p.cls
    case ErroneousSwaps => exists x <- p.swapped :: x !in p.cls && x !in p.refl
    case SwapNotInClass => exists x <- p.swapped :: x !in p.cls && x in p.refl
  }

  /** A justified complaint is about a reflection that does not match. */
  lemma JustifiedRefutes(p: Annotated, complaint: Complaint)
    requires Justified(p, complaint)
    ensures !Matches(p)
  {
    if complaint.IgnoreReflected? || complaint.IgnoreInOrder? {
      var x :| x in p.ignored && x in p.refl;
      assert x in Elems(p.refl);
    }
  }

  // ------------------------------------------------------------------ lemmas

  lemma PrefixNext<T>(s: seq<T>, n: nat)
    requires n < |s|
    ensures s[..n + 1] == s[..n] + [s[n]]
    ensures Elems(s[..n + 1]) == Elems(s[..n]) + {s[n]}
    ensures Distinct(s) ==> s[n] !in s[..n]
  {}

  lemma WithoutNext(s: seq<Name>, n: nat, drop: set<Name>)
    requires n < |s|
    ensures Without(s[..n + 1], drop) == Without(s[..n], drop) + if s[n] in drop then [] else [s[n]]
  {
    assert s[..n + 1][..n] == s[..n];
  }

  lemma {:induction false} WithoutPrefix(s: seq<Name>, n: nat, drop: set<Name>)
    requires n <= |s|
    ensures Without(s[..n], drop) <= Without(s, drop)
    ensures Without(s[..n], drop) == Without(s, drop) <==> Elems(s[n..]) <= drop
    decreases |s| - n
  {
    if n == |s| {
      assert s[..n] == s;
    } else {
      WithoutPrefix(s, n + 1, drop);
      WithoutNext(s, n, drop);
      assert s[n..] == [s[n]] + s[n + 1..];
      assert Elems(s[n..]) == {s[n]} + Elems(s[n + 1..]);
    }
  }
}
