/**
 permission_visitor of unittests/misc_tests.cpp: an undo log that saves only the
 length of the list, proved against one that saves the whole list.
 */
module UndoLog {
  import opened Common

  /** The calls a visitor receives; a repeated visit is ignored. */
  datatype Op<T> = Visit(permission: T) | Repeat(permission: T) | Push | Pop | Squash

  // -------------------------------------------------- lengths, as in the code

  datatype Lengths<T> = Lengths(permissions: seq<T>, sizes: seq<nat>) {
    /** Saved sizes never decrease and never exceed the list. */
    predicate Valid() {
      && (forall i, j | 0 <= i < j < |sizes| :: sizes[i] <= sizes[j])
      && (forall i | 0 <= i < |sizes| :: sizes[i] <= |permissions|)
    }
  }

  /** One call; None is a failed assertion. */
  function Apply<T>(s: Lengths<T>, op: Op<T>): Option<Lengths<T>>
  {
    match op
    case Visit(p) => Some(s.(permissions := s.permissions + [p]))
    case Repeat(_) => Some(s)
    case Push => Some(s.(sizes := s.sizes + [|s.permissions|]))
    case Pop =>
      if s.sizes == [] || s.sizes[|s.sizes| - 1] > |s.permissions| then None
      else Some(Lengths(s.permissions[..s.sizes[|s.sizes| - 1]], s.sizes[..|s.sizes| - 1]))
    case Squash =>
      if s.sizes == [] then None else Some(s.(sizes := s.sizes[..|s.sizes| - 1]))
  }

  function Run<T>(s: Lengths<T>, ops: seq<Op<T>>): Option<Lengths<T>>
    decreases ops
  {
    if ops == [] then Some(s)
    else
      var r := Apply(s, ops[0]);
      if r == None then None else Run(r.value, ops[1..])
  }

  // ------------------------------------------- whole lists, the simple design

  datatype Snapshots<T> = Snapshots(permissions: seq<T>, saved: seq<seq<T>>)

  function ApplySimple<T>(s: Snapshots<T>, op: Op<T>): Option<Snapshots<T>>
  {
    match op
    case Visit(p) => Some(s.(permissions := s.permissions + [p]))
    case Repeat(_) => Some(s)
    case Push => Some(s.(saved := s.saved + [s.permissions]))
    case Pop => if s.saved == [] then None else Some(Snapshots(s.saved[|s.saved| - 1], s.saved[..|s.saved| - 1]))
    case Squash => if s.saved == [] then None else Some(s.(saved := s.saved[..|s.saved| - 1]))
  }

  function RunSimple<T>(s: Snapshots<T>, ops: seq<Op<T>>): Option<Snapshots<T>>
    decreases ops
  {
    if ops == [] then Some(s)
    else
      var r := ApplySimple(s, ops[0]);
      if r == None then None else RunSimple(r.value, ops[1..])
  }

  /** A saved size stands for that much of the list. */
  function Abstract<T>(s: Lengths<T>): Snapshots<T>
    requires s.Valid()
  {
    Snapshots(s.permissions, seq(|s.sizes|, i requires 0 <= i < |s.sizes| => s.permissions[..s.sizes[i]]))
  }

  function AbstractResult<T>(r: Option<Lengths<T>>): Option<Snapshots<T>>
    requires r.Some? ==> r.value.Valid()
  {
    if r == None then None else Some(Abstract(r.value))
  }

  // --------------------------------------------------------------- refinement

  /** Copies taken of a longer list are the same copies. */
  lemma SameCopies<T>(s: Lengths<T>, t: Lengths<T>)
    requires s.Valid() && s.sizes == t.sizes
    requires s.permissions <= t.permissions || (t.permissions <= s.permissions && t.Valid())
    ensures t.Valid() && Abstract(t).saved == Abstract(s).saved
  {
    forall i | 0 <= i < |s.sizes| ensures t.permissions[..s.sizes[i]] == s.permissions[..s.sizes[i]] {}
  }

  lemma PushRefines<T>(s: Lengths<T>)
    requires s.Valid()
    ensures var t := s.(sizes := s.sizes + [|s.permissions|]);
            t.Valid() && Abstract(t).saved == Abstract(s).saved + [s.permissions]
  {
    assert s.permissions[..|s.permissions|] == s.permissions;
  }

  lemma DropRefines<T>(s: Lengths<T>)
    requires s.Valid() && s.sizes != []
    ensures var t := s.(sizes := s.sizes[..|s.sizes| - 1]);
            t.Valid() && Abstract(t).saved == Abstract(s).saved[..|s.sizes| - 1]
  {}

  lemma ApplyRefines<T>(s: Lengths<T>, op: Op<T>)
    requires s.Valid()
    ensures Apply(s, op).Some? ==> Apply(s, op).value.Valid()
    ensures AbstractResult(Apply(s, op)) == ApplySimple(Abstract(s), op)
  {
    match op
    case Visit(p) => SameCopies(s, Apply(s, op).value);
    case Repeat(_) =>
    case Push => PushRefines(s);
    case Pop =>
      if s.sizes != [] {
        DropRefines(s);
        SameCopies(s.(sizes := s.sizes[..|s.sizes| - 1]), Apply(s, op).value);
      }
    case Squash => if s.sizes != [] { DropRefines(s); }
  }

  /** Over every run the stack of lengths does what a stack of whole lists does, and fails exactly where it fails. */
  lemma {:induction false} RunRefines<T>(s: Lengths<T>, ops: seq<Op<T>>)
    requires s.Valid()
    ensures Run(s, ops).Some? ==> Run(s, ops).value.Valid()
    ensures AbstractResult(Run(s, ops)) == RunSimple(Abstract(s), ops)
    decreases ops
  {
    if ops != [] {
      ApplyRefines(s, ops[0]);
      var r := Apply(s, ops[0]);
      if r.Some? { RunRefines(r.value, ops[1..]); }
    }
  }

  // --------------------------------------------------------- well-nested runs

  function Change<T>(op: Op<T>): int
  {
    match op
    case Push => 1
    case Pop => -1
    case Squash => -1
    case _ => 0
  }

  /** The change in depth over a run. */
  function Depth<T>(ops: seq<Op<T>>): int
  {
    if ops == [] then 0 else Depth(ops[..|ops| - 1]) + Change(ops[|ops| - 1])
  }

  predicate NeverBelow<T>(ops: seq<Op<T>>) {
    forall n | 0 <= n <= |ops| :: Depth(ops[..n]) >= 0
  }

  predicate WellNested<T>(ops: seq<Op<T>>) {
    Depth(ops) == 0 && NeverBelow(ops)
  }

  lemma {:induction false} RunConcat<T>(s: Lengths<T>, a: seq<Op<T>>, b: seq<Op<T>>)
    ensures Run(s, a + b) == if Run(s, a) == None then None else Run(Run(s, a).value, b)
    decreases a
  {
    if a == [] {
      assert a + b == b;
    } else {
      assert (a + b)[1..] == a[1..] + b;
      var r := Apply(s, a[0]);
      if r.Some? { RunConcat(r.value, a[1..], b); }
    }
  }

  lemma RunOne<T>(s: Lengths<T>, op: Op<T>)
    ensures Run(s, [op]) == Apply(s, op)
  {}

  /** On top of older levels a run does what it does alone, as long as it does not need them. */
  lemma {:induction false} OlderLevelsKept<T>(older: seq<nat>, s: Lengths<T>, ops: seq<Op<T>>)
    requires Run(s, ops).Some?
    ensures Run(s.(sizes := older + s.sizes), ops)
            == Some(Run(s, ops).value.(sizes := older + Run(s, ops).value.sizes))
    decreases ops
  {
    if ops != [] {
      var r := Apply(s, ops[0]).value;
      var t := s.(sizes := older + s.sizes);
      assert Apply(t, ops[0]) == Some(r.(sizes := older + r.sizes)) by {
        if ops[0].Push? {
          assert older + s.sizes + [|s.permissions|] == older + (s.sizes + [|s.permissions|]);
        } else if ops[0].Pop? || ops[0].Squash? {
          assert (older + s.sizes)[..|older + s.sizes| - 1] == older + s.sizes[..|s.sizes| - 1];
        }
      }
      OlderLevelsKept(older, r, ops[1..]);
    }
  }

  /** A run that never goes below its start succeeds there and only adds to the list. */
  lemma {:induction false} NestedRun<T>(p: seq<T>, ops: seq<Op<T>>)
    requires NeverBelow(ops)
    ensures var r := Run(Lengths(p, []), ops);
            && r.Some? && r.value.Valid() && p <= r.value.permissions && |r.value.sizes| == Depth(ops)
            && (forall i | 0 <= i < |r.value.sizes| :: |p| <= r.value.sizes[i])
  {
    assert ops[..|ops|] == ops;
    if ops != [] {
      var n := |ops| - 1;
      var init, last := ops[..n], ops[n];
      assert forall k | 0 <= k <= n :: init[..k] == ops[..k];
      NestedRun(p, init);
      assert ops == init + [last];
      RunConcat(Lengths(p, []), init, [last]);
      var s := Run(Lengths(p, []), init).value;
      RunOne(s, last);
      ApplyRefines(s, last);
    }
  }

  /** The same on top of a saved copy of the list. */
  lemma NestedRunAfterPush<T>(s: Lengths<T>, ops: seq<Op<T>>) returns (p: seq<T>)
    requires WellNested(ops)
    ensures s.permissions <= p
    ensures Run(s, ops) == Some(Lengths(p, s.sizes))
    ensures Run(s, [Push] + ops) == Some(Lengths(p, s.sizes + [|s.permissions|]))
  {
    NestedRun(s.permissions, ops);
    var alone := Run(Lengths(s.permissions, []), ops).value;
    p := alone.permissions;
    OlderLevelsKept(s.sizes, Lengths(s.permissions, []), ops);
    assert s.sizes + [] == s.sizes;
    assert s == Lengths(s.permissions, s.sizes);
    RunConcat(s, [Push], ops);
    RunOne(s, Push);
    var saved := s.sizes + [|s.permissions|];
    OlderLevelsKept(saved, Lengths(s.permissions, []), ops);
    assert saved + [] == saved;
  }

  /** Undoing a well-nested run restores the visitor of the matching push. */
  lemma PopRestores<T>(s: Lengths<T>, ops: seq<Op<T>>)
    requires WellNested(ops)
    ensures Run(s, [Push] + ops + [Pop]) == Some(s)
  {
    var p := NestedRunAfterPush(s, ops);
    RunConcat(s, [Push] + ops, [Pop]);
    RunOne(Lengths(p, s.sizes + [|s.permissions|]), Pop);
    assert p[..|s.permissions|] == s.permissions;
    assert (s.sizes + [|s.permissions|])[..|s.sizes|] == s.sizes;
  }

  /** Squashing a well-nested run keeps what it visited and merges the level into its parent. */
  lemma SquashMerges<T>(s: Lengths<T>, ops: seq<Op<T>>)
    requires WellNested(ops)
    ensures Run(s, [Push] + ops + [Squash]) == Run(s, ops)
  {
    var p := NestedRunAfterPush(s, ops);
    RunConcat(s, [Push] + ops, [Squash]);
    RunOne(Lengths(p, s.sizes + [|s.permissions|]), Squash);
    assert (s.sizes + [|s.permissions|])[..|s.sizes|] == s.sizes;
  }

  /** A run fails exactly when it closes a level that is not open. */
  lemma {:induction false} RunsIff<T>(s: Lengths<T>, ops: seq<Op<T>>)
    requires s.Valid()
    ensures Run(s, ops).Some? <==> forall k | 0 <= k <= |ops| :: |s.sizes| + Depth(ops[..k]) >= 0
    ensures Run(s, ops).Some? ==> |Run(s, ops).value.sizes| == |s.sizes| + Depth(ops)
    decreases |ops|
  {
    assert ops[..|ops|] == ops;
    if ops != [] {
      var n := |ops| - 1;
      var init, last := ops[..n], ops[n];
      assert forall k | 0 <= k <= n :: init[..k] == ops[..k];
      RunsIff(s, init);
      assert ops == init + [last];
      RunConcat(s, init, [last]);
      RunRefines(s, init);
      if Run(s, init).Some? {
        var t := Run(s, init).value;
        RunOne(t, last);
        AppliesIff(t, last);
        assert forall k | 0 <= k <= |ops| :: k <= n || ops[..k] == ops;
      }
    }
  }

  lemma AppliesIff<T>(s: Lengths<T>, op: Op<T>)
    requires s.Valid()
    ensures Apply(s, op).Some? <==> |s.sizes| + Change(op) >= 0
    ensures Apply(s, op).Some? ==> |Apply(s, op).value.sizes| == |s.sizes| + Change(op)
  {}

  // ---------------------------------------------------------------- the object

  class PermissionVisitor<T> {
    var permissions: seq<T>
    var sizeStack: seq<nat>

    function State(): Lengths<T>
      reads this
    {
      Lengths(permissions, sizeStack)
    }

    constructor ()
      ensures State() == Lengths([], [])
    {
      permissions, sizeStack := [], [];
    }

    method Visit(permission: T)
      modifies this
      ensures Some(State()) == Apply(old(State()), Op.Visit(permission))
      ensures permissions == old(permissions) + [permission] && sizeStack == old(sizeStack)
    {
      permissions := permissions + [permission];
    }

    method PushUndo()
      modifies this
      ensures Some(State()) == Apply(old(State()), Push)
      ensures permissions == old(permissions) && sizeStack == old(sizeStack) + [|permissions|]
    {
      sizeStack := sizeStack + [|permissions|];
    }

    /** A failed assertion leaves the visitor as it was. */
    method PopUndo() returns (ok: bool)
      modifies this
      ensures (if ok then Some(State()) else None) == Apply(old(State()), Pop)
      ensures ok <==> old(sizeStack) != [] && old(sizeStack[|sizeStack| - 1]) <= old(|permissions|)
      ensures ok ==> old(sizeStack) == sizeStack + [|permissions|] && permissions <= old(permissions)
      ensures !ok ==> State() == old(State())
    {
      ok := sizeStack != [] && sizeStack[|sizeStack| - 1] <= |permissions|;
      if ok {
        permissions := permissions[..sizeStack[|sizeStack| - 1]];
        sizeStack := sizeStack[..|sizeStack| - 1];
      }
    }

    method SquashUndo() returns (ok: bool)
      modifies this
      ensures (if ok then Some(State()) else None) == Apply(old(State()), Squash)
      ensures ok <==> old(sizeStack) != []
      ensures ok ==> permissions == old(permissions)
      ensures ok ==> sizeStack == old(sizeStack[..|sizeStack| - 1])
      ensures !ok ==> State() == old(State())
    {
      ok := sizeStack != [];
      if ok {
        sizeStack := sizeStack[..|sizeStack| - 1];
      }
    }
  }
}
