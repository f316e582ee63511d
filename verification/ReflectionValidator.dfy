/**
 The Reflection object of tools/validate_reflection.py and the assertions that
 validate_file makes about it.
 */
module ReflectionValidator {
  import opened Common
  import opened FieldOrder
  import opened FieldMatcher

  /** A chainbase object's `id` is ignored unless it is mentioned. */
  function EffectiveIgnored(ignored: seq<Name>, fields: seq<Name>, ignoreId: bool): seq<Name>
  {
    if ignoreId && "id" !in ignored && "id" !in fields then ignored + ["id"] else ignored
  }

  /** What the matcher is asked about. */
  function Case(cls: seq<Name>, fields: seq<Name>, swapped: seq<Name>, ignored: seq<Name>, ignoreId: bool): Annotated
  {
    Annotated(cls, fields, Elems(swapped), Elems(EffectiveIgnored(ignored, fields, ignoreId)))
  }

  ghost predicate Verdict(p: Annotated, complaint: Option<Complaint>) {
    && (complaint == None <==> Matches(p))
    && (complaint.Some? ==> Justified(p, complaint.value))
  }

  class Reflection {
    var fields: seq<Name>
    var ignored: seq<Name>
    var swapped: seq<Name>

    ghost predicate Valid()
      reads this
    {
      Distinct(fields) && Distinct(ignored) && Distinct(swapped) && Elems(ignored) !! Elems(swapped)
    }

    constructor ()
      ensures Valid() && fields == [] && ignored == [] && swapped == []
    {
      fields, ignored, swapped := [], [], [];
    }

    /** add_field: a repeated field is refused. */
    method AddField(field: Name) returns (ok: bool)
      requires Valid()
      modifies this`fields
      ensures Valid() && ok == (field !in old(fields))
      ensures fields == if ok then old(fields) + [field] else old(fields)
    {
      ok := field !in fields;
      if ok {
        fields := fields + [field];
      }
    }

    /**
     add_ignore_swaps, on the names the annotation lists: refused as soon as a name
     repeats or is already annotated, with the names before it kept.
     */
    method AddIgnoreSwaps(names: seq<Name>, ignore: bool) returns (ok: bool)
      requires Valid()
      modifies this`ignored, this`swapped
      ensures Valid()
      ensures ok <==> Distinct(names) && Elems(names) !! Elems(old(ignored) + old(swapped))
      ensures ok ==> ignored == old(ignored) + (if ignore then names else [])
      ensures ok ==> swapped == old(swapped) + (if ignore then [] else names)
      ensures !ok ==> exists k | 0 <= k < |names| ::
                        && (names[k] in names[..k] || names[k] in old(ignored) + old(swapped))
                        && ignored == old(ignored) + (if ignore then names[..k] else [])
                        && swapped == old(swapped) + (if ignore then [] else names[..k])
    {
      var current := 0;
      while current < |names|
        invariant current <= |names| && Valid()
        invariant ignored == old(ignored) + (if ignore then names[..current] else [])
        invariant swapped == old(swapped) + (if ignore then [] else names[..current])
        invariant Distinct(names[..current]) && Elems(names[..current]) !! Elems(old(ignored) + old(swapped))
      {
        var name := names[current];
        PrefixNext(names, current);
        if name in ignored || name in swapped {
          Refused(names, current, old(ignored) + old(swapped));
          return false;
        }
        if ignore {
          AppendDistinct(ignored, name);
          ignored := ignored + [name];
        } else {
          AppendDistinct(swapped, name);
          swapped := swapped + [name];
        }
        AppendDistinct(names[..current], name);
        current := current + 1;
      }
      assert names[..current] == names;
      ok := true;
    }

    /**
     The matcher. It consumes the annotations. For distinct class fields it accepts
     exactly the reflections that match, and a complaint names a real defect.
     */
    method Validate(cls: seq<Name>, ignoreId: bool) returns (complaint: Option<Complaint>)
      requires Valid()
      modifies this`ignored, this`swapped
      ensures Distinct(cls) ==> Verdict(Case(cls, fields, old(swapped), old(ignored), ignoreId), complaint)
      ensures complaint == None ==> ignored == [] && swapped == []
    {
      hide Matches, Justified, WellFormed, Invariant, AlreadyInOrder, Distinct, ListsAgree, Verdict;
      ignored := EffectiveIgnored(ignored, fields, ignoreId);
      ghost var p := Annotated(cls, fields, Elems(swapped), Elems(ignored));
      ghost var distinct := Distinct(cls);
      var f, rf := 0, 0;
      var back, fwd, seen: seq<Name> := [], [], [];
      Prepared(old(ignored), swapped, fields, cls, ignoreId);
      while f < |cls|
        invariant f <= |cls| && rf <= |fields|
        invariant distinct ==> Invariant(p, Cursor(f, rf, swapped, ignored, back, fwd, seen))
        decreases |cls| - f + |fields| - rf
      {
        var field := cls[f];
        var reflectField := if rf < |fields| then Some(fields[rf]) else None;
        ghost var c := Cursor(f, rf, swapped, ignored, back, fwd, seen);
        if field in swapped {
          swapped := Remove(swapped, field);
          back := back + [field];
          if field !in fields {
            if distinct { SwapNotReflectedIsRight(p, c); Complain(p, SwapNotReflected); }
            return Some(SwapNotReflected);
          }
          if reflectField == Some(field) {
            if distinct { SwapInOrderIsRight(p, c); Complain(p, SwapInOrder); }
            return Some(SwapInOrder);
          }
          f := f + 1;
          if distinct { BackStep(p, c, Cursor(f, rf, swapped, ignored, back, fwd, seen)); }
        } else if reflectField.Some? && reflectField.value in swapped {
          swapped := Remove(swapped, reflectField.value);
          fwd := fwd + [reflectField.value];
          rf := rf + 1;
          if distinct { ForwardStep(p, c, Cursor(f, rf, swapped, ignored, back, fwd, seen)); }
        } else if reflectField.Some? && reflectField.value in seen {
          if distinct { ListsOf(p, c); IgnoreReflectedIsRight(p, c, reflectField.value); Complain(p, IgnoreReflected); }
          return Some(IgnoreReflected);
        } else if field in ignored {
          ignored := Remove(ignored, field);
          seen := seen + [field];
          if reflectField == Some(field) {
            if distinct { ListsOf(p, c); IgnoreReflectedIsRight(p, c, field); Complain(p, IgnoreInOrder); }
            return Some(IgnoreInOrder);
          }
          f := f + 1;
          if distinct { IgnoreStep(p, c, Cursor(f, rf, swapped, ignored, back, fwd, seen)); }
        } else if reflectField.Some? && reflectField.value in back {
          back := Remove(back, reflectField.value);
          rf := rf + 1;
          if distinct { MeetBackStep(p, c, Cursor(f, rf, swapped, ignored, back, fwd, seen)); }
        } else if field in fwd {
          fwd := Remove(fwd, field);
          f := f + 1;
          if distinct { MeetForwardStep(p, c, Cursor(f, rf, swapped, ignored, back, fwd, seen)); }
        } else {
          if reflectField != Some(field) {
            if distinct { ListsOf(p, c); WrongFieldIsRight(p, c); Complain(p, WrongField); }
            return Some(WrongField);
          }
          f := f + 1;
          rf := rf + 1;
          if distinct { PlainStep(p, c, Cursor(f, rf, swapped, ignored, back, fwd, seen)); }
        }
      }
      complaint := FinishReflection(p, f, rf, back, fwd, seen);
    }

    /** What is left of the reflection once the class fields are used up, and the closing assertions. */
    method FinishReflection(ghost p: Annotated, ghost f: nat, start: nat, putBack: seq<Name>, fwd: seq<Name>,
                            ghost seen: seq<Name>)
      returns (complaint: Option<Complaint>)
      requires f == |p.cls| && fields == p.refl && start <= |fields|
      requires Distinct(p.cls) ==> WellFormed(p) && Invariant(p, Cursor(f, start, swapped, ignored, putBack, fwd, seen))
      ensures Distinct(p.cls) ==> Verdict(p, complaint)
      ensures complaint == None ==> ignored == [] && swapped == []
    {
      hide Matches, Justified, WellFormed, Invariant, AlreadyInOrder, Distinct, ListsAgree, Verdict;
      ghost var distinct := Distinct(p.cls);
      var rf, back := start, putBack;
      if ignored != [] {
        if distinct {
          ListsOf(p, Cursor(f, rf, swapped, ignored, back, fwd, seen));
          LeftoverIsRight(p, Cursor(f, rf, swapped, ignored, back, fwd, seen), ignored[0]);
          Complain(p, ErroneousIgnores);
        }
        return Some(ErroneousIgnores);
      }
      var unused: seq<Name> := [];
      while rf < |fields|
        invariant rf <= |fields|
        invariant distinct && unused == [] ==> Invariant(p, Cursor(f, rf, swapped, ignored, back, fwd, seen))
        invariant distinct && unused != [] ==> Verdict(p, Some(UnknownFields))
      {
        var reflectField := fields[rf];
        ghost var c := Cursor(f, rf, swapped, ignored, back, fwd, seen);
        if reflectField in back {
          back := Remove(back, reflectField);
          if distinct && unused == [] {
            MeetBackStep(p, c, Cursor(f, rf + 1, swapped, ignored, back, fwd, seen));
          }
        } else {
          if distinct && unused == [] { ListsOf(p, c); UnknownFieldIsRight(p, c); Complain(p, UnknownFields); }
          unused := unused + [reflectField];
        }
        rf := rf + 1;
      }
      ghost var c := Cursor(f, rf, swapped, ignored, back, fwd, seen);
      if unused != [] {
        return Some(UnknownFields);
      }
      if distinct { ListsOf(p, c); }
      if swapped != [] {
        if distinct { LeftoverIsRight(p, c, swapped[0]); Complain(p, ErroneousSwaps); }
        return Some(ErroneousSwaps);
      }
      if back != [] {
        if distinct { LeftoverIsRight(p, c, back[0]); Complain(p, SwapNotProvided); }
        return Some(SwapNotProvided);
      }
      if fwd != [] {
        if distinct { LeftoverIsRight(p, c, fwd[0]); Complain(p, SwapNotInClass); }
        return Some(SwapNotInClass);
      }
      if distinct { AcceptanceIsRight(p, c); Accept(p); }
      complaint := None;
    }
  }

  lemma Complain(p: Annotated, complaint: Complaint)
    requires Justified(p, complaint)
    ensures Verdict(p, Some(complaint))
  {
    JustifiedRefutes(p, complaint);
  }

  lemma Accept(p: Annotated)
    requires Matches(p)
    ensures Verdict(p, None)
  {}

  lemma ListsOf(p: Annotated, c: Cursor)
    requires Invariant(p, c)
    ensures ListsAgree(p, c) && PlainAgree(p, c)
  {}

  /** Adding `id` keeps what the matcher relies on: an ignored field that is also swapped is not reflected. */
  lemma Prepared(ignored: seq<Name>, swapped: seq<Name>, fields: seq<Name>, cls: seq<Name>, ignoreId: bool)
    requires Distinct(fields) && Distinct(ignored) && Distinct(swapped) && Elems(ignored) !! Elems(swapped)
    ensures var effective := EffectiveIgnored(ignored, fields, ignoreId);
            var p := Annotated(cls, fields, Elems(swapped), Elems(effective));
            Distinct(cls) ==> WellFormed(p) && Invariant(p, Cursor(0, 0, swapped, effective, [], [], []))
  {
    var effective := EffectiveIgnored(ignored, fields, ignoreId);
    var p := Annotated(cls, fields, Elems(swapped), Elems(effective));
    if effective != ignored { AppendDistinct(ignored, "id"); }
    assert p.swapped * p.ignored * Elems(p.refl) == {};
    if Distinct(cls) { StartIsFine(p, swapped, effective); }
  }

  lemma Refused(names: seq<Name>, k: nat, taken: seq<Name>)
    requires k < |names| && (names[k] in names[..k] || names[k] in taken)
    ensures !(Distinct(names) && Elems(names) !! Elems(taken))
  {
    if names[k] in taken {
      assert names[k] in Elems(names) * Elems(taken);
    }
  }
}
