/**
 * The type reader: it first visits the base type when the recursion guard
 * lets it, then reports one line per property and one line per field of the
 * type itself.  An exception stops the report; the lines written before it
 * stay written.
 */
module Reader {
  import opened Descriptors
  import opened Eligibility

  /** One report line: a valid member's name, declared type name and
      value-type flag, or the rejection reason (the error line carries no
      member name). */
  datatype Line =
    | Accepted(name: string, typeName: string, isValueType: bool)
    | Rejected(reason: Reason)

  /** The lines written, and the exception that ended the run if any. */
  datatype Run = Run(lines: seq<Line>, fault: Option<Fault>)

  /** Which recursion guard the walk uses: the one the code has, or the one
      that walks the whole base chain up to the root object type. */
  datatype Guard = AsWritten | Intended

  predicate Recurses(b: TypeRef, g: Guard)
  {
    match g
    case AsWritten => !b.isValueType && b.isObject
    case Intended => !b.isValueType && !b.isObject
  }

  function LineOf(m: Member, v: Verdict): Line
  {
    match v
    case Valid => Accepted(m.name, m.memberType.fullName, m.memberType.isValueType)
    case Invalid(r) => Rejected(r)
  }

  /** Running `a` and then `b`: `b` only runs when `a` did not throw. */
  function Then(a: Run, b: Run): Run
  {
    if a.fault.Some? then a else Run(a.lines + b.lines, b.fault)
  }

  /** One `foreach` loop of the reader over a list of members: one line per
      member, in order, stopping at the first member whose validation throws. */
  function EmitAll(ms: seq<Member>): Run
  {
    if |ms| == 0 then Run([], None)
    else
      var pre := EmitAll(ms[..|ms| - 1]);
      if pre.fault.Some? then pre
      else match IsValid(ms[|ms| - 1])
        case Err(f) => Run(pre.lines, Some(f))
        case Ok(v) => Run(pre.lines + [LineOf(ms[|ms| - 1], v)], None)
  }

  /** The lines a type reports for its own members: properties, then fields. */
  function OwnRun(t: TypeDef): Run
  {
    Then(EmitAll(t.properties), EmitAll(t.fields))
  }

  /** The whole reader on one type, under guard `g`. */
  function Walk(t: TypeDef, g: Guard): Run
    decreases t
  {
    match t.baseType
    case None => Run([], Some(NullBaseType(t.header.fullName)))
    case Some(b) =>
      var inherited :=
        if !Recurses(b.reference, g) then Run([], None)
        else match b.resolved
          case None => Run([], Some(UnresolvedType(b.reference.fullName)))
          case Some(d) => Walk(d, g);
      Then(inherited, OwnRun(t))
  }

  /** `lines` holds one line for each member of `ms`, in order, each the
      line of that member's verdict. */
  ghost predicate Reports(lines: seq<Line>, ms: seq<Member>)
  {
    && |lines| == |ms|
    && forall i :: 0 <= i < |ms| ==>
         IsValid(ms[i]).Ok? && lines[i] == LineOf(ms[i], IsValid(ms[i]).value)
  }

  /** A loop over a member list reports one line per member, in order, up to
      the first member whose validation throws, and that member's exception
      ends the run. */
  lemma {:induction false} EmitAllLines(ms: seq<Member>)
    ensures var r := EmitAll(ms);
            && |r.lines| <= |ms|
            && Reports(r.lines, ms[..|r.lines|])
            && (r.fault.None? <==> |r.lines| == |ms|)
            && (r.fault.Some? ==> IsValid(ms[|r.lines|]) == Err(r.fault.value))
  {
    if |ms| > 0 {
      var init := ms[..|ms| - 1];
      EmitAllLines(init);
      var r := EmitAll(init);
      assert init[..|r.lines|] == ms[..|r.lines|];
      if r.fault.None? && IsValid(ms[|ms| - 1]).Ok? {
        assert ms[..|ms|] == ms;
      }
    }
  }

  /** A loop that completes reports every member of its list. */
  lemma {:induction false} EmitAllReportsAll(ms: seq<Member>)
    requires EmitAll(ms).fault.None?
    ensures Reports(EmitAll(ms).lines, ms)
  {
    EmitAllLines(ms);
    assert ms[..|ms|] == ms;
  }

  /** Once a prefix of a member list has thrown, the rest of the list is
      never looked at. */
  lemma {:induction false} EmitAllStopsAtFault(ms: seq<Member>, k: nat)
    requires k <= |ms| && EmitAll(ms[..k]).fault.Some?
    ensures EmitAll(ms) == EmitAll(ms[..k])
    decreases |ms|
  {
    if k < |ms| {
      var init := ms[..|ms| - 1];
      assert init[..k] == ms[..k];
      EmitAllStopsAtFault(init, k);
    } else {
      assert ms[..k] == ms;
    }
  }

  /** One `foreach` loop of the reader: validate each member in turn and
      append its line, until a validation throws. */
  method EmitMembers(ms: seq<Member>) returns (run: Run)
    ensures run == EmitAll(ms)
  {
    var lines: seq<Line> := [];
    var i := 0;
    while i < |ms|
      invariant 0 <= i <= |ms|
      invariant EmitAll(ms[..i]) == Run(lines, None)
    {
      assert ms[..i + 1][..i] == ms[..i];
      var v := IsValid(ms[i]);
      if v.Err? {
        EmitAllStopsAtFault(ms, i + 1);
        return Run(lines, Some(v.fault));
      }
      lines := lines + [LineOf(ms[i], v.value)];
      i := i + 1;
    }
    assert ms[..i] == ms;
    run := Run(lines, None);
  }

  /** The reader as the code runs it: the recursion on the base type, then the
      loop over the properties and the loop over the fields. */
  method ReadType(t: TypeDef) returns (run: Run)
    ensures run == Walk(t, AsWritten)
    decreases t
  {
    if t.baseType.None? {
      return Run([], Some(NullBaseType(t.header.fullName)));
    }
    var b := t.baseType.value;
    var inherited := Run([], None);
    if Recurses(b.reference, AsWritten) {
      if b.resolved.None? {
        return Run([], Some(UnresolvedType(b.reference.fullName)));
      }
      inherited := ReadType(b.resolved.value);
      if inherited.fault.Some? {
        return inherited;
      }
    }
    var properties := EmitMembers(t.properties);
    if properties.fault.Some? {
      return Run(inherited.lines + properties.lines, properties.fault);
    }
    var fields := EmitMembers(t.fields);
    run := Run(inherited.lines + properties.lines + fields.lines, fields.fault);
  }

  /** When the property loop throws, the field loop never runs; otherwise
      the field loop's lines follow the property lines. */
  lemma OwnRunStopsAtFault(t: TypeDef)
    ensures EmitAll(t.properties).fault.Some? ==> OwnRun(t) == EmitAll(t.properties)
    ensures EmitAll(t.properties).fault.None? ==>
              OwnRun(t).lines == EmitAll(t.properties).lines + EmitAll(t.fields).lines
              && OwnRun(t).fault == EmitAll(t.fields).fault
  {
  }

  /** When the recursive call on the base type throws, none of the type's own
      members is validated: the run is the base type's run. */
  lemma WalkStopsAtFault(t: TypeDef, g: Guard)
    requires t.baseType.Some? && Recurses(t.baseType.value.reference, g)
    requires t.baseType.value.resolved.Some?
    requires Walk(t.baseType.value.resolved.value, g).fault.Some?
    ensures Walk(t, g) == Walk(t.baseType.value.resolved.value, g)
  {
  }

  // ---------------------------------------------------------------------
  // Order of the report.

  /** A complete run is the base type's lines followed by the type's own. */
  lemma {:induction false} WalkSplit(t: TypeDef, g: Guard)
    requires Walk(t, g).fault.None?
    ensures t.baseType.Some?
    ensures var b := t.baseType.value;
            && (Recurses(b.reference, g) ==> b.resolved.Some?)
            && EmitAll(t.properties).fault.None? && EmitAll(t.fields).fault.None?
            && Walk(t, g).lines ==
                 (if Recurses(b.reference, g) then Walk(b.resolved.value, g).lines else [])
                 + EmitAll(t.properties).lines + EmitAll(t.fields).lines
  {
    var b := t.baseType.value;
    var own := OwnRun(t);
    if Recurses(b.reference, g) {
      var inherited := Walk(b.resolved.value, g);
      assert Walk(t, g) == Then(inherited, own);
      assert inherited.fault.None? && Walk(t, g).lines == inherited.lines + own.lines;
    } else {
      assert Walk(t, g) == own;
    }
    assert own == Then(EmitAll(t.properties), EmitAll(t.fields));
  }

  /** A complete run reports the base type's lines (when the guard recursed)
      first, then one line per property, then one line per field, each in
      declaration order. */
  lemma {:induction false} WalkOrder(t: TypeDef, g: Guard)
    requires Walk(t, g).fault.None?
    ensures t.baseType.Some?
    ensures var lines := Walk(t, g).lines;
            var b := t.baseType.value;
            var k := |lines| - |t.properties| - |t.fields|;
            && 0 <= k
            && lines[..k] == (if Recurses(b.reference, g) then Walk(b.resolved.value, g).lines else [])
            && Reports(lines[k..k + |t.properties|], t.properties)
            && Reports(lines[k + |t.properties|..], t.fields)
  {
    WalkSplit(t, g);
    var b := t.baseType.value;
    var inherited: seq<Line> := if Recurses(b.reference, g) then Walk(b.resolved.value, g).lines else [];
    var p := EmitAll(t.properties).lines;
    var f := EmitAll(t.fields).lines;
    EmitAllReportsAll(t.properties);
    EmitAllReportsAll(t.fields);
    var lines := Walk(t, g).lines;
    var k := |inherited|;
    assert lines[..k] == inherited;
    assert lines[k..k + |t.properties|] == p;
    assert lines[k + |t.properties|..] == f;
  }

  /** Every own member of a static class is reported as "cannot be static",
      and none of them can throw. */
  lemma {:induction false} EmitAllStatic(ms: seq<Member>)
    requires forall i :: 0 <= i < |ms| ==> IsStaticType(ms[i].declaringType)
    ensures EmitAll(ms) == Run(seq(|ms|, _ => Rejected(CannotBeStatic)), None)
  {
    if |ms| > 0 {
      EmitAllStatic(ms[..|ms| - 1]);
    }
  }

  lemma StaticTypeRejectsOwnMembers(t: TypeDef)
    requires DeclaredBy(t) && IsStaticType(t.header)
    ensures OwnRun(t) == Run(seq(|t.properties| + |t.fields|, _ => Rejected(CannotBeStatic)), None)
  {
    EmitAllStatic(t.properties);
    EmitAllStatic(t.fields);
  }

  // ---------------------------------------------------------------------
  // The recursion guard as written, against the intended one.

  /** The root object type has no base type. */
  ghost predicate ObjectBaseIsRoot(t: TypeDef)
  {
    forall b, d :: t.baseType == Some(b) && b.reference.isObject && b.resolved == Some(d) ==>
      d.baseType.None?
  }

  /** As written, the guard recurses only into the root object type, and the
      recursive call then dereferences its null base type; so a run that
      completes never reports a base type's members. */
  lemma AsWrittenNeverReportsBaseMembers(t: TypeDef)
    requires ObjectBaseIsRoot(t)
    ensures t.baseType.Some? && Recurses(t.baseType.value.reference, AsWritten) ==>
              Walk(t, AsWritten).fault.Some?
    ensures t.baseType.Some? && Recurses(t.baseType.value.reference, AsWritten) ==>
              Walk(t, AsWritten) == Run([], Some(match t.baseType.value.resolved
                case None => UnresolvedType(t.baseType.value.reference.fullName)
                case Some(d) => NullBaseType(d.header.fullName)))
    ensures Walk(t, AsWritten).fault.None? ==> Walk(t, AsWritten) == OwnRun(t)
  {
  }

  /** The type chain the intended walk visits, most derived first: the type,
      then its base while that is a resolvable reference type other than the
      root object type. */
  function Hierarchy(t: TypeDef): (h: seq<TypeDef>)
    ensures |h| >= 1 && h[0] == t
    decreases t
  {
    match t.baseType
    case Some(BaseRef(r, Some(d))) =>
      if Recurses(r, Intended) then [t] + Hierarchy(d) else [t]
    case _ => [t]
  }

  /** The own lines of a chain given most derived first, written root-most
      type first. */
  function BaseFirstLines(ts: seq<TypeDef>): seq<Line>
  {
    if |ts| == 0 then [] else BaseFirstLines(ts[1..]) + OwnRun(ts[0]).lines
  }

  /** A type whose base is the root object type or a value type is the only
      type of its chain. */
  lemma HierarchyStopsAtRoot(t: TypeDef)
    requires t.baseType.Some?
    requires t.baseType.value.reference.isObject || t.baseType.value.reference.isValueType
    ensures Hierarchy(t) == [t]
  {
  }

  /** With the intended guard, a complete run reports every type of the chain,
      base types before derived ones, each with its own lines. */
  lemma {:induction false} IntendedWalkIsBaseFirst(t: TypeDef)
    requires Walk(t, Intended).fault.None?
    ensures Walk(t, Intended).lines == BaseFirstLines(Hierarchy(t))
    ensures forall i :: 0 <= i < |Hierarchy(t)| ==> OwnRun(Hierarchy(t)[i]).fault.None?
    decreases t
  {
    var b := t.baseType.value;
    if Recurses(b.reference, Intended) {
      var d := b.resolved.value;
      IntendedWalkIsBaseFirst(d);
      assert Hierarchy(t) == [t] + Hierarchy(d);
      assert Hierarchy(t)[1..] == Hierarchy(d);
    } else {
      assert Hierarchy(t) == [t];
    }
  }

  /** A class `Foo` derived from `Bar`, which is derived from the root
      object type and declares one public field. */
  function ObjectType(): TypeDef
  {
    TypeDef(TypeHeader("System.Object", false, false), None, [], [])
  }

  function BarType(): TypeDef
  {
    var bar := TypeHeader("Bar", false, false);
    var x := Field("X", TypeRef("System.Int32", true, false), bar, false, false, true);
    TypeDef(bar, Some(BaseRef(TypeRef("System.Object", false, true), Some(ObjectType()))), [], [x])
  }

  function FooType(): TypeDef
  {
    TypeDef(TypeHeader("Foo", false, false),
            Some(BaseRef(TypeRef("Bar", false, false), Some(BarType()))), [], [])
  }

  /** As written, `Foo` reports nothing although its base `Bar` has an
      eligible field; with the intended guard, `Bar`'s field is reported. */
  lemma BaseMemberMissedAsWritten()
    ensures Walk(FooType(), AsWritten) == Run([], None)
    ensures Walk(FooType(), Intended) == Run([Accepted("X", "System.Int32", true)], None)
  {
  }

  /** A type `Foo` derived from the root object type, with a public field
      `X: int`, a property `Y: string` with a public getter and a private
      setter, and a public property `Z: Bar`.  `objectMatches` is whether
      the comparison of the base reference with the root object type holds. */
  function ScenarioFooType(objectMatches: bool): TypeDef
  {
    var foo := TypeHeader("Foo", false, false);
    var x := Field("X", TypeRef("System.Int32", true, false), foo, false, false, true);
    var y := Property("Y", TypeRef("System.String", false, false), foo, false, false,
                      Some(Accessor(true)), Some(Accessor(false)), false);
    var z := Property("Z", TypeRef("Bar", false, false), foo, false, false,
                      Some(Accessor(true)), Some(Accessor(true)), false);
    TypeDef(foo, Some(BaseRef(TypeRef("System.Object", false, objectMatches), Some(ObjectType()))),
            [y, z], [x])
  }

  /** The reader on `Foo`.  When the comparison with the root object type
      does not hold, nothing is inherited: the properties come first, `Y` is
      rejected for its setter, then `Z` and `X` are reported.  When it holds,
      the reader recurses into the root object type and throws on its null
      base type before writing anything. */
  lemma ScenarioFoo()
    ensures Walk(ScenarioFooType(false), AsWritten) ==
              Run([Rejected(SetterNotPublic), Accepted("Z", "Bar", false),
                   Accepted("X", "System.Int32", true)], None)
    ensures Walk(ScenarioFooType(true), AsWritten) ==
              Run([], Some(NullBaseType("System.Object")))
  {
  }
}
