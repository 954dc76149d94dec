/**
 * The member-eligibility rule chain: whether a field or property takes part
 * in content serialization, and if not, which rule rejected it.  The rules
 * are tried in a fixed order and the first one that fails decides.
 */
module Eligibility {
  import opened Descriptors

  /** The seven rejection messages of the rule chain, one per rule. */
  datatype Reason =
    | CannotBeStatic
    | IgnoreDecorated
    | GetterNotPublic
    | IndexProperty
    | CantReadGetter
    | SetterNotPublic
    | FieldNotPublic

  /** The text of each rejection, after the common "INVALID: " prefix. */
  function Detail(r: Reason): (text: string)
    ensures |text| > 0
  {
    match r
    case CannotBeStatic => "Cannot be static!"
    case IgnoreDecorated => "ContentSerializerIgnore decorated"
    case GetterNotPublic => "Getter isn't public!"
    case IndexProperty => "Is an index property!"
    case CantReadGetter => "Can't read getter!"
    case SetterNotPublic => "Setter isn't public!"
    case FieldNotPublic => "Field isn't public!"
  }

  function Message(r: Reason): string
  {
    "INVALID: " + Detail(r)
  }

  datatype Verdict = Valid | Invalid(reason: Reason)

  /** A verdict, or the exception thrown on the way to one. */
  datatype Result<+T> = Ok(value: T) | Err(fault: Fault)

  /** The validator's boolean return value and its `error` out-parameter,
      `None` standing for null. */
  datatype Out = Out(valid: bool, error: Option<string>)

  /** A static class is one that is both abstract and sealed. */
  predicate IsStaticType(t: TypeHeader)
  {
    t.isAbstract && t.isSealed
  }

  /** The rule chain.  The second getter test repeats the first one and is
      kept as the code has it. */
  function IsValid(m: Member): Result<Verdict>
  {
    if IsStaticType(m.declaringType) then Ok(Invalid(CannotBeStatic))
    else if m.ignoreTag then Ok(Invalid(IgnoreDecorated))
    else if m.Property? && m.getMethod.None? then Err(NullGetMethod(m.name))
    else if m.Property? && !m.getMethod.value.isPublic then Ok(Invalid(GetterNotPublic))
    else if m.Property? && m.hasParameters then Ok(Invalid(IndexProperty))
    else if !m.serializerTag then
      if m.Property? then
        if !m.getMethod.value.isPublic then Ok(Invalid(CantReadGetter))
        else if m.setMethod.None? then Err(NullSetMethod(m.name))
        else if !m.setMethod.value.isPublic then Ok(Invalid(SetterNotPublic))
        else Ok(Valid)
      else if !m.isPublic then Ok(Invalid(FieldNotPublic))
      else Ok(Valid)
    else Ok(Valid)
  }

  /** What the validator hands back to its caller for a verdict: true with a
      null error, or false with the rule's message. */
  function ToOut(v: Verdict): (o: Out)
    ensures o.valid <==> o.error.None?
    ensures o.valid <==> v.Valid?
    ensures v.Invalid? ==> o.error == Some(Message(v.reason))
    ensures o.error.Some? ==> |o.error.value| > 9 && o.error.value[..9] == "INVALID: "
  {
    assert |"INVALID: "| == 9;
    match v
    case Valid => Out(true, None)
    case Invalid(r) => Out(false, Some(Message(r)))
  }

  /** The eligibility condition stated all at once, without an order: not a
      member of a static class, not ignored; a property needs a public
      getter, no index parameters, and either the serializer attribute or a
      public setter; a field needs to be public or carry the attribute. */
  predicate Eligible(m: Member)
  {
    && !IsStaticType(m.declaringType)
    && !m.ignoreTag
    && (m.Property? ==>
          && m.getMethod.Some? && m.getMethod.value.isPublic
          && !m.hasParameters
          && (m.serializerTag || (m.setMethod.Some? && m.setMethod.value.isPublic)))
    && (m.Field? ==> m.serializerTag || m.isPublic)
  }

  /** The members on which the rule chain dereferences a null accessor. */
  predicate DereferencesNullAccessor(m: Member)
  {
    && !IsStaticType(m.declaringType)
    && !m.ignoreTag
    && m.Property?
    && (|| m.getMethod.None?
        || (m.getMethod.value.isPublic && !m.hasParameters
            && !m.serializerTag && m.setMethod.None?))
  }

  // ---------------------------------------------------------------------
  // Rules, one lemma each, in the order the chain applies them.

  /** Rule 1: a member of a static class is rejected whatever else is true. */
  lemma StaticContainerRejected(m: Member)
    requires IsStaticType(m.declaringType)
    ensures IsValid(m) == Ok(Invalid(CannotBeStatic))
  {
  }

  /** Rule 2: the ignore attribute rejects, even beside the serializer one. */
  lemma IgnoreTagRejected(m: Member)
    requires !IsStaticType(m.declaringType) && m.ignoreTag
    ensures IsValid(m) == Ok(Invalid(IgnoreDecorated))
  {
  }

  /** Rule 3: a non-public getter rejects, even with the serializer attribute. */
  lemma NonPublicGetterRejected(m: Member)
    requires m.Property? && !IsStaticType(m.declaringType) && !m.ignoreTag
    requires m.getMethod == Some(Accessor(false))
    ensures IsValid(m) == Ok(Invalid(GetterNotPublic))
  {
  }

  /** Rule 4: an index property rejects, even with the serializer attribute. */
  lemma IndexPropertyRejected(m: Member)
    requires m.Property? && !IsStaticType(m.declaringType) && !m.ignoreTag
    requires m.getMethod == Some(Accessor(true)) && m.hasParameters
    ensures IsValid(m) == Ok(Invalid(IndexProperty))
  {
  }

  /** The second getter test can never fail: every property that reaches it
      has passed the identical first one. */
  lemma CantReadGetterUnreachable(m: Member)
    ensures IsValid(m) != Ok(Invalid(CantReadGetter))
  {
  }

  /** Rule 5: past rules 1 to 4, the serializer attribute makes a property
      valid whatever its setter is, including no setter at all. */
  lemma SerializerPropertyAccepted(m: Member)
    requires m.Property? && !IsStaticType(m.declaringType) && !m.ignoreTag
    requires m.getMethod == Some(Accessor(true)) && !m.hasParameters
    requires m.serializerTag
    ensures IsValid(m) == Ok(Valid)
  {
  }

  /** Rule 6: without the attribute, a property past rules 1 to 4 is valid
      exactly when its setter is public. */
  lemma PropertySetterRule(m: Member)
    requires m.Property? && !IsStaticType(m.declaringType) && !m.ignoreTag
    requires m.getMethod == Some(Accessor(true)) && !m.hasParameters
    requires !m.serializerTag && m.setMethod.Some?
    ensures IsValid(m) == Ok(if m.setMethod.value.isPublic then Valid else Invalid(SetterNotPublic))
  {
  }

  /** Rule 7: a field past rules 1 and 2 is valid if and only if it is public
      or carries the attribute, and is otherwise rejected as non-public. */
  lemma FieldRule(m: Member)
    requires m.Field? && !IsStaticType(m.declaringType) && !m.ignoreTag
    ensures IsValid(m) == Ok(Valid) <==> m.isPublic || m.serializerTag
    ensures !(m.isPublic || m.serializerTag) ==> IsValid(m) == Ok(Invalid(FieldNotPublic))
  {
  }

  // ---------------------------------------------------------------------
  // The chain as a whole.

  /** The ordered chain accepts exactly the members the unordered condition
      describes. */
  lemma AcceptsExactlyEligible(m: Member)
    ensures IsValid(m) == Ok(Valid) <==> Eligible(m)
  {
  }

  /** The chain throws exactly when it reaches a null accessor, and never on
      a field. */
  lemma ThrowsExactlyOnNullAccessor(m: Member)
    ensures IsValid(m).Err? <==> DereferencesNullAccessor(m)
    ensures IsValid(m).Err? ==> m.Property?
    ensures IsValid(m) == Err(NullSetMethod(m.name)) ==> m.getMethod.Some? && m.setMethod.None?
  {
  }

  /** Distinct rules report distinct messages, so the error text names the
      rule that rejected the member. */
  lemma MessagesDistinct(r1: Reason, r2: Reason)
    requires r1 != r2
    ensures Message(r1) != Message(r2)
  {
    assert Message(r1)[9..] == Detail(r1);
    assert Message(r2)[9..] == Detail(r2);
  }
}
