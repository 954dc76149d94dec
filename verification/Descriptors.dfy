/**
 * The metadata the reader inspects: type references, type definitions and
 * their field and property descriptors, as the metadata library hands them
 * over.  Everything here is a read-only value.
 */
module Descriptors {

  datatype Option<+T> = None | Some(value: T)

  /** A reference to a type, as a member's declared type or a base type.
      `isObject` stands for the reference comparing equal to the root
      object type; how the metadata library decides that is not modelled. */
  datatype TypeRef = TypeRef(fullName: string, isValueType: bool, isObject: bool)

  /** The parts of a type definition a member can see through its
      declaring-type back reference. */
  datatype TypeHeader = TypeHeader(fullName: string, isAbstract: bool, isSealed: bool)

  /** A getter or setter method of a property. */
  datatype Accessor = Accessor(isPublic: bool)

  /** A field or property definition.  The two attribute tags say whether the
      member carries the content-serializer ignore attribute and the
      content-serializer attribute.  An absent accessor (`None`) is a null
      getter or setter method. */
  datatype Member =
    | Field(name: string, memberType: TypeRef, declaringType: TypeHeader,
            ignoreTag: bool, serializerTag: bool, isPublic: bool)
    | Property(name: string, memberType: TypeRef, declaringType: TypeHeader,
               ignoreTag: bool, serializerTag: bool,
               getMethod: Option<Accessor>, setMethod: Option<Accessor>,
               hasParameters: bool)

  /** A base-type reference together with what resolving it yields; `None`
      is a reference that does not resolve to a definition. */
  datatype BaseRef = BaseRef(reference: TypeRef, resolved: Option<TypeDef>)

  /** A type definition.  `baseType == None` is a null base type (the root
      object type itself, or an interface).  Because the resolved base is
      part of the value, every base chain is finite and acyclic. */
  datatype TypeDef = TypeDef(header: TypeHeader, baseType: Option<BaseRef>,
                             properties: seq<Member>, fields: seq<Member>)

  /** The places where the reader dereferences a null reference and the
      runtime throws. */
  datatype Fault =
    | NullGetMethod(member: string)
    | NullSetMethod(member: string)
    | NullBaseType(typeName: string)
    | UnresolvedType(typeName: string)

  /** The members of `t` are the properties and fields it declares. */
  ghost predicate DeclaredBy(t: TypeDef)
  {
    && (forall i :: 0 <= i < |t.properties| ==>
          t.properties[i].Property? && t.properties[i].declaringType == t.header)
    && (forall i :: 0 <= i < |t.fields| ==>
          t.fields[i].Field? && t.fields[i].declaringType == t.header)
  }
}
