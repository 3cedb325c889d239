/**
 * Runtime type handles (`System.Type`) and the type mappings the automapper
 * registers. A type is identified by its full name together with the assembly
 * that defines it, so two types that share a full name but come from different
 * assemblies are different handles; generic types know their generic type
 * definition, as `Type.GetGenericTypeDefinition()` does.
 */
module Types {

  datatype TypeHandle =
    | Plain(fullName: string, assembly: string)
      /** An open generic type definition such as `IRepository<>`. */
    | GenericDefinition(fullName: string, assembly: string)
      /** A generic type with arguments such as `IRepository<Customer>`. */
    | Constructed(fullName: string, definition: TypeHandle, arguments: seq<TypeHandle>)
  {
    /** `Type.IsGenericType`: true of both open definitions and constructed generics. */
    predicate IsGenericType()
    {
      GenericDefinition? || Constructed?
    }
  }

  /** A constructed generic refers to an open generic definition, as the runtime guarantees. */
  predicate WellFormed(t: TypeHandle)
  {
    t.Constructed? ==> t.definition.GenericDefinition?
  }

  /** `Type.GetGenericTypeDefinition()`: a definition is its own definition. */
  function GetGenericTypeDefinition(t: TypeHandle): (d: TypeHandle)
    requires t.IsGenericType()
    ensures WellFormed(t) ==> d.GenericDefinition?
    ensures t.Constructed? ==> d == t.definition
    ensures t.GenericDefinition? ==> d == t
  {
    match t
    case GenericDefinition(_, _) => t
    case Constructed(_, definition, _) => definition
  }

  /**
   * The normalisation `IsMultimap` applies before it compares: a generic type
   * is replaced by its generic type definition, any other type stays as it is.
   */
  function Normalise(t: TypeHandle): (n: TypeHandle)
    ensures WellFormed(t) ==> !n.Constructed? && WellFormed(n)
    ensures WellFormed(t) ==> (n.IsGenericType() <==> t.IsGenericType())
    ensures !t.IsGenericType() ==> n == t
    ensures t.Constructed? ==> n == t.definition
    ensures t.GenericDefinition? ==> n == t
  {
    if t.IsGenericType() then GetGenericTypeDefinition(t) else t
  }

  /** Normalising twice is normalising once. */
  lemma NormaliseIdempotent(t: TypeHandle)
    requires WellFormed(t)
    ensures Normalise(Normalise(t)) == Normalise(t)
  {
  }

  /** `TypeMapping`: a request to map the interface `from` onto the concrete `to`. */
  datatype TypeMapping = TypeMapping(from: TypeHandle, to: TypeHandle)
}
