/**
 * `AutomapperConfig`: five append-only lists of configuration instructions and
 * the queries the automapper asks of them. The C# class mutates itself and
 * returns `this` from every fluent method; here each method returns the
 * extended configuration as a new value, so the argument of `MergeWith` and
 * every earlier configuration value stay as they were.
 */
module Configuration {
  import opened Wrappers
  import opened Types
  import Linq

  /** One `AndUseNamedMappingFor(type, name)` instruction. */
  datatype NamedMapping = NamedMapping(forType: TypeHandle, name: string)

  datatype AutomapperConfig = AutomapperConfig(
    doNotMapTypes: seq<TypeHandle>,
    explicitNamedMappings: seq<NamedMapping>,
    multimapTypes: seq<TypeHandle>,
    policyInjectionTypes: seq<TypeHandle>,
    singletonTypes: seq<TypeHandle>)

  /** Every explicit name is non-empty, as `AndUseNamedMappingFor` demands of its callers. */
  predicate Valid(c: AutomapperConfig)
  {
    forall i :: 0 <= i < |c.explicitNamedMappings| ==> c.explicitNamedMappings[i].name != ""
  }

  // ---------------------------------------------------------------- queries

  /** `IsMappable`: the type was not excluded with `AndDoNotMapFor`. */
  function IsMappable(c: AutomapperConfig, t: TypeHandle): (r: bool)
    ensures r <==> t !in c.doNotMapTypes
  {
    !Linq.Any(c.doNotMapTypes, (x: TypeHandle) => x == t)
  }

  /** `IsSingleton`: the type was passed to `AndMapAsSingleton`. */
  function IsSingleton(c: AutomapperConfig, t: TypeHandle): (r: bool)
    ensures r <==> t in c.singletonTypes
  {
    Linq.Any(c.singletonTypes, (x: TypeHandle) => x == t)
  }

  /** `PolicyInjectionRequired`: some type asks for policy injection. */
  function PolicyInjectionRequired(c: AutomapperConfig): (r: bool)
    ensures r <==> exists t :: IsPolicyInjection(c, t)
  {
    if |c.policyInjectionTypes| > 0 then
      assert IsPolicyInjection(c, c.policyInjectionTypes[0]);
      true
    else
      false
  }

  /** `IsPolicyInjection`: the type was passed to `AndUsePolicyInjectionFor`. */
  function IsPolicyInjection(c: AutomapperConfig, t: TypeHandle): (r: bool)
    ensures r <==> t in c.policyInjectionTypes
    ensures r ==> |c.policyInjectionTypes| > 0
  {
    Linq.Any(c.policyInjectionTypes, (x: TypeHandle) => x == t)
  }

  /**
   * `IsMultimap`: compares the generic type definition of a generic type, and
   * the type itself otherwise. A constructed generic is therefore a multimap
   * exactly when its open definition was registered, whatever constructed
   * types were registered beside it.
   */
  function IsMultimap(c: AutomapperConfig, t: TypeHandle): (r: bool)
    ensures r <==> Normalise(t) in c.multimapTypes
    ensures !t.IsGenericType() ==> (r <==> t in c.multimapTypes)
    ensures t.Constructed? ==> (r <==> t.definition in c.multimapTypes)
    ensures t.GenericDefinition? ==> (r <==> t in c.multimapTypes)
  {
    var n := if t.IsGenericType() then GetGenericTypeDefinition(t) else t;
    Linq.Any(c.multimapTypes, (x: TypeHandle) => x == n)
  }

  /** `IsNamedMapping`: some explicit name was given for the type. */
  function IsNamedMapping(c: AutomapperConfig, t: TypeHandle): (r: bool)
    ensures r <==> exists i :: 0 <= i < |c.explicitNamedMappings| && c.explicitNamedMappings[i].forType == t
  {
    Linq.Any(c.explicitNamedMappings, (p: NamedMapping) => p.forType == t)
  }

  /**
   * `GetNamedMapping`: the name of the first explicit pair for the mapping's
   * target type; without one, the target's full name.
   */
  function GetNamedMapping(c: AutomapperConfig, m: TypeMapping): (r: string)
    ensures IsNamedMapping(c, m.to) ==>
              exists i :: 0 <= i < |c.explicitNamedMappings|
                && c.explicitNamedMappings[i].forType == m.to
                && r == c.explicitNamedMappings[i].name
                && forall j :: 0 <= j < i ==> c.explicitNamedMappings[j].forType != m.to
    ensures !IsNamedMapping(c, m.to) ==> r == m.to.fullName
    ensures Valid(c) && IsNamedMapping(c, m.to) ==> r != ""
  {
    var pairs := c.explicitNamedMappings;
    match Linq.FirstIndex(pairs, (p: NamedMapping) => p.forType == m.to)
    case Some(i) => pairs[i].name
    case None => m.to.fullName
  }

  // ------------------------------------------- which queries agree between two configs

  ghost predicate SameMappable(a: AutomapperConfig, b: AutomapperConfig)
  {
    forall t :: IsMappable(a, t) == IsMappable(b, t)
  }

  ghost predicate SameNamed(a: AutomapperConfig, b: AutomapperConfig)
  {
    && (forall t :: IsNamedMapping(a, t) == IsNamedMapping(b, t))
    && (forall m: TypeMapping :: GetNamedMapping(a, m) == GetNamedMapping(b, m))
  }

  ghost predicate SameMultimap(a: AutomapperConfig, b: AutomapperConfig)
  {
    forall t :: IsMultimap(a, t) == IsMultimap(b, t)
  }

  ghost predicate SamePolicyInjection(a: AutomapperConfig, b: AutomapperConfig)
  {
    && PolicyInjectionRequired(a) == PolicyInjectionRequired(b)
    && forall t :: IsPolicyInjection(a, t) == IsPolicyInjection(b, t)
  }

  ghost predicate SameSingleton(a: AutomapperConfig, b: AutomapperConfig)
  {
    forall t :: IsSingleton(a, t) == IsSingleton(b, t)
  }

  // ---------------------------------------------------------- construction

  /** `Create()`: the empty configuration, under which every query answers its default. */
  function Create(): (r: AutomapperConfig)
    ensures Valid(r)
    ensures forall t :: IsMappable(r, t)
    ensures forall t :: !IsSingleton(r, t)
    ensures forall t :: !IsPolicyInjection(r, t)
    ensures !PolicyInjectionRequired(r)
    ensures forall t :: !IsMultimap(r, t)
    ensures forall t :: !IsNamedMapping(r, t)
    ensures forall m: TypeMapping :: GetNamedMapping(r, m) == m.to.fullName
  {
    AutomapperConfig([], [], [], [], [])
  }

  /** `AndDoNotMapFor(types)`: the given types become unmappable; nothing else changes. */
  function AndDoNotMapFor(c: AutomapperConfig, types: seq<TypeHandle>): (r: AutomapperConfig)
    ensures forall t :: IsMappable(r, t) <==> IsMappable(c, t) && t !in types
    ensures SameNamed(c, r) && SameMultimap(c, r) && SamePolicyInjection(c, r) && SameSingleton(c, r)
    ensures Valid(c) ==> Valid(r)
  {
    c.(doNotMapTypes := c.doNotMapTypes + types)
  }

  /**
   * `AndUseNamedMappingFor(type, name)`: the type becomes named; its name is
   * `name` unless an earlier instruction already named it, which keeps priority.
   */
  function AndUseNamedMappingFor(c: AutomapperConfig, forType: TypeHandle, name: string): (r: AutomapperConfig)
    requires name != ""
    ensures forall t :: IsNamedMapping(r, t) <==> IsNamedMapping(c, t) || t == forType
    ensures forall m: TypeMapping :: m.to == forType && !IsNamedMapping(c, forType) ==> GetNamedMapping(r, m) == name
    ensures forall m: TypeMapping :: m.to != forType || IsNamedMapping(c, forType) ==> GetNamedMapping(r, m) == GetNamedMapping(c, m)
    ensures SameMappable(c, r) && SameMultimap(c, r) && SamePolicyInjection(c, r) && SameSingleton(c, r)
    ensures Valid(c) ==> Valid(r)
  {
    var r := c.(explicitNamedMappings := c.explicitNamedMappings + [NamedMapping(forType, name)]);
    forall m: TypeMapping ensures GetNamedMapping(r, m) == (if IsNamedMapping(c, m.to) then GetNamedMapping(c, m)
                                                 else if m.to == forType then name
                                                 else m.to.fullName) {
      NamedLookupAppend(c, r, [NamedMapping(forType, name)], m);
    }
    forall t ensures IsNamedMapping(r, t) <==> IsNamedMapping(c, t) || t == forType {
      NamedAppend(c, r, [NamedMapping(forType, name)], t);
    }
    r
  }

  /** `AndUseMultimappingFor(types)`: the given types (after normalisation) become multimaps. */
  function AndUseMultimappingFor(c: AutomapperConfig, types: seq<TypeHandle>): (r: AutomapperConfig)
    ensures forall t :: IsMultimap(r, t) <==> IsMultimap(c, t) || Normalise(t) in types
    ensures SameMappable(c, r) && SameNamed(c, r) && SamePolicyInjection(c, r) && SameSingleton(c, r)
    ensures Valid(c) ==> Valid(r)
  {
    c.(multimapTypes := c.multimapTypes + types)
  }

  /** `AndUsePolicyInjectionFor(types)`: the given types take part in policy injection. */
  function AndUsePolicyInjectionFor(c: AutomapperConfig, types: seq<TypeHandle>): (r: AutomapperConfig)
    ensures forall t :: IsPolicyInjection(r, t) <==> IsPolicyInjection(c, t) || t in types
    ensures PolicyInjectionRequired(r) <==> PolicyInjectionRequired(c) || |types| > 0
    ensures SameMappable(c, r) && SameNamed(c, r) && SameMultimap(c, r) && SameSingleton(c, r)
    ensures Valid(c) ==> Valid(r)
  {
    var r := c.(policyInjectionTypes := c.policyInjectionTypes + types);
    assert PolicyInjectionRequired(r) <==> PolicyInjectionRequired(c) || |types| > 0 by {
      if |types| > 0 { assert IsPolicyInjection(r, types[0]); }
      if PolicyInjectionRequired(c) {
        var t :| IsPolicyInjection(c, t);
        assert IsPolicyInjection(r, t);
      }
    }
    r
  }

  /** `AndMapAsSingleton(types)`: the given types are registered as singletons. */
  function AndMapAsSingleton(c: AutomapperConfig, types: seq<TypeHandle>): (r: AutomapperConfig)
    ensures forall t :: IsSingleton(r, t) <==> IsSingleton(c, t) || t in types
    ensures SameMappable(c, r) && SameNamed(c, r) && SameMultimap(c, r) && SamePolicyInjection(c, r)
    ensures Valid(c) ==> Valid(r)
  {
    c.(singletonTypes := c.singletonTypes + types)
  }

  /**
   * `MergeWith(source)` (through `DoMerge`): every list of `source` is appended
   * to the receiver's. Each membership query becomes the disjunction of the two
   * configurations' answers, `IsMappable` their conjunction, and the receiver's
   * explicit names keep priority.
   */
  function MergeWith(c: AutomapperConfig, source: AutomapperConfig): (r: AutomapperConfig)
    ensures forall t :: IsMappable(r, t) <==> IsMappable(c, t) && IsMappable(source, t)
    ensures forall t :: IsSingleton(r, t) <==> IsSingleton(c, t) || IsSingleton(source, t)
    ensures forall t :: IsPolicyInjection(r, t) <==> IsPolicyInjection(c, t) || IsPolicyInjection(source, t)
    ensures PolicyInjectionRequired(r) <==> PolicyInjectionRequired(c) || PolicyInjectionRequired(source)
    ensures forall t :: IsMultimap(r, t) <==> IsMultimap(c, t) || IsMultimap(source, t)
    ensures forall t :: IsNamedMapping(r, t) <==> IsNamedMapping(c, t) || IsNamedMapping(source, t)
    ensures forall m: TypeMapping :: IsNamedMapping(c, m.to) ==> GetNamedMapping(r, m) == GetNamedMapping(c, m)
    ensures forall m: TypeMapping :: !IsNamedMapping(c, m.to) ==> GetNamedMapping(r, m) == GetNamedMapping(source, m)
    ensures Valid(c) && Valid(source) ==> Valid(r)
  {
    var r := AutomapperConfig(
      c.doNotMapTypes + source.doNotMapTypes,
      c.explicitNamedMappings + source.explicitNamedMappings,
      c.multimapTypes + source.multimapTypes,
      c.policyInjectionTypes + source.policyInjectionTypes,
      c.singletonTypes + source.singletonTypes);
    assert PolicyInjectionRequired(r) <==> PolicyInjectionRequired(c) || PolicyInjectionRequired(source) by {
      if PolicyInjectionRequired(c) {
        var t :| IsPolicyInjection(c, t);
        assert IsPolicyInjection(r, t);
      }
      if PolicyInjectionRequired(source) {
        var t :| IsPolicyInjection(source, t);
        assert IsPolicyInjection(r, t);
      }
    }
    forall m: TypeMapping ensures GetNamedMapping(r, m) == (if IsNamedMapping(c, m.to) then GetNamedMapping(c, m)
                                                 else GetNamedMapping(source, m)) {
      NamedLookupAppend(c, r, source.explicitNamedMappings, m);
    }
    forall t ensures IsNamedMapping(r, t) <==> IsNamedMapping(c, t) || IsNamedMapping(source, t) {
      NamedAppend(c, r, source.explicitNamedMappings, t);
    }
    r
  }

  /** Appending explicit names names exactly the types either part names. */
  lemma NamedAppend(c: AutomapperConfig, r: AutomapperConfig, extra: seq<NamedMapping>, t: TypeHandle)
    requires r.explicitNamedMappings == c.explicitNamedMappings + extra
    ensures IsNamedMapping(r, t) <==> IsNamedMapping(c, t) || IsNamedMapping(c.(explicitNamedMappings := extra), t)
  {
    var a, ab := c.explicitNamedMappings, r.explicitNamedMappings;
    if IsNamedMapping(r, t) {
      var i :| 0 <= i < |ab| && ab[i].forType == t;
      if i >= |a| { assert extra[i - |a|] == ab[i]; }
    }
    if IsNamedMapping(c, t) {
      var i :| 0 <= i < |a| && a[i].forType == t;
      assert ab[i] == a[i];
    }
    if IsNamedMapping(c.(explicitNamedMappings := extra), t) {
      var i :| 0 <= i < |extra| && extra[i].forType == t;
      assert ab[|a| + i] == extra[i];
    }
  }

  /**
   * Appending explicit names after a configuration's own leaves the lookup of
   * every type it already names alone, and answers the other types from the
   * appended names.
   */
  lemma {:induction false} NamedLookupAppend(c: AutomapperConfig, r: AutomapperConfig, extra: seq<NamedMapping>, m: TypeMapping)
    requires r.explicitNamedMappings == c.explicitNamedMappings + extra
    ensures GetNamedMapping(r, m) ==
              if IsNamedMapping(c, m.to) then GetNamedMapping(c, m)
              else GetNamedMapping(c.(explicitNamedMappings := extra), m)
  {
    var p := (q: NamedMapping) => q.forType == m.to;
    Linq.FirstIndexAppend(c.explicitNamedMappings, extra, p);
    match Linq.FirstIndex(c.explicitNamedMappings, p)
    case Some(i) =>
    case None =>
      match Linq.FirstIndex(extra, p)
      case Some(j) =>
        assert r.explicitNamedMappings[|c.explicitNamedMappings| + j] == extra[j];
      case None =>
  }
}
