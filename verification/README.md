# Lydian.Unity.Automapper — registration core in Dafny

This project models the part of Lydian.Unity.Automapper that decides how
types are registered and that reports what a registration batch added to a
Unity container:

- `AutomapperConfig` (module `Configuration`): the five instruction lists
  (do-not-map, explicit names, multimap, policy injection, singleton). It
  covers the fluent `And…` methods that extend them, `MergeWith`, and the
  queries the mapper asks of them. C# mutates the receiver and returns
  `this`; the model returns the extended configuration as a new value.
- `UnityRegistrationTracker` (module `Tracking`): it copies the container's
  registrations when it is constructed. `GetNewRegistrations` is LINQ
  `Except` under `ExistingMappingComparer`, which identifies a registration
  by its requested type and name only. `Except` is modelled in module
  `Linq` with a key function in place of the comparer.
- `TypeMappingHandler.PerformRegistrations` (module `Handling`): for each
  mapping, in order, it
  1. asks the validator, then the injection-member factory, the
     lifetime-manager factory and the registration-name factory;
  2. calls `RegisterType` with the mapping's types and what the factories
     produced;
  3. adds the policy-injection extension the first time in the call that a
     mapping yields injection members.

  It returns the registrations a tracker attached before the first mapping
  reports as new. The four collaborators are function-valued fields of
  `Collaborators`. Every call the handler makes is recorded, in order, in a
  trace of `Call` values. A validator that rejects a mapping is modelled as
  returning `Some(error)`. That error ends the batch and becomes the
  `Failure` result. The mappings before it stay registered, and the container
  keeps their keys.
- The container (module `Unity`) is a table of registrations
  `(RegisteredType, MappedToType, Name)` in enumeration order, plus a count
  of added extensions. `RegisterType` under a key (requested type and name)
  that the table already holds replaces that entry in place. A new key is
  appended.
- `Types` holds runtime type handles. A handle is plain, an open generic
  definition, or a constructed generic that knows its definition. A plain
  type or a definition is identified by its full name together with its
  assembly, so equal full names from different assemblies stay distinct.
  `Normalise` is the generic-definition step `IsMultimap` applies.

Module `HandlingScenarios` restates the situations of
`TypeMappingHandlerTests`. Each lemma quantifies over every collaborator
that answers the way the test's stubs do, and derives its result from the
general lemmas of `Handling`.

## Model

| member | source | states |
|---|---|---|
| Configuration.Create | Lydian.Unity.Automapper/Configuration/AutomapperConfig.cs:29-33 | The empty configuration: every type is mappable. No type is a singleton, a policy-injection type, a multimap or named. Policy injection is not required. Every mapping is named after its target's full name. |
| Configuration.AndDoNotMapFor | Lydian.Unity.Automapper/Configuration/AutomapperConfig.cs:65-71 | A type is mappable afterwards iff it was mappable before and is not among the new types. Every other query answers as before. |
| Configuration.AndUseNamedMappingFor | Lydian.Unity.Automapper/Configuration/AutomapperConfig.cs:78-85 | Requires a non-empty name, as the source's contract does. Afterwards a type is named iff it was named before or is the given type. The given name is used only when no earlier instruction already named the type. All other lookups and queries are unchanged. |
| Configuration.AndUseMultimappingFor | Lydian.Unity.Automapper/Configuration/AutomapperConfig.cs:91-97 | A type is a multimap afterwards iff it was one before or its generic definition (the type itself if not generic) is among the new types. Every other query is unchanged. |
| Configuration.AndUsePolicyInjectionFor | Lydian.Unity.Automapper/Configuration/AutomapperConfig.cs:103-109 | The policy-injection types grow by exactly the given types. Policy injection is required afterwards iff it was before or the list is non-empty. Every other query is unchanged. |
| Configuration.AndMapAsSingleton | Lydian.Unity.Automapper/Configuration/AutomapperConfig.cs:115-121 | The singleton types grow by exactly the given types. Every other query is unchanged. |
| Configuration.MergeWith | Lydian.Unity.Automapper/Configuration/AutomapperConfig.cs:123-142 | Each membership query of the merge is the disjunction of the two configurations' answers. `IsMappable` is their conjunction. The receiver's explicit names take priority and the source's fill in the rest. Non-empty names stay non-empty. |
| Configuration.IsMultimap | Lydian.Unity.Automapper/Configuration/AutomapperConfig.cs:143-149 | True iff the normalised type is registered. A constructed generic is a multimap exactly when its open definition is registered, and a plain type exactly when it is registered itself. |
| Configuration.IsNamedMapping | Lydian.Unity.Automapper/Configuration/AutomapperConfig.cs:150-153 | True iff some explicit pair is for the type. |
| Configuration.PolicyInjectionRequired | Lydian.Unity.Automapper/Configuration/AutomapperConfig.cs:154-157 | True iff some type is a policy-injection type. |
| Configuration.IsPolicyInjection | Lydian.Unity.Automapper/Configuration/AutomapperConfig.cs:158-161 | True iff the type was passed to `AndUsePolicyInjectionFor`. If so, the list is non-empty. |
| Configuration.IsSingleton | Lydian.Unity.Automapper/Configuration/AutomapperConfig.cs:162-165 | True iff the type was passed to `AndMapAsSingleton`. |
| Configuration.IsMappable | Lydian.Unity.Automapper/Configuration/AutomapperConfig.cs:166-169 | True iff the type was never passed to `AndDoNotMapFor`. |
| Configuration.GetNamedMapping | Lydian.Unity.Automapper/Configuration/AutomapperConfig.cs:170-181 | For a named target: the name of the first pair for it, with no earlier pair for the same type. Otherwise the target's full name. Never empty for a named target of a valid configuration. |
| Configuration.NamedLookupAppend | Lydian.Unity.Automapper/Configuration/AutomapperConfig.cs:170-181 | Appending pairs leaves the lookup of every type already named unchanged. Other types are answered from the appended pairs. |
| Configuration.NamedAppend | Lydian.Unity.Automapper/Configuration/AutomapperConfig.cs:150-153 | After appending pairs, a type is named iff either part names it. |
| Types.Normalise | Lydian.Unity.Automapper/Configuration/AutomapperConfig.cs:145 | A constructed generic becomes its own generic definition. An open definition and any non-generic type stay themselves. The result is never a constructed generic, and it is generic iff the input is. |
| Types.NormaliseIdempotent | Lydian.Unity.Automapper/Configuration/AutomapperConfig.cs:145 | Normalising twice is normalising once. |
| Linq.FirstIndexAppend | Lydian.Unity.Automapper/Configuration/AutomapperConfig.cs:172-175 | The first match in a concatenation comes from the first part if it has one, otherwise from the second part shifted past the first. |
| Linq.ExceptBy | Lydian.Unity.Automapper/Core/UnityRegistrationTracker.cs:35 | Every element yielded is from the first sequence. The yielded keys are the first sequence's keys minus the second's. No key is yielded twice. |
| Tracking.SameRegistration | Lydian.Unity.Automapper/Core/UnityRegistrationTracker.cs:43-47 | Two registrations are equal iff their requested types and names match. The mapped-to type is ignored. Equal registrations hash the same text. |
| Tracking.HashConsistentWithEquals | Lydian.Unity.Automapper/Core/UnityRegistrationTracker.cs:49-53 | For any string hash function, registrations the comparer calls equal have equal hash codes. |
| Tracking.StartTracking | Lydian.Unity.Automapper/Core/UnityRegistrationTracker.cs:23-27 | A tracker asked straight after construction reports nothing new. |
| Tracking.GetNewRegistrations | Lydian.Unity.Automapper/Core/UnityRegistrationTracker.cs:33-36 | Each result is a current registration that equals no snapshot entry under the comparer. Every current registration whose key is not in the snapshot is represented. No two results are equal under the comparer. Result keys = current keys minus snapshot keys. |
| Tracking.NothingNewWithoutNewKeys | Lydian.Unity.Automapper/Core/UnityRegistrationTracker.cs:33-47 | A container whose keys all occur in the snapshot has no new registrations, however its entries were retargeted or reordered. |
| Tracking.RetargetIsNotNew | Lydian.Unity.Automapper/Core/UnityRegistrationTracker.cs:39-47 | Re-registering an existing type and name onto another mapped-to type is not reported as new. |
| Tracking.SnapshotIsACopy | Lydian.Unity.Automapper/Core/UnityRegistrationTracker.cs:23-36 | After one registration under a fresh key, the tracker reports exactly that registration. The snapshot does not follow the container. |
| Unity.RegisterType | Lydian.Unity.Automapper.Test/Core/TypeMappingHandlerTests.cs:124-154 | Afterwards the container covers its old keys plus the new key and holds the new registration. Every entry was there before or is the new one. Entries under other keys are kept. A fresh key is appended. Unique keys stay unique. The extension count is unchanged. |
| Handling.PerformRegistrations | Lydian.Unity.Automapper.Test/Core/TypeMappingHandlerTests.cs:35-43 | An empty batch makes no call, leaves the container unchanged and returns nothing. A batch succeeds iff every mapping validates. A failure carries the first rejected mapping's error, after as many `RegisterType` calls as there are mappings before it. A success makes one `RegisterType` call per mapping. The extension is added at most once, and the container's extension count grows by that much. |
| Handling.MappingCallsCover | Lydian.Unity.Automapper.Test/Core/TypeMappingHandlerTests.cs:45-91 | The calls for one mapping put it to all four collaborators, contain exactly one `RegisterType`, and add the extension once exactly when it is this mapping's turn. |
| Handling.EveryMappingIsHandled | Lydian.Unity.Automapper.Test/Core/TypeMappingHandlerTests.cs:45-108 | In a successful batch every mapping was passed to the validator and the three factories. It was registered with its own types and exactly what they produced. |
| Handling.RegisterEachStopsAtFirstRejection | Lydian.Unity.Automapper.Test/Core/TypeMappingHandlerTests.cs:45-55 | The loop fails iff some mapping is rejected. It fails with the first rejected mapping's error, and that validation is the last call made. |
| Handling.RejectionKeepsEarlierRegistrations | Lydian.Unity.Automapper.Test/Core/TypeMappingHandlerTests.cs:45-108 | A failed batch fails on the first rejected mapping. Every mapping before it was put to all four collaborators and registered. The container holds its earlier keys plus exactly those mappings' keys. |
| Handling.SuccessRegistersEveryKey | Lydian.Unity.Automapper.Test/Core/TypeMappingHandlerTests.cs:110-154 | After a successful batch the container holds its earlier keys plus exactly the mappings' keys. |
| Handling.RegisterEachKeys | Lydian.Unity.Automapper.Test/Core/TypeMappingHandlerTests.cs:110-154 | The loop adds to the container's keys exactly the keys of the mappings before the first rejected one. |
| Handling.RegisterEachProvenance | Lydian.Unity.Automapper.Test/Core/TypeMappingHandlerTests.cs:110-154 | Every registration afterwards was there before or belongs to a mapping before the first rejected one. |
| Handling.RegisterEachHandlesAcceptedPrefix | Lydian.Unity.Automapper.Test/Core/TypeMappingHandlerTests.cs:45-108 | Every mapping before the first rejected one was put to all four collaborators and registered with what they produced. |
| Handling.RegisterEachRegistersUpToRejection | Lydian.Unity.Automapper.Test/Core/TypeMappingHandlerTests.cs:93-108 | The number of `RegisterType` calls is the position of the first rejected mapping, or the batch length if none is rejected. |
| Handling.RegisterEachAddsExtensionOnce | Lydian.Unity.Automapper.Test/Core/TypeMappingHandlerTests.cs:182-193 | The extension is added at most once per call. It is added exactly when the call installed it. The container's extension count grows by the number of `AddExtension` calls. |
| Handling.RegisterEachInstallsWhenNeeded | Lydian.Unity.Automapper.Test/Core/TypeMappingHandlerTests.cs:156-180 | Without a rejection, the extension ends up installed iff it was installed before or some mapping yields injection members. |
| Handling.ExtensionAddedOnceIffMembers | Lydian.Unity.Automapper.Test/Core/TypeMappingHandlerTests.cs:156-193 | In a successful batch, `AddExtension` is called once iff some mapping yields injection members, and never otherwise. |
| Handling.ReturnsOnlyNewRegistrations | Lydian.Unity.Automapper.Test/Core/TypeMappingHandlerTests.cs:110-154 | A successful batch returns the mappings' keys the container did not hold before, each once. Each returned registration is held by the container and was produced by one of the mappings. |
| Handling.KeepsKeysUnique | Lydian.Unity.Automapper.Test/Core/TypeMappingHandlerTests.cs:182-193 | Because re-registering replaces, a container without duplicate keys has none afterwards. |
| HandlingScenarios.SingleMappingCallSequence | Lydian.Unity.Automapper.Test/Core/TypeMappingHandlerTests.cs:93-108 | For one accepted mapping the exact calls, in order: validator, injection members, lifetime manager, name, then `RegisterType(from, to, name, lifetime, members)` with what the factories returned, then the extension if there are injection members. |
| HandlingScenarios.FreshRegistrationIsReturnedOnce | Lydian.Unity.Automapper.Test/Core/TypeMappingHandlerTests.cs:110-122 | Mappings that all produce the same registration under a key the container lacked return exactly that registration, once. |
| HandlingScenarios.OneRegistrationOneKey | Lydian.Unity.Automapper.Test/Core/TypeMappingHandlerTests.cs:182-193 | A non-empty batch whose mappings all produce one registration covers exactly that registration's key. |
| HandlingScenarios.CreatedRegistrationIsReturned | Lydian.Unity.Automapper.Test/Core/TypeMappingHandlerTests.cs:110-122 | Registering `Object` onto `String` returns a single registration whose requested type is `Object` and whose mapped-to type is `String`. |
| HandlingScenarios.ExistingSameSourceDifferentNameIsNotReturned | Lydian.Unity.Automapper.Test/Core/TypeMappingHandlerTests.cs:124-138 | With `Object` already registered as "TEST", a new `Object` registration named "TEST2" is returned as the only new registration. |
| HandlingScenarios.ExistingDifferentSourceSameNameIsNotReturned | Lydian.Unity.Automapper.Test/Core/TypeMappingHandlerTests.cs:140-154 | With `String` already registered as "TEST2", a new `Object` registration named "TEST2" is returned as the only new registration. |
| HandlingScenarios.InjectionMembersAddExtension | Lydian.Unity.Automapper.Test/Core/TypeMappingHandlerTests.cs:156-167 | A mapping with injection members adds the extension exactly once. |
| HandlingScenarios.NoInjectionMembersNoExtension | Lydian.Unity.Automapper.Test/Core/TypeMappingHandlerTests.cs:169-180 | A mapping without injection members never adds the extension. |
| HandlingScenarios.TwoMappingsWithMembersAddExtensionOnce | Lydian.Unity.Automapper.Test/Core/TypeMappingHandlerTests.cs:182-193 | Two mappings that both have injection members add the extension once, not twice. |
| HandlingScenarios.RepeatedMappingLeavesOneBinding | Lydian.Unity.Automapper.Test/Core/TypeMappingHandlerTests.cs:182-193 | The same mapping twice is registered twice. The container then holds a single binding for its key, and the extension is added at most once. |

## Left out

- `AutomapperConfig.Create(IEnumerable<Type>)` (lines 40-58) builds a configuration from attributes found by reflection (`HasAttribute`, `GetMapAsName`). Reflection is outside the model, and the result is just a chain of the modelled `And…` calls.
- The Code Contracts invariant method (lines 183-193) and the non-null `Requires` on list arguments: Dafny sequences are never null.
- `TypeMappingHandler.cs` is not part of this model, so the handler is modelled from its tests. The tests check that each collaborator call and the `RegisterType` call happen. They do not constrain the order among the factories, or between `RegisterType` and `AddExtension`. The model fixes this order: validator, injection-member factory, lifetime-manager factory, name factory, `RegisterType`, then the extension.
- The handler's return value is taken to be what a tracker attached before the first mapping reports, which is what the tests expect. A mapping repeated under one key is therefore returned once.
- Unity.AddExtension: adding the policy-injection extension never changes the registration table. Unity's interception extension may register policy objects of its own when it initialises. Unity's source is not part of this model. `ReturnsOnlyNewRegistrations` states that every returned registration came from a mapping, and that relies on this assumption.
- Unity.RegisterType: never fails. A container that refuses a registration, for example one reusing a lifetime manager, is not modelled.
- Unity.RegisterType: a fresh key is appended at the end of the table. The order in which Unity enumerates `Registrations` is not known from the source; the model's lemmas about returned registrations depend only on keys and membership, apart from this append order.
- Types.TypeHandle: a type's identity is its full name and assembly. Distinct runtime types with the same name and assembly, such as the same assembly loaded into two contexts, are one handle in the model.
- Unity's container is reduced to its registration table and an extension count. Lifetime managers and injection members are opaque tokens. Built-in registrations of a real `UnityContainer` are arbitrary initial contents.
- The extension-installed state is local to one `PerformRegistrations` call. A second call on the same container may add the extension again. That matches the per-call flag the tests observe; nothing tracks it per container across calls.
- Tracking.HashCode: the .NET string hash is a parameter `stringHash`, and its 32-bit width is not modelled. Only consistency with `Equals` is stated.
- `Type.FullName` is never null in the model. In .NET it is null for generic type parameters.
- The fluent API's mutation and aliasing: in C# every `And…` call and `MergeWith` mutates and returns the receiver. Here they return a new value, so the merged-in source configuration is unchanged by construction.
- Moq's verification machinery is replaced by the recorded call trace. A test's stub becomes a precondition on the collaborator functions.
