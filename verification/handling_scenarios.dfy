/**
 * The situations `TypeMappingHandlerTests` sets up, stated for every choice of
 * collaborators that behaves as the test's stubs do, and derived from the
 * general properties of `PerformRegistrations`.
 */
module HandlingScenarios {
  import opened Wrappers
  import opened Types
  import opened Unity
  import opened Handling
  import Linq

  const ObjectType := Plain("System.Object", "mscorlib")
  const StringType := Plain("System.String", "mscorlib")

  /**
   * One accepted mapping: the validator, the injection-member factory, the
   * lifetime-manager factory and the name factory are each asked about it, in
   * that order, and the container receives `RegisterType` with the mapping's
   * types and exactly what the factories produced; the extension follows when
   * the mapping yields injection members.
   */
  lemma SingleMappingCallSequence(col: Collaborators, target: Container, m: TypeMapping)
    requires col.validateTypeMapping(m).None?
    ensures PerformRegistrations(col, target, [m]).trace ==
              [ValidateTypeMapping(m), CreateInjectionMembers(m), CreateLifetimeManager(m), GetRegistrationName(m),
               RegisterTypeCall(m.from, m.to, col.getRegistrationName(m), col.createLifetimeManager(m), col.createInjectionMembers(m))]
              + (if NeedsExtension(col, m) then [AddExtensionCall] else [])
  {
    var ms := [m];
    assert ms[1..] == [];
    var rest := RegisterEach(col, AfterAccepted(col, target, m, false), ms[1..], NeedsExtension(col, m));
    assert RegisterEach(col, target, ms, false).trace == MappingCalls(col, m, InstallsExtension(col, m, false)) + rest.trace;
  }

  /**
   * A successful batch whose mappings all produce the same registration, under
   * a key the container did not hold, returns exactly that registration once,
   * however many times the mapping was repeated.
   */
  lemma {:induction false} FreshRegistrationIsReturnedOnce(col: Collaborators, target: Container, ms: seq<TypeMapping>, reg: ContainerRegistration)
    requires |ms| > 0
    requires forall i :: 0 <= i < |ms| ==> col.validateTypeMapping(ms[i]).None?
    requires forall i :: 0 <= i < |ms| ==> RegistrationFor(col, ms[i]) == reg
    requires Key(reg) !in Keys(target.registrations)
    ensures PerformRegistrations(col, target, ms).result == Success([reg])
  {
    var r := PerformRegistrations(col, target, ms);
    ReturnsOnlyNewRegistrations(col, target, ms);
    OneRegistrationOneKey(col, ms, reg);
    assert r.result.Success?;
    assert Keys(r.result.value) == {Key(reg)};
    Linq.SingleKeyIsSingleton(r.result.value, Key, reg);
  }

  /** Mappings that all produce one registration cover one key. */
  lemma OneRegistrationOneKey(col: Collaborators, ms: seq<TypeMapping>, reg: ContainerRegistration)
    requires |ms| > 0
    requires forall i :: 0 <= i < |ms| ==> RegistrationFor(col, ms[i]) == reg
    ensures MappingKeys(col, ms) == {Key(reg)}
  {
    forall m | m in ms ensures MappingKey(col, m) == Key(reg) {
      var i :| 0 <= i < |ms| && ms[i] == m;
      assert RegistrationFor(col, ms[i]) == reg;
    }
    assert MappingKey(col, ms[0]) == Key(reg);
  }

  /** Registering `Object` onto `String` returns that registration: `RegisteredType` is `Object`, `MappedToType` is `String`. */
  lemma CreatedRegistrationIsReturned(col: Collaborators, target: Container)
    requires col.validateTypeMapping(TypeMapping(ObjectType, StringType)).None?
    requires (ObjectType, col.getRegistrationName(TypeMapping(ObjectType, StringType))) !in Keys(target.registrations)
    ensures var r := PerformRegistrations(col, target, [TypeMapping(ObjectType, StringType)]);
      && r.result.Success? && |r.result.value| == 1
      && r.result.value[0].registeredType == ObjectType
      && r.result.value[0].mappedToType == StringType
  {
    var m := TypeMapping(ObjectType, StringType);
    FreshRegistrationIsReturnedOnce(col, target, [m], RegistrationFor(col, m));
  }

  /**
   * A registration of `Object` under another name, made before the call, is
   * not returned; only the new `Object` registration named "TEST2" is.
   */
  lemma ExistingSameSourceDifferentNameIsNotReturned(col: Collaborators, target: Container)
    requires ContainerRegistration(ObjectType, StringType, Some("TEST")) in target.registrations
    requires (ObjectType, Some("TEST2")) !in Keys(target.registrations)
    requires col.validateTypeMapping(TypeMapping(ObjectType, StringType)).None?
    requires col.getRegistrationName(TypeMapping(ObjectType, StringType)) == Some("TEST2")
    ensures PerformRegistrations(col, target, [TypeMapping(ObjectType, StringType)]).result ==
              Success([ContainerRegistration(ObjectType, StringType, Some("TEST2"))])
  {
    var m := TypeMapping(ObjectType, StringType);
    FreshRegistrationIsReturnedOnce(col, target, [m], RegistrationFor(col, m));
  }

  /**
   * A registration of `String` under the same name "TEST2", made before the
   * call, is not returned; the new `Object` registration is, because identity
   * needs both the type and the name to match.
   */
  lemma ExistingDifferentSourceSameNameIsNotReturned(col: Collaborators, target: Container)
    requires ContainerRegistration(StringType, StringType, Some("TEST2")) in target.registrations
    requires (ObjectType, Some("TEST2")) !in Keys(target.registrations)
    requires col.validateTypeMapping(TypeMapping(ObjectType, StringType)).None?
    requires col.getRegistrationName(TypeMapping(ObjectType, StringType)) == Some("TEST2")
    ensures PerformRegistrations(col, target, [TypeMapping(ObjectType, StringType)]).result ==
              Success([ContainerRegistration(ObjectType, StringType, Some("TEST2"))])
  {
    var m := TypeMapping(ObjectType, StringType);
    FreshRegistrationIsReturnedOnce(col, target, [m], RegistrationFor(col, m));
  }

  /** A mapping that yields injection members makes the handler add the extension exactly once. */
  lemma InjectionMembersAddExtension(col: Collaborators, target: Container)
    requires col.validateTypeMapping(TypeMapping(ObjectType, StringType)).None?
    requires |col.createInjectionMembers(TypeMapping(ObjectType, StringType))| > 0
    ensures var r := PerformRegistrations(col, target, [TypeMapping(ObjectType, StringType)]);
      Linq.Count(r.trace, IsAddExtension) == 1 && r.container.extensionsAdded == target.extensionsAdded + 1
  {
    var ms := [TypeMapping(ObjectType, StringType)];
    ExtensionAddedOnceIffMembers(col, target, ms);
    assert NeedsExtension(col, ms[0]);
  }

  /** A mapping that yields no injection members never makes the handler add the extension. */
  lemma NoInjectionMembersNoExtension(col: Collaborators, target: Container)
    requires col.validateTypeMapping(TypeMapping(ObjectType, StringType)).None?
    requires col.createInjectionMembers(TypeMapping(ObjectType, StringType)) == []
    ensures var r := PerformRegistrations(col, target, [TypeMapping(ObjectType, StringType)]);
      Linq.Count(r.trace, IsAddExtension) == 0 && r.container.extensionsAdded == target.extensionsAdded
  {
    ExtensionAddedOnceIffMembers(col, target, [TypeMapping(ObjectType, StringType)]);
  }

  /** Two mappings that both yield injection members add the extension once, not twice. */
  lemma TwoMappingsWithMembersAddExtensionOnce(col: Collaborators, target: Container)
    requires col.validateTypeMapping(TypeMapping(ObjectType, StringType)).None?
    requires |col.createInjectionMembers(TypeMapping(ObjectType, StringType))| > 0
    ensures var r := PerformRegistrations(col, target, [TypeMapping(ObjectType, StringType), TypeMapping(ObjectType, StringType)]);
      Linq.Count(r.trace, IsAddExtension) == 1 && r.container.extensionsAdded == target.extensionsAdded + 1
  {
    var ms := [TypeMapping(ObjectType, StringType), TypeMapping(ObjectType, StringType)];
    ExtensionAddedOnceIffMembers(col, target, ms);
    assert NeedsExtension(col, ms[0]);
  }

  /**
   * The same mapping twice in one batch: both are registered, the second
   * replaces the first, so the container holds one binding for the key, and
   * the extension is added at most once.
   */
  lemma RepeatedMappingLeavesOneBinding(col: Collaborators, target: Container, m: TypeMapping)
    requires UniqueKeys(target.registrations)
    requires col.validateTypeMapping(m).None?
    ensures var r := PerformRegistrations(col, target, [m, m]);
      && r.result.Success?
      && Linq.Count(r.trace, IsRegisterType) == 2
      && MappingKey(col, m) in Keys(r.container.registrations)
      && UniqueKeys(r.container.registrations)
      && Linq.Count(r.trace, IsAddExtension) == (if NeedsExtension(col, m) then 1 else 0)
  {
    var ms := [m, m];
    var r := PerformRegistrations(col, target, ms);
    assert forall i :: 0 <= i < |ms| ==> ms[i] == m;
    assert r.result.Success?;
    KeepsKeysUnique(col, target, ms);
    SuccessRegistersEveryKey(col, target, ms);
    assert MappingKey(col, ms[0]) in MappingKeys(col, ms);
    ExtensionAddedOnceIffMembers(col, target, ms);
  }
}
