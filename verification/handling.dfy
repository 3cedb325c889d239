/**
 * `TypeMappingHandler.PerformRegistrations`: for each type mapping, in order,
 * ask the validator, the injection-member factory, the lifetime-manager factory
 * and the registration-name factory, register the mapping into the container,
 * and add the policy-injection extension the first time a mapping yields
 * injection members. The registrations returned are those a tracker attached
 * before the first mapping reports as new.
 *
 * The collaborators are function parameters and every call made to them or to
 * the container is recorded in a trace, in the order it is made.
 */
module Handling {
  import opened Wrappers
  import opened Types
  import opened Unity
  import Tracking
  import Linq

  /** The exception `ITypeMappingValidator.ValidateTypeMapping` throws for a rejected mapping. */
  datatype ValidationError = ValidationError(mapping: TypeMapping, message: string)

  /**
   * The four collaborators of `TypeMappingHandler`. A validator that returns
   * `Some(e)` throws `e`.
   */
  datatype Collaborators = Collaborators(
    validateTypeMapping: TypeMapping -> Option<ValidationError>,
    createInjectionMembers: TypeMapping -> seq<InjectionMember>,
    createLifetimeManager: TypeMapping -> LifetimeManager,
    getRegistrationName: TypeMapping -> Name)

  /** One call the handler makes to a collaborator or to the container. */
  datatype Call =
    | ValidateTypeMapping(mapping: TypeMapping)
    | CreateInjectionMembers(mapping: TypeMapping)
    | CreateLifetimeManager(mapping: TypeMapping)
    | GetRegistrationName(mapping: TypeMapping)
    | RegisterTypeCall(from: TypeHandle, to: TypeHandle, name: Name,
                       lifetime: LifetimeManager, members: seq<InjectionMember>)
    | AddExtensionCall

  predicate IsRegisterType(c: Call) { c.RegisterTypeCall? }

  predicate IsAddExtension(c: Call) { c.AddExtensionCall? }

  /** The `RegisterType` call for a mapping: its types and exactly what the three factories produced. */
  function RegisterCallFor(col: Collaborators, m: TypeMapping): Call
  {
    RegisterTypeCall(m.from, m.to, col.getRegistrationName(m),
                     col.createLifetimeManager(m), col.createInjectionMembers(m))
  }

  /** The container registration a mapping produces. */
  function RegistrationFor(col: Collaborators, m: TypeMapping): ContainerRegistration
  {
    ContainerRegistration(m.from, m.to, col.getRegistrationName(m))
  }

  /** The container key a mapping is registered under. */
  function MappingKey(col: Collaborators, m: TypeMapping): RegistrationKey
  {
    (m.from, col.getRegistrationName(m))
  }

  function MappingKeys(col: Collaborators, ms: seq<TypeMapping>): set<RegistrationKey>
  {
    set m | m in ms :: MappingKey(col, m)
  }

  /** The mapping yields injection members, so it needs the policy-injection extension. */
  predicate NeedsExtension(col: Collaborators, m: TypeMapping)
  {
    |col.createInjectionMembers(m)| > 0
  }

  /** The validator rejects the mapping. */
  function Rejected(col: Collaborators): TypeMapping -> bool
  {
    (m: TypeMapping) => col.validateTypeMapping(m).Some?
  }

  /** How many mappings come before the first rejected one: all of them when none is rejected. */
  function AcceptedPrefix(col: Collaborators, ms: seq<TypeMapping>): (n: nat)
    ensures n <= |ms|
    ensures forall j :: 0 <= j < n ==> col.validateTypeMapping(ms[j]).None?
    ensures n < |ms| ==> col.validateTypeMapping(ms[n]).Some?
  {
    match Linq.FirstIndex(ms, Rejected(col))
    case Some(k) => k
    case None => |ms|
  }

  /** An accepted first mapping lengthens the accepted prefix of the rest by one. */
  lemma AcceptedPrefixStep(col: Collaborators, ms: seq<TypeMapping>)
    requires |ms| > 0 && col.validateTypeMapping(ms[0]).None?
    ensures AcceptedPrefix(col, ms) == 1 + AcceptedPrefix(col, ms[1..])
  {
    assert !Rejected(col)(ms[0]);
  }

  /** Every collaborator was consulted about `m` and `m` was registered with what they produced. */
  ghost predicate FullyHandled(col: Collaborators, trace: seq<Call>, m: TypeMapping)
  {
    && ValidateTypeMapping(m) in trace
    && CreateInjectionMembers(m) in trace
    && CreateLifetimeManager(m) in trace
    && GetRegistrationName(m) in trace
    && RegisterCallFor(col, m) in trace
  }

  /** A mapping fully handled in either part of a trace is fully handled in the whole. */
  lemma FullyHandledAppend(col: Collaborators, a: seq<Call>, b: seq<Call>, m: TypeMapping)
    requires FullyHandled(col, a, m) || FullyHandled(col, b, m)
    ensures FullyHandled(col, a + b, m)
  {
  }

  /**
   * The calls made for one accepted mapping, in order; `install` says whether
   * this mapping is the one that adds the extension.
   */
  function MappingCalls(col: Collaborators, m: TypeMapping, install: bool): (calls: seq<Call>)
    ensures |calls| > 0 && calls[0] == ValidateTypeMapping(m)
  {
    [ValidateTypeMapping(m), CreateInjectionMembers(m), CreateLifetimeManager(m), GetRegistrationName(m)]
      + ([RegisterCallFor(col, m)] + if install then [AddExtensionCall] else [])
  }

  /**
   * The calls for one mapping put it to every collaborator, register it once,
   * and add the extension once when, and only when, it is this mapping's turn.
   */
  lemma MappingCallsCover(col: Collaborators, m: TypeMapping, install: bool)
    ensures var calls := MappingCalls(col, m, install);
      && Linq.Count(calls, IsRegisterType) == 1
      && Linq.Count(calls, IsAddExtension) == (if install then 1 else 0)
      && FullyHandled(col, calls, m)
  {
    var collaborators := [ValidateTypeMapping(m), CreateInjectionMembers(m),
                          CreateLifetimeManager(m), GetRegistrationName(m)];
    var registration := [RegisterCallFor(col, m)];
    var extension := if install then [AddExtensionCall] else [];
    Linq.CountAppend(collaborators, registration + extension, IsRegisterType);
    Linq.CountAppend(collaborators, registration + extension, IsAddExtension);
    Linq.CountAppend(registration, extension, IsRegisterType);
    Linq.CountAppend(registration, extension, IsAddExtension);
    assert Linq.Count(collaborators, IsRegisterType) == 0;
    assert Linq.Count(collaborators, IsAddExtension) == 0;
  }

  /** The handler's state after a prefix of the mappings. */
  datatype Step = Step(container: Container, trace: seq<Call>, installed: bool, failure: Option<ValidationError>)

  /** This accepted mapping is the first of the call to need the extension, so it adds it. */
  predicate InstallsExtension(col: Collaborators, m: TypeMapping, installed: bool)
  {
    NeedsExtension(col, m) && !installed
  }

  /** The container after an accepted mapping is registered and, if it is its turn, the extension added. */
  function AfterAccepted(col: Collaborators, c: Container, m: TypeMapping, installed: bool): (c': Container)
    ensures c'.extensionsAdded == c.extensionsAdded + if InstallsExtension(col, m, installed) then 1 else 0
  {
    var c1 := RegisterType(c, m.from, m.to, col.getRegistrationName(m));
    if InstallsExtension(col, m, installed) then AddExtension(c1) else c1
  }

  /**
   * An accepted mapping adds its key to the container and nothing else: every
   * registration afterwards was there before or is the mapping's, and keys
   * stay unique.
   */
  lemma AfterAcceptedRegisters(col: Collaborators, c: Container, m: TypeMapping, installed: bool)
    ensures var c' := AfterAccepted(col, c, m, installed);
      && Keys(c'.registrations) == Keys(c.registrations) + {MappingKey(col, m)}
      && (forall x :: x in c'.registrations ==> x in c.registrations || x == RegistrationFor(col, m))
      && (UniqueKeys(c.registrations) ==> UniqueKeys(c'.registrations))
  {
  }

  /**
   * The loop of `PerformRegistrations` over the mappings left to handle.
   * `installed` records whether this call has already added the extension. A
   * rejected mapping stops the loop: its exception propagates, and the
   * registrations made before it stay in the container.
   */
  function RegisterEach(col: Collaborators, c: Container, ms: seq<TypeMapping>, installed: bool): (r: Step)
    ensures |ms| == 0 ==> r == Step(c, [], installed, None)
    ensures installed ==> r.installed
    ensures |r.trace| > 0 || |ms| == 0
    decreases |ms|
  {
    if |ms| == 0 then Step(c, [], installed, None)
    else
      var m := ms[0];
      match col.validateTypeMapping(m)
      case Some(e) => Step(c, [ValidateTypeMapping(m)], installed, Some(e))
      case None =>
        var rest := RegisterEach(col, AfterAccepted(col, c, m, installed), ms[1..],
                                 installed || NeedsExtension(col, m));
        var calls := MappingCalls(col, m, InstallsExtension(col, m, installed));
        Step(rest.container, calls + rest.trace, rest.installed, rest.failure)
  }

  /**
   * The loop fails exactly when some mapping is rejected, and then with the
   * exception for the first rejected mapping, which is the last call it makes.
   */
  lemma {:induction false} RegisterEachStopsAtFirstRejection(col: Collaborators, c: Container, ms: seq<TypeMapping>, installed: bool)
    ensures var r := RegisterEach(col, c, ms, installed);
      && (r.failure.None? <==> Linq.FirstIndex(ms, Rejected(col)).None?)
      && (r.failure.Some? ==>
            var k := Linq.FirstIndex(ms, Rejected(col)).value;
            && r.failure == col.validateTypeMapping(ms[k])
            && r.trace[|r.trace| - 1] == ValidateTypeMapping(ms[k]))
    decreases |ms|
  {
    if |ms| > 0 {
      var m := ms[0];
      var tail := ms[1..];
      var r := RegisterEach(col, c, ms, installed);
      match col.validateTypeMapping(m)
      case Some(e) =>
        assert r == Step(c, [ValidateTypeMapping(m)], installed, Some(e));
        assert Linq.FirstIndex(ms, Rejected(col)) == Some(0);
      case None =>
        var installed' := installed || NeedsExtension(col, m);
        var c' := AfterAccepted(col, c, m, installed);
        var rest := RegisterEach(col, c', tail, installed');
        var calls := MappingCalls(col, m, InstallsExtension(col, m, installed));
        assert r == Step(rest.container, calls + rest.trace, rest.installed, rest.failure);
        RegisterEachStopsAtFirstRejection(col, c', tail, installed');
        assert !Rejected(col)(m);
        match Linq.FirstIndex(tail, Rejected(col))
        case None =>
          assert Linq.FirstIndex(ms, Rejected(col)) == None;
        case Some(k) =>
          assert Linq.FirstIndex(ms, Rejected(col)) == Some(k + 1);
          assert ms[k + 1] == tail[k];
          assert (calls + rest.trace)[|calls + rest.trace| - 1] == rest.trace[|rest.trace| - 1];
    }
  }

  /**
   * The loop makes one `RegisterType` call per mapping before the first
   * rejected one, and one per mapping when none is rejected.
   */
  lemma {:induction false} RegisterEachRegistersUpToRejection(col: Collaborators, c: Container, ms: seq<TypeMapping>, installed: bool)
    ensures Linq.Count(RegisterEach(col, c, ms, installed).trace, IsRegisterType) ==
              match Linq.FirstIndex(ms, Rejected(col))
              case Some(k) => k
              case None => |ms|
    decreases |ms|
  {
    if |ms| > 0 {
      var m := ms[0];
      var tail := ms[1..];
      RegisterOneMore(col, c, ms, installed);
      if col.validateTypeMapping(m).None? {
        var installed' := installed || NeedsExtension(col, m);
        var c' := AfterAccepted(col, c, m, installed);
        RegisterEachRegistersUpToRejection(col, c', tail, installed');
      }
    }
  }

  /**
   * One turn of the loop: a rejected first mapping ends it with nothing
   * registered; an accepted one is registered, with the extension if it is its
   * turn, before the loop goes on with the rest in the container that results.
   */
  lemma RegisterOneMore(col: Collaborators, c: Container, ms: seq<TypeMapping>, installed: bool)
    requires |ms| > 0
    ensures var m := ms[0];
      var r := RegisterEach(col, c, ms, installed);
      var rest := RegisterEach(col, AfterAccepted(col, c, m, installed), ms[1..], installed || NeedsExtension(col, m));
      if col.validateTypeMapping(m).Some? then
        && r.container == c && r.installed == installed
        && Linq.Count(r.trace, IsRegisterType) == 0
        && Linq.Count(r.trace, IsAddExtension) == 0
      else
        && r.container == rest.container && r.installed == rest.installed && r.failure == rest.failure
        && Linq.Count(r.trace, IsRegisterType) == 1 + Linq.Count(rest.trace, IsRegisterType)
        && Linq.Count(r.trace, IsAddExtension) ==
             (if InstallsExtension(col, m, installed) then 1 else 0) + Linq.Count(rest.trace, IsAddExtension)
  {
    var m := ms[0];
    if col.validateTypeMapping(m).Some? {
      assert Linq.Count([ValidateTypeMapping(m)], IsRegisterType) == 0;
      assert Linq.Count([ValidateTypeMapping(m)], IsAddExtension) == 0;
    } else {
      var rest := RegisterEach(col, AfterAccepted(col, c, m, installed), ms[1..], installed || NeedsExtension(col, m));
      var calls := MappingCalls(col, m, InstallsExtension(col, m, installed));
      MappingCallsCover(col, m, InstallsExtension(col, m, installed));
      Linq.CountAppend(calls, rest.trace, IsRegisterType);
      Linq.CountAppend(calls, rest.trace, IsAddExtension);
    }
  }

  /**
   * Every mapping before the first rejected one was put to all four
   * collaborators and registered with their answers.
   */
  lemma {:induction false} RegisterEachHandlesAcceptedPrefix(col: Collaborators, c: Container, ms: seq<TypeMapping>, installed: bool)
    ensures var r := RegisterEach(col, c, ms, installed);
      forall i :: 0 <= i < AcceptedPrefix(col, ms) ==> FullyHandled(col, r.trace, ms[i])
    decreases |ms|
  {
    if |ms| > 0 && col.validateTypeMapping(ms[0]).None? {
      var m := ms[0];
      var tail := ms[1..];
      var installed' := installed || NeedsExtension(col, m);
      var c' := AfterAccepted(col, c, m, installed);
      var rest := RegisterEach(col, c', tail, installed');
      var calls := MappingCalls(col, m, InstallsExtension(col, m, installed));
      assert RegisterEach(col, c, ms, installed).trace == calls + rest.trace;
      RegisterEachHandlesAcceptedPrefix(col, c', tail, installed');
      MappingCallsCover(col, m, InstallsExtension(col, m, installed));
      AcceptedPrefixStep(col, ms);
      forall i | 0 <= i < AcceptedPrefix(col, ms) ensures FullyHandled(col, calls + rest.trace, ms[i]) {
        if i > 0 {
          assert ms[i] == tail[i - 1];
        }
        FullyHandledAppend(col, calls, rest.trace, ms[i]);
      }
    }
  }

  /**
   * The extension is added at most once per call: exactly when no earlier
   * mapping of the call added it and a mapping handled now yields injection
   * members. The container's extension count grows by the number of
   * `AddExtension` calls.
   */
  lemma {:induction false} RegisterEachAddsExtensionOnce(col: Collaborators, c: Container, ms: seq<TypeMapping>, installed: bool)
    ensures var r := RegisterEach(col, c, ms, installed);
      && Linq.Count(r.trace, IsAddExtension) == (if r.installed && !installed then 1 else 0)
      && r.container.extensionsAdded == c.extensionsAdded + Linq.Count(r.trace, IsAddExtension)
    decreases |ms|
  {
    if |ms| > 0 {
      var m := ms[0];
      RegisterOneMore(col, c, ms, installed);
      if col.validateTypeMapping(m).None? {
        RegisterEachAddsExtensionOnce(col, AfterAccepted(col, c, m, installed), ms[1..], installed || NeedsExtension(col, m));
      }
    }
  }

  /** Without a rejection, the extension is installed by the end exactly when it was before or some mapping yields injection members. */
  lemma {:induction false} RegisterEachInstallsWhenNeeded(col: Collaborators, c: Container, ms: seq<TypeMapping>, installed: bool)
    ensures var r := RegisterEach(col, c, ms, installed);
      r.failure.None? ==> (r.installed <==> installed || exists i :: 0 <= i < |ms| && NeedsExtension(col, ms[i]))
    decreases |ms|
  {
    if |ms| > 0 && col.validateTypeMapping(ms[0]).None? {
      var m := ms[0];
      var tail := ms[1..];
      RegisterOneMore(col, c, ms, installed);
      RegisterEachInstallsWhenNeeded(col, AfterAccepted(col, c, m, installed), tail, installed || NeedsExtension(col, m));
      if exists i :: 0 <= i < |tail| && NeedsExtension(col, tail[i]) {
        var i :| 0 <= i < |tail| && NeedsExtension(col, tail[i]);
        assert ms[i + 1] == tail[i];
      }
      if exists i :: 0 <= i < |ms| && NeedsExtension(col, ms[i]) {
        var i :| 0 <= i < |ms| && NeedsExtension(col, ms[i]);
        if i > 0 { assert tail[i - 1] == ms[i]; }
      }
    }
  }

  /**
   * Registration keeps every key the container had and adds exactly the keys
   * of the mappings before the first rejected one.
   */
  lemma {:induction false} RegisterEachKeys(col: Collaborators, c: Container, ms: seq<TypeMapping>, installed: bool)
    ensures Keys(RegisterEach(col, c, ms, installed).container.registrations) ==
              Keys(c.registrations) + MappingKeys(col, ms[..AcceptedPrefix(col, ms)])
    decreases |ms|
  {
    if |ms| > 0 && col.validateTypeMapping(ms[0]).None? {
      var m := ms[0];
      var tail := ms[1..];
      var installed' := installed || NeedsExtension(col, m);
      var c' := AfterAccepted(col, c, m, installed);
      var rest := RegisterEach(col, c', tail, installed');
      var calls := MappingCalls(col, m, InstallsExtension(col, m, installed));
      assert RegisterEach(col, c, ms, installed).container == rest.container;
      RegisterEachKeys(col, c', tail, installed');
      AfterAcceptedRegisters(col, c, m, installed);
      AcceptedPrefixStep(col, ms);
      MappingKeysPrefixCons(col, ms, AcceptedPrefix(col, tail));
    } else {
      assert MappingKeys(col, ms[..0]) == {};
    }
  }

  /** The keys of the first `n + 1` mappings are the first mapping's and those of the next `n`. */
  lemma MappingKeysPrefixCons(col: Collaborators, ms: seq<TypeMapping>, n: nat)
    requires n < |ms|
    ensures MappingKeys(col, ms[..n + 1]) == {MappingKey(col, ms[0])} + MappingKeys(col, ms[1..][..n])
  {
    assert ms[..n + 1] == [ms[0]] + ms[1..][..n];
  }

  /**
   * Every registration the container holds afterwards was there before or is
   * the registration of a mapping before the first rejected one.
   */
  lemma {:induction false} RegisterEachProvenance(col: Collaborators, c: Container, ms: seq<TypeMapping>, installed: bool)
    ensures var r := RegisterEach(col, c, ms, installed);
      forall x :: x in r.container.registrations ==>
        x in c.registrations || exists i :: 0 <= i < AcceptedPrefix(col, ms) && x == RegistrationFor(col, ms[i])
    decreases |ms|
  {
    if |ms| > 0 && col.validateTypeMapping(ms[0]).None? {
      var m := ms[0];
      var tail := ms[1..];
      var installed' := installed || NeedsExtension(col, m);
      var c' := AfterAccepted(col, c, m, installed);
      var rest := RegisterEach(col, c', tail, installed');
      assert RegisterEach(col, c, ms, installed).container == rest.container;
      RegisterEachProvenance(col, c', tail, installed');
      AfterAcceptedRegisters(col, c, m, installed);
      AcceptedPrefixStep(col, ms);
      forall x | x in rest.container.registrations
        ensures x in c.registrations || exists i :: 0 <= i < AcceptedPrefix(col, ms) && x == RegistrationFor(col, ms[i])
      {
        if x !in c'.registrations {
          var i :| 0 <= i < AcceptedPrefix(col, tail) && x == RegistrationFor(col, tail[i]);
          assert x == RegistrationFor(col, ms[i + 1]);
        } else if x !in c.registrations {
          assert x == RegistrationFor(col, ms[0]);
        }
      }
    }
  }

  /** A container without duplicate keys gets none from registration: re-registering replaces. */
  lemma {:induction false} RegisterEachKeepsKeysUnique(col: Collaborators, c: Container, ms: seq<TypeMapping>, installed: bool)
    ensures UniqueKeys(c.registrations) ==> UniqueKeys(RegisterEach(col, c, ms, installed).container.registrations)
    decreases |ms|
  {
    if |ms| > 0 && col.validateTypeMapping(ms[0]).None? {
      var m := ms[0];
      var installed' := installed || NeedsExtension(col, m);
      var c' := AfterAccepted(col, c, m, installed);
      RegisterEachKeepsKeysUnique(col, c', ms[1..], installed');
      AfterAcceptedRegisters(col, c, m, installed);
    }
  }

  /** What `PerformRegistrations` leaves behind: the container, the calls made, and its return value or exception. */
  datatype Run = Run(container: Container, trace: seq<Call>, result: Result<seq<ContainerRegistration>, ValidationError>)

  /**
   * `PerformRegistrations(target, typeMappings)`: attach a registration
   * tracker, handle every mapping, and return the tracker's new registrations.
   * An empty batch makes no call at all; a rejected mapping propagates its
   * exception after the mappings before it were registered.
   */
  function PerformRegistrations(col: Collaborators, target: Container, ms: seq<TypeMapping>): (r: Run)
    ensures |ms| == 0 ==> r.trace == [] && r.container == target && r.result == Success([])
    ensures r.result.Success? <==> forall i :: 0 <= i < |ms| ==> col.validateTypeMapping(ms[i]).None?
    ensures r.result.Failure? ==>
              exists k :: 0 <= k < |ms|
                && col.validateTypeMapping(ms[k]) == Some(r.result.error)
                && (forall j :: 0 <= j < k ==> col.validateTypeMapping(ms[j]).None?)
                && Linq.Count(r.trace, IsRegisterType) == k
    ensures r.result.Success? ==> Linq.Count(r.trace, IsRegisterType) == |ms|
    ensures Linq.Count(r.trace, IsAddExtension) <= 1
    ensures r.container.extensionsAdded == target.extensionsAdded + Linq.Count(r.trace, IsAddExtension)
  {
    var s := RegisterEach(col, target, ms, false);
    RegisterEachStopsAtFirstRejection(col, target, ms, false);
    RegisterEachRegistersUpToRejection(col, target, ms, false);
    RegisterEachAddsExtensionOnce(col, target, ms, false);
    match s.failure
    case Some(e) =>
      var k := Linq.FirstIndex(ms, Rejected(col)).value;
      assert col.validateTypeMapping(ms[k]) == Some(e);
      Run(s.container, s.trace, Failure(e))
    case None =>
      Run(s.container, s.trace, Success(Tracking.GetNewRegistrations(Tracking.StartTracking(target), s.container)))
  }

  /**
   * Every mapping of a batch that succeeds was passed to the validator and to
   * the three factories, and registered with exactly what they produced.
   */
  lemma EveryMappingIsHandled(col: Collaborators, target: Container, ms: seq<TypeMapping>)
    ensures var r := PerformRegistrations(col, target, ms);
      r.result.Success? ==> forall i :: 0 <= i < |ms| ==> FullyHandled(col, r.trace, ms[i])
  {
    RegisterEachHandlesAcceptedPrefix(col, target, ms, false);
  }

  /** A successful batch leaves the container with its earlier keys plus exactly the mappings' keys. */
  lemma SuccessRegistersEveryKey(col: Collaborators, target: Container, ms: seq<TypeMapping>)
    ensures var r := PerformRegistrations(col, target, ms);
      r.result.Success? ==> Keys(r.container.registrations) == Keys(target.registrations) + MappingKeys(col, ms)
  {
    RegisterEachKeys(col, target, ms, false);
    if PerformRegistrations(col, target, ms).result.Success? {
      assert AcceptedPrefix(col, ms) == |ms|;
      assert ms[..|ms|] == ms;
    }
  }

  /**
   * A batch that fails on a rejected mapping leaves behind exactly what the
   * mappings before it did: each of them was put to every collaborator and
   * registered, and the container holds its earlier keys plus theirs.
   */
  lemma RejectionKeepsEarlierRegistrations(col: Collaborators, target: Container, ms: seq<TypeMapping>)
    ensures var r := PerformRegistrations(col, target, ms);
      var k := AcceptedPrefix(col, ms);
      r.result.Failure? ==>
        && k < |ms|
        && col.validateTypeMapping(ms[k]) == Some(r.result.error)
        && Keys(r.container.registrations) == Keys(target.registrations) + MappingKeys(col, ms[..k])
        && (forall i :: 0 <= i < k ==> FullyHandled(col, r.trace, ms[i]))
  {
    RegisterEachKeys(col, target, ms, false);
    RegisterEachHandlesAcceptedPrefix(col, target, ms, false);
  }

  /**
   * In a batch that succeeds the extension is added exactly once if some
   * mapping yields injection members, and never otherwise.
   */
  lemma ExtensionAddedOnceIffMembers(col: Collaborators, target: Container, ms: seq<TypeMapping>)
    ensures var r := PerformRegistrations(col, target, ms);
      r.result.Success? ==>
        (Linq.Count(r.trace, IsAddExtension) == 1 <==> exists i :: 0 <= i < |ms| && NeedsExtension(col, ms[i]))
  {
    RegisterEachAddsExtensionOnce(col, target, ms, false);
    RegisterEachInstallsWhenNeeded(col, target, ms, false);
  }

  /**
   * The registrations a successful batch returns are the mappings' keys that
   * the container did not hold before, each once, each a registration the
   * container now holds and that one of the mappings produced.
   */
  lemma ReturnsOnlyNewRegistrations(col: Collaborators, target: Container, ms: seq<TypeMapping>)
    ensures var r := PerformRegistrations(col, target, ms);
      r.result.Success? ==>
        && Keys(r.result.value) == MappingKeys(col, ms) - Keys(target.registrations)
        && (forall x :: x in r.result.value ==>
              x in r.container.registrations && exists i :: 0 <= i < |ms| && x == RegistrationFor(col, ms[i]))
        && (forall i, j :: 0 <= i < j < |r.result.value| ==> Key(r.result.value[i]) != Key(r.result.value[j]))
  {
    var s := RegisterEach(col, target, ms, false);
    if s.failure.None? {
      var news := Tracking.GetNewRegistrations(Tracking.StartTracking(target), s.container);
      assert PerformRegistrations(col, target, ms) == Run(s.container, s.trace, Success(news));
      RegisterEachKeys(col, target, ms, false);
      RegisterEachProvenance(col, target, ms, false);
      assert AcceptedPrefix(col, ms) == |ms|;
      assert ms[..|ms|] == ms;
      forall x | x in news ensures x !in target.registrations {
        assert Tracking.SameRegistration(x, x);
      }
    }
  }

  /** Re-registering replaces, so a container without duplicate keys keeps none. */
  lemma KeepsKeysUnique(col: Collaborators, target: Container, ms: seq<TypeMapping>)
    requires UniqueKeys(target.registrations)
    ensures UniqueKeys(PerformRegistrations(col, target, ms).container.registrations)
  {
    RegisterEachKeepsKeysUnique(col, target, ms, false);
  }
}
