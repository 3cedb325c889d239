/**
 * `UnityRegistrationTracker`: a snapshot of a container's registrations taken
 * at construction, and the registrations that have appeared since, computed
 * with `Except` under `ExistingMappingComparer`. The comparer identifies a
 * registration by its requested type and name only; the mapped-to type is
 * deliberately not part of its identity.
 */
module Tracking {
  import opened Types
  import opened Unity
  import Linq

  datatype RegistrationTracker = RegistrationTracker(initialRegistrations: seq<ContainerRegistration>)

  /** `ExistingMappingComparer.Equals`: same requested type and same name. */
  function SameRegistration(x: ContainerRegistration, y: ContainerRegistration): (r: bool)
    ensures r <==> Key(x) == Key(y)
    ensures r ==> HashText(x) == HashText(y)
  {
    x.registeredType == y.registeredType && x.name == y.name
  }

  /**
   * The text `ExistingMappingComparer.GetHashCode` hashes: the requested
   * type's full name followed by the name, a null name formatting as nothing.
   */
  function HashText(r: ContainerRegistration): string
  {
    r.registeredType.fullName + match r.name { case Some(n) => n case None => "" }
  }

  /**
   * `ExistingMappingComparer.GetHashCode`, for a string hash function
   * `stringHash` that is left unspecified: registrations the comparer calls
   * equal hash alike, whatever that function is.
   */
  function HashCode(r: ContainerRegistration, stringHash: string -> int): int
  {
    stringHash(HashText(r))
  }

  /** `GetHashCode` is consistent with `Equals`, as `Except`'s hash set needs. */
  lemma HashConsistentWithEquals(x: ContainerRegistration, y: ContainerRegistration, stringHash: string -> int)
    requires SameRegistration(x, y)
    ensures HashCode(x, stringHash) == HashCode(y, stringHash)
  {
  }

  /** The constructor: a copy of the container's registrations at this moment. */
  function StartTracking(target: Container): (t: RegistrationTracker)
    ensures GetNewRegistrations(t, target) == []
  {
    var t := RegistrationTracker(target.registrations);
    NothingNewWithoutNewKeys(t, target);
    t
  }

  /**
   * `GetNewRegistrations`: the container's current registrations, less those
   * the snapshot already holds under the comparer, without repeats.
   */
  function GetNewRegistrations(t: RegistrationTracker, target: Container): (r: seq<ContainerRegistration>)
    ensures forall x :: x in r ==> x in target.registrations
    ensures forall x, y :: x in r && y in t.initialRegistrations ==> !SameRegistration(x, y)
    ensures forall x :: x in target.registrations && Key(x) !in Keys(t.initialRegistrations) ==>
              exists z :: z in r && SameRegistration(z, x)
    ensures forall i, j :: 0 <= i < j < |r| ==> !SameRegistration(r[i], r[j])
    ensures Keys(r) == Keys(target.registrations) - Keys(t.initialRegistrations)
  {
    var r := Linq.ExceptBy(target.registrations, t.initialRegistrations, Key);
    forall x, y | x in r && y in t.initialRegistrations ensures !SameRegistration(x, y) {
      assert Key(x) in Keys(r);
      assert Key(y) in Keys(t.initialRegistrations);
    }
    forall x | x in target.registrations && Key(x) !in Keys(t.initialRegistrations)
      ensures exists z :: z in r && SameRegistration(z, x)
    {
      assert Key(x) in Keys(target.registrations);
      assert Key(x) in Keys(r);
    }
    r
  }

  /**
   * A container whose keys all occur in the snapshot has nothing new, however
   * the registrations behind those keys were retargeted or reordered.
   */
  lemma {:induction false} NothingNewWithoutNewKeys(t: RegistrationTracker, target: Container)
    requires Keys(target.registrations) <= Keys(t.initialRegistrations)
    ensures GetNewRegistrations(t, target) == []
  {
    var r := GetNewRegistrations(t, target);
    if |r| > 0 {
      Linq.NonEmptyCoversKey(r, Key);
    }
  }

  /**
   * Re-registering an existing requested type and name onto a different
   * mapped-to type is not a new registration.
   */
  lemma RetargetIsNotNew(c: Container, from: TypeHandle, to: TypeHandle, name: Name)
    requires (from, name) in Keys(c.registrations)
    ensures GetNewRegistrations(StartTracking(c), RegisterType(c, from, to, name)) == []
  {
    NothingNewWithoutNewKeys(StartTracking(c), RegisterType(c, from, to, name));
  }

  /**
   * The snapshot is a copy: later registrations change the container the
   * tracker is asked about, never the baseline it compares against.
   */
  lemma SnapshotIsACopy(c: Container, from: TypeHandle, to: TypeHandle, name: Name)
    requires (from, name) !in Keys(c.registrations)
    ensures GetNewRegistrations(StartTracking(c), RegisterType(c, from, to, name))
              == [ContainerRegistration(from, to, name)]
  {
    var r := GetNewRegistrations(StartTracking(c), RegisterType(c, from, to, name));
    assert forall x :: x in c.registrations ==> Key(x) in Keys(c.registrations);
    assert Keys(r) == {(from, name)};
    Linq.SingleKeyIsSingleton(r, Key, ContainerRegistration(from, to, name));
  }
}
