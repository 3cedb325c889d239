/**
 * The slice of a Unity container that the automapper drives: its table of
 * registrations, `RegisterType`, and `AddExtension`. Lifetime managers and
 * injection members are opaque tokens; the container does not interpret them
 * here, it only receives them.
 */
module Unity {
  import opened Wrappers
  import opened Types
  import Linq

  /** A registration name; `None` is the default (null-named) registration. */
  type Name = Option<string>

  /** An opaque `LifetimeManager` instance. */
  datatype LifetimeManager = LifetimeManager(id: nat)

  /** An opaque `InjectionMember` instance, such as an interception behaviour. */
  datatype InjectionMember = InjectionMember(id: nat)

  /** `ContainerRegistration`, as enumerated by `IUnityContainer.Registrations`. */
  datatype ContainerRegistration = ContainerRegistration(registeredType: TypeHandle, mappedToType: TypeHandle, name: Name)

  /** The identity of a registration inside a container: requested type and name. */
  type RegistrationKey = (TypeHandle, Name)

  function Key(r: ContainerRegistration): RegistrationKey
  {
    (r.registeredType, r.name)
  }

  /** The keys a list of registrations covers. */
  function Keys(regs: seq<ContainerRegistration>): set<RegistrationKey>
  {
    Linq.KeySet(regs, Key)
  }

  /**
   * A container: its registration table in enumeration order and the number of
   * extensions that have been added to it.
   */
  datatype Container = Container(registrations: seq<ContainerRegistration>, extensionsAdded: nat)

  /** No two registrations of a container share a key. */
  predicate UniqueKeys(regs: seq<ContainerRegistration>)
  {
    forall i, j :: 0 <= i < j < |regs| ==> Key(regs[i]) != Key(regs[j])
  }

  /**
   * `IUnityContainer.RegisterType(from, to, name, lifetime, members)`: a second
   * registration under the same requested type and name replaces the first in
   * place; a new key is appended to the table.
   */
  function RegisterType(c: Container, from: TypeHandle, to: TypeHandle, name: Name): (r: Container)
    ensures Keys(r.registrations) == Keys(c.registrations) + {(from, name)}
    ensures ContainerRegistration(from, to, name) in r.registrations
    ensures forall x :: x in r.registrations ==> x in c.registrations || x == ContainerRegistration(from, to, name)
    ensures forall x :: x in c.registrations && Key(x) != (from, name) ==> x in r.registrations
    ensures (from, name) !in Keys(c.registrations) ==>
              r.registrations == c.registrations + [ContainerRegistration(from, to, name)]
    ensures UniqueKeys(c.registrations) ==> UniqueKeys(r.registrations)
    ensures |r.registrations| >= |c.registrations|
    ensures r.extensionsAdded == c.extensionsAdded
  {
    var reg := ContainerRegistration(from, to, name);
    match Linq.FirstIndex(c.registrations, (x: ContainerRegistration) => Key(x) == (from, name))
    case Some(i) => c.(registrations := ReplaceAt(c.registrations, i, reg))
    case None =>
      assert (from, name) !in Keys(c.registrations);
      c.(registrations := Append(c.registrations, reg))
  }

  /** The table with entry `i`, which has `reg`'s key, overwritten by `reg`. */
  function ReplaceAt(regs: seq<ContainerRegistration>, i: nat, reg: ContainerRegistration): (r: seq<ContainerRegistration>)
    requires i < |regs| && Key(regs[i]) == Key(reg)
    ensures Keys(r) == Keys(regs)
    ensures reg in r
    ensures forall x :: x in r ==> x in regs || x == reg
    ensures forall x :: x in regs && Key(x) != Key(reg) ==> x in r
    ensures UniqueKeys(regs) ==> UniqueKeys(r)
    ensures |r| == |regs|
  {
    var r := regs[i := reg];
    assert forall j :: 0 <= j < |r| ==> Key(r[j]) == Key(regs[j]);
    assert Keys(r) == Keys(regs) by {
      forall k | k in Keys(regs) ensures k in Keys(r) {
        var x :| x in regs && Key(x) == k;
        var j :| 0 <= j < |regs| && regs[j] == x;
        assert Key(r[j]) == k;
      }
    }
    assert forall x :: x in r ==> x in regs || x == reg by {
      forall x | x in r ensures x in regs || x == reg {
        var j :| 0 <= j < |r| && r[j] == x;
        if j != i { assert regs[j] == x; }
      }
    }
    assert forall x :: x in regs && Key(x) != Key(reg) ==> x in r by {
      forall x | x in regs && Key(x) != Key(reg) ensures x in r {
        var j :| 0 <= j < |regs| && regs[j] == x;
        assert r[j] == x;
      }
    }
    r
  }

  /** The table with `reg`, whose key it does not cover, added at the end. */
  function Append(regs: seq<ContainerRegistration>, reg: ContainerRegistration): (r: seq<ContainerRegistration>)
    requires Key(reg) !in Keys(regs)
    ensures Keys(r) == Keys(regs) + {Key(reg)}
    ensures UniqueKeys(regs) ==> UniqueKeys(r)
    ensures r == regs + [reg]
  {
    var r := regs + [reg];
    assert Keys(r) == Keys(regs) + {Key(reg)} by {
      forall k | k in Keys(r) ensures k in Keys(regs) + {Key(reg)} {
        var x :| x in r && Key(x) == k;
        var j :| 0 <= j < |r| && r[j] == x;
        if j < |regs| { assert x in regs; }
      }
      assert Key(r[|regs|]) == Key(reg);
    }
    assert forall j :: 0 <= j < |regs| ==> Key(r[j]) in Keys(regs);
    r
  }

  /** `IUnityContainer.AddExtension(extension)`. */
  function AddExtension(c: Container): (r: Container)
    ensures r.registrations == c.registrations
    ensures r.extensionsAdded == c.extensionsAdded + 1
  {
    c.(extensionsAdded := c.extensionsAdded + 1)
  }
}
