/**
 * The adapter's connection registry: the `connections` object maps a
 * connection identity to `{collections: {...}}`, the collection definitions
 * recorded for that connection. `registerConnection`, `teardown` and `define`
 * change it in place; callbacks become return values.
 */
module ConnectionRegistry {

  datatype Option<T> = None | Some(value: T)

  /** One registry entry, `{collections: {...}}`. */
  datatype Connection<Def> = Connection(collections: map<string, Def>)

  /** The two errors `registerConnection` reports through its callback. */
  datatype RegistryError = MissingIdentity | AlreadyRegistered

  datatype Outcome = Pass | Fail(error: RegistryError)

  type Connections<Def> = map<string, Connection<Def>>

  /** JavaScript truthiness of an identity: absent and `''` are falsy. */
  predicate Truthy(identity: Option<string>)
  {
    identity.Some? && identity.value != ""
  }

  /** The effect of `registerConnection` on the registry, and what it reports. */
  function Register<Def>(conns: Connections<Def>, identity: Option<string>): (res: (Outcome, Connections<Def>))
    ensures res.0 == Fail(MissingIdentity) <==> !Truthy(identity)
    ensures res.0 == Fail(AlreadyRegistered) <==> Truthy(identity) && identity.value in conns
    ensures res.0.Fail? ==> res.1 == conns
    ensures res.0.Pass? ==>
      && res.1.Keys == conns.Keys + {identity.value}
      && identity.value !in conns
      && res.1[identity.value] == Connection(map[])
      && forall id :: id in conns ==> res.1[id] == conns[id]
  {
    if !Truthy(identity) then (Fail(MissingIdentity), conns)
    else if identity.value in conns then (Fail(AlreadyRegistered), conns)
    else (Pass, conns[identity.value := Connection(map[])])
  }

  /** The effect of `teardown`: clear all, do nothing, or drop one entry. It never fails. */
  function Teardown<Def>(conns: Connections<Def>, identity: Option<string>): (r: Connections<Def>)
    ensures !Truthy(identity) ==> r == map[]
    ensures Truthy(identity) && identity.value !in conns ==> r == conns
    ensures Truthy(identity) ==>
      && (forall id :: id in r <==> id in conns && id != identity.value)
      && forall id :: id in r ==> r[id] == conns[id]
  {
    if !Truthy(identity) then map[]
    else if identity.value !in conns then conns
    else conns - {identity.value}
  }

  /**
   * The effect of `define`: the named collection of a registered connection
   * now maps to `definition`; every other collection and connection is as before.
   */
  function Define<Def>(conns: Connections<Def>, identity: string, collection: string, definition: Def): (r: Connections<Def>)
    requires identity in conns
    ensures r.Keys == conns.Keys
    ensures forall id :: id in conns && id != identity ==> r[id] == conns[id]
    ensures collection in r[identity].collections && r[identity].collections[collection] == definition
    ensures forall c :: c != collection ==>
      (c in r[identity].collections <==> c in conns[identity].collections) &&
      (c in conns[identity].collections ==> r[identity].collections[c] == conns[identity].collections[c])
  {
    conns[identity := Connection(conns[identity].collections[collection := definition])]
  }

  /** Every registered identity is truthy: no entry is ever stored under `''`. */
  predicate NoFalsyIdentity<Def>(conns: Connections<Def>)
  {
    forall id :: id in conns ==> Truthy(Some(id))
  }

  /** The three operations keep every identity truthy. */
  lemma OperationsKeepIdentitiesTruthy<Def>(conns: Connections<Def>, identity: Option<string>, name: string, collection: string, definition: Def)
    requires NoFalsyIdentity(conns)
    ensures NoFalsyIdentity(Register(conns, identity).1)
    ensures NoFalsyIdentity(Teardown(conns, identity))
    ensures name in conns ==> NoFalsyIdentity(Define(conns, name, collection, definition))
  {
  }

  /** Registering an identity a second time fails and changes nothing. */
  lemma RegisterTwiceFails<Def>(conns: Connections<Def>, identity: Option<string>)
    requires Register(conns, identity).0.Pass?
    ensures Register(Register(conns, identity).1, identity) == (Fail(AlreadyRegistered), Register(conns, identity).1)
  {
  }

  /** Tearing down a connection just registered gives back the registry as it was. */
  lemma TeardownUndoesRegister<Def>(conns: Connections<Def>, identity: Option<string>)
    requires Register(conns, identity).0.Pass?
    ensures Teardown(Register(conns, identity).1, identity) == conns
  {
    var after := Register(conns, identity).1;
    assert Teardown(after, identity) == after - {identity.value};
  }

  /** After a teardown the identity is unknown, so `define` may no longer name it. */
  lemma TeardownForgets<Def>(conns: Connections<Def>, identity: Option<string>)
    ensures identity.Some? ==> identity.value !in Teardown(conns, identity)
  {
  }

  /** Tearing down twice is the same as tearing down once. */
  lemma TeardownIdempotent<Def>(conns: Connections<Def>, identity: Option<string>)
    ensures Teardown(Teardown(conns, identity), identity) == Teardown(conns, identity)
  {
  }

  /** A later `define` of the same collection overwrites the earlier one. */
  lemma DefineOverwrites<Def>(conns: Connections<Def>, identity: string, collection: string, d1: Def, d2: Def)
    requires identity in conns
    ensures Define(Define(conns, identity, collection, d1), identity, collection, d2) == Define(conns, identity, collection, d2)
  {
    var cs := conns[identity].collections;
    assert cs[collection := d1][collection := d2] == cs[collection := d2];
  }

  /** The `connections` field of the adapter object and the methods that change it. */
  class Registry<Def> {
    var connections: Connections<Def>

    /**
     * The invariant the code keeps: every registered identity is truthy. No
     * method needs it; each method preserves it.
     */
    ghost predicate Valid()
      reads this
    {
      NoFalsyIdentity(connections)
    }

    /** The adapter starts with `connections: {}`. */
    constructor ()
      ensures Valid() && connections == map[]
    {
      connections := map[];
    }

    /** `registerConnection(connection, collections, cb)`; the unused `collections` argument is dropped. */
    method RegisterConnection(identity: Option<string>) returns (outcome: Outcome)
      requires Valid()
      modifies this
      ensures Valid()
      ensures (outcome, connections) == Register(old(connections), identity)
    {
      if !Truthy(identity) {
        return Fail(MissingIdentity);
      }
      if identity.value in connections {
        return Fail(AlreadyRegistered);
      }
      connections := connections[identity.value := Connection(map[])];
      outcome := Pass;
    }

    /** `teardown(conn, cb)`, with `conn` absent when the first argument was the callback. */
    method TeardownConnection(identity: Option<string>)
      requires Valid()
      modifies this
      ensures Valid()
      ensures connections == Teardown(old(connections), identity)
    {
      if !Truthy(identity) {
        connections := map[];
        return;
      }
      if identity.value !in connections {
        return;
      }
      connections := connections - {identity.value};
    }

    /** `define(connection, collection, definition, cb)` on a registered connection. */
    method DefineCollection(identity: string, collection: string, definition: Def)
      requires Valid()
      requires identity in connections
      modifies this
      ensures Valid()
      ensures connections == Define(old(connections), identity, collection, definition)
    {
      var entry := connections[identity];
      connections := connections[identity := Connection(entry.collections[collection := definition])];
    }
  }
}
