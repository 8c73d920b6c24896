/** The Windows server's table of connections: a vector in the order of service and a map
    by identifier, which must agree.

    An event handle is a number. `deleted` records the connections that were deleted. */
module ConnectionTable {
  import opened Basics

  type Handle = nat

  class ServerConnection {
    const event: Handle
    var identifier: string

    constructor (event: Handle)
      ensures this.event == event
    {
      this.event := event;
      identifier := "";
    }
  }

  ghost function Events(container: seq<ServerConnection>): (events: seq<Handle>)
    ensures |events| == |container| && forall k :: 0 <= k < |container| ==> events[k] == container[k].event
  {
    seq(|container|, k requires 0 <= k < |container| => container[k].event)
  }

  ghost predicate DistinctEvents(container: seq<ServerConnection>) {
    Distinct(Events(container))
  }

  function RotatedLeft<T>(s: seq<T>): (t: seq<T>)
    ensures |t| == |s|
  {
    if s == [] then [] else s[1..] + [s[0]]
  }

  lemma RotationPermutes<T>(s: seq<T>)
    ensures multiset(RotatedLeft(s)) == multiset(s)
  {
    if s != [] {
      assert s == [s[0]] + s[1..];
    }
  }

  lemma RotatedTable(container: seq<ServerConnection>)
    requires DistinctEvents(container)
    ensures var rotated := RotatedLeft(container);
            && DistinctEvents(rotated) && (forall c :: c in rotated <==> c in container)
            && Events(rotated) == RotatedLeft(Events(container))
            && multiset(Events(rotated)) == multiset(Events(container))
  {
    var rotated := RotatedLeft(container);
    RotationPermutes(Events(container));
    assert Events(rotated) == RotatedLeft(Events(container));
    assert forall k :: 0 <= k < |container| ==> container[k] == rotated[if k > 0 then k - 1 else |container| - 1];
  }

  /** The connections that stay when the one with that event goes. */
  ghost function WithoutEvent(container: seq<ServerConnection>, handle: Handle): seq<ServerConnection> {
    if container == [] then []
    else if container[0].event == handle then container[1..]
    else [container[0]] + WithoutEvent(container[1..], handle)
  }

  ghost function WithEvent(container: seq<ServerConnection>, handle: Handle): set<ServerConnection> {
    set c | c in container && c.event == handle
  }

  lemma {:induction false} WithoutEventAt(container: seq<ServerConnection>, handle: Handle, k: nat)
    requires k <= |container| && forall j :: 0 <= j < k ==> container[j].event != handle
    requires k < |container| ==> container[k].event == handle
    ensures WithoutEvent(container, handle)
            == if k < |container| then container[..k] + container[k + 1..] else container
  {
    if k > 0 {
      WithoutEventAt(container[1..], handle, k - 1);
    }
  }

  lemma WithEventAt(container: seq<ServerConnection>, handle: Handle, k: nat)
    requires DistinctEvents(container) && k <= |container|
    requires forall j :: 0 <= j < k ==> container[j].event != handle
    requires k < |container| ==> container[k].event == handle
    ensures WithEvent(container, handle) == if k < |container| then {container[k]} else {}
  {
  }

  ghost function Members(container: seq<ServerConnection>): set<ServerConnection> {
    set c | c in container
  }

  lemma MembersOfPrefix(container: seq<ServerConnection>, k: nat)
    requires k < |container|
    ensures Members(container[..k + 1]) == Members(container[..k]) + {container[k]}
  {
    assert container[..k + 1] == container[..k] + [container[k]];
  }

  lemma RemovedMembers(container: seq<ServerConnection>, k: nat)
    requires DistinctEvents(container) && k < |container|
    ensures var after := container[..k] + container[k + 1..];
            && DistinctEvents(after)
            && forall d :: d in after <==> d in container && d != container[k]
  {
    var after := container[..k] + container[k + 1..];
    assert container == container[..k] + ([container[k]] + container[k + 1..]);
    assert forall j :: 0 <= j < |after| ==> after[j] == container[if j < k then j else j + 1];
  }

  class Connections {
    var container: seq<ServerConnection>
    var mapping: map<string, ServerConnection>
    ghost var deleted: set<ServerConnection>

    /** The vector and the map hold the same connections, each under its own identifier,
        with distinct events; none of them has been deleted. */
    ghost predicate Valid()
      reads this, container
    {
      && DistinctEvents(container)
      && (forall c :: c in container ==> c.identifier in mapping && mapping[c.identifier] == c)
      && (forall id :: id in mapping ==> mapping[id] in container && mapping[id].identifier == id)
      && (forall c :: c in container ==> c !in deleted)
    }

    constructor ()
      ensures Valid() && container == [] && deleted == {}
    {
      container, mapping, deleted := [], map[], {};
    }

    /** Neither the identifier nor the event is in use, and the client was not deleted. */
    ghost predicate CanJoin(client: ServerConnection, identifier: string)
      reads this
    {
      identifier !in mapping && client !in deleted && forall c :: c in container ==> c.event != client.event
    }

    /** The source does not look whether the client can join; if it cannot, the two indexes no
        longer agree. */
    method AddServerConnection(client: ServerConnection, identifier: string)
      requires Valid()
      modifies this`container, this`mapping, client`identifier
      ensures container == old(container) + [client]
      ensures mapping == old(mapping)[identifier := client] && client.identifier == identifier
      ensures Valid() <==> old(CanJoin(client, identifier))
    {
      ghost var before, n, canJoin := container, |container|, CanJoin(client, identifier);
      ghost var clash := identifier in mapping && mapping[identifier] != client;
      client.identifier := identifier;
      mapping := mapping[identifier := client];
      container := container + [client];
      assert container[n] == client && client in container;
      if !canJoin && client !in deleted && !clash {
        ghost var c :| c in before && c.event == client.event;
        ghost var k :| 0 <= k < n && before[k] == c;
        assert container[k].event == container[n].event;
      }
    }

    /** The place of the connection with that event; the size when there is none. */
    method FindByEvent(handle: Handle) returns (k: nat)
      ensures k <= |container| && (k < |container| ==> container[k].event == handle)
      ensures forall j :: 0 <= j < k ==> container[j].event != handle
    {
      k := 0;
      while k < |container| && container[k].event != handle
        invariant k <= |container| && forall j :: 0 <= j < k ==> container[j].event != handle
      {
        k := k + 1;
      }
    }

    /** The loop of `getHandleArray` over the connections. */
    method CollectHandles(serverHandle: Handle) returns (handles: seq<Handle>)
      ensures handles == [serverHandle] + Events(container)
    {
      handles := [serverHandle];
      for i := 0 to |container|
        invariant handles == [serverHandle] + Events(container)[..i]
      {
        handles := handles + [container[i].event];
      }
    }

    /** Rotates the connections by one; the server's event always comes first. */
    method GetHandleArray(serverHandle: Handle) returns (handles: seq<Handle>)
      requires Valid()
      modifies this`container
      ensures Valid()
      ensures container == RotatedLeft(old(container))
      ensures handles == [serverHandle] + Events(container)
      ensures multiset(handles[1..]) == multiset(Events(old(container)))
    {
      handles := [serverHandle];
      RotatedTable(container);
      if |container| > 0 {
        var client := container[0];
        container := container[1..];
        container := container + [client];
        handles := CollectHandles(serverHandle);
      }
      assert handles[1..] == Events(container);
    }

    /** Takes the connection at that place out of the vector and the map, and deletes it. */
    method Erase(k: nat)
      requires Valid() && k < |container|
      modifies this
      ensures Valid()
      ensures container == old(container[..k] + container[k + 1..])
      ensures deleted == old(deleted + {container[k]})
    {
      RemovedMembers(container, k);
      var c := container[k];
      assert c !in deleted;
      mapping := mapping - {c.identifier};
      deleted := deleted + {c};
      container := container[..k] + container[k + 1..];
    }

    /** The connection with that event leaves the vector and the map and is deleted. */
    method RemoveByEvent(handle: Handle)
      requires Valid()
      modifies this
      ensures Valid()
      ensures container == WithoutEvent(old(container), handle)
      ensures deleted == old(deleted) + WithEvent(old(container), handle)
    {
      var k := FindByEvent(handle);
      WithoutEventAt(container, handle, k);
      WithEventAt(container, handle, k);
      if k < |container| {
        Erase(k);
      }
    }

    method RemoveByIdentifier(identifier: string)
      requires Valid()
      modifies this
      ensures Valid()
      ensures identifier !in old(mapping) ==> unchanged(this)
      ensures identifier in old(mapping) ==>
                var handle := old(mapping)[identifier].event;
                container == WithoutEvent(old(container), handle)
                && deleted == old(deleted) + WithEvent(old(container), handle)
    {
      if identifier in mapping {
        RemoveByEvent(mapping[identifier].event);
      }
    }

    /** `None` stands for the exception. */
    method GetByEvent(handle: Handle) returns (c: Option<ServerConnection>)
      requires Valid()
      ensures c.Some? ==> c.value in container && c.value.event == handle
      ensures c.None? ==> forall d :: d in container ==> d.event != handle
    {
      var k := FindByEvent(handle);
      c := if k == |container| then None else Some(container[k]);
    }

    method GetByIdentifier(identifier: string) returns (c: Option<ServerConnection>)
      requires Valid()
      ensures c.Some? ==> c.value in container && c.value.identifier == identifier
      ensures c.None? ==> forall d :: d in container ==> d.identifier != identifier
    {
      c := if identifier !in mapping then None else Some(mapping[identifier]);
    }

    /** A connection is found by its event exactly when it is found by its identifier, and
        neither key belongs to two connections. */
    lemma LookupsAgree(c: ServerConnection, d: ServerConnection)
      requires Valid() && c in container && d in container
      ensures c.identifier in mapping && mapping[c.identifier] == c
      ensures c.event == d.event <==> c == d
      ensures c.identifier == d.identifier <==> c == d
    {
    }

    /** The shutdown loop of the server: it goes through a copy of the list, and uses no
        connection that was deleted before. */
    method Shutdown()
      requires Valid()
      modifies this
      ensures Valid() && container == [] && mapping == map[]
      ensures deleted == old(deleted) + Members(old(container))
    {
      var connectionPtrs := container;
      for i := 0 to |connectionPtrs|
        invariant Valid() && container == connectionPtrs[i..]
        invariant deleted == old(deleted) + Members(connectionPtrs[..i])
      {
        var connection := connectionPtrs[i];
        assert connection == container[0] && connection !in deleted;
        RemovedMembers(container, 0);
        RemoveByEvent(connection.event);
        assert container == connectionPtrs[i..][1..];
        MembersOfPrefix(connectionPtrs, i);
      }
      assert connectionPtrs[..|connectionPtrs|] == old(container);
      assert mapping.Keys == {};
    }
  }
}
