/** The connection registry `activeConnections`: client id -> the socket id of
    that device's current connection. Socket.io itself is outside the model: the
    set of sockets it still knows is a parameter, and the eviction is an event. */
module Registry {
  import opened Base

  const SupersededMessage: string := "New connection from this device detected."

  /** The map after `activeConnections.set(clientId, socketId)`. */
  function Registered(active: map<string, string>, clientId: string, socketId: string): (r: map<string, string>)
    ensures clientId in r && r[clientId] == socketId
    ensures forall d :: d != clientId ==> (d in r <==> d in active)
    ensures forall d :: d != clientId && d in active ==> r[d] == active[d]
  {
    active[clientId := socketId]
  }

  /** The socket a new connection from `clientId` evicts: the mapped one, when
      socket.io still knows it and it is not the new socket itself. */
  function Evicted(active: map<string, string>, clientId: string, socketId: string,
                   liveSockets: set<string>): (prev: Option<string>)
    ensures prev.Some? <==>
              (clientId in active && active[clientId] != socketId && active[clientId] in liveSockets)
    ensures prev.Some? ==> prev.value == active[clientId]
  {
    if clientId in active && active[clientId] in liveSockets && active[clientId] != socketId
    then Some(active[clientId])
    else None
  }

  /** The map after the `disconnect` handler of socket `socketId` for `clientId`. */
  function Unregistered(active: map<string, string>, clientId: string, socketId: string): (r: map<string, string>)
    ensures clientId in r <==> clientId in active && active[clientId] != socketId
    ensures clientId in r ==> r[clientId] == active[clientId]
    ensures forall d :: d != clientId ==> (d in r <==> d in active)
    ensures forall d :: d != clientId && d in active ==> r[d] == active[d]
  {
    if clientId in active && active[clientId] == socketId then active - {clientId} else active
  }

  /** A superseded socket's late disconnect leaves the newer mapping intact. */
  lemma SupersededDisconnectKeepsNewer(active: map<string, string>, clientId: string,
                                       older: string, newer: string)
    requires older != newer
    ensures Unregistered(Registered(Registered(active, clientId, older), clientId, newer), clientId, older)
            == Registered(active, clientId, newer)
  {
  }

  /** Registering a device again evicts exactly the socket registered before. */
  lemma ReconnectEvictsPrevious(active: map<string, string>, clientId: string,
                                older: string, newer: string, liveSockets: set<string>)
    requires older != newer && older in liveSockets
    ensures Evicted(Registered(active, clientId, older), clientId, newer, liveSockets) == Some(older)
    ensures Registered(Registered(active, clientId, older), clientId, newer)
            == Registered(active, clientId, newer)
  {
  }

  /** Registering then disconnecting the same socket forgets the device. */
  lemma DisconnectForgets(active: map<string, string>, clientId: string, socketId: string)
    ensures clientId !in Unregistered(Registered(active, clientId, socketId), clientId, socketId)
  {
  }

  class ConnectionRegistry {
    var active: map<string, string>

    constructor ()
      ensures active == map[]
    {
      active := map[];
    }

    /** server.js:196-205. If the old socket's own `disconnect` handler runs
        during the eviction, its guard deletes the entry just before the `set`,
        and if it runs later, its guard sees the new socket and does nothing;
        either way the final map is the one stated here. */
    method Register(clientId: string, socketId: string, liveSockets: set<string>)
      returns (emitted: seq<Event>)
      modifies this
      ensures active == Registered(old(active), clientId, socketId)
      ensures var ev := Evicted(old(active), clientId, socketId, liveSockets);
              emitted == if ev.Some? then [ForceDisconnectTo(ev.value, SupersededMessage)] else []
    {
      emitted := [];
      if clientId in active {
        var oldSocketId := active[clientId];
        if oldSocketId in liveSockets && oldSocketId != socketId {
          emitted := [ForceDisconnectTo(oldSocketId, SupersededMessage)];
        }
      }
      active := active[clientId := socketId];
    }

    /** server.js:211-215. */
    method Unregister(clientId: string, socketId: string)
      modifies this
      ensures active == Unregistered(old(active), clientId, socketId)
    {
      if clientId in active && active[clientId] == socketId {
        active := active - {clientId};
      }
    }
  }
}
