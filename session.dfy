/** The in-memory session `gameState` and the socket handlers that change it in
    place, plus the connection handler that ties identity, registry and state
    together. Every handler returns the events it hands to the transport. */
module Session {
  import opened Base
  import opened Intake
  import Identity
  import Registry

  /** An advertised server address; the model only bounds-checks indices into them. */
  datatype NetAddress = NetAddress(name: string, address: string, url: string)

  /** The `host-update-status` payload: None is a field left `undefined`. */
  datatype StatusUpdate = StatusUpdate(currentSubject: Option<string>,
                                       isVotingOpen: Option<bool>,
                                       currentParticipants: Option<seq<string>>,
                                       votingMode: Option<string>)

  /** One field of the merge: an absent update keeps the prior value. */
  function Merged<T>(prior: T, update: Option<T>): (r: T)
    ensures update.None? ==> r == prior
    ensures update.Some? ==> r == update.value
  {
    if update.Some? then update.value else prior
  }

  const InitialName: string := "Classroom Session"
  const InitialMode: string := "group"

  class GameState {
    var sessionId: Option<string>
    var name: string
    var categories: seq<Category>
    var currentSubject: string
    var currentParticipants: seq<string>
    var votingMode: string
    var isVotingOpen: bool
    var votes: seq<Vote>
    var availableIps: seq<NetAddress>
    var selectedIpIndex: int
    /** The accepted non-empty submissions since the last `host-create-session`. */
    ghost var batches: seq<seq<Vote>>

    /** The vote-count invariant: `votes` is the records of the accepted
        submissions in order, and no two submissions share a key. */
    ghost predicate Valid()
      reads this`votes, this`batches
    {
      KeyedBatches(batches) && votes == Concat(batches)
    }

    /** server.js:75-86, with the address list supplied by the caller. */
    constructor (ips: seq<NetAddress>)
      ensures Valid()
      ensures sessionId == None && name == InitialName && categories == []
      ensures currentSubject == "" && currentParticipants == [] && votingMode == InitialMode
      ensures !isVotingOpen && votes == [] && availableIps == ips && selectedIpIndex == 0
    {
      sessionId := None;
      name := InitialName;
      categories := [];
      currentSubject := "";
      currentParticipants := [];
      votingMode := InitialMode;
      isVotingOpen := false;
      votes := [];
      availableIps := ips;
      selectedIpIndex := 0;
      batches := [];
    }

    /** `host-create-session`: the new id is supplied by the caller. The subject,
        the gate, the participants, the mode and the selected address carry over. */
    method CreateSession(newName: string, newCategories: seq<Category>, newSessionId: string)
      returns (emitted: seq<Event>)
      modifies this`name, this`categories, this`sessionId, this`votes, this`batches
      ensures Valid()
      ensures name == newName && categories == newCategories && sessionId == Some(newSessionId)
      ensures votes == []
      ensures currentSubject == old(currentSubject) && isVotingOpen == old(isVotingOpen)
      ensures currentParticipants == old(currentParticipants) && votingMode == old(votingMode)
      ensures selectedIpIndex == old(selectedIpIndex) && availableIps == old(availableIps)
      ensures emitted == [StateUpdateToAll]
    {
      name := newName;
      categories := newCategories;
      sessionId := Some(newSessionId);
      votes := [];
      batches := [];
      emitted := [StateUpdateToAll];
    }

    /** `host-select-ip`: an out-of-range index is ignored without a broadcast. */
    method SelectIp(index: int) returns (emitted: seq<Event>)
      modifies this`selectedIpIndex
      ensures 0 <= index < |availableIps| ==> selectedIpIndex == index && emitted == [StateUpdateToAll]
      ensures !(0 <= index < |availableIps|) ==> selectedIpIndex == old(selectedIpIndex) && emitted == []
    {
      emitted := [];
      if index >= 0 && index < |availableIps| {
        selectedIpIndex := index;
        emitted := [StateUpdateToAll];
      }
    }

    /** `host-update-status`: a field-by-field merge; nothing outside the four
        fields changes, and the state is broadcast in every case. */
    method UpdateStatus(data: StatusUpdate) returns (emitted: seq<Event>)
      modifies this`currentSubject, this`isVotingOpen, this`currentParticipants, this`votingMode
      ensures currentSubject == Merged(old(currentSubject), data.currentSubject)
      ensures isVotingOpen == Merged(old(isVotingOpen), data.isVotingOpen)
      ensures currentParticipants == Merged(old(currentParticipants), data.currentParticipants)
      ensures votingMode == Merged(old(votingMode), data.votingMode)
      ensures emitted == [StateUpdateToAll]
    {
      if data.currentSubject.Some? { currentSubject := data.currentSubject.value; }
      if data.isVotingOpen.Some? { isVotingOpen := data.isVotingOpen.value; }
      if data.currentParticipants.Some? { currentParticipants := data.currentParticipants.value; }
      if data.votingMode.Some? { votingMode := data.votingMode.value; }
      emitted := [StateUpdateToAll];
    }

    /** `student-submit-vote` from the connection of `clientId` on `socketId`. */
    method SubmitVote(clientId: string, socketId: string, clientIp: string, data: Submission)
      returns (emitted: seq<Event>)
      requires Valid()
      modifies this`votes, this`batches
      ensures Valid()
      ensures var outcome := Decide(isVotingOpen, old(votes), currentSubject, votingMode,
                                    socketId, clientIp, clientId, data);
              votes == VotesAfter(old(votes), outcome) && emitted == Emitted(outcome, socketId) &&
              batches == BatchesAfter(old(batches), outcome)
    {
      if !isVotingOpen {
        emitted := [];
        return;
      }
      if AlreadyVoted(votes, currentSubject, clientId) {
        emitted := [ErrorMessageTo(socketId, AlreadyVotedMessage)];
        return;
      }
      AcceptSubmission(clientId, socketId, clientIp, data);
      emitted := [StateUpdateToAll];
    }

    /** The accepted path of `student-submit-vote`: the records are pushed and
        recorded as one more accepted submission. */
    method AcceptSubmission(clientId: string, socketId: string, clientIp: string, data: Submission)
      requires Valid()
      requires isVotingOpen && !AlreadyVoted(votes, currentSubject, clientId)
      modifies this`votes, this`batches
      ensures Valid()
      ensures votes == old(votes) + Records(ItemsOf(data), currentSubject, votingMode, socketId, clientIp, clientId)
      ensures batches == BatchesAfter(old(batches), Decide(isVotingOpen, old(votes), currentSubject, votingMode,
                                                           socketId, clientIp, clientId, data))
    {
      var items := ItemsOf(data);
      SubmissionKeepsBatches(batches, isVotingOpen, currentSubject, votingMode,
                             socketId, clientIp, clientId, data);
      ghost var next := BatchesAfter(batches, Decide(isVotingOpen, votes, currentSubject, votingMode,
                                                     socketId, clientIp, clientId, data));
      PushRecords(items, clientId, socketId, clientIp);
      batches := next;
    }

    /** The `items.forEach` loop: one pushed record per item, in item order. */
    method PushRecords(items: seq<Item>, clientId: string, socketId: string, clientIp: string)
      modifies this`votes
      ensures votes == old(votes) + Records(items, currentSubject, votingMode, socketId, clientIp, clientId)
    {
      var i := 0;
      while i < |items|
        invariant 0 <= i <= |items|
        invariant votes == old(votes) + Records(items[..i], currentSubject, votingMode,
                                                socketId, clientIp, clientId)
      {
        var item := items[i];
        var displaySubject := DisplaySubject(currentSubject, votingMode, item);
        AppendRecord(items, i, currentSubject, votingMode, socketId, clientIp, clientId);
        votes := votes + [Vote(currentSubject, displaySubject, item.scores, socketId, clientIp, clientId)];
        i := i + 1;
      }
      assert items[..|items|] == items;
    }

    /** The address list is refreshed on every connection. */
    method RefreshAvailableIps(ips: seq<NetAddress>)
      modifies this`availableIps
      ensures availableIps == ips
    {
      availableIps := ips;
    }
  }

  /** The process: one session state and one connection registry. */
  class Server {
    const state: GameState
    const registry: Registry.ConnectionRegistry

    ghost predicate Valid()
      reads this, state`votes, state`batches
    {
      state.Valid()
    }

    constructor (ips: seq<NetAddress>)
      ensures Valid() && fresh(state) && fresh(registry)
      ensures state.votes == [] && !state.isVotingOpen && state.availableIps == ips
      ensures registry.active == map[]
    {
      state := new GameState(ips);
      registry := new Registry.ConnectionRegistry();
    }

    /** The `connection` handler once the probes have answered: resolve the
        client id, register the socket (evicting the device's previous one),
        refresh the address list and push the state to the new socket. The
        returned ip and id are what the socket's other handlers use. */
    method Connect(handshakeAddress: string, socketId: string, arpOutput: Option<string>,
                   liveSockets: set<string>, ips: seq<NetAddress>)
      returns (clientIp: string, clientId: string, emitted: seq<Event>)
      requires Valid()
      modifies registry, state`availableIps
      ensures Valid()
      ensures Identity.Resolve(handshakeAddress, arpOutput) == Identity.Resolution(clientIp, clientId)
      ensures registry.active == Registry.Registered(old(registry.active), clientId, socketId)
      ensures state.availableIps == ips
      ensures var ev := Registry.Evicted(old(registry.active), clientId, socketId, liveSockets);
              emitted == (if ev.Some? then [ForceDisconnectTo(ev.value, Registry.SupersededMessage)] else [])
                         + [StateUpdateTo(socketId)]
    {
      clientIp := Identity.StripMappedPrefix(handshakeAddress);
      var mac := Identity.MacAddress(clientIp, arpOutput);
      clientId := Identity.ClientIdOf(mac, clientIp);
      var evictions := registry.Register(clientId, socketId, liveSockets);
      state.RefreshAvailableIps(ips);
      emitted := evictions + [StateUpdateTo(socketId)];
    }

    /** The socket's `disconnect` handler. */
    method Disconnect(clientId: string, socketId: string)
      modifies registry
      ensures registry.active == Registry.Unregistered(old(registry.active), clientId, socketId)
    {
      registry.Unregister(clientId, socketId);
    }
  }
}
