/**
 The server's session state machine for the `/broadcast` room. The state is
 the player table, the log of drawn segments and the one-way round flag. Each
 inbound event is handled to completion before the next one, so each handler
 is one atomic step from a state and an event to the next state and the list
 of messages it emits, in emission order. Segments are opaque: the server only
 stores and relays them.
 */
module Session {
  import opened Players

  datatype Session<S> = Session(players: Table, lines: seq<S>, gameStarted: bool)

  /** The state when the process starts: no players, no segments, no round. */
  function Initial<S>(): (st: Session<S>)
    ensures Wf(st) && !st.gameStarted && |st.players| == 0 && |st.lines| == 0
  {
    Session([], [], false)
  }

  /** The representation invariant: the player table is a well-formed map. */
  predicate Wf<S>(st: Session<S>) {
    WellFormed(st.players)
  }

  /** An event received on one socket; `Disconnect` is the transport's close notification. */
  datatype Event<S> =
    | Join(id: PlayerId, color: Color)
    | Segment(seg: S)
    | Dead(id: PlayerId)
    | Start
    | Disconnect

  /** Who receives an emitted message, relative to the socket whose event is handled. */
  datatype Audience = Sender | AllButSender | All

  datatype Message<S> =
    | State(players: map<PlayerId, Color>, lines: seq<S>)
    | Segment(seg: S)
    | Dead(id: PlayerId)
    | PlayerCount(n: nat)
    | Start

  datatype Outbound<S> = Outbound(to: Audience, msg: Message<S>)

  datatype Transition<S> = Transition(next: Session<S>, out: seq<Outbound<S>>)

  /** The room-wide `playerCount` message for a table. */
  function PlayerCountOf<S>(t: Table): (o: Outbound<S>)
    ensures o.to == All && o.msg.PlayerCount? && o.msg.n == |t|
    ensures WellFormed(t) ==> o.msg.n == |SocketIds(t)|
  {
    assert WellFormed(t) ==> |SocketIds(t)| == |t| by {
      if WellFormed(t) { SizeIsKeyCount(t); }
    }
    Outbound(All, Message.PlayerCount(|t|))
  }

  /**
   The `state` reply to a joiner: the snapshot of table `t`, which shows the
   color of the last entry of every stored id except `ProtoKey`, and the log.
   */
  function StateReply<S>(t: Table, lines: seq<S>): (o: Outbound<S>)
    ensures o.to == Sender && o.msg.State? && o.msg.lines == lines
    ensures o.msg.players.Keys == PlayerIds(t) - {ProtoKey}
    ensures forall i :: 0 <= i < |t| && LastWithId(t, i) && t[i].info.id != ProtoKey ==>
      t[i].info.id in o.msg.players && o.msg.players[t[i].info.id] == t[i].info.color
  {
    GetPlayersSpec(t);
    Outbound(Sender, Message.State(GetPlayers(t), lines))
  }

  /**
   `join`: store `{id, color}` under the sender's socket, reply with the
   snapshot of the UPDATED table and the current segments, then announce the
   new player count to the whole room.
   */
  function OnJoin<S>(st: Session<S>, sid: SocketId, id: PlayerId, color: Color): (r: Transition<S>)
    ensures r.next.players == Set(st.players, sid, Info(id, color))
    ensures Get(r.next.players, sid) == Some(Info(id, color))
    ensures forall s :: s != sid ==> Get(r.next.players, s) == Get(st.players, s)
    ensures |r.next.players| == if Get(st.players, sid).None? then |st.players| + 1 else |st.players|
    ensures r.next.lines == st.lines && r.next.gameStarted == st.gameStarted
    ensures Wf(st) ==> Wf(r.next)
    ensures |r.out| == 2
    ensures r.out[0].to == Sender && r.out[0].msg.State?
    ensures r.out[0].msg.players.Keys == PlayerIds(r.next.players) - {ProtoKey}
    ensures id in r.out[0].msg.players <==> id != ProtoKey
    ensures forall i :: 0 <= i < |r.next.players| && LastWithId(r.next.players, i) && r.next.players[i].info.id != ProtoKey ==>
      r.next.players[i].info.id in r.out[0].msg.players && r.out[0].msg.players[r.next.players[i].info.id] == r.next.players[i].info.color
    ensures r.out[0].msg.lines == st.lines
    ensures r.out[1] == PlayerCountOf(r.next.players)
  {
    var players := Set(st.players, sid, Info(id, color));
    var reply := StateReply(players, st.lines);
    assert id in reply.msg.players <==> id != ProtoKey by {
      SetStoresId(st.players, sid, Info(id, color));
      SnapshotHasId(players, id);
    }
    Transition(st.(players := players), [reply, PlayerCountOf(players)])
  }

  /** `segment`: append the payload to the log and echo it verbatim to everybody else. */
  function OnSegment<S>(st: Session<S>, seg: S): (r: Transition<S>)
    ensures |r.next.lines| == |st.lines| + 1 && r.next.lines[..|st.lines|] == st.lines
    ensures r.next.lines[|st.lines|] == seg
    ensures r.next.players == st.players && r.next.gameStarted == st.gameStarted
    ensures r.out == [Outbound(AllButSender, Message.Segment(seg))]
  {
    Transition(st.(lines := st.lines + [seg]), [Outbound(AllButSender, Message.Segment(seg))])
  }

  /**
   `dead`: delete the first entry, in insertion order, whose player id is
   `id` (if any), then ALWAYS relay `dead` to everybody else and announce the
   player count, whether or not an entry was removed.
   */
  function OnDead<S>(st: Session<S>, id: PlayerId): (r: Transition<S>)
    ensures r.next.players == RemoveFirst(st.players, ByPlayer(id))
    ensures id !in PlayerIds(st.players) ==> r.next == st
    ensures id in PlayerIds(st.players) ==> |r.next.players| == |st.players| - 1
    ensures r.next.lines == st.lines && r.next.gameStarted == st.gameStarted
    ensures Wf(st) ==> Wf(r.next)
    ensures r.out == [Outbound(AllButSender, Message.Dead(id)), PlayerCountOf(r.next.players)]
  {
    var players := RemoveFirst(st.players, ByPlayer(id));
    Transition(st.(players := players), [Outbound(AllButSender, Message.Dead(id)), PlayerCountOf(players)])
  }

  /** The guard of `start`: no round yet, and at least two players in the table. */
  predicate CanStart<S>(st: Session<S>) {
    !st.gameStarted && |st.players| >= 2
  }

  /**
   `start`: when no round has started and at least two players are present,
   set the flag, empty the segment log and tell the whole room; otherwise do
   nothing at all.
   */
  function OnStart<S>(st: Session<S>): (r: Transition<S>)
    ensures CanStart(st) ==> r.next == st.(gameStarted := true, lines := []) && r.out == [Outbound(All, Message.Start)]
    ensures !CanStart(st) ==> r.next == st && r.out == []
    ensures r.next.players == st.players
  {
    if CanStart(st) then
      Transition(st.(gameStarted := true, lines := []), [Outbound(All, Message.Start)])
    else
      Transition(st, [])
  }

  /**
   `disconnect`: when the closing socket has an entry, delete it and tell the
   whole room that its stored player id is dead, then announce the player
   count; a socket that never joined changes nothing and emits nothing.
   */
  function OnDisconnect<S>(st: Session<S>, sid: SocketId): (r: Transition<S>)
    ensures Get(st.players, sid).None? ==> r == Transition(st, [])
    ensures Get(st.players, sid).Some? ==>
      && |r.next.players| == |st.players| - 1
      && (Wf(st) ==> Get(r.next.players, sid).None?)
      && r.out == [Outbound(All, Message.Dead(Get(st.players, sid).value.id)), PlayerCountOf(r.next.players)]
    ensures r.next.players == Delete(st.players, sid)
    ensures forall s :: s != sid ==> Get(r.next.players, s) == Get(st.players, s)
    ensures r.next.lines == st.lines && r.next.gameStarted == st.gameStarted
    ensures Wf(st) ==> Wf(r.next)
  {
    match Get(st.players, sid)
    case None => Transition(st, [])
    case Some(info) =>
      var players := Delete(st.players, sid);
      Transition(st.(players := players), [Outbound(All, Message.Dead(info.id)), PlayerCountOf(players)])
  }

  /** Dispatch of one event received on socket `sid`. */
  function Step<S>(st: Session<S>, sid: SocketId, ev: Event<S>): (r: Transition<S>)
    ensures Wf(st) ==> Wf(r.next)
    ensures st.gameStarted ==> r.next.gameStarted
  {
    match ev
    case Join(id, color) => OnJoin(st, sid, id, color)
    case Segment(seg) => OnSegment(st, seg)
    case Dead(id) => OnDead(st, id)
    case Start => OnStart(st)
    case Disconnect => OnDisconnect(st, sid)
  }

  /** One inbound event together with the socket it arrived on. */
  datatype Action<S> = Action(sid: SocketId, ev: Event<S>)

  /**
   Handling a trace of events one after another: the final state and every
   message emitted on the way, in emission order.
   */
  function Run<S>(st: Session<S>, trace: seq<Action<S>>): (r: Transition<S>)
    ensures Wf(st) ==> Wf(r.next)
    ensures st.gameStarted ==> r.next.gameStarted
    decreases |trace|
  {
    if |trace| == 0 then Transition(st, [])
    else
      var first := Step(st, trace[0].sid, trace[0].ev);
      var rest := Run(first.next, trace[1..]);
      Transition(rest.next, first.out + rest.out)
  }
}
