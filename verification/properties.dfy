/**
 Properties of the session state machine that relate several handler calls,
 or a handler to an independent description of the table: the join reply,
 the round lifecycle over arbitrary traces, the interplay of `dead` and
 `disconnect`, and a concrete two-player session.
 */
module SessionFacts {
  import opened Players
  import opened Session

  /**
   A socket that joins for the first time is appended last, so the `state`
   reply it receives maps its own id to its own color, unless that id is
   `ProtoKey`, which the snapshot object never holds as an own key.
   */
  lemma JoinReplyShowsJoiner<S>(st: Session<S>, sid: SocketId, id: PlayerId, color: Color)
    requires Get(st.players, sid).None?
    ensures var reply := OnJoin(st, sid, id, color).out[0].msg.players;
      (id in reply && reply[id] == color) <==> id != ProtoKey
  {
    var t := OnJoin(st, sid, id, color).next.players;
    assert t[|st.players|] == Entry(sid, Info(id, color));
    assert LastWithId(t, |st.players|);
    GetPlayersLastWins(t, |st.players|);
  }

  /**
   A socket that joins again keeps its old position in the table, so an entry
   added later under the same player id still decides that id's color in the
   reply: the joiner's id is present, but with the other entry's color.
   */
  lemma RejoinCanBeShadowed()
    ensures
      var st: Session<int> := Session([Entry("a", Info("p", "red")), Entry("b", Info("p", "blue"))], [], false);
      var r := OnJoin(st, "a", "p", "green");
      && Get(r.next.players, "a") == Some(Info("p", "green"))
      && r.out[0].msg.players["p"] == "blue"
  {
    var t := [Entry("a", Info("p", "green")), Entry("b", Info("p", "blue"))];
    var st: Session<int> := Session([Entry("a", Info("p", "red")), Entry("b", Info("p", "blue"))], [], false);
    assert OnJoin(st, "a", "p", "green").next.players == t by {
      IndexOfIs(st.players, BySocket("a"), 0);
    }
    assert LastWithId(t, 1);
    GetPlayersLastWins(t, 1);
  }

  /**
   The round flag changes in exactly one case: a `start` whose guard holds;
   that same step empties the segment log and emits one room-wide `start`.
   Every other step keeps the earlier segments as a prefix.
   */
  lemma StepRoundLifecycle<S>(st: Session<S>, sid: SocketId, ev: Event<S>)
    ensures var r := Step(st, sid, ev);
      && (r.next.gameStarted != st.gameStarted <==> ev.Start? && CanStart(st))
      && (ev.Start? && CanStart(st) ==> r.next.gameStarted && r.next.lines == [] && r.out == [Outbound(All, Message.Start)])
      && (!(ev.Start? && CanStart(st)) ==> st.lines <= r.next.lines)
  {
  }

  /** `Run` of a non-empty trace is the first step followed by the rest. */
  lemma RunUnfold<S>(st: Session<S>, trace: seq<Action<S>>)
    requires |trace| > 0
    ensures var first := Step(st, trace[0].sid, trace[0].ev);
      var rest := Run(first.next, trace[1..]);
      Run(st, trace) == Transition(rest.next, first.out + rest.out)
  {
  }

  /** How many room-wide `start` messages a list of outbound messages holds. */
  function StartCount<S>(out: seq<Outbound<S>>): nat
    decreases |out|
  {
    if |out| == 0 then 0
    else (if out[0].msg.Start? then 1 else 0) + StartCount(out[1..])
  }

  lemma {:induction false} StartCountAppend<S>(a: seq<Outbound<S>>, b: seq<Outbound<S>>)
    ensures StartCount(a + b) == StartCount(a) + StartCount(b)
    decreases |a|
  {
    if |a| == 0 {
      assert a + b == b;
    } else {
      assert (a + b)[1..] == a[1..] + b;
      StartCountAppend(a[1..], b);
    }
  }

  lemma {:induction false} NoStartMessages<S>(out: seq<Outbound<S>>)
    requires forall i :: 0 <= i < |out| ==> !out[i].msg.Start?
    ensures StartCount(out) == 0
    decreases |out|
  {
    if |out| > 0 {
      assert forall i :: 0 <= i < |out[1..]| ==> out[1..][i] == out[i + 1];
      NoStartMessages(out[1..]);
    }
  }

  /** A single step emits one `start` exactly when it is a `start` whose guard holds, and none otherwise. */
  lemma StepStartCount<S>(st: Session<S>, sid: SocketId, ev: Event<S>)
    ensures StartCount(Step(st, sid, ev).out) == if ev.Start? && CanStart(st) then 1 else 0
    ensures ev.Start? && CanStart(st) ==> !st.gameStarted && Step(st, sid, ev).next.gameStarted
  {
    match ev
    case Start =>
      var out := OnStart(st).out;
      if CanStart(st) {
        assert out[1..] == [];
      } else {
        NoStartMessages(out);
      }
    case Join(id, color) =>
      NoStartMessages(OnJoin(st, sid, id, color).out);
    case Segment(seg) =>
      NoStartMessages(OnSegment(st, seg).out);
    case Dead(id) =>
      NoStartMessages(OnDead(st, id).out);
    case Disconnect =>
      NoStartMessages(OnDisconnect(st, sid).out);
  }

  /**
   Over any trace, the room is told `start` at most once, and not at all once
   a round has started: the flag is never cleared, so the guard of `start`
   never holds again.
   */
  lemma {:induction false} StartEmittedAtMostOnce<S>(st: Session<S>, trace: seq<Action<S>>)
    ensures StartCount(Run(st, trace).out) <= if st.gameStarted then 0 else 1
    decreases |trace|
  {
    if |trace| > 0 {
      var ev := trace[0].ev;
      var first := Step(st, trace[0].sid, ev);
      var rest := Run(first.next, trace[1..]);
      assert Run(st, trace).out == first.out + rest.out by {
        RunUnfold(st, trace);
      }
      assert StartCount(first.out) == if ev.Start? && CanStart(st) then 1 else 0 by {
        StepStartCount(st, trace[0].sid, ev);
      }
      assert ev.Start? && CanStart(st) ==> !st.gameStarted && first.next.gameStarted by {
        StepStartCount(st, trace[0].sid, ev);
      }
      assert st.gameStarted ==> first.next.gameStarted;
      assert StartCount(rest.out) <= if first.next.gameStarted then 0 else 1 by {
        StartEmittedAtMostOnce(first.next, trace[1..]);
      }
      StartCountAppend(first.out, rest.out);
    }
  }

  /** Once a round has started, every later `start`, after any trace, is a no-op. */
  lemma StartAfterStartIsNoop<S>(st: Session<S>, trace: seq<Action<S>>, sid: SocketId)
    requires st.gameStarted
    ensures var now := Run(st, trace).next;
      Step(now, sid, Event.Start) == Transition(now, [])
  {
  }

  /** The segment an event carries, if any. */
  function DrawnBy<S>(ev: Event<S>): seq<S> {
    if ev.Segment? then [ev.seg] else []
  }

  /** The segments drawn in a trace, in arrival order. */
  function Drawn<S>(trace: seq<Action<S>>): seq<S>
    decreases |trace|
  {
    if |trace| == 0 then [] else DrawnBy(trace[0].ev) + Drawn(trace[1..])
  }

  /**
   Unless it is a `start` whose guard holds, a step appends its segment, if it
   carries one, keeps the log otherwise, and leaves the round flag as it was.
   */
  lemma StepAppendsDrawn<S>(st: Session<S>, sid: SocketId, ev: Event<S>)
    requires !(ev.Start? && CanStart(st))
    ensures Step(st, sid, ev).next.lines == st.lines + DrawnBy(ev)
    ensures Step(st, sid, ev).next.gameStarted == st.gameStarted
  {
    if !ev.Segment? {
      assert st.lines + [] == st.lines;
    }
  }

  lemma AppendAssoc<S>(a: seq<S>, b: seq<S>, c: seq<S>)
    ensures a + b + c == a + (b + c)
  {
  }

  /**
   As long as no `start` can take effect (a round is already running, or the
   trace holds no `start` at all), the log grows by exactly the drawn
   segments, in the order they arrived, after everything it held before.
   */
  lemma {:induction false} SegmentsKeepArrivalOrder<S>(st: Session<S>, trace: seq<Action<S>>)
    requires st.gameStarted || forall i :: 0 <= i < |trace| ==> !trace[i].ev.Start?
    ensures Run(st, trace).next.lines == st.lines + Drawn(trace)
    decreases |trace|
  {
    if |trace| == 0 {
      assert st.lines + [] == st.lines;
    } else {
      var ev := trace[0].ev;
      var rest := trace[1..];
      var next := Step(st, trace[0].sid, ev).next;
      assert next.lines == st.lines + DrawnBy(ev) && next.gameStarted == st.gameStarted by {
        assert !(ev.Start? && CanStart(st));
        StepAppendsDrawn(st, trace[0].sid, ev);
      }
      assert next.gameStarted || forall i :: 0 <= i < |rest| ==> !rest[i].ev.Start? by {
        if !st.gameStarted {
          forall i | 0 <= i < |rest| ensures !rest[i].ev.Start? {
            assert rest[i] == trace[i + 1];
          }
        }
      }
      var final := Run(next, rest).next;
      assert final.lines == next.lines + Drawn(rest) by {
        SegmentsKeepArrivalOrder(next, rest);
      }
      assert Run(st, trace).next == final by {
        RunUnfold(st, trace);
      }
      AppendAssoc(st.lines, DrawnBy(ev), Drawn(rest));
    }
  }

  /**
   `dead` for the id whose FIRST entry belongs to socket `sid` removes that
   entry, after which the socket's own `disconnect` finds nothing: no state
   change and no second `dead`/`playerCount` pair.
   */
  lemma DeadThenDisconnectIsNoop<S>(st: Session<S>, id: PlayerId, sid: SocketId)
    requires Wf(st)
    requires IndexOf(st.players, ByPlayer(id)).Some?
    requires st.players[IndexOf(st.players, ByPlayer(id)).value].sid == sid
    ensures var after := OnDead(st, id).next;
      && Get(after.players, sid).None?
      && OnDisconnect(after, sid) == Transition(after, [])
  {
    RemoveFirstPlayerKeepsOthers(st.players, id);
  }

  /** A second `disconnect` of the same socket changes nothing and emits nothing. */
  lemma DisconnectIsIdempotent<S>(st: Session<S>, sid: SocketId)
    requires Wf(st)
    ensures var after := OnDisconnect(st, sid).next;
      OnDisconnect(after, sid) == Transition(after, [])
  {
  }

  /**
   After a socket's `disconnect`, a `dead` for the player id it held (and no
   other entry held) changes no state, yet still relays `dead` and a
   `playerCount` to the room.
   */
  lemma DisconnectThenDeadStillEmits<S>(st: Session<S>, sid: SocketId, i: nat)
    requires Wf(st) && i < |st.players| && st.players[i].sid == sid
    requires forall j :: 0 <= j < |st.players| && j != i ==> st.players[j].info.id != st.players[i].info.id
    ensures var id := st.players[i].info.id;
      var after := OnDisconnect(st, sid).next;
      && OnDead(after, id).next == after
      && OnDead(after, id).out == [Outbound(AllButSender, Message.Dead(id)), PlayerCountOf(after.players)]
  {
    var t := st.players;
    var id := t[i].info.id;
    IndexOfIs(t, BySocket(sid), i);
    var after := Delete(t, sid);
    assert after == RemoveAt(t, i);
    assert id !in PlayerIds(after) by {
      forall j | 0 <= j < |after| ensures after[j].info.id != id {
        if j < i { assert after[j] == t[j]; } else { assert after[j] == t[j + 1]; }
      }
    }
  }

  /*
   A concrete two-player session, one lemma per event: sockets A and B join
   as p1/red and p2/blue, A draws a segment, A starts the round, and B reports
   p1 dead. Each join reply already includes the joiner itself, and `dead`
   goes to everybody but B.
   */

  lemma SessionAJoins()
    ensures Step<int>(Initial(), "A", Event.Join("p1", "red"))
         == Transition(Session([Entry("A", Info("p1", "red"))], [], false),
                       [Outbound(Sender, Message.State(map["p1" := "red"], [])), Outbound(All, Message.PlayerCount(1))])
  {
    var t1 := [Entry("A", Info("p1", "red"))];
    assert GetPlayers(t1) == map["p1" := "red"] by {
      assert t1[..0] == [];
    }
  }

  lemma SessionBJoins()
    ensures Step<int>(Session([Entry("A", Info("p1", "red"))], [], false), "B", Event.Join("p2", "blue"))
         == Transition(Session([Entry("A", Info("p1", "red")), Entry("B", Info("p2", "blue"))], [], false),
                       [Outbound(Sender, Message.State(map["p1" := "red", "p2" := "blue"], [])), Outbound(All, Message.PlayerCount(2))])
  {
    var t1 := [Entry("A", Info("p1", "red"))];
    var t2 := [Entry("A", Info("p1", "red")), Entry("B", Info("p2", "blue"))];
    assert Set(t1, "B", Info("p2", "blue")) == t2 by {
      assert IndexOf(t1, BySocket("B")).None?;
    }
    assert GetPlayers(t2) == map["p1" := "red", "p2" := "blue"] by {
      assert t2[..1] == t1;
      assert t1[..0] == [];
    }
  }

  lemma SessionADraws()
    ensures Step<int>(Session([Entry("A", Info("p1", "red")), Entry("B", Info("p2", "blue"))], [], false), "A", Event.Segment(7))
         == Transition(Session([Entry("A", Info("p1", "red")), Entry("B", Info("p2", "blue"))], [7], false),
                       [Outbound(AllButSender, Message.Segment(7))])
  {
  }

  lemma SessionAStarts()
    ensures Step<int>(Session([Entry("A", Info("p1", "red")), Entry("B", Info("p2", "blue"))], [7], false), "A", Event.Start)
         == Transition(Session([Entry("A", Info("p1", "red")), Entry("B", Info("p2", "blue"))], [], true),
                       [Outbound(All, Message.Start)])
  {
  }

  lemma SessionBReportsDead()
    ensures Step<int>(Session([Entry("A", Info("p1", "red")), Entry("B", Info("p2", "blue"))], [], true), "B", Event.Dead("p1"))
         == Transition(Session([Entry("B", Info("p2", "blue"))], [], true),
                       [Outbound(AllButSender, Message.Dead("p1")), Outbound(All, Message.PlayerCount(1))])
  {
    var t2 := [Entry("A", Info("p1", "red")), Entry("B", Info("p2", "blue"))];
    assert RemoveFirst(t2, ByPlayer("p1")) == [Entry("B", Info("p2", "blue"))] by {
      IndexOfIs(t2, ByPlayer("p1"), 0);
    }
  }
}
