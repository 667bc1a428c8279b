/** `handleTextMessage`: how the WebSocket handler reads one text frame
    and what it does with it, as a function of the registry. Broadcasting
    is modelled as the list of frames sent, one per recipient. */
module Dispatch {
  import opened Wrappers
  import opened Split
  import opened RoomRegistry

  /** One outgoing frame: what a broadcast sends to one session. */
  datatype Delivery = Delivery(to: Session, frame: string)

  /** The exception the handler raises: reading a frame field past the end. */
  datatype HandlerError = IndexOutOfBounds(index: nat, length: nat)

  /** The new registry and what the handler sent, or the exception it threw. */
  datatype Step = Step(next: Registry, result: Result<seq<Delivery>, HandlerError>)

  /** One delivery of `frame` per recipient, in the recipients' order. */
  function Deliveries(recipients: seq<Session>, frame: string): (ds: seq<Delivery>)
    ensures |ds| == |recipients|
    ensures forall i :: 0 <= i < |ds| ==> ds[i] == Delivery(recipients[i], frame)
  {
    if recipients == [] then []
    else [Delivery(recipients[0], frame)] + Deliveries(recipients[1..], frame)
  }

  /** The frame the server broadcasts for a chat message. */
  function OutFrame(clientId: string, room: string, timestamp: string, kind: string, content: string): (frame: string)
    ensures Bar !in clientId && Bar !in room && Bar !in timestamp && Bar !in kind && Bar !in content ==>
      SplitAll(frame) == [clientId, room, timestamp, kind, content]
  {
    assert Bar !in clientId && Bar !in room && Bar !in timestamp && Bar !in kind && Bar !in content ==>
      SplitAll(JoinFields([clientId, room, timestamp, kind, content])) == [clientId, room, timestamp, kind, content] by {
      if Bar !in clientId && Bar !in room && Bar !in timestamp && Bar !in kind && Bar !in content {
        SplitJoin([clientId, room, timestamp, kind, content]);
      }
    }
    JoinFields([clientId, room, timestamp, kind, content])
  }

  /** `handleTextMessage(session, payload)`: split the payload with Java's
      split and act on the fields. */
  function HandleText(reg: Registry, s: Session, payload: string): (st: Step)
    requires Valid(reg)
    ensures st.result.Err? ==> st.next == reg && s in reg.roomOf && Bar in payload
  {
    assert Bar !in payload ==> JavaSplit(payload) == [payload];
    HandleFields(reg, s, JavaSplit(payload))
  }

  /** The dispatch on the split fields: fewer than two are ignored;
      `JOIN|room|clientId` joins; `MESSAGE|room|_|timestamp|type|content`
      from a session that is in a room broadcasts to the room named in the
      frame, with the sender's client id from the registry; anything else
      is ignored. A MESSAGE from a session in a room that has fewer than six
      fields fails on the first missing field it reads. */
  function HandleFields(reg: Registry, s: Session, parts: seq<string>): (st: Step)
    requires Valid(reg)
    ensures st.result.Err? ==> st.next == reg && s in reg.roomOf && 2 <= |parts| < 6 && parts[0] == "MESSAGE"
    ensures st.next != reg ==> |parts| >= 3 && parts[0] == "JOIN"
  {
    if |parts| < 2 then Step(reg, Ok([]))
    else
      var command, roomName := parts[0], parts[1];
      if command == "JOIN" then
        if |parts| >= 3 then Step(Join(reg, s, roomName, parts[2]), Ok([]))
        else Step(reg, Ok([]))
      else if command == "MESSAGE" then
        if s in reg.roomOf then
          if |parts| < 6 then
            Step(reg, Err(IndexOutOfBounds(if |parts| <= 3 then 3 else |parts|, |parts|)))
          else
            var frame := OutFrame(reg.userOf[s], roomName, parts[3], parts[4], parts[5]);
            Step(reg, Ok(Deliveries(Members(reg, roomName), frame)))
        else Step(reg, Ok([]))
      else Step(reg, Ok([]))
  }

  /** Fields a sender can put in one frame that Java's split gives back
      unchanged: at least two, none holding a bar, the last not empty. */
  predicate Sendable(fields: seq<string>)
  {
    && |fields| >= 2
    && fields[|fields| - 1] != ""
    && forall i :: 0 <= i < |fields| ==> Bar !in fields[i]
  }

  // ---------------------------------------------------------------------
  // State

  /** Every frame keeps the membership invariant, and no room is ever
      removed. */
  lemma HandleKeepsValid(reg: Registry, s: Session, payload: string)
    requires Valid(reg)
    ensures Valid(HandleText(reg, s, payload).next)
    ensures reg.rooms.Keys <= HandleText(reg, s, payload).next.rooms.Keys
  {
    var parts := JavaSplit(payload);
    if |parts| >= 3 && parts[0] == "JOIN" {
      JoinKeepsValid(reg, s, parts[1], parts[2]);
      MembershipExactlyOnce(reg, s);
      JoinEffect(reg, s, parts[1], parts[2]);
    }
  }

  /** Only a JOIN with at least three fields changes any map; a MESSAGE
      never does. */
  lemma OnlyJoinChangesState(reg: Registry, s: Session, payload: string)
    requires Valid(reg)
    ensures HandleText(reg, s, payload).next != reg ==>
      |JavaSplit(payload)| >= 3 && JavaSplit(payload)[0] == "JOIN"
  {
  }

  /** Only a MESSAGE from a session that is in a room sends anything or
      fails. */
  lemma OnlyJoinedMessageSends(reg: Registry, s: Session, payload: string)
    requires Valid(reg)
    ensures HandleText(reg, s, payload).result != Ok([]) ==>
      |JavaSplit(payload)| >= 2 && JavaSplit(payload)[0] == "MESSAGE" && s in reg.roomOf
  {
  }

  // ---------------------------------------------------------------------
  // Frames as a client writes them

  /** A payload without a bar is a single field and is ignored. */
  lemma SingleFieldIgnored(reg: Registry, s: Session, payload: string)
    requires Valid(reg) && Bar !in payload
    ensures HandleText(reg, s, payload) == Step(reg, Ok([]))
  {
  }

  /** A frame whose command is neither JOIN nor MESSAGE is ignored. */
  lemma UnknownCommandIgnored(reg: Registry, s: Session, fields: seq<string>)
    requires Valid(reg) && Sendable(fields)
    requires fields[0] != "JOIN" && fields[0] != "MESSAGE"
    ensures HandleText(reg, s, JoinFields(fields)) == Step(reg, Ok([]))
  {
    JavaSplitJoin(fields);
  }

  /** `JOIN|room|clientId`, with any further fields ignored, joins `room`
      under `clientId`. */
  lemma JoinFrame(reg: Registry, s: Session, fields: seq<string>)
    requires Valid(reg) && Sendable(fields)
    requires |fields| >= 3 && fields[0] == "JOIN"
    ensures HandleText(reg, s, JoinFields(fields)) == Step(Join(reg, s, fields[1], fields[2]), Ok([]))
  {
    JavaSplitJoin(fields);
  }

  /** A JOIN that names no client id is ignored, also when it ends in a bar:
      Java's split drops the trailing empty field. */
  lemma JoinWithoutClientIgnored(reg: Registry, s: Session, room: string)
    requires Valid(reg) && Bar !in room
    ensures HandleText(reg, s, JoinFields(["JOIN", room])) == Step(reg, Ok([]))
    ensures HandleText(reg, s, JoinFields(["JOIN", room, ""])) == Step(reg, Ok([]))
  {
    JavaSplitOfJoin(["JOIN", room]);
    JavaSplitOfJoin(["JOIN", room, ""]);
  }

  /** `MESSAGE|room|_|timestamp|type|content` from a session in a room
      sends `clientId|room|timestamp|type|content` to every session listed
      in `room`, in list order, where `clientId` is the one the sender
      joined with and the third field is ignored; fields after the sixth are
      ignored and no map changes. */
  lemma MessageFrame(reg: Registry, s: Session, fields: seq<string>)
    requires Valid(reg) && s in reg.roomOf
    requires Sendable(fields) && |fields| >= 6 && fields[0] == "MESSAGE"
    ensures HandleText(reg, s, JoinFields(fields)) ==
      Step(reg, Ok(Deliveries(Members(reg, fields[1]),
                              OutFrame(reg.userOf[s], fields[1], fields[3], fields[4], fields[5]))))
  {
    JavaSplitJoin(fields);
  }

  /** What a broadcast to `room` reaches: `frame` is delivered to every
      session mapped to `room` and to no other session, no session gets it
      twice, and nobody gets it when `room` was never created. */
  lemma BroadcastReachesRoom(reg: Registry, room: string, frame: string)
    requires Valid(reg)
    ensures forall t :: Delivery(t, frame) in Deliveries(Members(reg, room), frame) <==>
      t in reg.roomOf && reg.roomOf[t] == room
    ensures forall i, j :: 0 <= i < j < |Deliveries(Members(reg, room), frame)| ==>
      Deliveries(Members(reg, room), frame)[i] != Deliveries(Members(reg, room), frame)[j]
    ensures room !in reg.rooms ==> Deliveries(Members(reg, room), frame) == []
  {
    var ms := Members(reg, room);
    var ds := Deliveries(ms, frame);
    MembersAreMapped(reg, room);
    forall t ensures Delivery(t, frame) in ds <==> t in ms {
      if Delivery(t, frame) in ds {
        var k :| 0 <= k < |ds| && ds[k] == Delivery(t, frame);
        assert ms[k] == t;
      }
      if t in ms {
        var k :| 0 <= k < |ms| && ms[k] == t;
        assert ds[k] == Delivery(t, frame);
      }
    }
    forall i, j | 0 <= i < j < |ds| ensures ds[i] != ds[j] {
      if ms[i] == ms[j] {
        assert multiset(ms)[ms[i]] >= 2 by {
          DistinctIndicesCount(ms, i, j);
        }
      }
    }
  }

  /** Two indices holding the same session make it count at least twice. */
  lemma DistinctIndicesCount(ms: seq<Session>, i: int, j: int)
    requires 0 <= i < j < |ms| && ms[i] == ms[j]
    ensures multiset(ms)[ms[i]] >= 2
  {
    assert ms == ms[..j] + [ms[j]] + ms[j + 1..];
    assert ms[i] in ms[..j];
    assert multiset(ms[..j])[ms[i]] >= 1;
  }

  /** A MESSAGE from a session in a room with fewer than six fields fails
      at the first of fields 3, 4 and 5 that is missing. */
  lemma ShortMessageFails(reg: Registry, s: Session, fields: seq<string>)
    requires Valid(reg) && s in reg.roomOf
    requires Sendable(fields) && fields[0] == "MESSAGE" && |fields| < 6
    ensures HandleText(reg, s, JoinFields(fields))
      == Step(reg, Err(IndexOutOfBounds(if |fields| <= 3 then 3 else |fields|, |fields|)))
  {
    JavaSplitJoin(fields);
  }

  /** A MESSAGE of six fields whose content is empty loses that field to
      Java's split, so the handler fails reading field 5. */
  lemma EmptyContentFails(reg: Registry, s: Session, fields: seq<string>)
    requires Valid(reg) && s in reg.roomOf
    requires |fields| == 6 && fields[0] == "MESSAGE" && fields[4] != "" && fields[5] == ""
    requires forall i :: 0 <= i < |fields| ==> Bar !in fields[i]
    ensures HandleText(reg, s, JoinFields(fields)) == Step(reg, Err(IndexOutOfBounds(5, 5)))
  {
    JavaSplitOfJoin(fields);
    var parts := StripTrailingEmpty(fields);
    assert parts == fields[..5] by {
      assert StripTrailingEmpty(fields) == StripTrailingEmpty(fields[..5]);
    }
    assert HandleText(reg, s, JoinFields(fields)) == HandleFields(reg, s, fields[..5]);
  }
}
