/** The WebSocket handler as the server keeps it: one object whose three
    maps are updated in place. Each method is proved to change the maps
    exactly as the matching function of RoomRegistry or Dispatch says, and
    to keep the membership invariant. */
module ChatServer {
  import opened Wrappers
  import opened Split
  import opened RoomRegistry
  import opened Dispatch

  class ChatWebSocketHandler {
    /** Room name to the sessions in it, in joining order. */
    var chatRooms: map<string, seq<Session>>
    /** Session to the room it is in. */
    var sessionRoomMap: map<Session, string>
    /** Session to the client id it joined with. */
    var sessionUserMap: map<Session, string>

    /** The three maps as a registry value. */
    ghost function State(): Registry
      reads this
    {
      Registry(chatRooms, sessionRoomMap, sessionUserMap)
    }

    /** The membership invariant of the registry. */
    ghost predicate Valid()
      reads this
    {
      RoomRegistry.Valid(State())
    }

    /** A new handler has no rooms and no sessions. */
    constructor()
      ensures Valid()
      ensures chatRooms == map[] && sessionRoomMap == map[] && sessionUserMap == map[]
    {
      chatRooms := map[];
      sessionRoomMap := map[];
      sessionUserMap := map[];
      EmptyValid();
    }

    /** `handleTextMessage`: the new maps and the result are those of
        `HandleText`; the invariant is kept. */
    method HandleTextMessage(session: Session, payload: string)
      returns (result: Result<seq<Delivery>, HandlerError>)
      requires Valid()
      modifies this
      ensures Valid()
      ensures Step(State(), result) == HandleText(old(State()), session, payload)
    {
      var messageParts := JavaSplit(payload);
      if |messageParts| < 2 {
        return Ok([]);
      }
      var command, roomName := messageParts[0], messageParts[1];
      if command == "JOIN" {
        if |messageParts| >= 3 {
          var clientId := messageParts[2];
          JoinRoom(session, roomName, clientId);
        }
        result := Ok([]);
      } else if command == "MESSAGE" {
        if session in sessionRoomMap {
          var clientId := sessionUserMap[session];
          if |messageParts| <= 3 {
            return Err(IndexOutOfBounds(3, |messageParts|));
          }
          var timestamp := messageParts[3];
          if |messageParts| <= 4 {
            return Err(IndexOutOfBounds(4, |messageParts|));
          }
          var messageType := messageParts[4];
          if |messageParts| <= 5 {
            return Err(IndexOutOfBounds(5, |messageParts|));
          }
          var content := messageParts[5];
          var sent := BroadcastMessage(roomName, OutFrame(clientId, roomName, timestamp, messageType, content));
          result := Ok(sent);
        } else {
          result := Ok([]);
        }
      } else {
        result := Ok([]);
      }
    }

    /** `joinRoom`: the maps become those of `Join`; the invariant is kept. */
    method JoinRoom(session: Session, roomName: string, clientId: string)
      requires Valid()
      modifies this
      ensures Valid()
      ensures State() == Join(old(State()), session, roomName, clientId)
    {
      JoinKeepsValid(State(), session, roomName, clientId);
      if roomName !in chatRooms {
        chatRooms := chatRooms[roomName := []];
      }
      ghost var created := State();
      assert created == PutIfAbsent(old(State()), roomName);
      if session in sessionRoomMap {
        LeaveRoom(session);
      }
      assert State() == Leave(created, session);
      chatRooms := chatRooms[roomName := chatRooms[roomName] + [session]];
      sessionRoomMap := sessionRoomMap[session := roomName];
      sessionUserMap := sessionUserMap[session := clientId];
    }

    /** `leaveRoom`: the maps become those of `Leave`. It needs only that a
        session's room exists, which the invariant provides. */
    method LeaveRoom(session: Session)
      requires session in sessionRoomMap ==> sessionRoomMap[session] in chatRooms
      modifies this
      ensures State() == Leave(old(State()), session)
    {
      var currentRoom: Option<string> := if session in sessionRoomMap then Some(sessionRoomMap[session]) else None;
      if currentRoom.Some? {
        var room := currentRoom.value;
        chatRooms := chatRooms[room := RemoveFirst(chatRooms[room], session)];
        sessionRoomMap := sessionRoomMap - {session};
        sessionUserMap := sessionUserMap - {session};
      }
    }

    /** `broadcastMessage`: one delivery of `frame` to each session listed
        in `roomName`, in list order; none when the room does not exist.
        Nothing changes. */
    method BroadcastMessage(roomName: string, frame: string) returns (sent: seq<Delivery>)
      ensures sent == Deliveries(Members(State(), roomName), frame)
    {
      sent := [];
      if roomName in chatRooms {
        var roomSessions := chatRooms[roomName];
        var i := 0;
        while i < |roomSessions|
          invariant 0 <= i <= |roomSessions|
          invariant |sent| == i
          invariant forall k :: 0 <= k < i ==> sent[k] == Delivery(roomSessions[k], frame)
        {
          sent := sent + [Delivery(roomSessions[i], frame)];
          i := i + 1;
        }
      }
    }

    /** `afterConnectionClosed`: the session leaves its room; the maps
        become those of `Leave` and the invariant is kept. */
    method AfterConnectionClosed(session: Session)
      requires Valid()
      modifies this
      ensures Valid()
      ensures State() == Leave(old(State()), session)
    {
      LeaveKeepsValid(State(), session);
      LeaveRoom(session);
    }
  }
}
