/** The server's room registry as a value: the three maps the WebSocket
    handler keeps, the invariant tying them together, and the effect of
    joining and leaving on them. Module Dispatch builds the frame handler
    on these functions; the class in module ChatServer updates its fields
    in place and is proved to follow them. */
module RoomRegistry {
  /** A WebSocket connection; only its identity matters. */
  type Session(==, !new)

  /** `rooms`: room name to the sessions in it, in joining order;
      `roomOf`: session to the room it is in;
      `userOf`: session to the client id it joined with. */
  datatype Registry = Registry(
    rooms: map<string, seq<Session>>,
    roomOf: map<Session, string>,
    userOf: map<Session, string>)

  const Empty: Registry := Registry(map[], map[], map[])

  /** No session occurs twice in a room's list. */
  ghost predicate AtMostOnce(xs: seq<Session>)
  {
    forall t :: multiset(xs)[t] <= 1
  }

  /** Every session in a room is listed in that room. */
  ghost predicate MappedAreListed(reg: Registry)
  {
    forall s :: s in reg.roomOf ==> reg.roomOf[s] in reg.rooms && s in reg.rooms[reg.roomOf[s]]
  }

  /** Every listed session is mapped to the room that lists it. */
  ghost predicate ListedAreMapped(reg: Registry)
  {
    forall r, s :: r in reg.rooms && s in reg.rooms[r] ==> s in reg.roomOf && reg.roomOf[s] == r
  }

  /** No room lists a session twice. */
  ghost predicate NoRepeats(reg: Registry)
  {
    forall r :: r in reg.rooms ==> AtMostOnce(reg.rooms[r])
  }

  /** The membership invariant: the two session maps share their keys; a
      mapped session is listed in its room; a listed session is mapped to
      that room; and no list holds a session twice. */
  ghost predicate Valid(reg: Registry)
  {
    && reg.roomOf.Keys == reg.userOf.Keys
    && MappedAreListed(reg)
    && ListedAreMapped(reg)
    && NoRepeats(reg)
  }

  /** The part of the invariant about one session: it has a client id just
      when it has a room; if it is in a room, that
      room exists and lists it exactly once; any list holding it belongs to
      the room it is mapped to. */
  ghost predicate Placed(reg: Registry, s: Session)
  {
    && (s in reg.roomOf <==> s in reg.userOf)
    && (s in reg.roomOf ==> reg.roomOf[s] in reg.rooms && multiset(reg.rooms[reg.roomOf[s]])[s] == 1)
    && (forall r :: r in reg.rooms && s in reg.rooms[r] ==> s in reg.roomOf && reg.roomOf[s] == r)
  }

  /** The sessions of a room as `chatRooms.get` sees them: none when the
      room was never created. */
  function Members(reg: Registry, room: string): (m: seq<Session>)
    ensures m != [] ==> room in reg.rooms && m == reg.rooms[room]
  {
    if room in reg.rooms then reg.rooms[room] else []
  }

  /** Every occurrence of `s` removed, the rest in order. */
  function Without(xs: seq<Session>, s: Session): (r: seq<Session>)
    ensures forall t :: t in r <==> t in xs && t != s
  {
    if xs == [] then []
    else
      assert xs == [xs[0]] + xs[1..];
      (if xs[0] == s then [] else [xs[0]]) + Without(xs[1..], s)
  }

  /** The first index of `s`, as `List.indexOf` finds it. */
  function IndexOf(xs: seq<Session>, s: Session): (k: nat)
    requires s in xs
    ensures k < |xs| && xs[k] == s && s !in xs[..k]
  {
    if xs[0] == s then 0
    else
      var k := IndexOf(xs[1..], s);
      assert xs[..k + 1] == [xs[0]] + xs[1..][..k];
      k + 1
  }

  /** `List.remove(Object)`: drops the first occurrence, if any. */
  function RemoveFirst(xs: seq<Session>, s: Session): (r: seq<Session>)
    ensures |r| == (if s in xs then |xs| - 1 else |xs|)
    ensures forall t :: t in r ==> t in xs
  {
    if s in xs then
      var k := IndexOf(xs, s);
      xs[..k] + xs[k + 1..]
    else xs
  }

  /** `List.remove(s)` takes away one occurrence of `s`, if there is one,
      and keeps the count of every other session. */
  lemma RemoveFirstCount(xs: seq<Session>, s: Session)
    ensures multiset(RemoveFirst(xs, s)) == multiset(xs) - multiset{s}
  {
    if s in xs {
      var k := IndexOf(xs, s);
      var pre, post := xs[..k], xs[k + 1..];
      assert xs == pre + [s] + post;
      assert RemoveFirst(xs, s) == pre + post;
      assert multiset(xs) == multiset(pre) + multiset{s} + multiset(post);
    } else {
      assert multiset(xs)[s] == 0;
    }
  }

  /** `chatRooms.putIfAbsent(room, new ArrayList<>())`. */
  function PutIfAbsent(reg: Registry, room: string): (p: Registry)
    ensures p.rooms.Keys == reg.rooms.Keys + {room}
    ensures forall r :: r in reg.rooms ==> p.rooms[r] == reg.rooms[r]
    ensures room !in reg.rooms ==> p.rooms[room] == []
    ensures p.roomOf == reg.roomOf && p.userOf == reg.userOf
  {
    if room in reg.rooms then reg else reg.(rooms := reg.rooms[room := []])
  }

  /** `leaveRoom(session)`: the session is taken out of its room's list and
      out of both session maps; nothing happens when it is in no room. The
      requires is what keeps `chatRooms.get(currentRoom)` from being null. */
  function Leave(reg: Registry, s: Session): (l: Registry)
    requires s in reg.roomOf ==> reg.roomOf[s] in reg.rooms
    ensures l.rooms.Keys == reg.rooms.Keys
    ensures s !in l.roomOf
  {
    if s in reg.roomOf then
      var current := reg.roomOf[s];
      Registry(reg.rooms[current := RemoveFirst(reg.rooms[current], s)],
               reg.roomOf - {s}, reg.userOf - {s})
    else reg
  }

  /** `joinRoom(session, room, clientId)`: create the room if absent, leave
      the previous room, then append the session to the room's list and map
      it to the room and the client id. */
  function Join(reg: Registry, s: Session, room: string, clientId: string): (j: Registry)
    requires s in reg.roomOf ==> reg.roomOf[s] in reg.rooms
    ensures room in j.rooms && s in j.roomOf && j.roomOf[s] == room
  {
    var created := PutIfAbsent(reg, room);
    var left := if s in created.roomOf then Leave(created, s) else created;
    Registry(left.rooms[room := left.rooms[room] + [s]],
             left.roomOf[s := room], left.userOf[s := clientId])
  }

  // ---------------------------------------------------------------------
  // Lists of sessions

  lemma {:induction false} WithoutAbsent(xs: seq<Session>, s: Session)
    requires s !in xs
    ensures Without(xs, s) == xs
    decreases |xs|
  {
    if xs != [] {
      WithoutAbsent(xs[1..], s);
      assert [xs[0]] + xs[1..] == xs;
    }
  }

  /** Removing `s` leaves the count of every other session as it was. */
  lemma {:induction false} WithoutCount(xs: seq<Session>, s: Session, t: Session)
    ensures multiset(Without(xs, s))[t] == if t == s then 0 else multiset(xs)[t]
    decreases |xs|
  {
    if xs != [] {
      WithoutCount(xs[1..], s, t);
      assert xs == [xs[0]] + xs[1..];
    }
  }

  lemma {:induction false} WithoutAppend(a: seq<Session>, b: seq<Session>, s: Session)
    ensures Without(a + b, s) == Without(a, s) + Without(b, s)
    decreases |a|
  {
    if a != [] {
      assert (a + b)[1..] == a[1..] + b;
      WithoutAppend(a[1..], b, s);
    } else {
      assert a + b == b;
    }
  }

  lemma WithoutSnoc(xs: seq<Session>, s: Session)
    ensures Without(Without(xs, s) + [s], s) == Without(xs, s)
  {
    var stay := Without(xs, s);
    WithoutAppend(stay, [s], s);
    WithoutAbsent(stay, s);
    assert Without([s], s) == [];
  }

  /** Dropping the single occurrence of `s` splices the list around it. */
  lemma {:induction false} WithoutSingle(pre: seq<Session>, s: Session, post: seq<Session>)
    requires s !in pre && s !in post
    ensures Without(pre + [s] + post, s) == pre + post
    decreases |pre|
  {
    var xs := pre + [s] + post;
    if pre == [] {
      assert xs[1..] == post;
      WithoutAbsent(post, s);
    } else {
      assert xs[0] == pre[0];
      assert xs[1..] == pre[1..] + [s] + post;
      WithoutSingle(pre[1..], s, post);
      assert [pre[0]] + (pre[1..] + post) == pre + post;
    }
  }

  lemma NothingAfterOnly(xs: seq<Session>, s: Session)
    requires s in xs && multiset(xs)[s] <= 1
    ensures s !in xs[IndexOf(xs, s) + 1..]
  {
    var k := IndexOf(xs, s);
    assert xs == xs[..k] + [s] + xs[k + 1..];
    assert multiset(xs) == multiset(xs[..k]) + multiset{s} + multiset(xs[k + 1..]);
  }

  /** On a list that holds `s` at most once, `List.remove(s)` removes every
      occurrence of `s` and keeps the order of the others. */
  lemma RemoveFirstIsWithout(xs: seq<Session>, s: Session)
    requires multiset(xs)[s] <= 1
    ensures RemoveFirst(xs, s) == Without(xs, s)
  {
    if s in xs {
      var k := IndexOf(xs, s);
      NothingAfterOnly(xs, s);
      assert xs == xs[..k] + [s] + xs[k + 1..];
      WithoutSingle(xs[..k], s, xs[k + 1..]);
    } else {
      WithoutAbsent(xs, s);
    }
  }

  lemma MapUpdateAfterRemove<K, V>(m: map<K, V>, k: K, v: V)
    ensures (m - {k})[k := v] == m[k := v]
  {
  }

  lemma MapRemoveAfterUpdate<K, V>(m: map<K, V>, k: K, v: V)
    ensures m[k := v] - {k} == m - {k}
  {
  }

  // ---------------------------------------------------------------------
  // The membership invariant

  /** The handler starts with three empty maps, which satisfy the invariant. */
  lemma EmptyValid()
    ensures Valid(Empty)
  {
  }

  /** A session that is in a room occurs exactly once in that room's list
      and in no other room's list; a session in no room is listed nowhere. */
  lemma MembershipExactlyOnce(reg: Registry, s: Session)
    requires Valid(reg)
    ensures Placed(reg, s)
    ensures s in reg.roomOf ==> multiset(reg.rooms[reg.roomOf[s]])[s] == 1
    ensures forall r :: r in reg.rooms && s in reg.rooms[r] <==> s in reg.roomOf && r == reg.roomOf[s]
  {
    if s in reg.roomOf {
      var r := reg.roomOf[s];
      assert s in multiset(reg.rooms[r]);
      assert AtMostOnce(reg.rooms[r]);
    }
  }

  /** The list `chatRooms.get(room)` holds exactly the sessions mapped to
      `room`, each once. */
  lemma MembersAreMapped(reg: Registry, room: string)
    requires Valid(reg)
    ensures forall t :: t in Members(reg, room) <==> t in reg.roomOf && reg.roomOf[t] == room
    ensures forall t :: multiset(Members(reg, room))[t] <= 1
  {
    if room in reg.rooms {
      assert AtMostOnce(reg.rooms[room]);
    }
  }

  /** Creating an empty room changes no session's placement. */
  lemma PutIfAbsentPlaced(reg: Registry, room: string, s: Session)
    requires Placed(reg, s)
    ensures Placed(PutIfAbsent(reg, room), s)
  {
  }

  // ---------------------------------------------------------------------
  // leaveRoom

  /** `leaveRoom(s)` takes `s` out of every room's list, keeping the order of
      the others, and out of both session maps; rooms are never removed, not
      even when emptied; other sessions' entries do not change; and it does
      nothing when `s` is in no room. */
  lemma LeaveEffect(reg: Registry, s: Session)
    requires Placed(reg, s)
    ensures Leave(reg, s).rooms.Keys == reg.rooms.Keys
    ensures forall r :: r in reg.rooms ==> Leave(reg, s).rooms[r] == Without(reg.rooms[r], s)
    ensures Leave(reg, s).roomOf == reg.roomOf - {s}
    ensures Leave(reg, s).userOf == reg.userOf - {s}
    ensures s !in reg.roomOf ==> Leave(reg, s) == reg
  {
    var l := Leave(reg, s);
    if s in reg.roomOf {
      var current := reg.roomOf[s];
      RemoveFirstIsWithout(reg.rooms[current], s);
      forall r | r in reg.rooms && r != current
        ensures l.rooms[r] == Without(reg.rooms[r], s)
      {
        WithoutAbsent(reg.rooms[r], s);
      }
    } else {
      assert reg.roomOf - {s} == reg.roomOf;
      assert reg.userOf - {s} == reg.userOf;
      forall r | r in reg.rooms
        ensures l.rooms[r] == Without(reg.rooms[r], s)
      {
        WithoutAbsent(reg.rooms[r], s);
      }
    }
  }

  /** Taking `s` out of every list and out of both maps keeps the invariant. */
  lemma RemovalKeepsValid(reg: Registry, s: Session, l: Registry)
    requires Valid(reg)
    requires l.rooms.Keys == reg.rooms.Keys
    requires forall r :: r in reg.rooms ==> l.rooms[r] == Without(reg.rooms[r], s)
    requires l.roomOf == reg.roomOf - {s} && l.userOf == reg.userOf - {s}
    ensures Valid(l)
  {
    assert MappedAreListed(l) by {
      forall t | t in l.roomOf
        ensures l.roomOf[t] in l.rooms && t in l.rooms[l.roomOf[t]]
      {
        var r := reg.roomOf[t];
        assert t in reg.rooms[r];
        assert l.rooms[r] == Without(reg.rooms[r], s);
      }
    }
    assert ListedAreMapped(l) by {
      forall r, t | r in l.rooms && t in l.rooms[r]
        ensures t in l.roomOf && l.roomOf[t] == r
      {
        assert l.rooms[r] == Without(reg.rooms[r], s);
        assert t in reg.rooms[r] && t != s;
      }
    }
    assert NoRepeats(l) by {
      forall r | r in l.rooms
        ensures AtMostOnce(l.rooms[r])
      {
        assert AtMostOnce(reg.rooms[r]);
        forall t ensures multiset(l.rooms[r])[t] <= 1 {
          WithoutCount(reg.rooms[r], s, t);
        }
      }
    }
  }

  /** `leaveRoom` keeps the membership invariant. */
  lemma LeaveKeepsValid(reg: Registry, s: Session)
    requires Valid(reg)
    ensures Valid(Leave(reg, s))
  {
    MembershipExactlyOnce(reg, s);
    LeaveEffect(reg, s);
    RemovalKeepsValid(reg, s, Leave(reg, s));
  }

  /** `s` removed from every list and from both maps. */
  function Removed(reg: Registry, s: Session): (r: Registry)
    ensures r.rooms.Keys == reg.rooms.Keys
  {
    Registry(map r | r in reg.rooms :: Without(reg.rooms[r], s), reg.roomOf - {s}, reg.userOf - {s})
  }

  /** `leaveRoom` is removal of the session from everything. */
  lemma LeaveIsRemoved(reg: Registry, s: Session)
    requires Placed(reg, s)
    ensures Leave(reg, s) == Removed(reg, s)
  {
    LeaveEffect(reg, s);
    var l, m := Leave(reg, s), Removed(reg, s);
    assert l.rooms == m.rooms;
  }

  // ---------------------------------------------------------------------
  // joinRoom

  /** `s` moved to the end of `room`'s list (which is created when absent)
      and out of every other list, and mapped to `room` and `clientId`. */
  function Inserted(reg: Registry, s: Session, room: string, clientId: string): (j: Registry)
    ensures j.rooms.Keys == reg.rooms.Keys + {room}
  {
    Registry(
      map r | r in reg.rooms.Keys + {room} ::
        if r == room then Without(Members(reg, room), s) + [s] else Without(reg.rooms[r], s),
      reg.roomOf[s := room],
      reg.userOf[s := clientId])
  }

  /** Creating the room leaves the other rooms as they were and gives the
      new one an empty list. */
  lemma PutIfAbsentEffect(reg: Registry, room: string)
    ensures PutIfAbsent(reg, room) == reg.(rooms := reg.rooms[room := Members(reg, room)])
  {
    if room in reg.rooms {
      assert reg.rooms[room := reg.rooms[room]] == reg.rooms;
    }
  }

  /** `joinRoom` is removal from the registry with the room created,
      followed by appending to the room and updating both maps. */
  lemma JoinViaRemoved(reg: Registry, s: Session, room: string, clientId: string)
    requires Placed(reg, s)
    ensures var left := Removed(PutIfAbsent(reg, room), s);
      Join(reg, s, room, clientId) ==
        Registry(left.rooms[room := left.rooms[room] + [s]], left.roomOf[s := room], left.userOf[s := clientId])
  {
    var created := PutIfAbsent(reg, room);
    PutIfAbsentPlaced(reg, room, s);
    LeaveIsRemoved(created, s);
    LeaveEffect(created, s);
  }

  /** The facts `Inserted` is made of, one field at a time. */
  lemma InsertedEffect(reg: Registry, s: Session, room: string, clientId: string)
    ensures Inserted(reg, s, room, clientId).rooms[room] == Without(Members(reg, room), s) + [s]
    ensures forall r :: r in reg.rooms && r != room ==>
      Inserted(reg, s, room, clientId).rooms[r] == Without(reg.rooms[r], s)
    ensures Inserted(reg, s, room, clientId).roomOf == reg.roomOf[s := room]
    ensures Inserted(reg, s, room, clientId).userOf == reg.userOf[s := clientId]
  {
  }

  /** Appending `s` to its room after removing it everywhere gives the
      lists of `Inserted`. */
  lemma AppendedIsInserted(reg: Registry, s: Session, room: string, clientId: string)
    ensures var left := Removed(PutIfAbsent(reg, room), s);
      left.rooms[room := left.rooms[room] + [s]] == Inserted(reg, s, room, clientId).rooms
  {
    var left := Removed(PutIfAbsent(reg, room), s);
    var appended, i := left.rooms[room := left.rooms[room] + [s]], Inserted(reg, s, room, clientId).rooms;
    assert appended.Keys == i.Keys;
    forall r | r in appended
      ensures appended[r] == i[r]
    {
      AppendedAt(reg, s, room, r);
    }
  }

  /** One room's list after removing `s` everywhere and appending it to
      `room`. */
  lemma AppendedAt(reg: Registry, s: Session, room: string, r: string)
    requires r in reg.rooms || r == room
    ensures var left := Removed(PutIfAbsent(reg, room), s);
      left.rooms[room := left.rooms[room] + [s]][r] ==
        if r == room then Without(Members(reg, room), s) + [s] else Without(reg.rooms[r], s)
  {
    var created := PutIfAbsent(reg, room);
    assert created.rooms[room] == Members(reg, room);
    assert r != room ==> created.rooms[r] == reg.rooms[r];
  }

  /** `joinRoom` is the move described by `Inserted`. */
  lemma JoinIsInserted(reg: Registry, s: Session, room: string, clientId: string)
    requires Placed(reg, s)
    ensures Join(reg, s, room, clientId) == Inserted(reg, s, room, clientId)
  {
    var created := PutIfAbsent(reg, room);
    PutIfAbsentEffect(reg, room);
    var left := Removed(created, s);
    JoinViaRemoved(reg, s, room, clientId);
    var i := Inserted(reg, s, room, clientId);
    assert left.rooms[room := left.rooms[room] + [s]] == i.rooms by {
      AppendedIsInserted(reg, s, room, clientId);
    }
    assert left.roomOf[s := room] == i.roomOf by {
      MapUpdateAfterRemove(reg.roomOf, s, room);
    }
    assert left.userOf[s := clientId] == i.userOf by {
      MapUpdateAfterRemove(reg.userOf, s, clientId);
    }
  }

  /** `joinRoom(s, room, c)`: `room` exists and its list is its old list
      without `s`, followed by `s`; every other room's list loses `s` and
      nothing else; `s` maps to `room` and to `c`; other sessions' entries do
      not change; the only room key that may appear is `room`. */
  lemma JoinEffect(reg: Registry, s: Session, room: string, clientId: string)
    requires Placed(reg, s)
    ensures Join(reg, s, room, clientId).rooms.Keys == reg.rooms.Keys + {room}
    ensures Join(reg, s, room, clientId).rooms[room] == Without(Members(reg, room), s) + [s]
    ensures forall r :: r in reg.rooms && r != room ==>
      Join(reg, s, room, clientId).rooms[r] == Without(reg.rooms[r], s)
    ensures Join(reg, s, room, clientId).roomOf == reg.roomOf[s := room]
    ensures Join(reg, s, room, clientId).userOf == reg.userOf[s := clientId]
  {
    JoinIsInserted(reg, s, room, clientId);
  }

  /** After the move no list holds a session twice. */
  lemma InsertionNoRepeats(reg: Registry, s: Session, room: string, j: Registry)
    requires NoRepeats(reg)
    requires j.rooms.Keys == reg.rooms.Keys + {room}
    requires j.rooms[room] == Without(Members(reg, room), s) + [s]
    requires forall r :: r in reg.rooms && r != room ==> j.rooms[r] == Without(reg.rooms[r], s)
    ensures NoRepeats(j)
  {
    var stay := Without(Members(reg, room), s);
    forall r | r in j.rooms
      ensures AtMostOnce(j.rooms[r])
    {
      if r == room {
        assert room in reg.rooms ==> AtMostOnce(reg.rooms[room]);
        forall t ensures multiset(j.rooms[room])[t] <= 1 {
          WithoutCount(Members(reg, room), s, t);
          assert multiset(j.rooms[room])[t] == multiset(stay)[t] + multiset([s])[t];
        }
      } else {
        assert AtMostOnce(reg.rooms[r]);
        forall t ensures multiset(j.rooms[r])[t] <= 1 {
          WithoutCount(reg.rooms[r], s, t);
        }
      }
    }
  }

  /** After the move every listed session is mapped to its list's room. */
  lemma InsertionListedAreMapped(reg: Registry, s: Session, room: string, clientId: string, j: Registry)
    requires ListedAreMapped(reg)
    requires j.rooms.Keys == reg.rooms.Keys + {room}
    requires j.rooms[room] == Without(Members(reg, room), s) + [s]
    requires forall r :: r in reg.rooms && r != room ==> j.rooms[r] == Without(reg.rooms[r], s)
    requires j.roomOf == reg.roomOf[s := room]
    ensures ListedAreMapped(j)
  {
    var stay := Without(Members(reg, room), s);
    forall r, t | r in j.rooms && t in j.rooms[r]
      ensures t in j.roomOf && j.roomOf[t] == r
    {
      if r == room {
        if t != s {
          assert t in stay;
          assert t in Members(reg, room);
        }
      } else {
        assert t in reg.rooms[r];
      }
    }
  }

  /** After the move every mapped session is listed in its room. */
  lemma InsertionMappedAreListed(reg: Registry, s: Session, room: string, j: Registry)
    requires MappedAreListed(reg)
    requires j.rooms.Keys == reg.rooms.Keys + {room}
    requires j.rooms[room] == Without(Members(reg, room), s) + [s]
    requires forall r :: r in reg.rooms && r != room ==> j.rooms[r] == Without(reg.rooms[r], s)
    requires j.roomOf == reg.roomOf[s := room]
    ensures MappedAreListed(j)
  {
    var stay := Without(Members(reg, room), s);
    forall t | t in j.roomOf
      ensures j.roomOf[t] in j.rooms && t in j.rooms[j.roomOf[t]]
    {
      if t != s {
        var r := reg.roomOf[t];
        assert t in reg.rooms[r];
        if r == room {
          assert t in stay;
        } else {
          assert t in j.rooms[r];
        }
      }
    }
  }

  /** Putting `s` last in `room`'s list, and taking it out of every other
      list, keeps the invariant. */
  lemma InsertionKeepsValid(reg: Registry, s: Session, room: string, clientId: string)
    requires Valid(reg)
    ensures Valid(Inserted(reg, s, room, clientId))
  {
    var j := Inserted(reg, s, room, clientId);
    InsertedEffect(reg, s, room, clientId);
    InsertionNoRepeats(reg, s, room, j);
    InsertionListedAreMapped(reg, s, room, clientId, j);
    InsertionMappedAreListed(reg, s, room, j);
  }

  /** `joinRoom` keeps the membership invariant. */
  lemma JoinKeepsValid(reg: Registry, s: Session, room: string, clientId: string)
    requires Valid(reg)
    ensures Valid(Join(reg, s, room, clientId))
  {
    MembershipExactlyOnce(reg, s);
    JoinIsInserted(reg, s, room, clientId);
    InsertionKeepsValid(reg, s, room, clientId);
  }

  /** After the move the session is placed in its new room. */
  lemma InsertedPlaced(reg: Registry, s: Session, room: string, clientId: string)
    ensures Placed(Inserted(reg, s, room, clientId), s)
  {
    var j := Inserted(reg, s, room, clientId);
    var stay := Without(Members(reg, room), s);
    assert s !in stay;
    assert multiset(j.rooms[room])[s] == multiset(stay)[s] + multiset([s])[s];
  }

  /** Dropping the one occurrence of `s` shortens the list by one and
      takes one `s` out of its multiset. */
  lemma WithoutOnce(xs: seq<Session>, s: Session)
    requires multiset(xs)[s] == 1
    ensures multiset(Without(xs, s)) == multiset(xs) - multiset{s}
    ensures |Without(xs, s)| == |xs| - 1
  {
    RemoveFirstIsWithout(xs, s);
    RemoveFirstCount(xs, s);
    assert |multiset(Without(xs, s))| == |multiset(xs)| - 1;
  }

  /** Rejoining the room one is in moves the session to the end of the list
      without duplicating it. */
  lemma RejoinMovesToEnd(reg: Registry, s: Session, clientId: string)
    requires Valid(reg) && s in reg.roomOf
    ensures var room := reg.roomOf[s];
      var after := Join(reg, s, room, clientId).rooms[room];
      && |after| == |reg.rooms[room]|
      && after[|after| - 1] == s
      && multiset(after) == multiset(reg.rooms[room])
  {
    var room := reg.roomOf[s];
    var xs := reg.rooms[room];
    MembershipExactlyOnce(reg, s);
    JoinEffect(reg, s, room, clientId);
    WithoutOnce(xs, s);
  }

  /** Removing `s` erases the difference between a registry and the one
      with `s` moved to the end of `room`. */
  lemma RemovedUndoesInsertion(reg: Registry, s: Session, room: string, clientId: string)
    ensures Removed(Inserted(reg, s, room, clientId), s) == Removed(PutIfAbsent(reg, room), s)
  {
    var j := Inserted(reg, s, room, clientId);
    var created := PutIfAbsent(reg, room);
    PutIfAbsentEffect(reg, room);
    var a, b := Removed(j, s), Removed(created, s);
    assert a.rooms == b.rooms by {
      forall r | r in a.rooms ensures a.rooms[r] == b.rooms[r] {
        if r == room {
          WithoutSnoc(Members(reg, room), s);
        } else {
          WithoutAbsent(Without(reg.rooms[r], s), s);
        }
      }
    }
    MapRemoveAfterUpdate(reg.roomOf, s, room);
    MapRemoveAfterUpdate(reg.userOf, s, clientId);
  }

  /** Leaving undoes joining: apart from the room that joining may have
      created, it is as if the session had only left. */
  lemma LeaveUndoesJoin(reg: Registry, s: Session, room: string, clientId: string)
    requires Placed(reg, s)
    ensures Leave(Join(reg, s, room, clientId), s) == Leave(PutIfAbsent(reg, room), s)
  {
    var j := Inserted(reg, s, room, clientId);
    var created := PutIfAbsent(reg, room);
    JoinIsInserted(reg, s, room, clientId);
    assert Leave(j, s) == Removed(j, s) by {
      InsertedPlaced(reg, s, room, clientId);
      LeaveIsRemoved(j, s);
    }
    assert Leave(created, s) == Removed(created, s) by {
      PutIfAbsentPlaced(reg, room, s);
      LeaveIsRemoved(created, s);
    }
    RemovedUndoesInsertion(reg, s, room, clientId);
  }
}
