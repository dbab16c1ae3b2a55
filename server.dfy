/**
 * The relay as the running process holds it: one registry of rooms, the
 * closure state of every connection, and the frames handed to `ws.send`, all
 * updated in place by the event handlers. Each method is proved to leave the
 * server in the state the corresponding function of module Relay computes.
 * The handler methods also keep the invariant `Relay.Valid`; the helpers run
 * in the middle of a handler, where it need not hold.
 */
module Server {
  import opened Wrappers
  import opened RoomCodes
  import opened Protocol
  import opened Relay
  import RelayProperties

  class RelayServer {
    /** The `rooms` map: code to members in insertion order. */
    var rooms: map<string, seq<ConnId>>
    /** Per connection: `currentRoom`, `userData` and whether the socket is OPEN. */
    var conns: map<ConnId, Conn>
    /** Every frame sent, in order. */
    var outbox: seq<Delivery>
    /** The identity the next accepted socket gets. */
    var nextId: nat

    function Snapshot(): State
      reads this
    {
      State(rooms, conns, outbox)
    }

    /** The relay's invariant, and every known connection was handed out. */
    predicate Valid()
      reads this
    {
      Relay.Valid(Snapshot()) && forall c :: c in conns ==> c < nextId
    }

    constructor()
      ensures Valid() && Snapshot() == Initial && nextId == 0
    {
      rooms := map[];
      conns := map[];
      outbox := [];
      nextId := 0;
    }

    /** The `connection` handler: a fresh socket with the default identity. */
    method Connect() returns (c: ConnId)
      requires Valid()
      modifies this
      ensures Valid()
      ensures c == old(nextId) && nextId == old(nextId) + 1
      ensures Snapshot() == Relay.Connect(old(Snapshot()), c)
    {
      c := nextId;
      RelayProperties.ConnectKeepsValid(Snapshot(), c);
      conns := conns[c := Conn(None, DefaultUser, true)];
      nextId := nextId + 1;
    }

    /** `getRoom`: the room under `code`, created empty when absent. */
    method GetRoom(code: string) returns (room: seq<ConnId>)
      modifies this`rooms
      ensures Snapshot() == Relay.GetRoom(old(Snapshot()), code)
      ensures room == rooms[code]
    {
      if code !in rooms {
        rooms := rooms[code := []];
      }
      room := rooms[code];
    }

    /** `room.set(ws, userData)` on the room registered under `code`. */
    method SetMember(code: string, c: ConnId)
      modifies this`rooms
      ensures Snapshot() == AddMember(old(Snapshot()), code, c)
    {
      if code in rooms && c !in rooms[code] {
        rooms := rooms[code := rooms[code] + [c]];
      }
    }

    /** `cleanupRoom`. */
    method CleanupRoom(code: string)
      modifies this`rooms
      ensures Snapshot() == Relay.CleanupRoom(old(Snapshot()), code)
    {
      if code in rooms && |rooms[code]| == 0 {
        rooms := rooms - {code};
      }
    }

    /** `broadcastToRoom`: one pass over the members in order, sending to
        each open one that is not `ex`. */
    method BroadcastToRoom(code: string, m: Msg, ex: Option<ConnId>)
      modifies this`outbox
      ensures Snapshot() == Relay.BroadcastToRoom(old(Snapshot()), code, m, ex)
    {
      if code !in rooms {
        return;
      }
      var room := rooms[code];
      var i := 0;
      while i < |room|
        invariant 0 <= i <= |room|
        invariant outbox == old(outbox) + Fanout(room[..i], conns, m, ex)
      {
        var w := room[i];
        assert room[..i + 1][..i] == room[..i];
        if ex != Some(w) && IsOpen(conns, w) {
          outbox := outbox + [Delivery(w, m)];
        }
        i := i + 1;
      }
      assert room[..i] == room;
    }

    /** `broadcastUserList`: collect the members' name and colour in order,
        then broadcast the list to the room. */
    method BroadcastUserList(code: string)
      modifies this`outbox
      ensures Snapshot() == Relay.BroadcastUserList(old(Snapshot()), code)
    {
      if code !in rooms {
        return;
      }
      var room := rooms[code];
      var users: seq<User> := [];
      var i := 0;
      while i < |room|
        invariant 0 <= i <= |room|
        invariant users == Roster(room[..i], conns)
      {
        assert room[..i + 1][..i] == room[..i];
        users := users + [UserOf(conns, room[i])];
        i := i + 1;
      }
      assert room[..i] == room;
      BroadcastToRoom(code, UserList(users, code), None);
    }

    /** The departure steps shared by `joinRoom`, `leaveRoom` and `close`:
        delete the socket from the room, tell the rest, send the roster,
        clean up. */
    method Depart(c: ConnId, code: string, notice: string)
      requires code in rooms
      modifies this`rooms, this`outbox
      ensures Snapshot() == Relay.Depart(old(Snapshot()), c, code, notice)
    {
      rooms := rooms[code := Without(rooms[code], c)];
      BroadcastToRoom(code, System(notice), None);
      BroadcastUserList(code);
      CleanupRoom(code);
    }

    /** `createRoom`'s retry loop: draw a code, and draw again while the
        registry already has it. `attempts` holds the generator's draws for
        each try; one of them must give a free code. */
    method PickCode(attempts: seq<seq<nat>>) returns (code: string)
      requires ValidAttempts(attempts) && SomeAttemptFree(rooms.Keys, attempts)
      ensures code !in rooms && IsGeneratedCode(code)
      ensures code == FirstFreeCode(rooms.Keys, attempts)
    {
      ghost var k :| 0 <= k < |attempts| && CodeFromDraws(attempts[k]) !in rooms.Keys;
      var i := 0;
      code := GenerateRoomCode(attempts[0]);
      while code in rooms
        invariant 0 <= i <= k && code == CodeFromDraws(attempts[i])
        invariant CodeFromDraws(attempts[i..][k - i]) !in rooms.Keys
        invariant FirstFreeCode(rooms.Keys, attempts[i..]) == FirstFreeCode(rooms.Keys, attempts)
        decreases k - i
      {
        assert attempts[i..][1..] == attempts[i + 1..];
        i := i + 1;
        code := GenerateRoomCode(attempts[i]);
      }
    }

    /** `createRoom`: pick a free code, register the room with the sender in
        it, confirm, and send the roster. */
    method CreateRoom(c: ConnId, attempts: seq<seq<nat>>)
      requires Valid() && c in conns
      requires ValidAttempts(attempts) && SomeAttemptFree(rooms.Keys, attempts)
      modifies this`rooms, this`conns, this`outbox
      ensures Valid()
      ensures Snapshot() == Relay.CreateRoom(old(Snapshot()), c, FirstFreeCode(old(rooms).Keys, attempts))
    {
      var code := PickCode(attempts);
      ghost var s := Snapshot();
      RelayProperties.CreateRoomKeepsValid(s, c, code);
      conns := conns[c := conns[c].(room := Some(code))];
      ghost var s1 := SetConn(s, c, s.conns[c].(room := Some(code)));
      assert Snapshot() == s1;
      var room := GetRoom(code);
      SetMember(code, c);
      ghost var s2 := AddMember(Relay.GetRoom(s1, code), code, c);
      assert Snapshot() == s2;
      outbox := outbox + [Delivery(c, RoomCreated(code, RoomCreatedText(code)))];
      BroadcastUserList(code);
    }

    /** `joinRoom`: validate the code, refuse an unknown or full room, then
        leave the current room and enter the new one. */
    method JoinRoom(c: ConnId, raw: Option<string>)
      requires Valid() && c in conns
      modifies this`rooms, this`conns, this`outbox
      ensures Valid()
      ensures Snapshot() == Relay.JoinRoom(old(Snapshot()), c, raw)
    {
      RelayProperties.JoinRoomKeepsValid(Snapshot(), c, raw);
      if raw.None? {
        return;
      }
      var code := NormalizeRoomCode(raw.value);
      if !MatchesCodePattern(code) {
        outbox := outbox + [Delivery(c, Error(InvalidCodeText))];
        return;
      }
      if code !in rooms {
        outbox := outbox + [Delivery(c, Error(RoomNotFoundText))];
        return;
      }
      if |rooms[code]| >= MaxUsersPerRoom {
        outbox := outbox + [Delivery(c, Error(RoomFullText))];
        return;
      }
      Admit(c, code);
    }

    /** The admitted branch of `joinRoom`. */
    method Admit(c: ConnId, code: string)
      requires c in conns && code in rooms
      modifies this`rooms, this`conns, this`outbox
      ensures Snapshot() == Relay.Admit(old(Snapshot()), c, code)
    {
      var me := conns[c];
      if me.room.Some? && me.room.value in rooms {
        Depart(c, me.room.value, LeftNotice(me.user.name));
      }
      assert Snapshot() == LeavePrevious(old(Snapshot()), c);
      conns := conns[c := me.(room := Some(code))];
      SetMember(code, c);
      outbox := outbox + [Delivery(c, RoomJoined(code, RoomJoinedText(code)))];
      BroadcastToRoom(code, System(JoinedNotice(me.user.name)), Some(c));
      BroadcastUserList(code);
    }

    /** `setName`. */
    method SetName(c: ConnId, raw: Option<string>)
      requires Valid() && c in conns
      modifies this`rooms, this`conns, this`outbox
      ensures Valid()
      ensures Snapshot() == Relay.SetName(old(Snapshot()), c, raw)
    {
      ghost var s := Snapshot();
      RelayProperties.SetNameKeepsValid(s, c, raw);
      if raw.None? {
        return;
      }
      var me := conns[c];
      var name := NormalizeName(raw.value);
      conns := conns[c := me.(user := me.user.(name := name))];
      ghost var s1 := SetConn(s, c, me.(user := me.user.(name := name)));
      assert Snapshot() == s1;
      if me.room.Some? {
        var code := me.room.value;
        Announce(c, code, RenameNotice(me.user.name, name));
        assert Relay.SetName(s, c, raw) == Relay.BroadcastUserList(Relay.BroadcastToRoom(AddMember(s1, code, c), code, System(RenameNotice(me.user.name, name)), None), code);
      }
    }

    /** The in-room part of `setName`: re-set the member entry, then send the
        notice and the roster to the room. */
    method Announce(c: ConnId, code: string, notice: string)
      requires c in conns
      modifies this`rooms, this`outbox
      ensures Snapshot() == Relay.BroadcastUserList(Relay.BroadcastToRoom(AddMember(old(Snapshot()), code, c), code, System(notice), None), code)
    {
      SetMember(code, c);
      BroadcastToRoom(code, System(notice), None);
      BroadcastUserList(code);
    }

    /** `setColor`. */
    method SetColor(c: ConnId, color: string)
      requires Valid() && c in conns
      modifies this`rooms, this`conns, this`outbox
      ensures Valid()
      ensures Snapshot() == Relay.SetColor(old(Snapshot()), c, color)
    {
      RelayProperties.SetColorKeepsValid(Snapshot(), c, color);
      var me := conns[c];
      conns := conns[c := me.(user := me.user.(color := color))];
      if me.room.Some? {
        SetMember(me.room.value, c);
        BroadcastUserList(me.room.value);
      }
    }

    /** `chat`: refuse outside a room, drop empty text, otherwise send the
        stamped message to every open member, the sender included. */
    method Chat(c: ConnId, raw: Option<string>, now: int)
      requires Valid() && c in conns
      modifies this`outbox
      ensures Valid()
      ensures Snapshot() == ChatMessage(old(Snapshot()), c, raw, now)
    {
      RelayProperties.ChatKeepsValid(Snapshot(), c, raw, now);
      var me := conns[c];
      if me.room.None? {
        outbox := outbox + [Delivery(c, Error(NotInRoomText))];
        return;
      }
      if raw.None? {
        return;
      }
      var text := NormalizeChatText(raw.value);
      if text == "" {
        return;
      }
      BroadcastToRoom(me.room.value, Msg.Chat(me.user.name, me.user.color, text, now), None);
    }

    /** `leaveRoom`. */
    method LeaveRoom(c: ConnId)
      requires Valid() && c in conns
      modifies this`rooms, this`conns, this`outbox
      ensures Valid()
      ensures Snapshot() == Relay.LeaveRoom(old(Snapshot()), c)
    {
      RelayProperties.LeaveRoomKeepsValid(Snapshot(), c);
      var me := conns[c];
      if me.room.Some? && me.room.value in rooms {
        Depart(c, me.room.value, LeftNotice(me.user.name));
        outbox := outbox + [Delivery(c, RoomLeft(RoomLeftText))];
        conns := conns[c := me.(room := None)];
      }
    }

    /** The `close` handler. */
    method Close(c: ConnId)
      requires Valid() && c in conns
      modifies this`rooms, this`conns, this`outbox
      ensures Valid()
      ensures Snapshot() == Relay.Close(old(Snapshot()), c)
    {
      RelayProperties.CloseKeepsValid(Snapshot(), c);
      var me := conns[c];
      conns := conns[c := me.(open := false)];
      if me.room.Some? && me.room.value in rooms {
        Depart(c, me.room.value, DisconnectedNotice(me.user.name));
      }
    }

    /** The `message` handler's dispatch on the frame's type. */
    method HandleMessage(c: ConnId, cmd: Command, attempts: seq<seq<nat>>, now: int)
      requires Valid() && c in conns
      requires cmd.CreateRoomCmd? ==> ValidAttempts(attempts) && SomeAttemptFree(rooms.Keys, attempts)
      modifies this`rooms, this`conns, this`outbox
      ensures Valid()
      ensures Snapshot() == Step(old(Snapshot()), c, cmd, attempts, now)
    {
      match cmd
      case CreateRoomCmd => CreateRoom(c, attempts);
      case JoinRoomCmd(raw) => JoinRoom(c, raw);
      case SetNameCmd(raw) => SetName(c, raw);
      case SetColorCmd(color) => SetColor(c, color);
      case ChatCmd(raw) => Chat(c, raw, now);
      case LeaveRoomCmd => LeaveRoom(c);
      case UnknownCmd(_) =>
      case Unparsable =>
    }

    /** The SIGINT handler's fan-out: every registered room, once each, gets
        the shutdown notice. The registry's iteration order is not modelled:
        `order` records the order the loop chose. */
    method Shutdown() returns (ghost order: seq<string>)
      modifies this`outbox
      ensures forall code :: code in order <==> code in rooms
      ensures forall i, j :: 0 <= i < j < |order| ==> order[i] != order[j]
      ensures outbox == old(outbox) + ShutdownNotices(rooms, conns, order)
    {
      var pending := rooms.Keys;
      order := [];
      while pending != {}
        invariant forall code :: code in rooms <==> code in pending || code in order
        invariant forall code :: code in order ==> code !in pending
        invariant forall i, j :: 0 <= i < j < |order| ==> order[i] != order[j]
        invariant outbox == old(outbox) + ShutdownNotices(rooms, conns, order)
        decreases |pending|
      {
        var code :| code in pending;
        ghost var before := Snapshot();
        BroadcastToRoom(code, System(ShutdownText), None);
        ShutdownBroadcastExtends(before, old(outbox), order, code);
        order := order + [code];
        pending := pending - {code};
      }
    }
  }
}
