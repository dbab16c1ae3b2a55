/**
 * What the relay promises, proved about the step functions of module Relay:
 * who receives which event, what each command does to the registry, and the
 * registry invariant every event keeps.
 */
module RelayProperties {
  import opened Wrappers
  import opened Text
  import opened RoomCodes
  import opened Protocol
  import opened Relay

  /** The frames a step appended. */
  function Added(s: State, r: State): seq<Delivery>
    requires |s.outbox| <= |r.outbox|
  {
    r.outbox[|s.outbox|..]
  }

  /** `broadcastToRoom` appends `m` for exactly the open members of the room
      other than `ex`, once each, and nothing when the room does not exist. */
  lemma BroadcastToRoomSpec(s: State, code: string, m: Msg, ex: Option<ConnId>)
    ensures var r := BroadcastToRoom(s, code, m, ex);
      && (forall d :: d in Added(s, r) <==>
            code in s.rooms && d.msg == m && d.to in s.rooms[code] && IsOpen(s.conns, d.to) && ex != Some(d.to))
      && (code in s.rooms && NoDup(s.rooms[code]) ==>
            forall i, j :: 0 <= i < j < |Added(s, r)| ==> Added(s, r)[i].to != Added(s, r)[j].to)
  {
    var r := BroadcastToRoom(s, code, m, ex);
    if code in s.rooms {
      FanoutSpec(s.rooms[code], s.conns, m, ex);
      assert Added(s, r) == Fanout(s.rooms[code], s.conns, m, ex);
    } else {
      assert Added(s, r) == [];
    }
  }

  lemma AddedSplits(s: State, m: State, r: State)
    requires s.outbox <= m.outbox <= r.outbox
    ensures Added(s, r) == Added(s, m) + Added(m, r)
  {
  }

  lemma HeadOrTail(ds: seq<Delivery>)
    requires ds != []
    ensures forall d :: d in ds ==> d == ds[0] || d in ds[1..]
  {
    assert ds == [ds[0]] + ds[1..];
  }

  predicate Consistent(s: State, code: string) {
    code in s.rooms && NoDup(s.rooms[code])
  }

  /** Leaving a room removes only the leaver, deletes the room exactly when
      nobody is left, and sends exactly the remaining open members the notice
      and the roster of those who remain. */
  lemma DepartSpec(s: State, c: ConnId, code: string, notice: string)
    requires Consistent(s, code)
    ensures var r := Depart(s, c, code, notice);
      && r.conns == s.conns
      && r.rooms - {code} == s.rooms - {code}
      && (code in r.rooms <==> Without(s.rooms[code], c) != [])
      && (code in r.rooms ==> r.rooms[code] == Without(s.rooms[code], c) && c !in r.rooms[code])
      && s.outbox <= r.outbox
      && (forall w :: Delivery(w, System(notice)) in Added(s, r) <==>
            w in s.rooms[code] && w != c && IsOpen(s.conns, w))
      && (forall w :: Delivery(w, UserList(Roster(Without(s.rooms[code], c), s.conns), code)) in Added(s, r) <==>
            w in s.rooms[code] && w != c && IsOpen(s.conns, w))
      && (forall d :: d in Added(s, r) ==>
            d.msg == System(notice) || d.msg == UserList(Roster(Without(s.rooms[code], c), s.conns), code))
      && OnceEach(Added(s, r), System(notice))
  {
    var left := Without(s.rooms[code], c);
    var s1 := s.(rooms := s.rooms[code := left]);
    var s2 := BroadcastToRoom(s1, code, System(notice), None);
    var s3 := BroadcastUserList(s2, code);
    var r := CleanupRoom(s3, code);
    assert r == Depart(s, c, code, notice);
    assert Added(s, r) == Added(s, s2) + Added(s2, s3);
    BroadcastToRoomSpec(s1, code, System(notice), None);
    BroadcastToRoomSpec(s2, code, UserList(Roster(left, s.conns), code), None);
    NoticesBeforeOthers(Added(s, s2), Added(s2, s3), System(notice));
  }

  /** Frames that send `m` at most once to each connection, followed by
      frames that do not carry `m`, still do. */
  lemma NoticesBeforeOthers(a: seq<Delivery>, b: seq<Delivery>, m: Msg)
    requires OnceEach(a, m)
    requires forall d :: d in b ==> d.msg != m
    ensures OnceEach(a + b, m)
  {
    var ds := a + b;
    forall k | |a| <= k < |ds|
      ensures ds[k].msg != m
    {
      assert ds[k] == b[k - |a|] && b[k - |a|] in b;
    }
    forall i, j | 0 <= i < j < |ds| && ds[i].msg == m && ds[j].msg == m
      ensures ds[i].to != ds[j].to
    {
      assert ds[i] == a[i] && ds[j] == a[j];
    }
  }

  /** Frames that do not carry `m`, followed by frames that send `m` at most
      once to each connection, still do. */
  lemma NoticesAfterOthers(a: seq<Delivery>, b: seq<Delivery>, m: Msg)
    requires forall d :: d in a ==> d.msg != m
    requires OnceEach(b, m)
    ensures OnceEach(a + b, m)
  {
    var ds := a + b;
    forall k | 0 <= k < |a|
      ensures ds[k].msg != m
    {
      assert ds[k] == a[k] && a[k] in a;
    }
    forall i, j | 0 <= i < j < |ds| && ds[i].msg == m && ds[j].msg == m
      ensures ds[i].to != ds[j].to
    {
      assert ds[i] == b[i - |a|] && ds[j] == b[j - |a|];
    }
  }

  lemma DepartKeepsValid(s: State, c: ConnId, code: string, notice: string)
    requires Valid(s) && code in s.rooms
    ensures Valid(Depart(s, c, code, notice))
  {
    DepartSpec(s, c, code, notice);
    var r := Depart(s, c, code, notice);
    forall k | k in r.rooms
      ensures IsGeneratedCode(k) && r.rooms[k] != [] && NoDup(r.rooms[k])
    {
      if k != code {
        assert k in s.rooms - {code};
      }
    }
  }

  lemma LeavePreviousKeepsValid(s: State, c: ConnId)
    requires Valid(s) && c in s.conns
    ensures Valid(LeavePrevious(s, c))
  {
    var me := s.conns[c];
    if me.room.Some? && me.room.value in s.rooms {
      DepartKeepsValid(s, c, me.room.value, LeftNotice(me.user.name));
    }
  }

  /** Entering a registered room keeps the invariant. */
  lemma AddMemberKeepsValid(s: State, code: string, c: ConnId)
    requires Valid(s) && c in s.conns
    ensures Valid(AddMember(s, code, c))
  {
    var r := AddMember(s, code, c);
    forall k | k in r.rooms
      ensures IsGeneratedCode(k) && r.rooms[k] != [] && NoDup(r.rooms[k])
    {
      if k != code {
        assert k in s.rooms - {code};
      }
    }
  }

  /** A new connection starts outside every room. */
  lemma ConnectKeepsValid(s: State, c: ConnId)
    requires Valid(s) && c !in s.conns
    ensures Valid(Connect(s, c))
    ensures Connect(s, c).rooms == s.rooms
    ensures Connect(s, c).conns.Keys == s.conns.Keys + {c}
  {
  }

  lemma CreateRoomKeepsValid(s: State, c: ConnId, code: string)
    requires Valid(s) && c in s.conns && code !in s.rooms && IsGeneratedCode(code)
    ensures Valid(CreateRoom(s, c, code))
    ensures CreateRoom(s, c, code).conns.Keys == s.conns.Keys
  {
    var s1 := SetConn(s, c, s.conns[c].(room := Some(code)));
    var s2 := GetRoom(s1, code);
    var r := CreateRoom(s, c, code);
    assert r.rooms == AddMember(s2, code, c).rooms;
    forall k | k in r.rooms
      ensures IsGeneratedCode(k) && r.rooms[k] != [] && NoDup(r.rooms[k])
    {
      if k != code {
        assert k in s.rooms - {code};
      }
    }
  }

  lemma AdmitKeepsValid(s: State, c: ConnId, code: string)
    requires Valid(s) && c in s.conns && code in s.rooms
    ensures Valid(Admit(s, c, code))
  {
    var me := s.conns[c];
    var s1 := LeavePrevious(s, c);
    LeavePreviousKeepsValid(s, c);
    var s2 := SetConn(s1, c, me.(room := Some(code)));
    var s3 := AddMember(s2, code, c);
    AddMemberKeepsValid(s2, code, c);
    var s4 := Send(s3, c, RoomJoined(code, RoomJoinedText(code)));
    var s5 := BroadcastToRoom(s4, code, System(JoinedNotice(me.user.name)), Some(c));
    assert s5.rooms == s3.rooms && s5.conns == s3.conns;
  }

  lemma JoinRoomKeepsValid(s: State, c: ConnId, raw: Option<string>)
    requires Valid(s) && c in s.conns
    ensures Valid(JoinRoom(s, c, raw))
    ensures JoinRoom(s, c, raw).conns.Keys == s.conns.Keys
  {
    if raw.Some? {
      var code := NormalizeRoomCode(raw.value);
      if MatchesCodePattern(code) && code in s.rooms && |s.rooms[code]| < MaxUsersPerRoom {
        AdmitKeepsValid(s, c, code);
      }
    }
  }

  lemma SetNameKeepsValid(s: State, c: ConnId, raw: Option<string>)
    requires Valid(s) && c in s.conns
    ensures Valid(SetName(s, c, raw))
    ensures SetName(s, c, raw).conns.Keys == s.conns.Keys
  {
    if raw.Some? {
      var me := s.conns[c];
      var s1 := SetConn(s, c, me.(user := me.user.(name := NormalizeName(raw.value))));
      if me.room.Some? {
        AddMemberKeepsValid(s1, me.room.value, c);
      }
    }
  }

  lemma SetColorKeepsValid(s: State, c: ConnId, color: string)
    requires Valid(s) && c in s.conns
    ensures Valid(SetColor(s, c, color))
    ensures SetColor(s, c, color).conns.Keys == s.conns.Keys
  {
    var me := s.conns[c];
    var s1 := SetConn(s, c, me.(user := me.user.(color := color)));
    if me.room.Some? {
      AddMemberKeepsValid(s1, me.room.value, c);
    }
  }

  lemma ChatKeepsValid(s: State, c: ConnId, raw: Option<string>, now: int)
    requires Valid(s) && c in s.conns
    ensures Valid(ChatMessage(s, c, raw, now))
    ensures ChatMessage(s, c, raw, now).rooms == s.rooms
    ensures ChatMessage(s, c, raw, now).conns == s.conns
  {
  }

  lemma LeaveRoomKeepsValid(s: State, c: ConnId)
    requires Valid(s) && c in s.conns
    ensures Valid(LeaveRoom(s, c))
    ensures LeaveRoom(s, c).conns.Keys == s.conns.Keys
  {
    var me := s.conns[c];
    if me.room.Some? && me.room.value in s.rooms {
      DepartKeepsValid(s, c, me.room.value, LeftNotice(me.user.name));
    }
  }

  lemma CloseKeepsValid(s: State, c: ConnId)
    requires Valid(s) && c in s.conns
    ensures Valid(Close(s, c))
    ensures Close(s, c).conns.Keys == s.conns.Keys
  {
    var me := s.conns[c];
    var s1 := SetConn(s, c, me.(open := false));
    if me.room.Some? && me.room.value in s1.rooms {
      DepartKeepsValid(s1, c, me.room.value, DisconnectedNotice(me.user.name));
    }
  }

  /** `broadcastUserList` sends every open member a roster, once each when the
      room has no duplicate entry: one `{name, color}` entry per member, in
      member order, each the member's current identity. */
  lemma UserListSpec(s: State, code: string)
    requires code in s.rooms
    ensures var r := BroadcastUserList(s, code);
      && r.rooms == s.rooms && r.conns == s.conns && s.outbox <= r.outbox
      && (forall d :: d in Added(s, r) <==>
           && d.to in s.rooms[code] && IsOpen(s.conns, d.to)
           && d.msg.UserList? && d.msg.roomCode == code
           && |d.msg.users| == |s.rooms[code]|
           && (forall i :: 0 <= i < |d.msg.users| ==> d.msg.users[i] == UserOf(s.conns, s.rooms[code][i])))
      && (NoDup(s.rooms[code]) ==> forall i, j :: 0 <= i < j < |Added(s, r)| ==> Added(s, r)[i].to != Added(s, r)[j].to)
  {
    var users := Roster(s.rooms[code], s.conns);
    RosterSpec(s.rooms[code], s.conns);
    BroadcastToRoomSpec(s, code, UserList(users, code), None);
    assert forall u :: |u| == |s.rooms[code]| && (forall i :: 0 <= i < |u| ==> u[i] == UserOf(s.conns, s.rooms[code][i]))
                       ==> u == users;
  }

  /** `createRoom` registers the fresh code with the creator as its only
      member, points `currentRoom` at it, confirms with the code and sends the
      one-entry roster. Every other room, including any the creator was
      already in, is untouched: the creator is not removed from it. */
  lemma CreateRoomSpec(s: State, c: ConnId, code: string)
    requires c in s.conns && code !in s.rooms
    ensures var r := CreateRoom(s, c, code);
      && r.rooms == s.rooms[code := [c]]
      && r.conns == s.conns[c := s.conns[c].(room := Some(code))]
      && r.outbox == s.outbox + [Delivery(c, RoomCreated(code, RoomCreatedText(code)))]
                     + (if s.conns[c].open then [Delivery(c, UserList([s.conns[c].user], code))] else [])
  {
    var s1 := SetConn(s, c, s.conns[c].(room := Some(code)));
    var s2 := GetRoom(s1, code);
    assert s2.rooms == s.rooms[code := []];
    var s3 := AddMember(s2, code, c);
    assert With([], c) == [c];
    assert s3.rooms == s.rooms[code := [c]];
    var s4 := Send(s3, c, RoomCreated(code, RoomCreatedText(code)));
    assert [c][..0] == [];
    var users := Roster([c], s4.conns);
    assert users == [s.conns[c].user];
    var f := Fanout([c], s4.conns, UserList(users, code), None);
    assert f == (if s.conns[c].open then [Delivery(c, UserList(users, code))] else []) by {
      assert [c][..0] == [];
      assert Fanout([], s4.conns, UserList(users, code), None) == [];
      assert IsOpen(s4.conns, c) == s.conns[c].open;
    }
    assert CreateRoom(s, c, code) == s4.(outbox := s4.outbox + f);
  }

  /** A `joinRoom` that fails the format check, names an unregistered room or
      finds it full answers the requester with exactly one error and changes
      nothing else. */
  lemma JoinRoomRejects(s: State, c: ConnId, raw: string)
    requires c in s.conns
    requires var code := NormalizeRoomCode(raw);
      !MatchesCodePattern(code) || code !in s.rooms || |s.rooms[code]| >= MaxUsersPerRoom
    ensures var r := JoinRoom(s, c, Some(raw)); var code := NormalizeRoomCode(raw);
      && r.rooms == s.rooms && r.conns == s.conns
      && r.outbox == s.outbox + [Delivery(c, Error(
           if !MatchesCodePattern(code) then InvalidCodeText
           else if code !in s.rooms then RoomNotFoundText
           else RoomFullText))]
  {
  }

  /** What the leave step of an admitted join does to the registry. */
  lemma LeavePreviousRooms(s: State, c: ConnId, code: string)
    requires Valid(s) && c in s.conns && code in s.rooms
    ensures var r := LeavePrevious(s, c); var me := s.conns[c];
      && r.rooms.Keys <= s.rooms.Keys
      && (forall k :: k in s.rooms && me.room != Some(k) ==> k in r.rooms && r.rooms[k] == s.rooms[k])
      && (code in r.rooms ==> r.rooms[code] == if me.room == Some(code) then Without(s.rooms[code], c) else s.rooms[code])
      && (code !in r.rooms <==> me.room == Some(code) && s.rooms[code] == [c])
  {
    var me := s.conns[c];
    var r := LeavePrevious(s, c);
    if me.room.Some? && me.room.value in s.rooms {
      var p := me.room.value;
      DepartSpec(s, c, p, LeftNotice(me.user.name));
      if p == code {
        if s.rooms[code] == [c] {
          assert Without([c], c) == [];
        } else {
          var w :| w in s.rooms[code] && w != c;
          assert w in Without(s.rooms[code], c);
        }
      } else {
        assert code in s.rooms - {p};
      }
      forall k | k in s.rooms && me.room != Some(k)
        ensures k in r.rooms && r.rooms[k] == s.rooms[k]
      {
        assert k in s.rooms - {p};
      }
    }
  }

  /** The registry after an admitted join: the leave step, then the entry,
      which adds exactly the joiner to the room. */
  lemma AdmitRooms(s: State, c: ConnId, code: string)
    requires Valid(s) && c in s.conns && code in s.rooms && |s.rooms[code]| < MaxUsersPerRoom
    ensures var r := Admit(s, c, code); var me := s.conns[c];
      && r.conns == s.conns[c := me.(room := Some(code))]
      && r.rooms.Keys <= s.rooms.Keys
      && (forall k :: k in s.rooms && k != code && me.room != Some(k) ==> k in r.rooms && r.rooms[k] == s.rooms[k])
      && (code in r.rooms ==> c in r.rooms[code] && |r.rooms[code]| <= MaxUsersPerRoom
                              && forall w :: w in s.rooms[code] ==> w in r.rooms[code])
      && (code in r.rooms ==>
            r.rooms[code] == With(if me.room == Some(code) then Without(s.rooms[code], c) else s.rooms[code], c))
      && (code !in r.rooms <==> me.room == Some(code) && s.rooms[code] == [c])
  {
    var me := s.conns[c];
    var s1 := LeavePrevious(s, c);
    LeavePreviousRooms(s, c, code);
    var s2 := SetConn(s1, c, me.(room := Some(code)));
    var s3 := AddMember(s2, code, c);
    assert Admit(s, c, code).rooms == s3.rooms && Admit(s, c, code).conns == s3.conns;
    assert code in s3.rooms ==> |s1.rooms[code]| <= |s.rooms[code]|;
    forall k | k in s.rooms && k != code && me.room != Some(k)
      ensures k in s3.rooms && s3.rooms[k] == s.rooms[k]
    {
      assert k in s2.rooms - {code};
    }
  }

  /** The leave step of an admitted join sends only the leave notice and
      rosters of the previous room. */
  lemma LeavePreviousOutbox(s: State, c: ConnId)
    requires Valid(s) && c in s.conns
    ensures var r := LeavePrevious(s, c);
      && s.outbox <= r.outbox
      && forall d :: d in Added(s, r) ==> d.msg == System(LeftNotice(s.conns[c].user.name)) || d.msg.UserList?
  {
    var me := s.conns[c];
    if me.room.Some? && me.room.value in s.rooms {
      DepartSpec(s, c, me.room.value, LeftNotice(me.user.name));
    }
  }

  /** A notice to a room followed by its roster: the notice reaches exactly
      the open members other than `ex`, and everything else sent is a roster. */
  lemma NoticeThenRoster(s: State, code: string, m: Msg, ex: Option<ConnId>)
    requires !m.UserList?
    ensures var r := BroadcastUserList(BroadcastToRoom(s, code, m, ex), code);
      && s.outbox <= r.outbox && r.rooms == s.rooms && r.conns == s.conns
      && (forall d :: d in Added(s, r) && d.msg == m <==>
            code in s.rooms && d.msg == m && d.to in s.rooms[code] && IsOpen(s.conns, d.to) && ex != Some(d.to))
      && (forall d :: d in Added(s, r) ==> d.msg == m || d.msg.UserList?)
  {
    var s1 := BroadcastToRoom(s, code, m, ex);
    var r := BroadcastUserList(s1, code);
    BroadcastToRoomSpec(s, code, m, ex);
    if code in s1.rooms {
      UserListSpec(s1, code);
    }
    AddedSplits(s, s1, r);
  }

  /** After a notice, the roster of the room reaches exactly its open
      members. */
  lemma NoticeThenRosterRecipients(s: State, code: string, m: Msg, ex: Option<ConnId>)
    requires !m.UserList? && code in s.rooms
    ensures var r := BroadcastUserList(BroadcastToRoom(s, code, m, ex), code);
      forall w :: Delivery(w, UserList(Roster(s.rooms[code], s.conns), code)) in Added(s, r) <==>
        w in s.rooms[code] && IsOpen(s.conns, w)
  {
    var s1 := BroadcastToRoom(s, code, m, ex);
    var r := BroadcastUserList(s1, code);
    BroadcastToRoomSpec(s, code, m, ex);
    BroadcastToRoomSpec(s1, code, UserList(Roster(s.rooms[code], s.conns), code), None);
    AddedSplits(s, s1, r);
  }

  /** In a room without duplicate members, a notice followed by the roster
      sends each connection at most one roster. */
  lemma NoticeThenRosterOnce(s: State, code: string, m: Msg, ex: Option<ConnId>)
    requires !m.UserList? && Consistent(s, code)
    ensures var r := BroadcastUserList(BroadcastToRoom(s, code, m, ex), code); var ds := Added(s, r);
      forall i, j :: 0 <= i < j < |ds| && ds[i].msg.UserList? && ds[j].msg.UserList? ==> ds[i].to != ds[j].to
  {
    var s1 := BroadcastToRoom(s, code, m, ex);
    var r := BroadcastUserList(s1, code);
    BroadcastToRoomSpec(s, code, m, ex);
    BroadcastToRoomSpec(s1, code, UserList(Roster(s.rooms[code], s.conns), code), None);
    AddedSplits(s, s1, r);
    RostersAfterOthers(Added(s, s1), Added(s1, r));
  }

  /** Frames without a roster, followed by frames to distinct connections,
      send each connection at most one roster. */
  lemma RostersAfterOthers(a: seq<Delivery>, b: seq<Delivery>)
    requires forall d :: d in a ==> !d.msg.UserList?
    requires forall i, j :: 0 <= i < j < |b| ==> b[i].to != b[j].to
    ensures var ds := a + b;
      forall i, j :: 0 <= i < j < |ds| && ds[i].msg.UserList? && ds[j].msg.UserList? ==> ds[i].to != ds[j].to
  {
    var ds := a + b;
    forall k | 0 <= k < |a|
      ensures !ds[k].msg.UserList?
    {
      assert ds[k] == a[k] && a[k] in a;
    }
    forall i, j | 0 <= i < j < |ds| && ds[i].msg.UserList? && ds[j].msg.UserList?
      ensures ds[i].to != ds[j].to
    {
      assert ds[i] == b[i - |a|] && ds[j] == b[j - |a|];
    }
  }

  /** The frames of an admitted join after the leave step: the confirmation to
      the joiner first, then the join notice to exactly the other open members
      of the room, then rosters. */
  lemma AdmitOutbox(s: State, c: ConnId, code: string)
    requires c in s.conns && code in s.rooms
    ensures var r := Admit(s, c, code); var left := LeavePrevious(s, c); var me := s.conns[c];
      && left.outbox <= r.outbox
      && |left.outbox| < |r.outbox|
      && r.outbox[|left.outbox|] == Delivery(c, RoomJoined(code, RoomJoinedText(code)))
      && (forall w :: Delivery(w, System(JoinedNotice(me.user.name))) in Added(left, r) <==>
            code in r.rooms && w in r.rooms[code] && w != c && IsOpen(s.conns, w))
      && (forall d :: d in Added(left, r)[1..] ==> d.msg == System(JoinedNotice(me.user.name)) || d.msg.UserList?)
      && (NoDup(s.rooms[code]) ==> OnceEach(Added(left, r), System(JoinedNotice(me.user.name))))
  {
    var me := s.conns[c];
    if NoDup(s.rooms[code]) {
      AdmitNoticeOnce(s, c, code);
    }
    var s1 := LeavePrevious(s, c);
    var s2 := SetConn(s1, c, me.(room := Some(code)));
    var s3 := AddMember(s2, code, c);
    var joined := Delivery(c, RoomJoined(code, RoomJoinedText(code)));
    var s4 := Send(s3, c, joined.msg);
    var notice := System(JoinedNotice(me.user.name));
    var r := BroadcastUserList(BroadcastToRoom(s4, code, notice, Some(c)), code);
    assert r == Admit(s, c, code);
    NoticeThenRoster(s4, code, notice, Some(c));
    assert forall w :: w != c ==> (IsOpen(s4.conns, w) <==> IsOpen(s.conns, w));
    var rest := Added(s4, r);
    assert Added(s1, r) == [joined] + rest;
    assert Added(s1, r)[1..] == rest;
  }

  /** The leave step keeps a room free of duplicate entries. */
  lemma LeavePreviousKeepsNoDup(s: State, c: ConnId, code: string)
    requires c in s.conns && code in s.rooms && NoDup(s.rooms[code])
    ensures var r := LeavePrevious(s, c); code in r.rooms ==> NoDup(r.rooms[code])
  {
    var me := s.conns[c];
    if me.room.Some? && me.room.value in s.rooms {
      var p := me.room.value;
      var s1 := s.(rooms := s.rooms[p := Without(s.rooms[p], c)]);
      var s3 := BroadcastUserList(BroadcastToRoom(s1, p, System(LeftNotice(me.user.name)), None), p);
      var r := CleanupRoom(s3, p);
      assert r == LeavePrevious(s, c);
      if code != p && code in r.rooms {
        assert r.rooms[code] == (r.rooms - {p})[code] == (s3.rooms - {p})[code];
      }
    }
  }

  /** An admitted join into a room without duplicate entries sends each
      connection the join notice at most once. */
  lemma AdmitNoticeOnce(s: State, c: ConnId, code: string)
    requires c in s.conns && code in s.rooms && NoDup(s.rooms[code])
    ensures var r := Admit(s, c, code); var left := LeavePrevious(s, c);
      left.outbox <= r.outbox && OnceEach(Added(left, r), System(JoinedNotice(s.conns[c].user.name)))
  {
    var me := s.conns[c];
    var s1 := LeavePrevious(s, c);
    var s2 := SetConn(s1, c, me.(room := Some(code)));
    var s3 := AddMember(s2, code, c);
    var joined := Delivery(c, RoomJoined(code, RoomJoinedText(code)));
    var s4 := Send(s3, c, joined.msg);
    var notice := System(JoinedNotice(me.user.name));
    var s5 := BroadcastToRoom(s4, code, notice, Some(c));
    var r := BroadcastUserList(s5, code);
    assert r == Admit(s, c, code);
    LeavePreviousKeepsNoDup(s, c, code);
    BroadcastToRoomSpec(s4, code, notice, Some(c));
    if code in s5.rooms {
      BroadcastToRoomSpec(s5, code, UserList(Roster(s5.rooms[code], s5.conns), code), None);
    }
    AddedSplits(s4, s5, r);
    NoticesBeforeOthers(Added(s4, s5), Added(s5, r), notice);
    assert Added(s1, r) == [joined] + Added(s4, r);
    NoticesAfterOthers([joined], Added(s4, r), notice);
  }

  /** The roster an admitted join ends with reaches exactly the open members
      of the room as it then stands, the joiner included. */
  lemma AdmitRoster(s: State, c: ConnId, code: string)
    requires c in s.conns && code in s.rooms
    ensures var r := Admit(s, c, code); var left := LeavePrevious(s, c);
      && left.outbox <= r.outbox
      && (code in r.rooms ==>
            forall w :: Delivery(w, UserList(Roster(r.rooms[code], r.conns), code)) in Added(left, r) <==>
              w in r.rooms[code] && IsOpen(s.conns, w))
  {
    var me := s.conns[c];
    var s1 := LeavePrevious(s, c);
    var s2 := SetConn(s1, c, me.(room := Some(code)));
    var s3 := AddMember(s2, code, c);
    var s4 := Send(s3, c, RoomJoined(code, RoomJoinedText(code)));
    var notice := System(JoinedNotice(me.user.name));
    var r := BroadcastUserList(BroadcastToRoom(s4, code, notice, Some(c)), code);
    assert r == Admit(s, c, code);
    if code in s4.rooms {
      assert forall w :: IsOpen(s4.conns, w) <==> IsOpen(s.conns, w);
      NoticeThenRosterRecipients(s4, code, notice, Some(c));
    }
    assert Added(s1, r) == [Delivery(c, RoomJoined(code, RoomJoinedText(code)))] + Added(s4, r);
  }

  /** Past the three checks, `joinRoom` is the admitted branch. */
  lemma JoinRoomIsAdmit(s: State, c: ConnId, raw: string)
    requires c in s.conns
    requires var code := NormalizeRoomCode(raw);
      MatchesCodePattern(code) && code in s.rooms && |s.rooms[code]| < MaxUsersPerRoom
    ensures JoinRoom(s, c, Some(raw)) == Admit(s, c, NormalizeRoomCode(raw))
  {
  }

  /** An admitted `joinRoom` points `currentRoom` at the code, puts the
      joiner in the room without taking it above the cap of 5, confirms to the
      joiner and sends no error. */
  lemma JoinRoomAdmits(s: State, c: ConnId, raw: string)
    requires Valid(s) && c in s.conns
    requires var code := NormalizeRoomCode(raw);
      MatchesCodePattern(code) && code in s.rooms && |s.rooms[code]| < MaxUsersPerRoom
    ensures var r := JoinRoom(s, c, Some(raw)); var code := NormalizeRoomCode(raw);
      && r.conns[c].room == Some(code)
      && (code in r.rooms ==> c in r.rooms[code] && |r.rooms[code]| <= MaxUsersPerRoom)
      && (code in r.rooms ==> var me := s.conns[c];
            r.rooms[code] == With(if me.room == Some(code) then Without(s.rooms[code], c) else s.rooms[code], c))
      && s.outbox <= r.outbox
      && Delivery(c, RoomJoined(code, RoomJoinedText(code))) in Added(s, r)
      && (forall d :: d in Added(s, r) ==> !d.msg.Error?)
  {
    var code := NormalizeRoomCode(raw);
    JoinRoomIsAdmit(s, c, raw);
    AdmitRooms(s, c, code);
    AdmitConfirms(s, c, code);
  }

  /** The admitted branch confirms to the joiner and sends no error. */
  lemma AdmitConfirms(s: State, c: ConnId, code: string)
    requires Valid(s) && c in s.conns && code in s.rooms
    ensures var r := Admit(s, c, code);
      && s.outbox <= r.outbox
      && Delivery(c, RoomJoined(code, RoomJoinedText(code))) in Added(s, r)
      && (forall d :: d in Added(s, r) ==> !d.msg.Error?)
  {
    var left := LeavePrevious(s, c);
    var r := Admit(s, c, code);
    LeavePreviousOutbox(s, c);
    var tail := Added(left, r);
    assert forall d :: d in tail[1..] ==> !d.msg.Error? by {
      AdmitOutbox(s, c, code);
    }
    AddedSplits(s, left, r);
    HeadOrTail(tail);
    assert tail[0] in Added(s, r);
  }

  /** Joining another room while in one first leaves it: the joiner is removed
      from the previous room, which is deleted if nobody is left, and exactly
      its remaining open members get the leave notice and their new roster,
      before anything about the new room is sent. */
  lemma JoinRoomLeavesPrevious(s: State, c: ConnId, raw: string)
    requires Valid(s) && c in s.conns
    requires var code := NormalizeRoomCode(raw);
      MatchesCodePattern(code) && code in s.rooms && |s.rooms[code]| < MaxUsersPerRoom
    requires var p := s.conns[c].room; p.Some? && p.value in s.rooms && p.value != NormalizeRoomCode(raw)
    ensures var r := JoinRoom(s, c, Some(raw)); var left := LeavePrevious(s, c);
      var p := s.conns[c].room.value; var name := s.conns[c].user.name;
      && s.outbox <= left.outbox <= r.outbox
      && (p in r.rooms <==> Without(s.rooms[p], c) != [])
      && (p in r.rooms ==> r.rooms[p] == Without(s.rooms[p], c) && c !in r.rooms[p])
      && (forall w :: Delivery(w, System(LeftNotice(name))) in Added(s, left) <==>
            w in s.rooms[p] && w != c && IsOpen(s.conns, w))
      && (forall w :: Delivery(w, UserList(Roster(Without(s.rooms[p], c), s.conns), p)) in Added(s, left) <==>
            w in s.rooms[p] && w != c && IsOpen(s.conns, w))
      && OnceEach(Added(s, left), System(LeftNotice(name)))
  {
    var code := NormalizeRoomCode(raw);
    var p := s.conns[c].room.value;
    var name := s.conns[c].user.name;
    JoinRoomIsAdmit(s, c, raw);
    DepartSpec(s, c, p, LeftNotice(name));
    AdmitOutbox(s, c, code);
    var left := LeavePrevious(s, c);
    var r := Admit(s, c, code);
    assert r.rooms - {code} == left.rooms - {code};
    assert p in r.rooms <==> p in left.rooms by {
      assert p in r.rooms <==> p in r.rooms - {code};
      assert p in left.rooms <==> p in left.rooms - {code};
    }
    if p in r.rooms {
      assert r.rooms[p] == (r.rooms - {code})[p];
    }
  }

  /** Re-joining one's own room as its only member deletes the room during the
      leave step, and the entry that follows goes into the detached map:
      afterwards `currentRoom` names a code that is no longer registered. */
  lemma RejoinAsSoleMemberDropsRoom(s: State, c: ConnId, raw: string)
    requires Valid(s) && c in s.conns
    requires var k := NormalizeRoomCode(raw); s.conns[c].room == Some(k) && k in s.rooms && s.rooms[k] == [c]
    ensures var r := JoinRoom(s, c, Some(raw)); var k := NormalizeRoomCode(raw);
      k !in r.rooms && r.conns[c].room == Some(k)
  {
    var k := NormalizeRoomCode(raw);
    GeneratedCodeIsJoinable(k);
    JoinRoomIsAdmit(s, c, raw);
    AdmitRooms(s, c, k);
  }

  /** `cleanupRoom` run twice does no more than run once. */
  lemma CleanupRoomIdempotent(s: State, code: string)
    ensures CleanupRoom(CleanupRoom(s, code), code) == CleanupRoom(s, code)
  {
  }

  /** `setName` stores the normalised name (1 to 20 characters), keeps the
      colour and only appends to the outbox. Outside a room, or when
      `currentRoom` names a room that is no longer registered, nothing else
      happens: the entry goes into a detached map and both broadcasts find no
      room. */
  lemma SetNameSpec(s: State, c: ConnId, raw: string)
    requires Valid(s) && c in s.conns
    ensures var r := SetName(s, c, Some(raw)); var me := s.conns[c];
      && r.conns == s.conns[c := me.(user := User(NormalizeName(raw), me.user.color))]
      && 0 < |r.conns[c].user.name| <= MaxNameLength
      && s.outbox <= r.outbox
      && (!(me.room.Some? && me.room.value in s.rooms) ==> r.rooms == s.rooms && r.outbox == s.outbox)
  {
    var me := s.conns[c];
    var s1 := SetConn(s, c, me.(user := User(NormalizeName(raw), me.user.color)));
    if me.room.Some? {
      var code := me.room.value;
      var s2 := AddMember(s1, code, c);
      var s3 := BroadcastToRoom(s2, code, System(RenameNotice(me.user.name, NormalizeName(raw))), None);
      assert s.outbox <= s3.outbox;
    }
  }

  /** `setName` from a member of its registered room keeps the room as it is;
      exactly the open members, the sender included, get the notice, which
      reads as a first join when the old name was the default and as a rename
      otherwise. Every other frame it sends is a roster. */
  lemma SetNameNotice(s: State, c: ConnId, raw: string)
    requires Valid(s) && c in s.conns
    requires var p := s.conns[c].room; p.Some? && p.value in s.rooms && c in s.rooms[p.value]
    ensures var r := SetName(s, c, Some(raw)); var me := s.conns[c]; var code := me.room.value;
      && r.rooms == s.rooms
      && (forall w :: Delivery(w, System(RenameNotice(me.user.name, NormalizeName(raw)))) in Added(s, r) <==>
            w in s.rooms[code] && IsOpen(s.conns, w))
      && (forall d :: d in Added(s, r) ==> d.msg == System(RenameNotice(me.user.name, NormalizeName(raw))) || d.msg.UserList?)
  {
    var me := s.conns[c];
    var code := me.room.value;
    var name := NormalizeName(raw);
    var s1 := SetConn(s, c, me.(user := User(name, me.user.color)));
    var s2 := AddMember(s1, code, c);
    assert s2.rooms == s.rooms;
    var notice := System(RenameNotice(me.user.name, name));
    var s3 := BroadcastToRoom(s2, code, notice, None);
    var r := BroadcastUserList(s3, code);
    AddedSplits(s, s3, r);
    BroadcastToRoomSpec(s2, code, notice, None);
    assert forall w :: IsOpen(s2.conns, w) <==> IsOpen(s.conns, w);
    UserListSpec(s3, code);
  }

  /** The rosters `setName` sends from a member: exactly the open members of
      the room get one each, all the same, listing every member's current
      identity in member order with the sender under its new name. */
  lemma SetNameRoster(s: State, c: ConnId, raw: string)
    requires Valid(s) && c in s.conns
    requires var p := s.conns[c].room; p.Some? && p.value in s.rooms && c in s.rooms[p.value]
    ensures var r := SetName(s, c, Some(raw)); var me := s.conns[c]; var code := me.room.value;
      var users := Roster(s.rooms[code], r.conns);
      && (forall d :: d in Added(s, r) && d.msg.UserList? <==>
            d.msg == UserList(users, code) && d.to in s.rooms[code] && IsOpen(s.conns, d.to))
      && (forall i :: 0 <= i < |users| ==>
            users[i] == if s.rooms[code][i] == c then User(NormalizeName(raw), me.user.color)
                        else UserOf(s.conns, s.rooms[code][i]))
      && (forall d :: d in Added(s, r) && d.msg.UserList? ==>
            exists i :: 0 <= i < |d.msg.users| && d.msg.users[i] == User(NormalizeName(raw), me.user.color))
      && (forall i, j :: 0 <= i < j < |Added(s, r)| && Added(s, r)[i].msg.UserList? && Added(s, r)[j].msg.UserList? ==>
            Added(s, r)[i].to != Added(s, r)[j].to)
  {
    var me := s.conns[c];
    var code := me.room.value;
    var name := NormalizeName(raw);
    var s1 := SetConn(s, c, me.(user := User(name, me.user.color)));
    var s2 := AddMember(s1, code, c);
    assert s2.rooms == s.rooms;
    var notice := System(RenameNotice(me.user.name, name));
    var s3 := BroadcastToRoom(s2, code, notice, None);
    var r := BroadcastUserList(s3, code);
    var users := Roster(s.rooms[code], r.conns);
    AddedSplits(s, s3, r);
    BroadcastToRoomSpec(s2, code, notice, None);
    BroadcastToRoomSpec(s3, code, UserList(users, code), None);
    assert forall w :: IsOpen(s3.conns, w) <==> IsOpen(s.conns, w);
    RosterSpec(s.rooms[code], r.conns);
    NoticeThenRosterOnce(s2, code, notice, None);
    var i :| 0 <= i < |s.rooms[code]| && s.rooms[code][i] == c;
    assert users[i] == User(name, me.user.color);
  }

  /** The roster entry is the connection's own user object, so a `setName`
      from a connection whose `currentRoom` is registered but that is not one
      of its members adds it: when a room is full this way it ends with six
      members. This happens only when a room deleted under the connection was
      created again with the same code. */
  lemma SetNameCanExceedCap(s: State, c: ConnId, raw: string)
    requires Valid(s) && c in s.conns
    requires var p := s.conns[c].room; p.Some? && p.value in s.rooms && c !in s.rooms[p.value]
    requires |s.rooms[s.conns[c].room.value]| == MaxUsersPerRoom
    ensures |SetName(s, c, Some(raw)).rooms[s.conns[c].room.value]| == MaxUsersPerRoom + 1
  {
    var me := s.conns[c];
    var s1 := SetConn(s, c, me.(user := User(NormalizeName(raw), me.user.color)));
    assert AddMember(s1, me.room.value, c).rooms[me.room.value] == s.rooms[me.room.value] + [c];
  }

  /** `setColor` stores the colour and keeps the name; outside a registered
      room nothing else happens. */
  lemma SetColorSpec(s: State, c: ConnId, color: string)
    requires Valid(s) && c in s.conns
    ensures var r := SetColor(s, c, color); var me := s.conns[c];
      && r.conns == s.conns[c := me.(user := User(me.user.name, color))]
      && s.outbox <= r.outbox
      && (!(me.room.Some? && me.room.value in s.rooms) ==> r.rooms == s.rooms && r.outbox == s.outbox)
  {
    var me := s.conns[c];
    var s1 := SetConn(s, c, me.(user := User(me.user.name, color)));
    if me.room.Some? {
      var s2 := AddMember(s1, me.room.value, c);
      assert s.outbox == s2.outbox;
    }
  }

  /** `setColor` from a member of its registered room keeps the room as it
      is and sends exactly its open members one roster each, listing every
      member's current identity in member order with the sender's new colour. */
  lemma SetColorRoster(s: State, c: ConnId, color: string)
    requires Valid(s) && c in s.conns
    requires var p := s.conns[c].room; p.Some? && p.value in s.rooms && c in s.rooms[p.value]
    ensures var r := SetColor(s, c, color); var me := s.conns[c]; var code := me.room.value;
      var users := Roster(s.rooms[code], r.conns);
      && r.rooms == s.rooms
      && (forall d :: d in Added(s, r) <==>
            d.msg == UserList(users, code) && d.to in s.rooms[code] && IsOpen(s.conns, d.to))
      && (forall i :: 0 <= i < |users| ==>
            users[i] == if s.rooms[code][i] == c then User(me.user.name, color)
                        else UserOf(s.conns, s.rooms[code][i]))
      && (forall i, j :: 0 <= i < j < |Added(s, r)| ==> Added(s, r)[i].to != Added(s, r)[j].to)
  {
    var me := s.conns[c];
    var code := me.room.value;
    var s1 := SetConn(s, c, me.(user := User(me.user.name, color)));
    var s2 := AddMember(s1, code, c);
    assert s2.rooms == s.rooms;
    var r := BroadcastUserList(s2, code);
    var users := Roster(s.rooms[code], r.conns);
    BroadcastToRoomSpec(s2, code, UserList(users, code), None);
    assert forall w :: IsOpen(s2.conns, w) <==> IsOpen(s.conns, w);
    RosterSpec(s.rooms[code], r.conns);
  }

  /** `chat` outside a room answers with one error to the sender and nothing else. */
  lemma ChatOutsideRoom(s: State, c: ConnId, raw: Option<string>, now: int)
    requires c in s.conns && s.conns[c].room.None?
    ensures var r := ChatMessage(s, c, raw, now);
      r.rooms == s.rooms && r.conns == s.conns && r.outbox == s.outbox + [Delivery(c, Error(NotInRoomText))]
  {
  }

  /** `chat` in a room: text that is empty after truncation and trimming sends
      nothing; otherwise one identical chat event (same name, colour, text and
      timestamp) goes to each open member of the room, and to nobody else. */
  lemma ChatInRoom(s: State, c: ConnId, raw: string, now: int)
    requires Valid(s) && c in s.conns && s.conns[c].room.Some?
    ensures var r := ChatMessage(s, c, Some(raw), now); var me := s.conns[c];
      var code := me.room.value; var text := NormalizeChatText(raw);
      && r.rooms == s.rooms && r.conns == s.conns && s.outbox <= r.outbox
      && (text == "" ==> r == s)
      && (text != "" ==>
            && (forall d :: d in Added(s, r) <==>
                  d.msg == Chat(me.user.name, me.user.color, text, now)
                  && code in s.rooms && d.to in s.rooms[code] && IsOpen(s.conns, d.to))
            && (forall i, j :: 0 <= i < j < |Added(s, r)| ==> Added(s, r)[i].to != Added(s, r)[j].to))
  {
    var me := s.conns[c];
    BroadcastToRoomSpec(s, me.room.value, Chat(me.user.name, me.user.color, NormalizeChatText(raw), now), None);
  }

  /** A member that is open receives its own chat message back. */
  lemma ChatEchoesToSender(s: State, c: ConnId, raw: string, now: int)
    requires Valid(s) && c in s.conns && s.conns[c].open
    requires var p := s.conns[c].room; p.Some? && p.value in s.rooms && c in s.rooms[p.value]
    requires NormalizeChatText(raw) != ""
    ensures var r := ChatMessage(s, c, Some(raw), now); var me := s.conns[c];
      Delivery(c, Chat(me.user.name, me.user.color, NormalizeChatText(raw), now)) in Added(s, r)
  {
    ChatInRoom(s, c, raw, now);
  }

  /** `leaveRoom` outside a registered room does nothing at all. */
  lemma LeaveRoomOutside(s: State, c: ConnId)
    requires Valid(s) && c in s.conns
    requires var p := s.conns[c].room; !(p.Some? && p.value in s.rooms)
    ensures LeaveRoom(s, c) == s
  {
  }

  /** `leaveRoom` in a registered room removes only the leaver, deletes the
      room when nobody is left, sends exactly the remaining open members the
      notice and the new roster, confirms to the leaver last, sends nothing
      else and clears `currentRoom`. */
  lemma LeaveRoomSpec(s: State, c: ConnId)
    requires Valid(s) && c in s.conns
    requires var p := s.conns[c].room; p.Some? && p.value in s.rooms
    ensures var r := LeaveRoom(s, c); var me := s.conns[c]; var code := me.room.value;
      && r.conns == s.conns[c := me.(room := None)]
      && r.rooms - {code} == s.rooms - {code}
      && (code in r.rooms <==> Without(s.rooms[code], c) != [])
      && (code in r.rooms ==> r.rooms[code] == Without(s.rooms[code], c))
      && s.outbox < r.outbox
      && (forall w :: Delivery(w, System(LeftNotice(me.user.name))) in Added(s, r) <==>
            w in s.rooms[code] && w != c && IsOpen(s.conns, w))
      && (forall w :: Delivery(w, UserList(Roster(Without(s.rooms[code], c), s.conns), code)) in Added(s, r) <==>
            w in s.rooms[code] && w != c && IsOpen(s.conns, w))
      && r.outbox[|r.outbox| - 1] == Delivery(c, RoomLeft(RoomLeftText))
      && (forall d :: d in Added(s, r) ==>
            || d.msg == System(LeftNotice(me.user.name))
            || d.msg == UserList(Roster(Without(s.rooms[code], c), s.conns), code)
            || d == Delivery(c, RoomLeft(RoomLeftText)))
      && OnceEach(Added(s, r), System(LeftNotice(me.user.name)))
  {
    var me := s.conns[c];
    var code := me.room.value;
    var notice := LeftNotice(me.user.name);
    DepartSpec(s, c, code, notice);
    var s1 := Depart(s, c, code, notice);
    var last := Delivery(c, RoomLeft(RoomLeftText));
    var r := LeaveRoom(s, c);
    assert r.outbox == s1.outbox + [last];
    AddedSplits(s, s1, r);
    assert Added(s1, r) == [last];
    assert last.msg != System(notice) && !last.msg.UserList?;
    NoticesBeforeOthers(Added(s, s1), [last], System(notice));
  }

  /** `close` marks the socket closed; in a registered room it removes only
      that connection, deletes the room when nobody is left and sends exactly
      the remaining open members the notice and the new roster, and nothing
      else. Otherwise nothing else changes. */
  lemma CloseSpec(s: State, c: ConnId)
    requires Valid(s) && c in s.conns
    ensures var r := Close(s, c); var me := s.conns[c];
      && r.conns == s.conns[c := me.(open := false)]
      && (!(me.room.Some? && me.room.value in s.rooms) ==> r.rooms == s.rooms && r.outbox == s.outbox)
      && (me.room.Some? && me.room.value in s.rooms ==>
            var code := me.room.value;
            && r.rooms - {code} == s.rooms - {code}
            && (code in r.rooms <==> Without(s.rooms[code], c) != [])
            && (code in r.rooms ==> r.rooms[code] == Without(s.rooms[code], c))
            && s.outbox <= r.outbox
            && (forall w :: Delivery(w, System(DisconnectedNotice(me.user.name))) in Added(s, r) <==>
                  w in s.rooms[code] && w != c && IsOpen(s.conns, w))
            && (forall w :: Delivery(w, UserList(Roster(Without(s.rooms[code], c), s.conns), code)) in Added(s, r) <==>
                  w in s.rooms[code] && w != c && IsOpen(s.conns, w))
            && (forall d :: d in Added(s, r) ==>
                  d.msg == System(DisconnectedNotice(me.user.name))
                  || d.msg == UserList(Roster(Without(s.rooms[code], c), s.conns), code))
            && OnceEach(Added(s, r), System(DisconnectedNotice(me.user.name))))
  {
    var me := s.conns[c];
    var s1 := SetConn(s, c, me.(open := false));
    if me.room.Some? && me.room.value in s.rooms {
      var code := me.room.value;
      DepartSpec(s1, c, code, DisconnectedNotice(me.user.name));
      assert forall w :: w != c ==> (IsOpen(s1.conns, w) <==> IsOpen(s.conns, w));
      RosterOfSameUsers(Without(s.rooms[code], c), s1.conns, s.conns);
    }
  }

  /** The roster depends only on the members' current users. */
  lemma {:induction false} RosterOfSameUsers(members: seq<ConnId>, a: map<ConnId, Conn>, b: map<ConnId, Conn>)
    requires forall w :: w in members ==> UserOf(a, w) == UserOf(b, w)
    ensures Roster(members, a) == Roster(members, b)
  {
    if members != [] {
      var n := |members| - 1;
      assert forall w :: w in members[..n] ==> w in members;
      RosterOfSameUsers(members[..n], a, b);
      assert members[n] in members;
    }
  }

  /** Every event handler keeps the server's invariant and never forgets a
      connection. */
  lemma StepKeepsValid(s: State, c: ConnId, cmd: Command, attempts: seq<seq<nat>>, now: int)
    requires Valid(s) && c in s.conns
    requires cmd.CreateRoomCmd? ==> ValidAttempts(attempts) && SomeAttemptFree(s.rooms.Keys, attempts)
    ensures Valid(Step(s, c, cmd, attempts, now))
    ensures Step(s, c, cmd, attempts, now).conns.Keys == s.conns.Keys
  {
    match cmd
    case CreateRoomCmd => CreateRoomKeepsValid(s, c, FirstFreeCode(s.rooms.Keys, attempts));
    case JoinRoomCmd(raw) => JoinRoomKeepsValid(s, c, raw);
    case SetNameCmd(raw) => SetNameKeepsValid(s, c, raw);
    case SetColorCmd(color) => SetColorKeepsValid(s, c, color);
    case ChatCmd(raw) => ChatKeepsValid(s, c, raw, now);
    case LeaveRoomCmd => LeaveRoomKeepsValid(s, c);
    case UnknownCmd(_) =>
    case Unparsable =>
  }

  /** On shutdown a connection gets the notice exactly when it is open and a
      member of one of the visited rooms; nothing else is sent. */
  lemma {:induction false} ShutdownNoticesSpec(rooms: map<string, seq<ConnId>>, conns: map<ConnId, Conn>, order: seq<string>)
    ensures forall d :: d in ShutdownNotices(rooms, conns, order) <==>
      d.msg == System(ShutdownText) && IsOpen(conns, d.to) &&
      exists i :: 0 <= i < |order| && order[i] in rooms && d.to in rooms[order[i]]
  {
    if order != [] {
      var n := |order| - 1;
      var pre, code := order[..n], order[n];
      assert order == pre + [code];
      ShutdownNoticesSpec(rooms, conns, pre);
      var notices := ShutdownNotices(rooms, conns, order);
      if code in rooms {
        ShutdownNoticesStep(rooms, conns, pre, code);
        FanoutRecipients(rooms[code], conns, System(ShutdownText), None);
      } else {
        assert notices == ShutdownNotices(rooms, conns, pre);
      }
      forall d: Delivery | d.msg == System(ShutdownText) && IsOpen(conns, d.to)
        ensures d in notices <==> exists i :: 0 <= i < |order| && order[i] in rooms && d.to in rooms[order[i]]
      {
        if i :| 0 <= i < |order| && order[i] in rooms && d.to in rooms[order[i]] {
          if i < n {
            assert pre[i] == order[i];
          }
        }
      }
    }
  }

  /** Visiting every registered room once, in any order, reaches exactly the
      open connections that are a member of some room. */
  lemma ShutdownReachesEveryMember(s: State, order: seq<string>, w: ConnId)
    requires forall code :: code in order <==> code in s.rooms
    ensures Delivery(w, System(ShutdownText)) in ShutdownNotices(s.rooms, s.conns, order) <==>
      IsOpen(s.conns, w) && exists code :: code in s.rooms && w in s.rooms[code]
  {
    ShutdownNoticesSpec(s.rooms, s.conns, order);
    if code :| code in s.rooms && w in s.rooms[code] {
      var i :| 0 <= i < |order| && order[i] == code;
    }
  }

  /** Codes are upper-cased before the format check, so a code typed as three
      sharp s joins room SSSSSS when it is registered and not full. */
  lemma SharpSCodeJoins(s: State, c: ConnId)
    requires Valid(s) && c in s.conns
    requires "SSSSSS" in s.rooms && |s.rooms["SSSSSS"]| < MaxUsersPerRoom
    ensures JoinRoom(s, c, Some("\U{00DF}\U{00DF}\U{00DF}")) == Admit(s, c, "SSSSSS")
  {
    SharpSCodeIsNormalized();
  }

  const ExampleCode := "K7M3QX"

  /** Two fresh connections, 0 and 1. */
  const ExampleStart := Connect(Connect(Initial, 0), 1)

  /** After 0 created room K7M3QX. */
  const ExampleCreated := State(
    map[ExampleCode := [0]],
    map[0 := Conn(Some(ExampleCode), DefaultUser, true), 1 := Conn(None, DefaultUser, true)],
    [Delivery(0, RoomCreated(ExampleCode, RoomCreatedText(ExampleCode))),
     Delivery(0, UserList([DefaultUser], ExampleCode))])

  /** After 1 joined it by typing the code in lower case. */
  const ExampleJoined := State(
    map[ExampleCode := [0, 1]],
    map[0 := Conn(Some(ExampleCode), DefaultUser, true), 1 := Conn(Some(ExampleCode), DefaultUser, true)],
    ExampleCreated.outbox +
    [Delivery(1, RoomJoined(ExampleCode, RoomJoinedText(ExampleCode))),
     Delivery(0, System(JoinedNotice(DefaultName))),
     Delivery(0, UserList([DefaultUser, DefaultUser], ExampleCode)),
     Delivery(1, UserList([DefaultUser, DefaultUser], ExampleCode))])

  /** Step one of the session: the creator gets the code and a one-entry roster. */
  lemma ExampleCreate()
    ensures CreateRoom(ExampleStart, 0, ExampleCode) == ExampleCreated
  {
    CreateRoomSpec(ExampleStart, 0, ExampleCode);
  }

  /** Step two: 1 joins with any spelling of the code, such as "k7m3qx"
      (`LowerCaseCodeJoins`); it is confirmed, 0 alone gets the join notice,
      and both get the two-entry roster. */
  lemma ExampleJoin(raw: string)
    requires NormalizeRoomCode(raw) == ExampleCode
    ensures JoinRoom(ExampleCreated, 1, Some(raw)) == ExampleJoined
  {
    assert MatchesCodePattern(ExampleCode);
    assert |ExampleCreated.rooms[ExampleCode]| == 1;
    JoinRoomIsAdmit(ExampleCreated, 1, raw);
    ExampleAdmit();
  }

  /** Broadcasts once both connections are in the room. */
  lemma ExampleFanouts(m: Msg)
    ensures Fanout([0, 1], ExampleJoined.conns, m, Some(1)) == [Delivery(0, m)]
    ensures Fanout([0, 1], ExampleJoined.conns, m, None) == [Delivery(0, m), Delivery(1, m)]
    ensures Roster([0, 1], ExampleJoined.conns) == [DefaultUser, DefaultUser]
  {
    var conns := ExampleJoined.conns;
    assert [0, 1][..1] == [0] && [0][..0] == [];
    assert Fanout([0], conns, m, Some(1)) == [Delivery(0, m)];
    assert Fanout([0], conns, m, None) == [Delivery(0, m)];
    assert Roster([0], conns) == [DefaultUser];
  }

  lemma ExampleAdmit()
    ensures Admit(ExampleCreated, 1, ExampleCode) == ExampleJoined
  {
    var s1 := ExampleCreated;
    var code := ExampleCode;
    var me := s1.conns[1];
    assert LeavePrevious(s1, 1) == s1;
    var s2 := SetConn(s1, 1, me.(room := Some(code)));
    assert s2.conns == ExampleJoined.conns;
    var s3 := AddMember(s2, code, 1);
    assert With([0], 1) == [0, 1];
    assert s3.rooms == ExampleJoined.rooms;
    var s4 := Send(s3, 1, RoomJoined(code, RoomJoinedText(code)));
    var notice := System(JoinedNotice(DefaultName));
    ExampleFanouts(notice);
    ExampleFanouts(UserList([DefaultUser, DefaultUser], code));
  }

  /** Step three: "hi" from 1 reaches both members with the same name,
      colour, text and timestamp. */
  lemma ExampleChat(now: int)
    ensures var hi := Msg.Chat(DefaultName, DefaultColor, "hi", now);
      ChatMessage(ExampleJoined, 1, Some("hi"), now).outbox == ExampleJoined.outbox + [Delivery(0, hi), Delivery(1, hi)]
  {
    var hi := Msg.Chat(DefaultName, DefaultColor, "hi", now);
    assert NormalizeChatText("hi") == "hi" by {
      TrimFixesUnpadded("hi");
    }
    ExampleFanouts(hi);
  }
}
