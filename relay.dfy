/**
 * The relay's state and the effect of each event on it, as functions.
 * `State.rooms` is the process-wide registry, `State.conns` the per-connection
 * closure state, and `State.outbox` every frame handed to `ws.send`, in order.
 * The class in module Server performs the same steps in place and is proved
 * to agree with these functions.
 */
module Relay {
  import opened Wrappers
  import opened Text
  import opened RoomCodes
  import opened Protocol

  /** Stands for the socket object that keys a room's member map. */
  type ConnId = nat

  const MaxUsersPerRoom := 5

  /** One connection: its `currentRoom`, its `userData`, and whether its
      socket's `readyState` is OPEN. */
  datatype Conn = Conn(room: Option<string>, user: User, open: bool)

  datatype Delivery = Delivery(to: ConnId, msg: Msg)

  /** A room is the sequence of its members in insertion order, which is the
      iteration order of the source's `Map`. A member's roster entry is not
      stored: the source stores the connection's own `userData` object, so the
      entry is always that connection's current user in `conns`. */
  datatype State = State(rooms: map<string, seq<ConnId>>, conns: map<ConnId, Conn>, outbox: seq<Delivery>)

  const Initial := State(map[], map[], [])

  predicate NoDup(s: seq<ConnId>) {
    forall i, j :: 0 <= i < j < |s| ==> s[i] != s[j]
  }

  predicate IsOpen(conns: map<ConnId, Conn>, w: ConnId) {
    w in conns && conns[w].open
  }

  /** Every member of every room is a known connection. */
  predicate Members(s: State) {
    forall code, w :: code in s.rooms && w in s.rooms[code] ==> w in s.conns
  }

  /** What the server keeps true between events: every registered code is one
      the generator makes, no room is empty, a socket is a key of a room at
      most once, and every member is a known connection. */
  predicate Valid(s: State) {
    && (forall code :: code in s.rooms ==> IsGeneratedCode(code) && s.rooms[code] != [] && NoDup(s.rooms[code]))
    && Members(s)
  }

  /** `room.delete(ws)`: the other members, in their order. */
  function Without(room: seq<ConnId>, c: ConnId): (r: seq<ConnId>)
    ensures forall w :: w in r <==> w in room && w != c
    ensures NoDup(room) ==> NoDup(r)
    ensures NoDup(room) && c in room ==> |r| == |room| - 1
    ensures c !in room ==> r == room
  {
    if room == [] then []
    else if room[0] == c then Without(room[1..], c)
    else
      var rest := Without(room[1..], c);
      assert NoDup(room) ==> room[0] !in room[1..];
      [room[0]] + rest
  }

  /** `room.set(ws, userData)`: a member keeps its place, a newcomer goes last. */
  function With(room: seq<ConnId>, c: ConnId): (r: seq<ConnId>)
    ensures forall w :: w in r <==> w in room || w == c
    ensures NoDup(room) ==> NoDup(r)
    ensures |r| == if c in room then |room| else |room| + 1
  {
    if c in room then room else room + [c]
  }

  /** The frames one broadcast hands to `ws.send`, in member order: one per
      member that is open and is not the excluded socket. */
  function Fanout(members: seq<ConnId>, conns: map<ConnId, Conn>, m: Msg, ex: Option<ConnId>): (r: seq<Delivery>)
    ensures |r| <= |members|
  {
    if members == [] then []
    else
      var n := |members| - 1;
      var w := members[n];
      Fanout(members[..n], conns, m, ex) + (if ex != Some(w) && IsOpen(conns, w) then [Delivery(w, m)] else [])
  }

  /** A broadcast reaches exactly the open members other than `ex`, and
      reaches each of them once when the members are distinct. */
  lemma FanoutSpec(members: seq<ConnId>, conns: map<ConnId, Conn>, m: Msg, ex: Option<ConnId>)
    ensures var r := Fanout(members, conns, m, ex);
      && (forall d :: d in r <==> d.msg == m && d.to in members && IsOpen(conns, d.to) && ex != Some(d.to))
      && (NoDup(members) ==> forall i, j :: 0 <= i < j < |r| ==> r[i].to != r[j].to)
  {
    FanoutRecipients(members, conns, m, ex);
    if NoDup(members) {
      FanoutOnce(members, conns, m, ex);
    }
  }

  lemma {:induction false} FanoutRecipients(members: seq<ConnId>, conns: map<ConnId, Conn>, m: Msg, ex: Option<ConnId>)
    ensures forall d :: d in Fanout(members, conns, m, ex) <==>
      d.msg == m && d.to in members && IsOpen(conns, d.to) && ex != Some(d.to)
  {
    if members != [] {
      var n := |members| - 1;
      FanoutRecipients(members[..n], conns, m, ex);
      assert members == members[..n] + [members[n]];
    }
  }

  /** No two deliveries go to the same connection. */
  predicate Distinct(ds: seq<Delivery>) {
    forall i, j :: 0 <= i < j < |ds| ==> ds[i].to != ds[j].to
  }

  /** No connection receives `m` twice. */
  predicate OnceEach(ds: seq<Delivery>, m: Msg) {
    forall i, j :: 0 <= i < j < |ds| && ds[i].msg == m && ds[j].msg == m ==> ds[i].to != ds[j].to
  }

  lemma {:induction false} FanoutOnce(members: seq<ConnId>, conns: map<ConnId, Conn>, m: Msg, ex: Option<ConnId>)
    requires NoDup(members)
    ensures Distinct(Fanout(members, conns, m, ex))
  {
    if members != [] {
      var n := |members| - 1;
      var w := members[n];
      var rest := Fanout(members[..n], conns, m, ex);
      assert NoDup(members[..n]);
      FanoutOnce(members[..n], conns, m, ex);
      FanoutRecipients(members[..n], conns, m, ex);
      assert w !in members[..n];
      assert forall i :: 0 <= i < |rest| ==> rest[i] in rest && rest[i].to != w;
      var r := Fanout(members, conns, m, ex);
      assert r == rest + (if ex != Some(w) && IsOpen(conns, w) then [Delivery(w, m)] else []);
      forall i, j | 0 <= i < j < |r|
        ensures r[i].to != r[j].to
      {
        assert r[i] == rest[i];
        if j < |rest| {
          assert r[j] == rest[j];
          assert rest[i].to != rest[j].to;
        } else {
          assert r[j].to == w;
          assert rest[i].to != w;
        }
      }
    }
  }

  /** A connection's current `userData`. Under `Valid` every member has a
      connection record; the default user stands in for one that had none. */
  function UserOf(conns: map<ConnId, Conn>, w: ConnId): User {
    if w in conns then conns[w].user else DefaultUser
  }

  /** `Array.from(room.values()).map(u => ({name, color}))`. */
  function Roster(members: seq<ConnId>, conns: map<ConnId, Conn>): (r: seq<User>)
    ensures |r| == |members|
  {
    if members == [] then []
    else
      var n := |members| - 1;
      Roster(members[..n], conns) + [UserOf(conns, members[n])]
  }

  /** The roster lists the members' current identities, in member order. */
  lemma {:induction false} RosterSpec(members: seq<ConnId>, conns: map<ConnId, Conn>)
    ensures forall i :: 0 <= i < |members| ==> Roster(members, conns)[i] == UserOf(conns, members[i])
  {
    if members != [] {
      var n := |members| - 1;
      RosterSpec(members[..n], conns);
    }
  }

  function Send(s: State, c: ConnId, m: Msg): State {
    s.(outbox := s.outbox + [Delivery(c, m)])
  }

  function SetConn(s: State, c: ConnId, conn: Conn): State {
    s.(conns := s.conns[c := conn])
  }

  /** `getRoom`: the room under `code` exists afterwards; an absent one is
      created empty, an existing one is left as it is. */
  function GetRoom(s: State, code: string): (r: State)
    ensures code in r.rooms && r.conns == s.conns && r.outbox == s.outbox
    ensures r.rooms - {code} == s.rooms - {code}
    ensures code in s.rooms ==> r == s
    ensures code !in s.rooms ==> r.rooms[code] == []
  {
    if code in s.rooms then s else s.(rooms := s.rooms[code := []])
  }

  /** `room.set(ws, userData)` on the room registered under `code`; when no
      room is registered there (the map was deleted), the write is lost. */
  function AddMember(s: State, code: string, c: ConnId): (r: State)
    ensures r.conns == s.conns && r.outbox == s.outbox
    ensures r.rooms.Keys == s.rooms.Keys
    ensures r.rooms - {code} == s.rooms - {code}
    ensures code in s.rooms ==> r.rooms[code] == With(s.rooms[code], c)
  {
    if code in s.rooms then s.(rooms := s.rooms[code := With(s.rooms[code], c)]) else s
  }

  /** `cleanupRoom`: deletes the entry exactly when it exists and is empty. */
  function CleanupRoom(s: State, code: string): (r: State)
    ensures r.conns == s.conns && r.outbox == s.outbox
    ensures code !in r.rooms <==> code !in s.rooms || s.rooms[code] == []
    ensures code in r.rooms ==> r.rooms[code] == s.rooms[code]
    ensures r.rooms - {code} == s.rooms - {code}
  {
    if code in s.rooms && |s.rooms[code]| == 0 then s.(rooms := s.rooms - {code}) else s
  }

  /** `broadcastToRoom`: appends `m` for exactly the open members of the room
      other than `ex`; nothing when the room does not exist. */
  function BroadcastToRoom(s: State, code: string, m: Msg, ex: Option<ConnId>): (r: State)
    ensures r.rooms == s.rooms && r.conns == s.conns
    ensures s.outbox <= r.outbox
  {
    if code in s.rooms then s.(outbox := s.outbox + Fanout(s.rooms[code], s.conns, m, ex))
    else s
  }

  /** `broadcastUserList`: the roster of the room, sent to its open members. */
  function BroadcastUserList(s: State, code: string): (r: State)
    ensures r.rooms == s.rooms && r.conns == s.conns && s.outbox <= r.outbox
  {
    if code in s.rooms then BroadcastToRoom(s, code, UserList(Roster(s.rooms[code], s.conns), code), None)
    else s
  }

  /** The departure sequence shared by `joinRoom` (leaving the previous room),
      `leaveRoom` and `close`: remove, notify the rest, send the roster, clean up. */
  function Depart(s: State, c: ConnId, code: string, notice: string): (r: State)
    requires code in s.rooms
    ensures r.conns == s.conns && s.outbox <= r.outbox
  {
    var s1 := s.(rooms := s.rooms[code := Without(s.rooms[code], c)]);
    var s2 := BroadcastToRoom(s1, code, System(notice), None);
    var s3 := BroadcastUserList(s2, code);
    CleanupRoom(s3, code)
  }

  /** A new connection: no room, the default identity, open. */
  function Connect(s: State, c: ConnId): (r: State)
    requires c !in s.conns
    ensures r.rooms == s.rooms && r.outbox == s.outbox
    ensures r.conns.Keys == s.conns.Keys + {c} && r.conns[c] == Conn(None, DefaultUser, true)
  {
    SetConn(s, c, Conn(None, DefaultUser, true))
  }

  /** `createRoom` once the retry loop has found `code` free. The previous
      room, if any, is not left. */
  function CreateRoom(s: State, c: ConnId, code: string): (r: State)
    requires c in s.conns && code !in s.rooms
    ensures r.conns.Keys == s.conns.Keys && r.conns[c].room == Some(code)
    ensures code in r.rooms && c in r.rooms[code]
    ensures s.outbox < r.outbox
  {
    var s1 := SetConn(s, c, s.conns[c].(room := Some(code)));
    var s2 := AddMember(GetRoom(s1, code), code, c);
    var s3 := Send(s2, c, RoomCreated(code, RoomCreatedText(code)));
    BroadcastUserList(s3, code)
  }

  /** `joinRoom`: normalise the code; reject a bad format, an unknown room or a
      full one with an error to the requester; otherwise admit. */
  function JoinRoom(s: State, c: ConnId, raw: Option<string>): (r: State)
    requires c in s.conns
    ensures r.conns.Keys == s.conns.Keys
    ensures raw.None? ==> r == s
    ensures raw.Some? ==> s.outbox < r.outbox
  {
    if raw.None? then s
    else
      var code := NormalizeRoomCode(raw.value);
      if !MatchesCodePattern(code) then Send(s, c, Error(InvalidCodeText))
      else if code !in s.rooms then Send(s, c, Error(RoomNotFoundText))
      else if |s.rooms[code]| >= MaxUsersPerRoom then Send(s, c, Error(RoomFullText))
      else Admit(s, c, code)
  }

  /** The first step of an admitted `joinRoom`: leave the current room if it
      is still registered. */
  function LeavePrevious(s: State, c: ConnId): (r: State)
    requires c in s.conns
    ensures r.conns == s.conns && s.outbox <= r.outbox
  {
    var me := s.conns[c];
    if me.room.Some? && me.room.value in s.rooms
    then Depart(s, c, me.room.value, LeftNotice(me.user.name)) else s
  }

  /** The admitted branch of `joinRoom`: leave the previous room, then enter
      the room fetched before leaving, confirm, announce the join to the others
      and send the roster. */
  function Admit(s: State, c: ConnId, code: string): (r: State)
    requires c in s.conns && code in s.rooms
    ensures r.conns.Keys == s.conns.Keys && r.conns[c].room == Some(code)
    ensures s.outbox < r.outbox
    ensures LeavePrevious(s, c).outbox < r.outbox
    ensures r.outbox[|LeavePrevious(s, c).outbox|] == Delivery(c, RoomJoined(code, RoomJoinedText(code)))
  {
    var me := s.conns[c];
    var s1 := LeavePrevious(s, c);
    var s2 := SetConn(s1, c, me.(room := Some(code)));
    var s3 := AddMember(s2, code, c);
    var s4 := Send(s3, c, RoomJoined(code, RoomJoinedText(code)));
    var s5 := BroadcastToRoom(s4, code, System(JoinedNotice(me.user.name)), Some(c));
    BroadcastUserList(s5, code)
  }

  /** `setName`: store the normalised name; in a room, re-set the member entry,
      then send the notice and the roster to the room. */
  function SetName(s: State, c: ConnId, raw: Option<string>): (r: State)
    requires c in s.conns
    ensures r.conns.Keys == s.conns.Keys && s.outbox <= r.outbox
    ensures raw.Some? ==> r.conns[c].user.name == NormalizeName(raw.value)
    ensures raw.None? ==> r == s
  {
    if raw.None? then s
    else
      var me := s.conns[c];
      var name := NormalizeName(raw.value);
      var s1 := SetConn(s, c, me.(user := me.user.(name := name)));
      match me.room
      case None => s1
      case Some(code) =>
        var s2 := AddMember(s1, code, c);
        var s3 := BroadcastToRoom(s2, code, System(RenameNotice(me.user.name, name)), None);
        BroadcastUserList(s3, code)
  }

  /** `setColor`: store the colour; in a room, re-set the member entry and send the roster. */
  function SetColor(s: State, c: ConnId, color: string): (r: State)
    requires c in s.conns
    ensures r.conns.Keys == s.conns.Keys && s.outbox <= r.outbox
    ensures r.conns[c].user == s.conns[c].user.(color := color)
  {
    var me := s.conns[c];
    var s1 := SetConn(s, c, me.(user := me.user.(color := color)));
    match me.room
    case None => s1
    case Some(code) => BroadcastUserList(AddMember(s1, code, c), code)
  }

  /** `chat`: outside a room an error; otherwise the normalised text, if any,
      to every open member of the room, the sender included. */
  function ChatMessage(s: State, c: ConnId, raw: Option<string>, now: int): (r: State)
    requires c in s.conns
    ensures r.rooms == s.rooms && r.conns == s.conns && s.outbox <= r.outbox
  {
    var me := s.conns[c];
    match me.room
    case None => Send(s, c, Error(NotInRoomText))
    case Some(code) =>
      if raw.None? then s
      else
        var text := NormalizeChatText(raw.value);
        if text == "" then s
        else BroadcastToRoom(s, code, Chat(me.user.name, me.user.color, text, now), None)
  }

  /** `leaveRoom`: only when the current room still exists. */
  function LeaveRoom(s: State, c: ConnId): (r: State)
    requires c in s.conns
    ensures r.conns.Keys == s.conns.Keys && s.outbox <= r.outbox
    ensures r == s || r.conns[c].room.None?
  {
    var me := s.conns[c];
    if me.room.Some? && me.room.value in s.rooms then
      var s1 := Depart(s, c, me.room.value, LeftNotice(me.user.name));
      var s2 := Send(s1, c, RoomLeft(RoomLeftText));
      SetConn(s2, c, me.(room := None))
    else s
  }

  /** The `close` handler: the socket is no longer OPEN; it leaves its current
      room if that still exists. */
  function Close(s: State, c: ConnId): (r: State)
    requires c in s.conns
    ensures r.conns.Keys == s.conns.Keys && s.outbox <= r.outbox
    ensures !r.conns[c].open
  {
    var me := s.conns[c];
    var s1 := SetConn(s, c, me.(open := false));
    if me.room.Some? && me.room.value in s1.rooms then
      Depart(s1, c, me.room.value, DisconnectedNotice(me.user.name))
    else s1
  }

  /** One parsed frame from connection `c`. `attempts` are the generator's
      draws for a `createRoom` and `now` stands for `Date.now()`. An unknown
      type or a frame that does not parse changes nothing. */
  function Step(s: State, c: ConnId, cmd: Command, attempts: seq<seq<nat>>, now: int): (r: State)
    requires c in s.conns
    requires cmd.CreateRoomCmd? ==> ValidAttempts(attempts) && SomeAttemptFree(s.rooms.Keys, attempts)
    ensures r.conns.Keys == s.conns.Keys && s.outbox <= r.outbox
  {
    match cmd
    case CreateRoomCmd => CreateRoom(s, c, FirstFreeCode(s.rooms.Keys, attempts))
    case JoinRoomCmd(raw) => JoinRoom(s, c, raw)
    case SetNameCmd(raw) => SetName(s, c, raw)
    case SetColorCmd(color) => SetColor(s, c, color)
    case ChatCmd(raw) => ChatMessage(s, c, raw, now)
    case LeaveRoomCmd => LeaveRoom(s, c)
    case UnknownCmd(_) => s
    case Unparsable => s
  }

  /** The frames the shutdown handler sends when it visits the rooms in
      `order`: the shutdown notice to the open members of each room in turn. */
  function ShutdownNotices(rooms: map<string, seq<ConnId>>, conns: map<ConnId, Conn>, order: seq<string>): (r: seq<Delivery>)
    ensures forall d :: d in r ==> d.msg == System(ShutdownText)
  {
    if order == [] then []
    else
      var n := |order| - 1;
      var last := if order[n] in rooms then
        FanoutRecipients(rooms[order[n]], conns, System(ShutdownText), None);
        Fanout(rooms[order[n]], conns, System(ShutdownText), None)
      else [];
      ShutdownNotices(rooms, conns, order[..n]) + last
  }

  /** Visiting one more room appends that room's notices. */
  lemma ShutdownNoticesStep(rooms: map<string, seq<ConnId>>, conns: map<ConnId, Conn>, order: seq<string>, code: string)
    requires code in rooms
    ensures ShutdownNotices(rooms, conns, order + [code])
      == ShutdownNotices(rooms, conns, order) + Fanout(rooms[code], conns, System(ShutdownText), None)
  {
    assert (order + [code])[..|order|] == order;
  }

  /** Broadcasting the shutdown notice to one more room extends the notices
      already sent by that room's. */
  lemma ShutdownBroadcastExtends(s: State, sent: seq<Delivery>, order: seq<string>, code: string)
    requires code in s.rooms
    requires s.outbox == sent + ShutdownNotices(s.rooms, s.conns, order)
    ensures BroadcastToRoom(s, code, System(ShutdownText), None).outbox
      == sent + ShutdownNotices(s.rooms, s.conns, order + [code])
  {
    ShutdownNoticesStep(s.rooms, s.conns, order, code);
  }
}
