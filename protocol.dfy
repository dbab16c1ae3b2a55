/**
 * The wire protocol of the relay: the events the server sends, the commands a
 * client sends, and the fixed texts the server puts into its events.
 */
module Protocol {
  import opened Wrappers
  import opened Text

  const MaxNameLength := 20
  const MaxChatLength := 500
  const DefaultName := "Anonymous"
  const DefaultColor := "#00ff88"

  /** A connection's display identity, the `{name, color}` object of a roster entry. */
  datatype User = User(name: string, color: string)

  const DefaultUser := User(DefaultName, DefaultColor)

  /** Server-to-client events. */
  datatype Msg =
    | RoomCreated(roomCode: string, message: string)
    | RoomJoined(roomCode: string, message: string)
    | RoomLeft(message: string)
    | Chat(name: string, color: string, text: string, timestamp: int)
    | System(message: string)
    | UserList(users: seq<User>, roomCode: string)
    | Error(message: string)

  /** Client-to-server commands. A field that is absent or is not a string is
      `None`: the source's string method call on it throws and the handler's
      catch drops the whole message. The colour is stored without inspection. */
  datatype Command =
    | CreateRoomCmd
    | JoinRoomCmd(roomCode: Option<string>)
    | SetNameCmd(name: Option<string>)
    | SetColorCmd(color: string)
    | ChatCmd(text: Option<string>)
    | LeaveRoomCmd
    | UnknownCmd(kind: string)
    | Unparsable

  /** `name.substring(0, 20).trim() || 'Anonymous'`. */
  function NormalizeName(raw: string): (name: string)
    ensures 0 < |name| <= MaxNameLength
    ensures Unpadded(name)
  {
    var t := Trim(Truncate(raw, MaxNameLength));
    if t == "" then DefaultName else t
  }

  /** `text.substring(0, 500).trim()`; the empty result means "drop the message". */
  function NormalizeChatText(raw: string): (text: string)
    ensures |text| <= MaxChatLength
    ensures Unpadded(text)
  {
    Trim(Truncate(raw, MaxChatLength))
  }

  function RoomCreatedText(code: string): string {
    "Room " + code + " created! Share this code with friends."
  }

  function RoomJoinedText(code: string): string {
    "Joined room " + code + "!"
  }

  const RoomLeftText := "You left the room."
  const InvalidCodeText := "Invalid room code format. Must be 6 characters."
  const RoomNotFoundText := "Room not found. Check the code or create a new room."
  const RoomFullText := "Room is full! Maximum 5 users per room."
  const NotInRoomText := "You must join a room first!"
  const ShutdownText := "Server is shutting down!"

  function LeftNotice(name: string): string {
    name + " left the room."
  }

  function JoinedNotice(name: string): string {
    name + " joined the room!"
  }

  function DisconnectedNotice(name: string): string {
    name + " disconnected."
  }

  /** The notice `setName` broadcasts: a first name reads as joining the chat,
      any later one as a rename. */
  function RenameNotice(oldName: string, newName: string): string {
    if oldName == DefaultName then newName + " joined the chat!"
    else oldName + " is now known as " + newName
  }

  /** Only spaces in the input means the default name. */
  lemma BlankNameIsAnonymous(raw: string)
    requires AllSpace(raw)
    ensures NormalizeName(raw) == DefaultName
  {
    var t := Truncate(raw, MaxNameLength);
    assert AllSpace(t);
    TrimEmptyIffAllSpace(t);
  }

  /** A long name is cut to its first 20 characters before it is trimmed. */
  lemma LongNameIsTruncated(raw: string)
    requires |raw| > MaxNameLength && Unpadded(raw[..MaxNameLength])
    ensures NormalizeName(raw) == raw[..MaxNameLength]
  {
    var t := Truncate(raw, MaxNameLength);
    assert t == raw[..MaxNameLength];
    TrimFixesUnpadded(t);
    assert Trim(t) == t;
  }

  /** A short, unpadded name is kept as typed. */
  lemma ShortNameIsKept(raw: string)
    requires 0 < |raw| <= MaxNameLength && Unpadded(raw)
    ensures NormalizeName(raw) == raw
  {
    assert Truncate(raw, MaxNameLength) == raw;
    TrimFixesUnpadded(raw);
    assert Trim(raw) == raw;
    assert raw != "";
  }

  /** Chat text is dropped exactly when its first 500 characters are all spaces. */
  lemma ChatTextEmptyIffBlankPrefix(raw: string)
    ensures NormalizeChatText(raw) == "" <==> AllSpace(Truncate(raw, MaxChatLength))
  {
    TrimEmptyIffAllSpace(Truncate(raw, MaxChatLength));
  }
}
