/** One server-side connection (`ClientHandler`): the handshake on its first
    line, the commands it relays while reading, and its teardown.

    The handler's own fields are `userId` and `nickname`, both `null` until
    the handshake sets them. A handshake that throws (a missing field, an id
    `Long.parseLong` rejects) escapes `run`, so only the `finally` teardown
    runs after it and the connection reads nothing more. */
module Handler {
  import opened Common
  import opened JString
  import opened JLong
  import opened Registry

  datatype Phase = Reading | Closed

  datatype Handler = Handler(userId: Option<UserId>, nickname: Option<string>, phase: Phase)

  /** A handler, the registry and the frames written by one of its steps. */
  datatype Step = Step(handler: Handler, reg: Registry, out: seq<Send>)

  const ANONYMOUS: Handler := Handler(None, None, Reading)
  const CONNECTED: string := "CONNECTED:success"

  /** How string concatenation prints a nullable field. */
  function NullableText(s: Option<string>): string
  {
    match s
    case None => "null"
    case Some(t) => t
  }

  function NullableId(u: Option<UserId>): string
  {
    match u
    case None => "null"
    case Some(n) => LongToString(n)
  }

  /** `disconnect()`: a handler that knows its id unregisters it, whichever
      connection currently holds that id, and rebroadcasts the roster; one
      that does not changes nothing. */
  function Disconnect(h: Handler, reg: Registry): (s: Step)
    ensures s.handler == h.(phase := Closed)
    ensures h.userId.None? ==> s.reg == reg && s.out == []
    ensures h.userId.Some? ==> !IsUserOnline(s.reg, h.userId.value)
    ensures forall v :: h.userId != Some(v) ==> Lookup(s.reg.clients, v) == Lookup(reg.clients, v)
    ensures forall v :: (Received(s.out, v) ==
      if h.userId.Some? && h.userId != Some(v) && IsUserOnline(reg, v) then [UserListFrame(s.reg)] else [])
  {
    match h.userId
    case None => Step(h.(phase := Closed), reg, [])
    case Some(u) =>
      var t := Teardown(reg, u);
      Step(h.(phase := Closed), t.reg, t.out)
  }

  /** The first line `run` reads. An `AUTH:` line is split on `:` after the
      prefix; its first field is the id and its second the nickname, and any
      further fields are ignored. Any other line leaves the handler anonymous
      and reading. */
  function Open(reg: Registry, line: string): (s: Step)
    ensures !StartsWith(line, "AUTH:") ==> s == Step(ANONYMOUS, reg, [])
    ensures s.handler.phase == Reading ==> s.handler.userId.Some? == s.handler.nickname.Some?
    ensures s.handler.phase == Reading && s.handler.userId.Some? ==>
      Lookup(s.reg.clients, s.handler.userId.value) == s.handler.nickname
    ensures s.reg.rooms.Keys == reg.rooms.Keys
  {
    if !StartsWith(line, "AUTH:") then Step(ANONYMOUS, reg, [])
    else
      var data := Split(line[5..], ':');
      if |data| == 0 then Step(Handler(None, None, Closed), reg, [])
      else
        match ParseLong(data[0])
        case None => Step(Handler(None, None, Closed), reg, [])
        case Some(u) =>
          if |data| < 2 then
            var d := Disconnect(Handler(Some(u), None, Reading), reg);
            d
          else
            var nickname := data[1];
            var r := AddClient(reg, u, nickname);
            Step(Handler(Some(u), Some(nickname), Reading), r, [Send({u}, CONNECTED)] + BroadcastUserList(r))
  }

  /** `handleMessage(line)`: `CHAT:` and `POST_READ:` lines are broadcast to
      every registered connection; any other line is ignored. Nothing here
      changes the registry. */
  function HandleLine(h: Handler, reg: Registry, line: string): (out: seq<Send>)
    ensures StartsWith(line, "CHAT:") ==> forall v :: (Received(out, v) ==
      if IsUserOnline(reg, v) then [NullableText(h.nickname) + ": " + line[5..]] else [])
    ensures !StartsWith(line, "CHAT:") && StartsWith(line, "POST_READ:") ==> forall v :: (Received(out, v) ==
      if IsUserOnline(reg, v) then ["POST_READ:" + NullableId(h.userId) + ":" + line[10..]] else [])
    ensures !StartsWith(line, "CHAT:") && !StartsWith(line, "POST_READ:") ==> out == []
  {
    if StartsWith(line, "CHAT:") then
      Broadcast(reg, NullableText(h.nickname) + ": " + line[5..])
    else if StartsWith(line, "POST_READ:") then
      Broadcast(reg, "POST_READ:" + NullableId(h.userId) + ":" + line[10..])
    else []
  }

  /** The reading loop over `lines`, registry held fixed. */
  function HandleAll(h: Handler, reg: Registry, lines: seq<string>): seq<Send>
  {
    if |lines| == 0 then [] else HandleLine(h, reg, lines[0]) + HandleAll(h, reg, lines[1..])
  }

  /** A whole connection in isolation: the handshake on the first line, the
      loop over the rest until the stream ends, then the teardown in
      `finally`. A connection whose stream ends at once tears down with no
      id. */
  function Session(reg: Registry, lines: seq<string>): Step
  {
    if |lines| == 0 then Disconnect(ANONYMOUS, reg)
    else
      var o := Open(reg, lines[0]);
      if o.handler.phase == Closed then o
      else
        var talk := HandleAll(o.handler, o.reg, lines[1..]);
        var d := Disconnect(o.handler, o.reg);
        Step(d.handler, d.reg, o.out + talk + d.out)
  }

  /** The handshake line a client sends: `AUTH:` and then `id:nickname`. */
  function AuthLine(u: UserId, nickname: string): string
  {
    "AUTH:" + AuthBody(u, nickname)
  }

  function AuthBody(u: UserId, nickname: string): string
  {
    LongToString(u) + ":" + nickname
  }

  // ---------------------------------------------------------------------
  // The handshake
  // ---------------------------------------------------------------------

  lemma AuthBodyFields(id: string, nickname: string, extra: string)
    requires ':' !in id && nickname != "" && ':' !in nickname
    requires extra == "" || extra[0] == ':'
    ensures var data := Split(id + ":" + nickname + extra, ':');
      |data| >= 2 && data[0] == id && data[1] == nickname
  {
    if extra == "" {
      assert id + ":" + nickname + extra == id + [':'] + nickname;
      SplitPair(id, nickname, ':');
    } else {
      assert id + ":" + nickname + extra == id + [':'] + nickname + [':'] + extra[1..];
      SplitFirstTwo(id, nickname, extra[1..], ':');
    }
  }

  lemma AuthFields(u: UserId, nickname: string, extra: string)
    requires nickname != "" && ':' !in nickname
    requires extra == "" || extra[0] == ':'
    ensures StartsWith(AuthLine(u, nickname) + extra, "AUTH:")
    ensures var data := Split((AuthLine(u, nickname) + extra)[5..], ':');
      |data| >= 2 && data[0] == LongToString(u) && data[1] == nickname
  {
    LongToStringChars(u);
    var body := AuthBody(u, nickname) + extra;
    assert AuthLine(u, nickname) + extra == "AUTH:" + body;
    StartsWithConcat("AUTH:", body);
    AuthBodyFields(LongToString(u), nickname, extra);
  }

  /** A well-formed handshake, with or without further `:`-separated
      fields, registers the connection under its id and nickname, answers
      `CONNECTED:success` and then sends everyone, the newcomer included,
      the roster that now lists it. */
  lemma HandshakeRegisters(reg: Registry, u: UserId, nickname: string, extra: string)
    requires InLongRange(u)
    requires nickname != "" && ':' !in nickname
    requires extra == "" || extra[0] == ':'
    ensures var s := Open(reg, AuthLine(u, nickname) + extra);
      && s.handler == Handler(Some(u), Some(nickname), Reading)
      && s.reg == AddClient(reg, u, nickname)
      && Received(s.out, u) == [CONNECTED, UserListFrame(s.reg)]
      && (forall v :: v != u ==> (Received(s.out, v) ==
           if IsUserOnline(reg, v) then [UserListFrame(s.reg)] else []))
  {
    OpenAuth(reg, u, nickname, extra);
    ConnectedOut(AddClient(reg, u, nickname), u);
  }

  lemma OpenAuth(reg: Registry, u: UserId, nickname: string, extra: string)
    requires InLongRange(u)
    requires nickname != "" && ':' !in nickname
    requires extra == "" || extra[0] == ':'
    ensures Open(reg, AuthLine(u, nickname) + extra) ==
      Step(Handler(Some(u), Some(nickname), Reading), AddClient(reg, u, nickname),
           [Send({u}, CONNECTED)] + BroadcastUserList(AddClient(reg, u, nickname)))
  {
    AuthFields(u, nickname, extra);
    LongRoundTrip(u);
  }

  /** The newcomer reads the greeting and then the roster; everyone else
      registered reads the roster. */
  lemma ConnectedOut(r: Registry, u: UserId)
    requires IsUserOnline(r, u)
    ensures var out := [Send({u}, CONNECTED)] + BroadcastUserList(r);
      forall v :: (Received(out, v) ==
        (if v == u then [CONNECTED] else []) + (if IsUserOnline(r, v) then [UserListFrame(r)] else []))
  {
    var first := [Send({u}, CONNECTED)];
    forall v ensures Received(first + BroadcastUserList(r), v) == Received(first, v) + Received(BroadcastUserList(r), v) {
      ReceivedAppend(first, BroadcastUserList(r), v);
    }
  }

  /** An id `Long.parseLong` rejects ends the connection before anything is
      registered or written. */
  lemma HandshakeBadId(reg: Registry, rest: string)
    requires var data := Split(rest, ':'); |data| == 0 || ParseLong(data[0]).None?
    ensures Open(reg, "AUTH:" + rest) == Step(Handler(None, None, Closed), reg, [])
  {
    StartsWithConcat("AUTH:", rest);
  }

  /** A handshake whose text after `AUTH:` splits to the id alone (`AUTH:5`,
      but also `AUTH:5:` or `AUTH:5:::`, since `split` drops trailing empty
      fields) sets the id before failing, so the teardown in `finally`
      unregisters that id: an earlier connection registered under it is
      evicted and everyone else gets the new roster. */
  lemma HandshakeMissingNickname(reg: Registry, u: UserId, rest: string)
    requires InLongRange(u)
    requires Split(rest, ':') == [LongToString(u)]
    ensures var s := Open(reg, "AUTH:" + rest);
      && s.handler == Handler(Some(u), None, Closed)
      && s.reg == RemoveClient(reg, u)
      && !IsUserOnline(s.reg, u)
      && forall v :: (Received(s.out, v) ==
           if v != u && IsUserOnline(reg, v) then [UserListFrame(s.reg)] else [])
  {
    LongRoundTrip(u);
    StartsWithConcat("AUTH:", rest);
    assert ("AUTH:" + rest)[5..] == rest;
  }

  /** The handshake a client with an empty nickname sends, `AUTH:<id>:`, is
      a missing nickname: the trailing empty field is dropped. */
  lemma EmptyNicknameAuthEvicts(reg: Registry, u: UserId)
    requires InLongRange(u)
    ensures var s := Open(reg, AuthLine(u, ""));
      s.handler == Handler(Some(u), None, Closed) && s.reg == RemoveClient(reg, u)
  {
    LongToStringChars(u);
    var id := LongToString(u);
    assert AuthLine(u, "") == "AUTH:" + (id + [':']);
    SplitTrailing(id, ':');
    HandshakeMissingNickname(reg, u, id + [':']);
  }

  /** A first line that is not a handshake leaves the connection anonymous
      and reading. */
  lemma NoHandshakeIsAnonymous(reg: Registry, line: string)
    requires !StartsWith(line, "AUTH:")
    ensures Open(reg, line) == Step(ANONYMOUS, reg, [])
  {
  }

  /** Two connections that authenticate with the same id: the later one
      takes the registry entry, so the earlier one no longer receives. */
  lemma SameIdLastWins(reg: Registry, u: UserId, first: string, second: string)
    requires InLongRange(u)
    requires first != "" && ':' !in first && second != "" && ':' !in second
    ensures var a := Open(reg, AuthLine(u, first));
      var b := Open(a.reg, AuthLine(u, second));
      Lookup(b.reg.clients, u) == Some(second) && OnlineCount(b.reg) == OnlineCount(a.reg)
  {
    HandshakeRegisters(reg, u, first, "");
    assert AuthLine(u, first) + "" == AuthLine(u, first);
    var a := Open(reg, AuthLine(u, first));
    HandshakeRegisters(a.reg, u, second, "");
    assert AuthLine(u, second) + "" == AuthLine(u, second);
  }

  // ---------------------------------------------------------------------
  // Relayed commands
  // ---------------------------------------------------------------------

  /** An anonymous connection's chat is still relayed, under the name `null`. */
  lemma AnonymousChat(reg: Registry, text: string, v: UserId)
    requires IsUserOnline(reg, v)
    ensures Received(HandleLine(ANONYMOUS, reg, "CHAT:" + text), v) == ["null: " + text]
  {
    StartsWithConcat("CHAT:", text);
    assert NullableText(None) + ": " + text == "null: " + text;
  }

  /** The handler's own read receipt puts the reader's id first. */
  lemma PostReadRelay(h: Handler, reg: Registry, u: UserId, post: string, v: UserId)
    requires h.userId == Some(u) && IsUserOnline(reg, v)
    ensures Received(HandleLine(h, reg, "POST_READ:" + post), v) == ["POST_READ:" + LongToString(u) + ":" + post]
  {
    StartsWithConcat("POST_READ:", post);
    assert !StartsWith("POST_READ:" + post, "CHAT:") by {
      assert ("POST_READ:" + post)[1] == 'O';
    }
  }

  // ---------------------------------------------------------------------
  // Teardown
  // ---------------------------------------------------------------------

  /** Disconnecting twice leaves the registry as disconnecting once did, but
      the roster is broadcast again. */
  lemma DisconnectTwice(h: Handler, reg: Registry)
    ensures var once := Disconnect(h, reg);
      var twice := Disconnect(once.handler, once.reg);
      && twice.reg == once.reg
      && (h.userId.Some? ==> forall v :: (Received(twice.out, v) ==
           if h.userId != Some(v) && IsUserOnline(once.reg, v) then [UserListFrame(once.reg)] else []))
  {
    if h.userId.Some? {
      RemoveClientIdempotent(reg, h.userId.value);
    }
  }

  lemma {:induction false} DeletePut(cs: seq<Client>, u: UserId, nickname: string)
    ensures Delete(Put(cs, u, nickname), u) == Delete(cs, u)
  {
    if |cs| > 0 && cs[0].id != u {
      DeletePut(cs[1..], u, nickname);
      assert Put(cs, u, nickname)[1..] == Put(cs[1..], u, nickname);
    }
  }

  /** An authenticated connection that runs to the end of its stream leaves
      the registry as if its id had been unregistered: whatever it added is
      gone, and so is any other connection under the same id. */
  lemma SessionLeavesNoTrace(reg: Registry, u: UserId, nickname: string, lines: seq<string>)
    requires InLongRange(u)
    requires nickname != "" && ':' !in nickname
    ensures Session(reg, [AuthLine(u, nickname)] + lines).reg == RemoveClient(reg, u)
  {
    HandshakeRegisters(reg, u, nickname, "");
    assert AuthLine(u, nickname) + "" == AuthLine(u, nickname);
    var all := [AuthLine(u, nickname)] + lines;
    assert all[0] == AuthLine(u, nickname) && all[1..] == lines;
    var added := AddClient(reg, u, nickname);
    DeletePut(reg.clients, u, nickname);
    assert RemoveClient(added, u) == RemoveClient(reg, u);
  }

  // ---------------------------------------------------------------------
  // Nicknames never contain the field separator
  // ---------------------------------------------------------------------

  /** Every registered nickname is free of `:`. */
  predicate CleanNicknames(reg: Registry)
  {
    forall c :: c in reg.clients ==> ':' !in c.nickname
  }

  /** Since nicknames come out of a `split(":")`, a handshake never registers
      one containing `:`. */
  lemma OpenKeepsCleanNicknames(reg: Registry, line: string)
    requires CleanNicknames(reg)
    ensures CleanNicknames(Open(reg, line).reg)
  {
    if StartsWith(line, "AUTH:") {
      var data := Split(line[5..], ':');
      SplitFieldsFree(line[5..], ':');
    }
  }

  /** Nothing checks that the nickname is non-empty: in `AUTH:<id>::<more>`
      the second field is empty but is still a field, and the connection
      is registered under the empty nickname. */
  lemma HandshakeEmptyNickname(reg: Registry, u: UserId, more: string)
    requires InLongRange(u)
    requires more != "" && ':' !in more
    ensures var s := Open(reg, AuthLine(u, "") + ":" + more);
      s.handler == Handler(Some(u), Some(""), Reading) && Lookup(s.reg.clients, u) == Some("")
  {
    LongToStringChars(u);
    LongRoundTrip(u);
    var id := LongToString(u);
    var line := AuthLine(u, "") + ":" + more;
    assert StartsWith(line, "AUTH:") by {
      assert line == "AUTH:" + (id + ":" + ":" + more);
      StartsWithConcat("AUTH:", id + ":" + ":" + more);
    }
    assert line[5..] == id + [':'] + "" + [':'] + more;
    EmptyFieldSplit(id, more);
  }

  /** `id::more` splits into three fields, the middle one empty. */
  lemma EmptyFieldSplit(id: string, more: string)
    requires ':' !in id && more != "" && ':' !in more
    ensures Split(id + [':'] + "" + [':'] + more, ':') == [id, "", more]
  {
    var s := id + [':'] + "" + [':'] + more;
    FieldsTwo(id, "", more, ':');
    assert Fields(more, ':') == [more];
    assert s[|id|] == ':';
    assert [id, ""] + [more] == [id, "", more];
  }
}
