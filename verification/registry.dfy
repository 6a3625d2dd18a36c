/** The server's connection registry (`ConnectionManager`): who is connected
    under which nickname, who is in which room, and the frames each
    operation writes.

    Every operation is a pure transition from a registry to a new registry
    plus an outbox. An outbox is a sequence of fan-outs; each fan-out writes
    one frame to a set of connections. Within a fan-out the order in which
    connections are written is the hash map's and is left unspecified; the
    order of fan-outs is the order of the calls. Connections are named by
    the user id they registered under. */
module Registry {
  import opened Common
  import opened JString
  import opened JLong
  import Codec

  type UserId = int
  type RoomId = int

  /** A registered connection: the map key and its handler's nickname. */
  datatype Client = Client(id: UserId, nickname: string)

  /** One frame written to every connection in `to`. */
  datatype Send = Send(to: set<UserId>, frame: string)

  /** The two maps of the manager. `clients` lists the entries in the map's
      iteration order; `rooms` lists each room's members in its set's
      iteration order. */
  datatype Registry = Registry(clients: seq<Client>, rooms: map<RoomId, seq<UserId>>)
  {
    /** Map keys and set elements occur once. */
    predicate Valid()
    {
      && Keyed(clients)
      && (forall r :: r in rooms ==> Distinct(rooms[r]))
    }
  }

  /** A transition's result: the registry afterwards and the frames written. */
  datatype Effect = Effect(reg: Registry, out: seq<Send>)

  const EMPTY: Registry := Registry([], map[])
  const SERVER_SHUTDOWN: string := "SERVER_SHUTDOWN"

  // ---------------------------------------------------------------------
  // Looking connections up
  // ---------------------------------------------------------------------

  /** The nickname registered under `u` (`clients.get(u).getNickname()`). */
  function Lookup(cs: seq<Client>, u: UserId): (r: Option<string>)
    ensures r.Some? <==> exists i :: 0 <= i < |cs| && cs[i].id == u
    ensures r.Some? ==> Client(u, r.value) in cs
  {
    if |cs| == 0 then None
    else if cs[0].id == u then Some(cs[0].nickname)
    else Lookup(cs[1..], u)
  }

  /** `isUserOnline`. */
  predicate IsUserOnline(reg: Registry, u: UserId)
  {
    Lookup(reg.clients, u).Some?
  }

  /** The ids that currently hold a connection. */
  function Online(reg: Registry): set<UserId>
  {
    set c | c in reg.clients :: c.id
  }

  lemma OnlineIsLookup(reg: Registry, u: UserId)
    ensures u in Online(reg) <==> IsUserOnline(reg, u)
  {
    if IsUserOnline(reg, u) {
      assert Client(u, Lookup(reg.clients, u).value) in reg.clients;
    }
    if u in Online(reg) {
      var c :| c in reg.clients && c.id == u;
      var i :| 0 <= i < |reg.clients| && reg.clients[i] == c;
    }
  }

  /** `getOnlineCount`: the size of the map. */
  function OnlineCount(reg: Registry): nat
  {
    |reg.clients|
  }

  /** A registry with distinct keys counts each online id once. */
  lemma {:induction false} OnlineCountIsDistinctIds(reg: Registry)
    requires reg.Valid()
    ensures OnlineCount(reg) == |Online(reg)|
    decreases |reg.clients|
  {
    if |reg.clients| > 0 {
      var c := reg.clients[0];
      var tail := Registry(reg.clients[1..], reg.rooms);
      OnlineCountIsDistinctIds(tail);
      assert Online(reg) == {c.id} + Online(tail) by {
        assert reg.clients == [c] + tail.clients;
      }
      forall d | d in tail.clients ensures d.id != c.id {
        var i :| 0 <= i < |tail.clients| && tail.clients[i] == d;
        assert reg.clients[i + 1] == d;
      }
    }
  }

  // ---------------------------------------------------------------------
  // Registering and unregistering
  // ---------------------------------------------------------------------

  /** `clients.put(u, …)`: an existing entry keeps its place and takes the
      new nickname; a new one is added. */
  function Put(cs: seq<Client>, u: UserId, nickname: string): (r: seq<Client>)
    ensures Lookup(r, u) == Some(nickname)
    ensures forall v :: v != u ==> Lookup(r, v) == Lookup(cs, v)
    ensures |r| == |cs| + (if Lookup(cs, u).Some? then 0 else 1)
    ensures forall c :: c in r ==> c in cs || c == Client(u, nickname)
  {
    if |cs| == 0 then [Client(u, nickname)]
    else if cs[0].id == u then [Client(u, nickname)] + cs[1..]
    else [cs[0]] + Put(cs[1..], u, nickname)
  }

  /** `clients.remove(u)`. */
  function Delete(cs: seq<Client>, u: UserId): (r: seq<Client>)
    ensures Lookup(r, u) == None
    ensures forall v :: v != u ==> Lookup(r, v) == Lookup(cs, v)
    ensures forall c :: c in r ==> c in cs
    ensures |r| <= |cs|
    ensures Lookup(cs, u).Some? ==> |r| < |cs|
    ensures (forall i :: 0 <= i < |cs| ==> cs[i].id != u) ==> r == cs
  {
    if |cs| == 0 then []
    else if cs[0].id == u then Delete(cs[1..], u)
    else [cs[0]] + Delete(cs[1..], u)
  }

  /** `Set.remove(u)` on a member list. */
  function Without(xs: seq<UserId>, u: UserId): (r: seq<UserId>)
    ensures u !in r
    ensures forall v :: v != u ==> (v in r <==> v in xs)
    ensures Distinct(xs) ==> Distinct(r)
    ensures u !in xs ==> r == xs
  {
    if |xs| == 0 then []
    else if xs[0] == u then Without(xs[1..], u)
    else
      var rest := Without(xs[1..], u);
      assert Distinct(xs) ==> xs[0] !in xs[1..];
      [xs[0]] + rest
  }

  /** Keys of the client map occur once. */
  predicate Keyed(cs: seq<Client>)
  {
    forall i, j :: 0 <= i < j < |cs| ==> cs[i].id != cs[j].id
  }

  lemma PutKeepsKeyed(cs: seq<Client>, u: UserId, nickname: string)
    ensures Keyed(cs) ==> Keyed(Put(cs, u, nickname))
  {
    if Keyed(cs) && |cs| > 0 && cs[0].id != u {
      PutKeepsKeyed(cs[1..], u, nickname);
      var r := Put(cs, u, nickname);
      forall j | 0 < j < |r| ensures r[0].id != r[j].id {
        var c := r[j];
        assert c in Put(cs[1..], u, nickname);
        if c != Client(u, nickname) {
          var k :| 0 <= k < |cs[1..]| && cs[1..][k] == c;
          assert cs[k + 1] == c;
        }
      }
    }
  }

  lemma DeleteKeepsKeyed(cs: seq<Client>, u: UserId)
    ensures Keyed(cs) ==> Keyed(Delete(cs, u))
  {
    if Keyed(cs) && |cs| > 0 {
      DeleteKeepsKeyed(cs[1..], u);
      var r := Delete(cs, u);
      if cs[0].id != u {
        forall j | 0 < j < |r| ensures r[0].id != r[j].id {
          var c := r[j];
          assert c in Delete(cs[1..], u);
          var k :| 0 <= k < |cs[1..]| && cs[1..][k] == c;
          assert cs[k + 1] == c;
        }
      }
    }
  }

  /** `addClient(u, nickname, handler)`: last writer wins. */
  function AddClient(reg: Registry, u: UserId, nickname: string): (r: Registry)
    ensures IsUserOnline(r, u) && Lookup(r.clients, u) == Some(nickname)
    ensures forall v :: v != u ==> Lookup(r.clients, v) == Lookup(reg.clients, v)
    ensures OnlineCount(r) == OnlineCount(reg) + (if IsUserOnline(reg, u) then 0 else 1)
    ensures r.rooms == reg.rooms
    ensures reg.Valid() ==> r.Valid()
  {
    PutKeepsKeyed(reg.clients, u, nickname);
    Registry(Put(reg.clients, u, nickname), reg.rooms)
  }

  /** `removeClient(u)`: the connection and every room membership of `u` go. */
  function RemoveClient(reg: Registry, u: UserId): (r: Registry)
    ensures !IsUserOnline(r, u)
    ensures forall v :: v != u ==> Lookup(r.clients, v) == Lookup(reg.clients, v)
    ensures r.rooms.Keys == reg.rooms.Keys
    ensures forall room :: room in r.rooms ==> u !in r.rooms[room]
    ensures forall room, v :: room in r.rooms && v != u ==>
      (v in r.rooms[room] <==> v in reg.rooms[room])
    ensures |r.clients| <= |reg.clients|
    ensures IsUserOnline(reg, u) ==> |r.clients| < |reg.clients|
    ensures reg.Valid() ==> r.Valid()
  {
    DeleteKeepsKeyed(reg.clients, u);
    Registry(Delete(reg.clients, u), map room | room in reg.rooms :: Without(reg.rooms[room], u))
  }

  /** Removing twice is removing once. */
  lemma RemoveClientIdempotent(reg: Registry, u: UserId)
    ensures RemoveClient(RemoveClient(reg, u), u) == RemoveClient(reg, u)
  {
    var once := RemoveClient(reg, u);
    var twice := RemoveClient(once, u);
    assert Lookup(once.clients, u).None?;
    assert forall i :: 0 <= i < |once.clients| ==> once.clients[i].id != u;
    assert twice.clients == once.clients;
    forall room | room in once.rooms ensures twice.rooms[room] == once.rooms[room] {
      assert u !in once.rooms[room];
    }
    assert twice.rooms == once.rooms;
  }

  // ---------------------------------------------------------------------
  // Writing frames
  // ---------------------------------------------------------------------

  /** One frame to a set of connections; nothing at all when the set is empty. */
  function Fanout(to: set<UserId>, frame: string): (out: seq<Send>)
    ensures |out| <= 1
  {
    if to == {} then [] else [Send(to, frame)]
  }

  /** The frames connection `v` reads from `out`, in order. */
  function Received(out: seq<Send>, v: UserId): seq<string>
  {
    if |out| == 0 then []
    else (if v in out[0].to then [out[0].frame] else []) + Received(out[1..], v)
  }

  lemma {:induction false} ReceivedAppend(a: seq<Send>, b: seq<Send>, v: UserId)
    ensures Received(a + b, v) == Received(a, v) + Received(b, v)
  {
    if |a| == 0 {
      assert a + b == b;
    } else {
      assert (a + b)[1..] == a[1..] + b;
      ReceivedAppend(a[1..], b, v);
    }
  }

  lemma ReceivedFanout(to: set<UserId>, frame: string, v: UserId)
    ensures Received(Fanout(to, frame), v) == if v in to then [frame] else []
  {
  }

  /** Connections in `room` that are registered. */
  function RoomAudience(reg: Registry, room: RoomId): set<UserId>
  {
    if room in reg.rooms then set u | u in reg.rooms[room] && IsUserOnline(reg, u) else {}
  }

  /** `broadcast(frame)`: once to every registered connection. */
  function Broadcast(reg: Registry, frame: string): (out: seq<Send>)
    ensures forall v :: Received(out, v) == if IsUserOnline(reg, v) then [frame] else []
  {
    var to := Online(reg);
    assert forall v :: v in to <==> IsUserOnline(reg, v) by {
      forall v ensures v in to <==> IsUserOnline(reg, v) {
        OnlineIsLookup(reg, v);
      }
    }
    Fanout(to, frame)
  }

  /** `broadcastToRoom(room, frame)`: once to every registered member of
      `room`; nothing when the room has no member set. */
  function BroadcastToRoom(reg: Registry, room: RoomId, frame: string): (out: seq<Send>)
    ensures room !in reg.rooms ==> out == []
    ensures forall v :: (Received(out, v) ==
      if room in reg.rooms && v in reg.rooms[room] && IsUserOnline(reg, v) then [frame] else [])
  {
    var to := RoomAudience(reg, room);
    assert forall v :: v in to <==> room in reg.rooms && v in reg.rooms[room] && IsUserOnline(reg, v);
    Fanout(to, frame)
  }

  /** `sendToUser(u, frame)`: to `u` alone, if it is registered. */
  function SendToUser(reg: Registry, u: UserId, frame: string): (out: seq<Send>)
    ensures |out| <= 1
    ensures forall v :: Received(out, v) == if v == u && IsUserOnline(reg, u) then [frame] else []
  {
    if IsUserOnline(reg, u) then [Send({u}, frame)] else []
  }

  // ---------------------------------------------------------------------
  // Rooms
  // ---------------------------------------------------------------------

  function Members(reg: Registry, room: RoomId): seq<UserId>
  {
    if room in reg.rooms then reg.rooms[room] else []
  }

  /** `ROOM_JOIN:room:user:nickname`. */
  function JoinFrame(room: RoomId, u: UserId, nickname: string): string
  {
    Join(["ROOM_JOIN", LongToString(room), LongToString(u), nickname], ':')
  }

  /** `ROOM_LEAVE:room:user:nickname`. */
  function LeaveFrame(room: RoomId, u: UserId, nickname: string): string
  {
    Join(["ROOM_LEAVE", LongToString(room), LongToString(u), nickname], ':')
  }

  /** `joinRoom(room, u)`: `u` joins the room's member set (created when
      missing); a registered `u` announces itself to every registered member,
      itself included. */
  function JoinRoom(reg: Registry, room: RoomId, u: UserId): (e: Effect)
    ensures room in e.reg.rooms && u in e.reg.rooms[room]
    ensures forall v :: v in Members(reg, room) ==> v in e.reg.rooms[room]
    ensures forall v :: v in e.reg.rooms[room] ==> v == u || v in Members(reg, room)
    ensures forall other :: other != room ==> Members(e.reg, other) == Members(reg, other)
    ensures e.reg.clients == reg.clients
    ensures !IsUserOnline(reg, u) ==> e.out == []
    ensures forall v :: (Received(e.out, v) ==
      if IsUserOnline(reg, u) && v in e.reg.rooms[room] && IsUserOnline(reg, v)
      then [JoinFrame(room, u, Lookup(reg.clients, u).value)] else [])
    ensures IsUserOnline(reg, u) ==>
      Received(e.out, u) == [JoinFrame(room, u, Lookup(reg.clients, u).value)]
    ensures reg.Valid() ==> e.reg.Valid()
  {
    var members := Members(reg, room);
    var joined := if u in members then members else members + [u];
    assert Distinct(members) ==> Distinct(joined);
    var r := Registry(reg.clients, reg.rooms[room := joined]);
    match Lookup(reg.clients, u)
    case None => Effect(r, [])
    case Some(nickname) => Effect(r, BroadcastToRoom(r, room, JoinFrame(room, u, nickname)))
  }

  /** `leaveRoom(room, u)`: nothing when the room has no member set;
      otherwise `u` leaves first, so the announcement reaches the remaining
      registered members and not the leaver. */
  function LeaveRoom(reg: Registry, room: RoomId, u: UserId): (e: Effect)
    ensures room !in reg.rooms ==> e == Effect(reg, [])
    ensures room in reg.rooms ==> room in e.reg.rooms && u !in e.reg.rooms[room]
    ensures room in reg.rooms ==> forall v :: v != u ==>
      (v in e.reg.rooms[room] <==> v in reg.rooms[room])
    ensures forall other :: other != room ==> Members(e.reg, other) == Members(reg, other)
    ensures e.reg.clients == reg.clients
    ensures Received(e.out, u) == []
    ensures forall v :: (Received(e.out, v) ==
      if room in reg.rooms && IsUserOnline(reg, u) && v != u && v in reg.rooms[room] && IsUserOnline(reg, v)
      then [LeaveFrame(room, u, Lookup(reg.clients, u).value)] else [])
    ensures reg.Valid() ==> e.reg.Valid()
  {
    if room !in reg.rooms then Effect(reg, [])
    else
      var r := Registry(reg.clients, reg.rooms[room := Without(reg.rooms[room], u)]);
      match Lookup(reg.clients, u)
      case None => Effect(r, [])
      case Some(nickname) => Effect(r, BroadcastToRoom(r, room, LeaveFrame(room, u, nickname)))
  }

  // ---------------------------------------------------------------------
  // Rosters
  // ---------------------------------------------------------------------

  /** One roster entry, `id:nickname`. */
  function Item(u: UserId, nickname: string): string
  {
    LongToString(u) + ":" + nickname
  }

  /** The entries of the global roster, in iteration order. */
  function ClientItems(cs: seq<Client>): (r: seq<string>)
    ensures |r| == |cs|
    ensures forall i :: 0 <= i < |cs| ==> r[i] == Item(cs[i].id, cs[i].nickname)
  {
    if |cs| == 0 then [] else [Item(cs[0].id, cs[0].nickname)] + ClientItems(cs[1..])
  }

  /** The registered members of a room, as (id, nickname) in member order. */
  function RosterOf(cs: seq<Client>, members: seq<UserId>): (r: seq<Client>)
    ensures |r| <= |members|
    ensures forall c :: c in r ==> c.id in members && Lookup(cs, c.id) == Some(c.nickname)
    ensures forall v :: v in members && Lookup(cs, v).Some? ==> Client(v, Lookup(cs, v).value) in r
  {
    if |members| == 0 then []
    else
      var rest := RosterOf(cs, members[1..]);
      match Lookup(cs, members[0])
      case None => rest
      case Some(n) => [Client(members[0], n)] + rest
  }

  /** The nicknames a roster lists, in order. */
  function Nicknames(cs: seq<Client>): (r: seq<string>)
    ensures |r| == |cs|
    ensures forall i :: 0 <= i < |cs| ==> r[i] == cs[i].nickname
  {
    if |cs| == 0 then [] else [cs[0].nickname] + Nicknames(cs[1..])
  }

  /** What the `StringBuilder` loops append: every entry followed by a comma. */
  function CommaTerminated(items: seq<string>): string
  {
    if |items| == 0 then "" else items[0] + "," + CommaTerminated(items[1..])
  }

  lemma {:induction false} CommaTerminatedIsJoin(items: seq<string>)
    requires |items| > 0
    ensures CommaTerminated(items) == Join(items, ',') + ","
  {
    if |items| > 1 {
      CommaTerminatedIsJoin(items[1..]);
    } else {
      assert CommaTerminated(items[1..]) == "";
    }
  }

  /** Dropping the builder's last character when it is the trailing comma
      leaves the comma-joined entries after `head`. */
  lemma TrimTrailingComma(head: string, items: seq<string>)
    requires |head| > 0 && head[|head| - 1] != ','
    ensures var b := head + CommaTerminated(items);
      && (|b| == |head| <==> |items| == 0)
      && (b[|b| - 1] == ',' <==> |items| > 0)
      && (if b[|b| - 1] == ',' then b[..|b| - 1] else b) == head + Join(items, ',')
  {
    var b := head + CommaTerminated(items);
    if |items| > 0 {
      CommaTerminatedIsJoin(items);
      assert b == head + Join(items, ',') + ",";
      assert b[..|b| - 1] == head + Join(items, ',');
    } else {
      assert b == head;
    }
  }

  /** The frame of `broadcastUserList`: the entries joined by commas after
      `USERLIST:`, with no trailing comma, and exactly `USERLIST:` when nobody
      is connected. */
  function UserListFrame(reg: Registry): (r: string)
    ensures r == "USERLIST:" + Join(ClientItems(reg.clients), ',')
    ensures |reg.clients| == 0 ==> r == "USERLIST:"
  {
    var items := ClientItems(reg.clients);
    var built := "USERLIST:" + CommaTerminated(items);
    TrimTrailingComma("USERLIST:", items);
    if |built| > 9 then built[..|built| - 1] else built
  }

  /** The frame of `broadcastRoomUserList(room)`: `ROOM_USERLIST:room:` and the
      comma-joined entries of the room's registered members. */
  function RoomUserListFrame(reg: Registry, room: RoomId): (r: string)
    ensures r == "ROOM_USERLIST:" + LongToString(room) + ":"
      + Join(ClientItems(RosterOf(reg.clients, Members(reg, room))), ',')
  {
    var head := "ROOM_USERLIST:" + LongToString(room) + ":";
    if room !in reg.rooms then head
    else
      var items := ClientItems(RosterOf(reg.clients, reg.rooms[room]));
      var built := head + CommaTerminated(items);
      TrimTrailingComma(head, items);
      if built[|built| - 1] == ',' then built[..|built| - 1] else built
  }

  function BroadcastUserList(reg: Registry): seq<Send>
  {
    Broadcast(reg, UserListFrame(reg))
  }

  function BroadcastRoomUserList(reg: Registry, room: RoomId): seq<Send>
  {
    BroadcastToRoom(reg, room, RoomUserListFrame(reg, room))
  }

  // ---------------------------------------------------------------------
  // Push notifications
  // ---------------------------------------------------------------------

  /** `NEW_ROOM:room:name:creator:creatorName`; the room name is not encoded. */
  function NewRoomFrame(room: RoomId, roomName: string, creator: UserId, creatorName: string): string
  {
    Join(["NEW_ROOM", LongToString(room), roomName, LongToString(creator), creatorName], ':')
  }

  /** `NEW_POST:room:post:title:author:type`, the title encoded. */
  function NewPostFrame(room: RoomId, post: int, title: string, authorName: string, postType: string): string
  {
    Join(["NEW_POST", LongToString(room), LongToString(post), Codec.Encode(title), authorName, postType], ':')
  }

  /** `POST_DELETED:room:post`. */
  function PostDeletedFrame(room: RoomId, post: int): string
  {
    Join(["POST_DELETED", LongToString(room), LongToString(post)], ':')
  }

  /** `NEW_COMMENT:post:comment:author:content`, the content encoded. */
  function NewCommentFrame(post: int, comment: int, authorName: string, content: string): string
  {
    Join(["NEW_COMMENT", LongToString(post), LongToString(comment), authorName, Codec.Encode(content)], ':')
  }

  /** `POST_READ:post:user:nickname`. */
  function PostReadFrame(post: int, u: UserId, nickname: string): string
  {
    Join(["POST_READ", LongToString(post), LongToString(u), nickname], ':')
  }

  /** `notifyNewRoom`: to everyone. */
  function NotifyNewRoom(reg: Registry, room: RoomId, roomName: string, creator: UserId, creatorName: string): (out: seq<Send>)
    ensures forall v :: (Received(out, v) ==
      if IsUserOnline(reg, v) then [NewRoomFrame(room, roomName, creator, creatorName)] else [])
  {
    Broadcast(reg, NewRoomFrame(room, roomName, creator, creatorName))
  }

  /** `notifyRoomDeleted`: to everyone. */
  function NotifyRoomDeleted(reg: Registry, room: RoomId): (out: seq<Send>)
    ensures forall v :: (Received(out, v) ==
      if IsUserOnline(reg, v) then ["ROOM_DELETED:" + LongToString(room)] else [])
  {
    Broadcast(reg, "ROOM_DELETED:" + LongToString(room))
  }

  /** `notifyNewPost`: the post to the room, then a `POST_UPDATE` to everyone. */
  function NotifyNewPost(reg: Registry, room: RoomId, post: int, title: string, authorName: string, postType: string): (out: seq<Send>)
    ensures |out| <= 2
    ensures forall v :: (Received(out, v) ==
      (if room in reg.rooms && v in reg.rooms[room] && IsUserOnline(reg, v)
       then [NewPostFrame(room, post, title, authorName, postType)] else [])
      + (if IsUserOnline(reg, v) then ["POST_UPDATE:" + LongToString(room)] else []))
  {
    var toRoom := BroadcastToRoom(reg, room, NewPostFrame(room, post, title, authorName, postType));
    var toAll := Broadcast(reg, "POST_UPDATE:" + LongToString(room));
    forall v ensures Received(toRoom + toAll, v) == Received(toRoom, v) + Received(toAll, v) {
      ReceivedAppend(toRoom, toAll, v);
    }
    toRoom + toAll
  }

  /** `notifyPostDeleted`: to the room. */
  function NotifyPostDeleted(reg: Registry, room: RoomId, post: int): (out: seq<Send>)
    ensures forall v :: (Received(out, v) ==
      if room in reg.rooms && v in reg.rooms[room] && IsUserOnline(reg, v)
      then [PostDeletedFrame(room, post)] else [])
  {
    BroadcastToRoom(reg, room, PostDeletedFrame(room, post))
  }

  /** `notifyNewComment`: to the room; the frame itself names no room. */
  function NotifyNewComment(reg: Registry, room: RoomId, post: int, comment: int, authorName: string, content: string): (out: seq<Send>)
    ensures forall v :: (Received(out, v) ==
      if room in reg.rooms && v in reg.rooms[room] && IsUserOnline(reg, v)
      then [NewCommentFrame(post, comment, authorName, content)] else [])
  {
    BroadcastToRoom(reg, room, NewCommentFrame(post, comment, authorName, content))
  }

  /** `notifyPostRead`: to the room, post id before user id. */
  function NotifyPostRead(reg: Registry, room: RoomId, post: int, u: UserId, nickname: string): (out: seq<Send>)
    ensures forall v :: (Received(out, v) ==
      if room in reg.rooms && v in reg.rooms[room] && IsUserOnline(reg, v)
      then [PostReadFrame(post, u, nickname)] else [])
  {
    BroadcastToRoom(reg, room, PostReadFrame(post, u, nickname))
  }

  /** `notifyAssignmentSubmitted`: to the post's author alone. */
  function NotifyAssignmentSubmitted(reg: Registry, author: UserId, assignment: int, submitter: UserId, submitterName: string): (out: seq<Send>)
    ensures forall v :: (Received(out, v) ==
      if v == author && IsUserOnline(reg, author)
      then ["ASSIGNMENT_SUBMITTED:" + LongToString(assignment) + ":" + LongToString(submitter) + ":" + submitterName]
      else [])
  {
    SendToUser(reg, author, "ASSIGNMENT_SUBMITTED:" + LongToString(assignment) + ":"
      + LongToString(submitter) + ":" + submitterName)
  }

  // ---------------------------------------------------------------------
  // Teardown and shutdown
  // ---------------------------------------------------------------------

  /** The registry side of `ClientHandler.disconnect` for a handler that
      knows its user id: unregister, then rebroadcast the roster. */
  function Teardown(reg: Registry, u: UserId): (e: Effect)
    ensures e.reg == RemoveClient(reg, u)
    ensures forall v :: (Received(e.out, v) ==
      if v != u && IsUserOnline(reg, v) then [UserListFrame(e.reg)] else [])
  {
    var r := RemoveClient(reg, u);
    Effect(r, BroadcastUserList(r))
  }

  /** The loop of `disconnectAll`: each registered handler in iteration order
      is told `SERVER_SHUTDOWN` and then disconnects itself, which removes it
      and rebroadcasts the roster to those still registered. */
  function ShutdownEach(reg: Registry): (e: Effect)
    ensures e.reg.clients == []
    decreases |reg.clients|
  {
    if |reg.clients| == 0 then Effect(reg, [])
    else
      var u := reg.clients[0].id;
      assert IsUserOnline(reg, u);
      var t := Teardown(reg, u);
      var rest := ShutdownEach(t.reg);
      Effect(rest.reg, [Send({u}, SERVER_SHUTDOWN)] + t.out + rest.out)
  }

  /** `disconnectAll`: the loop above, then both maps cleared. */
  function DisconnectAll(reg: Registry): (e: Effect)
    ensures e.reg == EMPTY
    ensures forall v :: ShutdownDelivery(reg, e.out, v)
  {
    var out := ShutdownEach(reg).out;
    forall v ensures ShutdownDelivery(reg, out, v) {
      ShutdownEachDelivers(reg, v);
    }
    Effect(EMPTY, out)
  }

  /** Occurrences of `x` in `xs`. */
  function Count(xs: seq<string>, x: string): nat
  {
    if |xs| == 0 then 0 else (if xs[0] == x then 1 else 0) + Count(xs[1..], x)
  }

  lemma {:induction false} CountAppend(a: seq<string>, b: seq<string>, x: string)
    ensures Count(a + b, x) == Count(a, x) + Count(b, x)
  {
    if |a| == 0 {
      assert a + b == b;
    } else {
      assert (a + b)[1..] == a[1..] + b;
      CountAppend(a[1..], b, x);
    }
  }

  /** What `disconnectAll` promises one connection `v`: a user registered at
      the start reads `SERVER_SHUTDOWN` exactly once, as its last frame; any
      other user reads nothing. */
  predicate ShutdownDelivery(reg: Registry, out: seq<Send>, v: UserId)
  {
    if IsUserOnline(reg, v) then
      && |Received(out, v)| > 0
      && Received(out, v)[|Received(out, v)| - 1] == SERVER_SHUTDOWN
      && Count(Received(out, v), SERVER_SHUTDOWN) == 1
    else Received(out, v) == []
  }

  lemma UserListIsNotShutdown(reg: Registry)
    ensures UserListFrame(reg) != SERVER_SHUTDOWN
  {
    assert UserListFrame(reg)[0] == 'U';
  }

  /** One round of the shutdown loop writes the shutdown notice, then the
      teardown's roster, then whatever the later rounds write. */
  lemma ShutdownUnfold(reg: Registry)
    requires |reg.clients| > 0
    ensures var u := reg.clients[0].id;
      var t := Teardown(reg, u);
      ShutdownEach(reg).out == [Send({u}, SERVER_SHUTDOWN)] + (t.out + ShutdownEach(t.reg).out)
  {
  }

  /** What one connection reads from one round of the shutdown loop. */
  lemma ShutdownStep(reg: Registry, v: UserId)
    requires |reg.clients| > 0
    ensures var u := reg.clients[0].id;
      var t := Teardown(reg, u);
      && Received(ShutdownEach(reg).out, v) ==
        (if v == u then [SERVER_SHUTDOWN] else [])
        + ((if v != u && IsUserOnline(reg, v) then [UserListFrame(t.reg)] else [])
           + Received(ShutdownEach(t.reg).out, v))
      && IsUserOnline(t.reg, v) == (v != u && IsUserOnline(reg, v))
  {
    var u := reg.clients[0].id;
    var t := Teardown(reg, u);
    var first := [Send({u}, SERVER_SHUTDOWN)];
    var rest := ShutdownEach(t.reg).out;
    ShutdownUnfold(reg);
    ReceivedAppend(first, t.out + rest, v);
    ReceivedAppend(t.out, rest, v);
    var a := Received(first, v);
    var b := Received(t.out, v);
    var c := Received(rest, v);
    assert a == (if v == u then [SERVER_SHUTDOWN] else []);
    assert b == (if v != u && IsUserOnline(reg, v) then [UserListFrame(t.reg)] else []);
    var whole := ShutdownEach(reg).out;
    assert whole == first + (t.out + rest);
    assert Received(whole, v) == a + (b + c);
  }

  lemma {:induction false} ShutdownEachDelivers(reg: Registry, v: UserId)
    ensures ShutdownDelivery(reg, ShutdownEach(reg).out, v)
    decreases |reg.clients|
  {
    if |reg.clients| == 0 {
      assert !IsUserOnline(reg, v);
    } else {
      var u := reg.clients[0].id;
      var t := Teardown(reg, u);
      var later := Received(ShutdownEach(t.reg).out, v);
      ShutdownStep(reg, v);
      ShutdownEachDelivers(t.reg, v);
      if v == u {
        assert IsUserOnline(reg, v);
        assert later == [];
        assert Received(ShutdownEach(reg).out, v) == [SERVER_SHUTDOWN];
      } else if IsUserOnline(reg, v) {
        var list := UserListFrame(t.reg);
        UserListIsNotShutdown(t.reg);
        assert Received(ShutdownEach(reg).out, v) == [list] + later;
        CountAppend([list], later, SERVER_SHUTDOWN);
      } else {
        assert Received(ShutdownEach(reg).out, v) == later;
      }
    }
  }
}
