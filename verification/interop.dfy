/** The two ends of the push channel together: what a room window does with
    the frames the server builds. */
module Interop {
  import opened Common
  import opened JString
  import opened JLong
  import opened Registry
  import opened Push
  import Handler

  // ---------------------------------------------------------------------
  // Small facts about frames built by joining fields
  // ---------------------------------------------------------------------

  /** A frame `tag:n:…` starts with its room prefix and has `tag` and `n` as
      its first two fields, whatever the later fields hold. */
  lemma LeadingFields(xs: seq<string>, n: int)
    requires |xs| >= 3 && ':' !in xs[0] && xs[1] == LongToString(n)
    ensures StartsWith(Join(xs, ':'), RoomPrefix(xs[0], n))
    ensures StartsWith(Join(xs, ':'), xs[0] + ":")
    ensures var parts := Split(Join(xs, ':'), ':');
      |parts| >= 2 && parts[0] == xs[0] && parts[1] == LongToString(n)
  {
    LongToStringChars(n);
    JoinLeading(xs, ':');
    assert RoomPrefix(xs[0], n) == xs[0] + [':'] + xs[1];
    HeadPrefixes(xs[0], xs[1], Join(xs[2..], ':'));
    SplitFirstTwo(xs[0], xs[1], Join(xs[2..], ':'), ':');
  }

  /** `a:b:rest` starts with `a:b` and with `a:`. */
  lemma HeadPrefixes(a: string, b: string, rest: string)
    ensures StartsWith(a + [':'] + b + [':'] + rest, a + [':'] + b)
    ensures StartsWith(a + [':'] + b + [':'] + rest, a + ":")
  {
    var head := a + [':'] + b;
    assert a + [':'] + b + [':'] + rest == head + ([':'] + rest);
    StartsWithConcat(head, [':'] + rest);
    StartsWithConcat(a + ":", b);
    StartsWithLonger(a + [':'] + b + [':'] + rest, head, a + ":");
  }

  /** Field 1 names the selected post exactly when the ids agree. */
  lemma NamesPostIff(message: string, n: int, selected: int)
    requires var parts := Split(message, ':'); |parts| >= 2 && parts[1] == LongToString(n)
    ensures NamesPost(message, selected) <==> selected == n
  {
    if LongToString(selected) == LongToString(n) {
      LongToStringInjective(selected, n);
    }
  }

  // ---------------------------------------------------------------------
  // Post and comment notifications
  // ---------------------------------------------------------------------

  /** The room's own `NEW_POST` frame reloads its post tables. */
  lemma NewPostReloads(room: RoomId, post: int, title: string, author: string, postType: string, selected: Option<int>)
    ensures Route(NewPostFrame(room, post, title, author, postType), room, selected) == ReloadPosts
  {
    LeadingFields(["NEW_POST", LongToString(room), LongToString(post), Codec.Encode(title), author, postType], room);
    RouteNewPost(NewPostFrame(room, post, title, author, postType), room, selected);
  }

  /** The room's own `POST_DELETED` frame reloads and clears. */
  lemma PostDeletedReloads(room: RoomId, post: int, selected: Option<int>)
    ensures Route(PostDeletedFrame(room, post), room, selected) == ReloadPostsAndClear
  {
    LeadingFields(["POST_DELETED", LongToString(room), LongToString(post)], room);
    RoutePostDeleted(PostDeletedFrame(room, post), room, selected);
  }

  /** A `NEW_COMMENT` frame reloads the comments exactly when its post is the
      selected one, whichever room it came from; with nothing selected it
      does nothing. */
  lemma NewCommentReloads(post: int, comment: int, author: string, content: string, room: RoomId, selected: Option<int>)
    ensures Route(NewCommentFrame(post, comment, author, content), room, selected) ==
      if selected == Some(post) then ReloadComments(post) else NoAction
  {
    var f := NewCommentFrame(post, comment, author, content);
    LeadingFields(["NEW_COMMENT", LongToString(post), LongToString(comment), author, Codec.Encode(content)], post);
    RouteComment(f, room, selected);
    if selected.Some? {
      NamesPostIff(f, post, selected.value);
    }
  }

  /** `notifyPostRead` puts the post id in field 1, so a window showing that
      post reloads its read status. */
  lemma NotifyPostReadReloads(post: int, u: UserId, nickname: string, room: RoomId, selected: Option<int>)
    ensures Route(PostReadFrame(post, u, nickname), room, selected) ==
      if selected == Some(post) then ReloadReadStatus(post) else NoAction
  {
    var f := PostReadFrame(post, u, nickname);
    LeadingFields(["POST_READ", LongToString(post), LongToString(u), nickname], post);
    RouteRead(f, room, selected);
    if selected.Some? {
      NamesPostIff(f, post, selected.value);
    }
  }

  /** The handler relays a read receipt with the reader's user id in field 1,
      so a window reloads when its selected post id happens to equal the
      reader's user id, and not because the receipt is for its post. */
  lemma HandlerPostReadMisroutes(h: Handler.Handler, reg: Registry, u: UserId, post: string, v: UserId, room: RoomId, selected: int)
    requires h.userId == Some(u) && IsUserOnline(reg, v)
    ensures var frames := Received(Handler.HandleLine(h, reg, "POST_READ:" + post), v);
      |frames| == 1 && Route(frames[0], room, Some(selected)) ==
        if selected == u then ReloadReadStatus(selected) else NoAction
  {
    Handler.PostReadRelay(h, reg, u, post, v);
    RelayedReadRoute(u, post, room, selected);
  }

  /** Routing of the frame the handler relays for user `u`. */
  lemma RelayedReadRoute(u: UserId, post: string, room: RoomId, selected: int)
    ensures Route("POST_READ:" + LongToString(u) + ":" + post, room, Some(selected)) ==
      if selected == u then ReloadReadStatus(selected) else NoAction
  {
    var f := "POST_READ:" + LongToString(u) + ":" + post;
    RelayedReadFields(u, post);
    ReadFrameRoute(f, u, room, selected);
  }

  lemma RelayedReadFields(u: UserId, post: string)
    ensures var f := "POST_READ:" + LongToString(u) + ":" + post;
      StartsWith(f, "POST_READ:") && |Split(f, ':')| >= 2 && Split(f, ':')[1] == LongToString(u)
  {
    LongToStringChars(u);
    TaggedFields("POST_READ", LongToString(u), post);
    assert "POST_READ" + ":" == "POST_READ:";
  }

  /** `tag:id:rest` starts with `tag:` and has `id` as field 1. */
  lemma TaggedFields(tag: string, id: string, rest: string)
    requires ':' !in tag && ':' !in id && id != ""
    ensures var f := tag + ":" + id + ":" + rest;
      StartsWith(f, tag + ":") && |Split(f, ':')| >= 2 && Split(f, ':')[1] == id
  {
    var tail := id + ":" + rest;
    assert tag + ":" + id + ":" + rest == (tag + ":") + tail;
    StartsWithConcat(tag + ":", tail);
    SplitFirstTwo(tag, id, rest, ':');
  }

  /** A read receipt reloads the read status exactly when field 1 holds the
      selected post's id. */
  lemma ReadFrameRoute(f: string, n: int, room: RoomId, selected: int)
    requires StartsWith(f, "POST_READ:") && |Split(f, ':')| >= 2 && Split(f, ':')[1] == LongToString(n)
    ensures Route(f, room, Some(selected)) == if selected == n then ReloadReadStatus(selected) else NoAction
  {
    RouteRead(f, room, Some(selected));
    NamesPostIff(f, n, selected);
  }

  // ---------------------------------------------------------------------
  // Which fields of a push frame are encoded
  // ---------------------------------------------------------------------

  /** `NEW_POST` carries its title encoded, so any title survives the colon
      split and decodes back (when it holds no `&`); the author and type are
      sent as they are. */
  lemma NewPostFields(room: RoomId, post: int, title: string, author: string, postType: string)
    requires ':' !in author && ':' !in postType && postType != ""
    ensures var f := Split(NewPostFrame(room, post, title, author, postType), ':');
      |f| == 6 && f[0] == "NEW_POST" && f[1] == LongToString(room) && f[2] == LongToString(post) &&
      f[3] == Codec.Encode(title) && f[4] == author && f[5] == postType
    ensures '&' !in title ==>
      Codec.Decode(Split(NewPostFrame(room, post, title, author, postType), ':')[3]) == title
  {
    LongToStringChars(room);
    LongToStringChars(post);
    Codec.EncodeFree(title);
    var xs := ["NEW_POST", LongToString(room), LongToString(post), Codec.Encode(title), author, postType];
    SplitJoin(xs, ':');
    if '&' !in title {
      Codec.DecodeEncode(title);
    }
  }

  /** The author of a `NEW_POST` is not encoded: a colon in it splits it into
      two fields, and the type moves from field 5 to field 6. */
  lemma NewPostAuthorNotEncoded(room: RoomId, post: int, title: string, a: string, b: string, postType: string)
    requires ':' !in a && ':' !in b && ':' !in postType && postType != ""
    ensures Split(NewPostFrame(room, post, title, a + ":" + b, postType), ':') ==
      ["NEW_POST", LongToString(room), LongToString(post), Codec.Encode(title), a, b, postType]
  {
    LongToStringChars(room);
    LongToStringChars(post);
    Codec.EncodeFree(title);
    var p := ["NEW_POST", LongToString(room), LongToString(post), Codec.Encode(title)];
    JoinSplitsField(p, a, b, [postType], ':');
    assert p + [a + [':'] + b] + [postType] ==
      ["NEW_POST", LongToString(room), LongToString(post), Codec.Encode(title), a + ":" + b, postType];
    var ys := p + [a, b] + [postType];
    assert ys == ["NEW_POST", LongToString(room), LongToString(post), Codec.Encode(title), a, b, postType];
    SplitJoin(ys, ':');
  }

  /** `NEW_COMMENT` carries its content encoded in the last field, so a
      non-empty content survives the colon split and decodes back (when it
      holds no `&`); an empty content leaves four fields. */
  lemma NewCommentFields(post: int, comment: int, author: string, content: string)
    requires ':' !in author
    ensures var f := Split(NewCommentFrame(post, comment, author, content), ':');
      |f| >= 3 && f[0] == "NEW_COMMENT" && f[1] == LongToString(post) && f[2] == LongToString(comment) &&
      (content != "" ==> |f| == 5 && f[3] == author && f[4] == Codec.Encode(content))
    ensures content != "" && '&' !in content ==>
      Codec.Decode(Split(NewCommentFrame(post, comment, author, content), ':')[4]) == content
  {
    LongToStringChars(post);
    LongToStringChars(comment);
    Codec.EncodeFree(content);
    Codec.EncodeNonEmpty(content);
    var xs := ["NEW_COMMENT", LongToString(post), LongToString(comment), author, Codec.Encode(content)];
    if content != "" {
      SplitJoin(xs, ':');
      if '&' !in content {
        Codec.DecodeEncode(content);
      }
    } else {
      SplitJoinUpTo(xs, ':', 2);
    }
  }

  // ---------------------------------------------------------------------
  // Join and leave announcements
  // ---------------------------------------------------------------------

  lemma FourFields(xs: seq<string>)
    requires |xs| == 4 && forall k :: 0 <= k < 4 ==> ':' !in xs[k]
    ensures xs[3] != "" ==> Split(Join(xs, ':'), ':') == xs
    ensures xs[3] == "" && xs[2] != "" ==> |Split(Join(xs, ':'), ':')| == 3
  {
    if xs[3] != "" {
      SplitJoin(xs, ':');
    } else if xs[2] != "" {
      FieldsJoin(xs, ':');
      JoinLeading(xs, ':');
      assert Join(xs, ':')[|xs[0]|] == ':';
      assert DropTrailingEmpty(xs) == xs[..3];
    }
  }

  /** A join frame names the joiner when the nickname is non-empty, and
      announces nobody when it is empty (`split` drops the empty last field). */
  lemma JoinAnnounced(room: RoomId, u: UserId, nickname: string, selected: Option<int>)
    requires ':' !in nickname
    ensures Route(JoinFrame(room, u, nickname), room, selected) ==
      if nickname != "" then Joined(nickname) else NoAction
  {
    var xs := ["ROOM_JOIN", LongToString(room), LongToString(u), nickname];
    LongToStringChars(room);
    LongToStringChars(u);
    LeadingFields(xs, room);
    FourFields(xs);
    RouteJoin(JoinFrame(room, u, nickname), room, selected);
  }

  /** A leave frame names the leaver when the nickname is non-empty. */
  lemma LeaveAnnounced(room: RoomId, u: UserId, nickname: string, selected: Option<int>)
    requires ':' !in nickname
    ensures Route(LeaveFrame(room, u, nickname), room, selected) ==
      if nickname != "" then Left(nickname) else NoAction
  {
    var xs := ["ROOM_LEAVE", LongToString(room), LongToString(u), nickname];
    LongToStringChars(room);
    LongToStringChars(u);
    LeadingFields(xs, room);
    FourFields(xs);
    RouteLeave(LeaveFrame(room, u, nickname), room, selected);
  }

  // ---------------------------------------------------------------------
  // The room roster
  // ---------------------------------------------------------------------

  /** Nicknames free of both separators of the roster frame. The handshake
      guarantees the colon half (`Handler.OpenKeepsCleanNicknames`); nothing
      on the server rejects a comma. */
  predicate RosterSafe(reg: Registry)
  {
    forall c :: c in reg.clients ==> ',' !in c.nickname && ':' !in c.nickname
  }

  /** What a room window shows for a roster: the nickname of every member
      whose nickname is non-empty, in roster order. A member with an empty
      nickname contributes the entry `id:`, which splits to one field and
      is skipped. */
  function ShownNames(cs: seq<Client>): (r: seq<string>)
    ensures |r| <= |cs|
    ensures forall i :: 0 <= i < |r| ==> r[i] != ""
  {
    if |cs| == 0 then []
    else if cs[0].nickname == "" then ShownNames(cs[1..])
    else [cs[0].nickname] + ShownNames(cs[1..])
  }

  /** With no empty nickname every member is shown, in roster order. */
  lemma {:induction false} ShownAllNicknames(cs: seq<Client>)
    requires forall i :: 0 <= i < |cs| ==> cs[i].nickname != ""
    ensures ShownNames(cs) == Nicknames(cs)
  {
    if |cs| > 0 {
      ShownAllNicknames(cs[1..]);
      assert Nicknames(cs) == [cs[0].nickname] + Nicknames(cs[1..]);
    }
  }

  /** A member with an empty nickname is missing from what is shown. */
  lemma {:induction false} ShownDropsEmpty(cs: seq<Client>, k: nat)
    requires k < |cs| && cs[k].nickname == ""
    ensures |ShownNames(cs)| < |cs|
  {
    if k > 0 {
      ShownDropsEmpty(cs[1..], k - 1);
    }
  }

  /** A name is shown exactly when it is a member's non-empty nickname. */
  lemma {:induction false} ShownMembers(cs: seq<Client>, n: string)
    ensures n in ShownNames(cs) <==> n != "" && n in Nicknames(cs)
  {
    if |cs| > 0 {
      ShownMembers(cs[1..], n);
      assert Nicknames(cs) == [cs[0].nickname] + Nicknames(cs[1..]);
    }
  }

  lemma {:induction false} EntryNamesOfItems(cs: seq<Client>)
    requires forall i :: 0 <= i < |cs| ==> ':' !in cs[i].nickname
    ensures EntryNames(ClientItems(cs)) == ShownNames(cs)
  {
    if |cs| > 0 {
      var c := cs[0];
      var id := LongToString(c.id);
      LongToStringChars(c.id);
      assert Item(c.id, c.nickname) == id + [':'] + c.nickname;
      if c.nickname == "" {
        assert id + [':'] + c.nickname == id + [':'];
        SplitTrailing(id, ':');
      } else {
        SplitPair(id, c.nickname, ':');
      }
      EntryNamesOfItems(cs[1..]);
      assert ClientItems(cs)[1..] == ClientItems(cs[1..]);
    }
  }

  /** The entry list after the second colon splits back into the entries. */
  lemma EntriesOfRoster(cs: seq<Client>)
    requires forall i :: 0 <= i < |cs| ==> ',' !in cs[i].nickname && ':' !in cs[i].nickname
    ensures EntryNames(Split(Join(ClientItems(cs), ','), ',')) == ShownNames(cs)
  {
    if |cs| == 0 {
      assert Join(ClientItems(cs), ',') == "";
      assert Split("", ',') == [""];
      assert Split("", ':') == [""];
    } else {
      ItemsSplitBack(cs);
      EntryNamesOfItems(cs);
    }
  }

  /** A non-empty roster's comma join splits back into its items. */
  lemma ItemsSplitBack(cs: seq<Client>)
    requires |cs| > 0
    requires forall i :: 0 <= i < |cs| ==> ',' !in cs[i].nickname
    ensures Split(Join(ClientItems(cs), ','), ',') == ClientItems(cs)
  {
    var items := ClientItems(cs);
    forall i | 0 <= i < |items| ensures ',' !in items[i] {
      LongToStringChars(cs[i].id);
    }
    SplitJoin(items, ',');
  }

  /** The room roster the server broadcasts, routed by a window whose room id
      is a prefix of the roster's (its own room, or room 1 for room 12),
      shows exactly the room's registered members with a non-empty nickname,
      in roster order, and nobody for an empty roster. */
  lemma RosterRoundTrip(reg: Registry, room: RoomId, window: RoomId, selected: Option<int>)
    requires RosterSafe(reg)
    requires StartsWith(LongToString(room), LongToString(window))
    ensures Route(RoomUserListFrame(reg, room), window, selected) ==
      ShowRoster(ShownNames(RosterOf(reg.clients, Members(reg, room))))
  {
    var roster := RosterOf(reg.clients, Members(reg, room));
    var id := LongToString(room);
    var body := Join(ClientItems(roster), ',');
    var f := RoomUserListFrame(reg, room);
    assert f == "ROOM_USERLIST" + ":" + id + ":" + body;
    RosterPrefix(id, LongToString(window), body);
    RosterUsers(reg, room);
    RouteRoster(f, window, selected);
  }

  /** The roster parser reads back, from the room roster frame, the members'
      non-empty nicknames. */
  lemma RosterUsers(reg: Registry, room: RoomId)
    requires RosterSafe(reg)
    ensures RoomUsers(RoomUserListFrame(reg, room)) ==
      Some(ShownNames(RosterOf(reg.clients, Members(reg, room))))
  {
    var roster := RosterOf(reg.clients, Members(reg, room));
    RosterOfSafe(reg, Members(reg, room));
    LongToStringChars(room);
    assert RoomUserListFrame(reg, room) ==
      "ROOM_USERLIST" + ":" + LongToString(room) + ":" + Join(ClientItems(roster), ',');
    RosterFrameUsers("ROOM_USERLIST", LongToString(room), roster);
  }

  /** Any `tag:id:` head in front of the comma-joined items reads back as the
      items' non-empty nicknames. */
  lemma RosterFrameUsers(tag: string, id: string, cs: seq<Client>)
    requires ':' !in tag && ':' !in id
    requires forall i :: 0 <= i < |cs| ==> ',' !in cs[i].nickname && ':' !in cs[i].nickname
    ensures RoomUsers(tag + ":" + id + ":" + Join(ClientItems(cs), ',')) == Some(ShownNames(cs))
  {
    var body := Join(ClientItems(cs), ',');
    SplitLimitThree(tag, id, body);
    assert SplitLimit(tag + ":" + id + ":" + body, ':', 3)[2] == body;
    EntriesOfRoster(cs);
  }

  lemma RosterOfSafe(reg: Registry, members: seq<UserId>)
    requires RosterSafe(reg)
    ensures var roster := RosterOf(reg.clients, members);
      forall i :: 0 <= i < |roster| ==> ',' !in roster[i].nickname && ':' !in roster[i].nickname
  {
    var roster := RosterOf(reg.clients, members);
    forall i | 0 <= i < |roster|
      ensures ',' !in roster[i].nickname && ':' !in roster[i].nickname
    {
      assert roster[i] in roster;
      assert Client(roster[i].id, roster[i].nickname) in reg.clients;
    }
  }

  /** A registered member whose nickname is empty (`AUTH:5::x` registers
      one) is missing from the roster the room window shows. */
  lemma EmptyNicknameNotShown(reg: Registry, room: RoomId, u: UserId)
    requires RosterSafe(reg)
    requires Client(u, "") in RosterOf(reg.clients, Members(reg, room))
    ensures var shown := RoomUsers(RoomUserListFrame(reg, room));
      shown.Some? && "" !in shown.value &&
      |shown.value| < |RosterOf(reg.clients, Members(reg, room))|
  {
    var roster := RosterOf(reg.clients, Members(reg, room));
    RosterUsers(reg, room);
    var k :| 0 <= k < |roster| && roster[k] == Client(u, "");
    ShownDropsEmpty(roster, k);
  }

  /** A nickname with a comma is cut at the comma: the room window shows
      only the part before it, and the part after it is skipped. */
  lemma CommaNicknameCut(reg: Registry, room: RoomId, u: UserId, a: string, b: string)
    requires RosterOf(reg.clients, Members(reg, room)) == [Client(u, a + "," + b)]
    requires a != "" && b != "" && ',' !in a && ':' !in a && ',' !in b && ':' !in b
    ensures RoomUsers(RoomUserListFrame(reg, room)) == Some([a])
  {
    LongToStringChars(room);
    var body := Join(ClientItems([Client(u, a + "," + b)]), ',');
    assert RoomUserListFrame(reg, room) ==
      "ROOM_USERLIST" + ":" + LongToString(room) + ":" + body;
    LongToStringChars(u);
    CommaItemFrame("ROOM_USERLIST", LongToString(room), u, a, b);
  }

  /** The roster frame of a single member whose nickname is `a,b`. */
  lemma CommaItemFrame(tag: string, id: string, u: UserId, a: string, b: string)
    requires ':' !in tag && ':' !in id
    requires a != "" && b != "" && ',' !in a && ':' !in a && ',' !in b && ':' !in b
    ensures RoomUsers(tag + ":" + id + ":" + Join(ClientItems([Client(u, a + "," + b)]), ',')) == Some([a])
  {
    LongToStringChars(u);
    var body := Join(ClientItems([Client(u, a + "," + b)]), ',');
    assert body == LongToString(u) + ":" + (a + "," + b) by {
      assert body == Item(u, a + "," + b);
    }
    RoomUsersOfBody(tag, id, body);
    CommaEntries(LongToString(u), a, b);
  }

  /** Behind a `tag:id:` head the roster parser reads the entries of the rest. */
  lemma RoomUsersOfBody(tag: string, id: string, body: string)
    requires ':' !in tag && ':' !in id
    ensures RoomUsers(tag + ":" + id + ":" + body) == Some(EntryNames(Split(body, ',')))
  {
    SplitLimitThree(tag, id, body);
  }

  /** The entry `uid:a,b` splits on the comma into `uid:a`, which names `a`,
      and `b`, which has no colon and is skipped. */
  lemma CommaEntries(uid: string, a: string, b: string)
    requires ':' !in uid && ',' !in uid
    requires a != "" && b != "" && ',' !in a && ':' !in a && ',' !in b && ':' !in b
    ensures EntryNames(Split(uid + ":" + (a + "," + b), ',')) == [a]
  {
    var first := uid + [':'] + a;
    assert uid + ":" + (a + "," + b) == first + [','] + b;
    SplitPair(first, b, ',');
    SplitPair(uid, a, ':');
    assert Split(b, ':') == [b];
    assert EntryNames([b]) == [];
    assert EntryNames([first, b]) == [a] + EntryNames([b]);
  }

  /** `ROOM_USERLIST:<id>:…` starts with the room prefix of any id that
      begins `id`. */
  lemma RosterPrefix(id: string, w: string, body: string)
    requires StartsWith(id, w)
    ensures StartsWith("ROOM_USERLIST" + ":" + id + ":" + body, "ROOM_USERLIST" + ":" + w)
  {
    var head := "ROOM_USERLIST" + ":";
    var f := head + id + ":" + body;
    assert f[..|head + w|] == head + w by {
      assert f == head + (id + ":" + body);
      assert (id + ":" + body)[..|w|] == id[..|w|];
    }
  }

  /** The prefix test in action: room 1's window shows room 12's roster. */
  lemma RoomTwelveRosterInRoomOne(reg: Registry, selected: Option<int>)
    requires RosterSafe(reg)
    ensures Route(RoomUserListFrame(reg, 12), 1, selected) ==
      ShowRoster(ShownNames(RosterOf(reg.clients, Members(reg, 12))))
  {
    assert LongToString(12) == "12";
    assert LongToString(1) == "1";
    RosterRoundTrip(reg, 12, 1, selected);
  }
}
