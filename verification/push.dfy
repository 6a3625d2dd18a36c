/** How a room window reacts to pushed frames (`RoomFrame`): the routing in
    its real-time listener and the roster parsing in `updateRoomUsers`.

    The window knows its room id and, optionally, the post selected in it.
    The room-scoped prefixes are the tag, a colon and the room id with no
    delimiter after it, so they compare only a prefix of the id. */
module Push {
  import opened Common
  import opened JString
  import opened JLong

  /** What the listener does with one frame. */
  datatype PushAction =
    | ReloadPosts                      // both post tables reloaded
    | ReloadPostsAndClear              // reloaded, and the detail panes cleared
    | ReloadComments(post: int)
    | ReloadReadStatus(post: int)
    | Joined(name: string)             // an "entered" line appended
    | Left(name: string)               // a "left" line appended
    | ShowRoster(names: seq<string>)   // the participant pane replaced
    | NoAction

  function RoomPrefix(tag: string, room: int): string
  {
    tag + ":" + LongToString(room)
  }

  /** Field 3 of a join or leave frame, if it has one. */
  function NameField(message: string): Option<string>
  {
    var parts := Split(message, ':');
    if |parts| >= 4 then Some(parts[3]) else None
  }

  /** Field 1 equals the selected post's id. */
  predicate NamesPost(message: string, post: int)
  {
    var parts := Split(message, ':');
    |parts| >= 2 && parts[1] == LongToString(post)
  }

  /** The listener: the first matching branch decides, in source order. A
      comment or read frame while no post is selected falls through the
      remaining tests, none of which it can match. */
  function Route(message: string, room: int, selected: Option<int>): (a: PushAction)
    ensures a.ReloadPosts? ==> StartsWith(message, RoomPrefix("NEW_POST", room))
    ensures a.ReloadPostsAndClear? ==> StartsWith(message, RoomPrefix("POST_DELETED", room))
    ensures a.ReloadComments? ==>
      selected == Some(a.post) && StartsWith(message, "NEW_COMMENT:") && NamesPost(message, a.post)
    ensures a.ReloadReadStatus? ==>
      selected == Some(a.post) && StartsWith(message, "POST_READ:") && NamesPost(message, a.post)
    ensures a.Joined? ==> StartsWith(message, RoomPrefix("ROOM_JOIN", room)) && NameField(message) == Some(a.name)
    ensures a.Left? ==> StartsWith(message, RoomPrefix("ROOM_LEAVE", room)) && NameField(message) == Some(a.name)
    ensures a.ShowRoster? ==>
      StartsWith(message, RoomPrefix("ROOM_USERLIST", room)) && RoomUsers(message) == Some(a.names)
  {
    if StartsWith(message, RoomPrefix("NEW_POST", room)) then ReloadPosts
    else if StartsWith(message, RoomPrefix("POST_DELETED", room)) then ReloadPostsAndClear
    else if StartsWith(message, "NEW_COMMENT:") && selected.Some? then
      if NamesPost(message, selected.value) then ReloadComments(selected.value) else NoAction
    else if StartsWith(message, "POST_READ:") && selected.Some? then
      if NamesPost(message, selected.value) then ReloadReadStatus(selected.value) else NoAction
    else if StartsWith(message, RoomPrefix("ROOM_JOIN", room)) then
      match NameField(message)
      case None => NoAction
      case Some(name) => Joined(name)
    else if StartsWith(message, RoomPrefix("ROOM_LEAVE", room)) then
      match NameField(message)
      case None => NoAction
      case Some(name) => Left(name)
    else if StartsWith(message, RoomPrefix("ROOM_USERLIST", room)) then
      match RoomUsers(message)
      case None => NoAction
      case Some(names) => ShowRoster(names)
    else NoAction
  }

  /** Field 1 of every roster entry that has one; shorter entries are skipped. */
  function EntryNames(entries: seq<string>): (r: seq<string>)
    ensures |r| <= |entries|
  {
    if |entries| == 0 then []
    else
      var d := Split(entries[0], ':');
      var rest := EntryNames(entries[1..]);
      if |d| >= 2 then [d[1]] + rest else rest
  }

  /** `updateRoomUsers`: the text after the second colon is split on commas
      and each entry on colons; a frame with fewer than two colons leaves
      the pane as it was (`None`). */
  function RoomUsers(message: string): (r: Option<seq<string>>)
    ensures r.Some? <==> |SplitLimit(message, ':', 3)| == 3
    ensures r.Some? ==> r.value == EntryNames(Split(SplitLimit(message, ':', 3)[2], ','))
  {
    var parts := SplitLimit(message, ':', 3);
    if |parts| < 3 then None else Some(EntryNames(Split(parts[2], ',')))
  }

  // ---------------------------------------------------------------------
  // Facts about routing
  // ---------------------------------------------------------------------

  /** A frame with none of the seven prefixes does nothing. */
  lemma UnknownFramesIgnored(message: string, room: int, selected: Option<int>)
    requires !StartsWith(message, "NEW_POST:") && !StartsWith(message, "POST_DELETED:")
    requires !StartsWith(message, "NEW_COMMENT:") && !StartsWith(message, "POST_READ:")
    requires !StartsWith(message, "ROOM_JOIN:") && !StartsWith(message, "ROOM_LEAVE:")
    requires !StartsWith(message, "ROOM_USERLIST:")
    ensures Route(message, room, selected) == NoAction
  {
    NotRoomPrefix(message, "NEW_POST", room);
    NotRoomPrefix(message, "POST_DELETED", room);
    NotRoomPrefix(message, "ROOM_JOIN", room);
    NotRoomPrefix(message, "ROOM_LEAVE", room);
    NotRoomPrefix(message, "ROOM_USERLIST", room);
  }

  /** A frame without `tag:` cannot start with `tag:` and a room id. */
  lemma NotRoomPrefix(message: string, tag: string, room: int)
    requires !StartsWith(message, tag + ":")
    ensures !StartsWith(message, RoomPrefix(tag, room))
  {
    if StartsWith(message, RoomPrefix(tag, room)) {
      PrefixOfPrefix(message, tag + ":", LongToString(room));
    }
  }

  lemma PrefixOfPrefix(s: string, p: string, q: string)
    requires StartsWith(s, p + q)
    ensures StartsWith(s, p)
  {
    assert s[..|p|] == (p + q)[..|p|];
  }

  /** The literal part of a room prefix. */
  lemma RoomPrefixStarts(tag: string, room: int)
    ensures StartsWith(RoomPrefix(tag, room), tag + ":")
  {
    StartsWithConcat(tag + ":", LongToString(room));
  }

  // One lemma per branch of the listener, each discharging the earlier tests.

  lemma RouteNewPost(message: string, room: int, selected: Option<int>)
    requires StartsWith(message, RoomPrefix("NEW_POST", room))
    ensures Route(message, room, selected) == ReloadPosts
  {
  }

  lemma RoutePostDeleted(message: string, room: int, selected: Option<int>)
    requires StartsWith(message, RoomPrefix("POST_DELETED", room))
    ensures Route(message, room, selected) == ReloadPostsAndClear
  {
    RoomPrefixStarts("POST_DELETED", room);
    StartsWithLonger(message, RoomPrefix("POST_DELETED", room), "POST_DELETED:");
    StartsWithExclusive(message, "POST_DELETED:", RoomPrefix("NEW_POST", room), 0);
  }

  lemma RouteComment(message: string, room: int, selected: Option<int>)
    requires StartsWith(message, "NEW_COMMENT:")
    ensures Route(message, room, selected) ==
      if selected.Some? && NamesPost(message, selected.value) then ReloadComments(selected.value) else NoAction
  {
    StartsWithExclusive(message, "NEW_COMMENT:", RoomPrefix("NEW_POST", room), 4);
    StartsWithExclusive(message, "NEW_COMMENT:", RoomPrefix("POST_DELETED", room), 0);
    StartsWithExclusive(message, "NEW_COMMENT:", "POST_READ:", 0);
    StartsWithExclusive(message, "NEW_COMMENT:", RoomPrefix("ROOM_JOIN", room), 0);
    StartsWithExclusive(message, "NEW_COMMENT:", RoomPrefix("ROOM_LEAVE", room), 0);
    StartsWithExclusive(message, "NEW_COMMENT:", RoomPrefix("ROOM_USERLIST", room), 0);
  }

  lemma RouteRead(message: string, room: int, selected: Option<int>)
    requires StartsWith(message, "POST_READ:")
    ensures Route(message, room, selected) ==
      if selected.Some? && NamesPost(message, selected.value) then ReloadReadStatus(selected.value) else NoAction
  {
    StartsWithExclusive(message, "POST_READ:", RoomPrefix("NEW_POST", room), 0);
    StartsWithExclusive(message, "POST_READ:", RoomPrefix("POST_DELETED", room), 5);
    StartsWithExclusive(message, "POST_READ:", "NEW_COMMENT:", 0);
    StartsWithExclusive(message, "POST_READ:", RoomPrefix("ROOM_JOIN", room), 0);
    StartsWithExclusive(message, "POST_READ:", RoomPrefix("ROOM_LEAVE", room), 0);
    StartsWithExclusive(message, "POST_READ:", RoomPrefix("ROOM_USERLIST", room), 0);
  }

  /** A frame that starts with `ROOM_` misses the four branches before the room ones. */
  lemma RoomTagMissesPostBranches(message: string, p: string, room: int)
    requires StartsWith(message, p) && |p| > 5 && p[..5] == "ROOM_"
    ensures !StartsWith(message, RoomPrefix("NEW_POST", room))
    ensures !StartsWith(message, RoomPrefix("POST_DELETED", room))
    ensures !StartsWith(message, "NEW_COMMENT:") && !StartsWith(message, "POST_READ:")
  {
    assert p[0] == 'R';
    StartsWithExclusive(message, p, RoomPrefix("NEW_POST", room), 0);
    StartsWithExclusive(message, p, RoomPrefix("POST_DELETED", room), 0);
    StartsWithExclusive(message, p, "NEW_COMMENT:", 0);
    StartsWithExclusive(message, p, "POST_READ:", 0);
  }

  lemma RouteJoin(message: string, room: int, selected: Option<int>)
    requires StartsWith(message, RoomPrefix("ROOM_JOIN", room))
    ensures Route(message, room, selected) ==
      if NameField(message).Some? then Joined(NameField(message).value) else NoAction
  {
    RoomPrefixStarts("ROOM_JOIN", room);
    StartsWithLonger(message, RoomPrefix("ROOM_JOIN", room), "ROOM_JOIN:");
    RoomTagMissesPostBranches(message, "ROOM_JOIN:", room);
  }

  lemma RouteLeave(message: string, room: int, selected: Option<int>)
    requires StartsWith(message, RoomPrefix("ROOM_LEAVE", room))
    ensures Route(message, room, selected) ==
      if NameField(message).Some? then Left(NameField(message).value) else NoAction
  {
    RoomPrefixStarts("ROOM_LEAVE", room);
    StartsWithLonger(message, RoomPrefix("ROOM_LEAVE", room), "ROOM_LEAVE:");
    RoomTagMissesPostBranches(message, "ROOM_LEAVE:", room);
    StartsWithExclusive(message, "ROOM_LEAVE:", RoomPrefix("ROOM_JOIN", room), 5);
  }

  lemma RouteRoster(message: string, room: int, selected: Option<int>)
    requires StartsWith(message, RoomPrefix("ROOM_USERLIST", room))
    ensures Route(message, room, selected) ==
      if RoomUsers(message).Some? then ShowRoster(RoomUsers(message).value) else NoAction
  {
    RoomPrefixStarts("ROOM_USERLIST", room);
    StartsWithLonger(message, RoomPrefix("ROOM_USERLIST", room), "ROOM_USERLIST:");
    RoomTagMissesPostBranches(message, "ROOM_USERLIST:", room);
    StartsWithExclusive(message, "ROOM_USERLIST:", RoomPrefix("ROOM_JOIN", room), 5);
    StartsWithExclusive(message, "ROOM_USERLIST:", RoomPrefix("ROOM_LEAVE", room), 5);
  }

  lemma StartsWithLonger(s: string, p: string, q: string)
    requires StartsWith(s, p) && StartsWith(p, q)
    ensures StartsWith(s, q)
  {
    assert s[..|q|] == s[..|p|][..|q|];
  }

  /** Room 1's window also takes a roster pushed for room 12. */
  lemma RoomPrefixCollision()
    ensures StartsWith("ROOM_USERLIST:12:", RoomPrefix("ROOM_USERLIST", 1))
  {
    assert LongToString(1) == "1";
  }

  /** A frame with fewer than two colons leaves the roster pane unchanged. */
  lemma ShortRosterFrameIgnored(message: string)
    requires |SplitLimit(message, ':', 3)| < 3
    ensures RoomUsers(message) == None
  {
  }

  /** `a:b:rest` splits with limit 3 into `a`, `b` and all of `rest`. */
  lemma SplitLimitThree(a: string, b: string, rest: string)
    requires ':' !in a && ':' !in b
    ensures SplitLimit(a + ":" + b + ":" + rest, ':', 3) == [a, b, rest]
  {
    var s := a + ":" + b + ":" + rest;
    IndexOfAfter(a, ':', b + ":" + rest);
    assert s == a + [':'] + (b + ":" + rest);
    var t := b + ":" + rest;
    assert s[|a| + 1..] == t;
    assert s[..|a|] == a;
    IndexOfAfter(b, ':', rest);
    assert t == b + [':'] + rest;
    assert t[|b| + 1..] == rest;
    assert t[..|b|] == b;
  }

  // ---------------------------------------------------------------------
  // What a roster frame shows
  // ---------------------------------------------------------------------

  /** A roster item `key:name` before the comma join. */
  datatype RosterEntry = RosterEntry(key: string, name: string)

  function EntryText(e: RosterEntry): string
  {
    e.key + ":" + e.name
  }

  function EntryTexts(es: seq<RosterEntry>): (r: seq<string>)
    ensures |r| == |es| && forall i :: 0 <= i < |es| ==> r[i] == EntryText(es[i])
  {
    if |es| == 0 then [] else [EntryText(es[0])] + EntryTexts(es[1..])
  }

  /** The names a roster of these entries lists: the non-empty ones, in
      order. An entry with an empty name is `key:`, which splits to at most
      one field and is skipped. */
  function RosterNames(es: seq<RosterEntry>): (r: seq<string>)
    ensures |r| <= |es|
    ensures forall i :: 0 <= i < |r| ==> r[i] != ""
  {
    if |es| == 0 then []
    else if es[0].name == "" then RosterNames(es[1..])
    else [es[0].name] + RosterNames(es[1..])
  }

  /** Neither separator of the roster frame inside an entry's parts. */
  predicate PlainEntry(e: RosterEntry)
  {
    ',' !in e.key && ':' !in e.key && ',' !in e.name && ':' !in e.name
  }

  /** A frame `a:b:` followed by comma-joined `key:name` items reads as the
      items' non-empty names, in order. */
  lemma RoomUsersOfRoster(a: string, b: string, es: seq<RosterEntry>)
    requires ':' !in a && ':' !in b
    requires forall i :: 0 <= i < |es| ==> PlainEntry(es[i])
    ensures RoomUsers(a + ":" + b + ":" + Join(EntryTexts(es), ',')) == Some(RosterNames(es))
  {
    var body := Join(EntryTexts(es), ',');
    SplitLimitThree(a, b, body);
    assert SplitLimit(a + ":" + b + ":" + body, ':', 3)[2] == body;
    RosterBodyNames(es);
  }

  lemma RosterBodyNames(es: seq<RosterEntry>)
    requires forall i :: 0 <= i < |es| ==> PlainEntry(es[i])
    ensures EntryNames(Split(Join(EntryTexts(es), ','), ',')) == RosterNames(es)
  {
    if |es| == 0 {
      assert Join(EntryTexts(es), ',') == "";
      assert Split("", ',') == [""];
      assert Split("", ':') == [""];
    } else {
      EntryTextsSplitBack(es);
      EntryNamesOfTexts(es);
    }
  }

  /** A non-empty roster's comma join splits back into its items. */
  lemma EntryTextsSplitBack(es: seq<RosterEntry>)
    requires |es| > 0
    requires forall i :: 0 <= i < |es| ==> ',' !in es[i].key && ',' !in es[i].name
    ensures Split(Join(EntryTexts(es), ','), ',') == EntryTexts(es)
  {
    var ts := EntryTexts(es);
    forall i | 0 <= i < |ts| ensures ',' !in ts[i] && ts[i] != "" {
      assert ts[i] == es[i].key + [':'] + es[i].name;
    }
    SplitJoin(ts, ',');
  }

  lemma {:induction false} EntryNamesOfTexts(es: seq<RosterEntry>)
    requires forall i :: 0 <= i < |es| ==> ':' !in es[i].key && ':' !in es[i].name
    ensures EntryNames(EntryTexts(es)) == RosterNames(es)
  {
    if |es| > 0 {
      EntryNameOf(es[0]);
      EntryNamesOfTexts(es[1..]);
      assert EntryTexts(es)[1..] == EntryTexts(es[1..]);
    }
  }

  /** One item: its name when it is non-empty, and nothing otherwise. */
  lemma EntryNameOf(e: RosterEntry)
    requires ':' !in e.key && ':' !in e.name
    ensures var d := Split(EntryText(e), ':');
      if e.name == "" then |d| < 2 else |d| >= 2 && d[1] == e.name
  {
    assert EntryText(e) == e.key + [':'] + e.name;
    if e.name == "" {
      assert EntryText(e) == e.key + [':'];
      if e.key == "" {
        FieldsCons("", ':', "");
        assert Fields("", ':') == [""];
        assert EntryText(e) == "" + [':'] + "";
        assert DropTrailingEmpty(["", ""]) == [];
      } else {
        SplitTrailing(e.key, ':');
      }
    } else {
      SplitPair(e.key, e.name, ':');
    }
  }
}
