/** How the room window reads the server's responses (`ClientRoomFrame`):
    the post table, the comment pane, the read-status pane, and the
    success-or-error reading shared by every request.

    A response is `TAG|SUCCESS` followed by one `|`-field per listed item,
    or `TAG|ERROR|message`; each item is a `:`-separated record. The client
    splits with `String.split` (limit 0) on both levels. */
module Responses {
  import opened Common
  import opened JString
  import opened JLong
  import Codec
  import Posts

  /** `response.split("\\|")`. */
  function Parts(response: string): seq<string>
  {
    Split(response, '|')
  }

  /** The success test every handler uses. */
  predicate IsSuccess(parts: seq<string>)
  {
    |parts| >= 2 && parts[1] == "SUCCESS"
  }

  // ---------------------------------------------------------------------
  // What the window shows
  // ---------------------------------------------------------------------

  /** The type column: `NOTICE` is shown as the notice label, anything else
      as the general label. */
  datatype PostKind = Notice | General

  datatype PostRow = PostRow(id: int, title: string, author: string, kind: PostKind, createdAt: string)

  datatype CommentEntry = CommentEntry(author: string, date: string, content: string)

  /** The comment pane: left blank, the "no comments" text, or entries. */
  datatype CommentPane = Blank | NoComments | Entries(entries: seq<CommentEntry>)

  /** The read-status pane: blank, or the reader count and the names listed. */
  datatype ReadPane = ReadBlank | Readers(count: int, names: seq<string>)

  /** The outcome dialog of a create or delete request: no response, success,
      or an error with the server's message (`None` for the fixed default). */
  datatype Ack = NoResponse | Done | Failed(message: Option<string>)

  function KindOf(postType: string): (k: PostKind)
    ensures k == Notice <==> postType == "NOTICE"
  {
    if postType == "NOTICE" then Notice else General
  }

  /** `PostType.name()`: the text a post's type is written as. */
  function TypeName(t: Posts.PostType): (name: string)
    ensures name == "NOTICE" || name == "GENERAL"
  {
    match t
    case Notice => "NOTICE"
    case General => "GENERAL"
  }

  /** The kind the client shows for a type name is the stored type: a
      notice reads as a notice and a general post as a general post, and
      the two names are told apart. */
  lemma KindOfTypeName(t: Posts.PostType)
    ensures KindOf(TypeName(t)) == Notice <==> t == Posts.Notice
    ensures KindOf(TypeName(t)) == General <==> t == Posts.General
  {
    assert "GENERAL" != "NOTICE" by {
      assert "GENERAL"[0] != "NOTICE"[0];
    }
  }

  /** The rows `loadPosts` adds for the items of a success response. Items
      with fewer than five fields are skipped; an item whose id does not
      parse throws, which ends the loop with the rows added so far. */
  function PostRows(items: seq<string>): (r: seq<PostRow>)
    ensures |r| <= |items|
  {
    if |items| == 0 then []
    else
      var f := Split(items[0], ':');
      if |f| < 5 then PostRows(items[1..])
      else
        match ParseLong(f[0])
        case None => []
        case Some(id) => [PostRow(id, Codec.Decode(f[1]), f[2], KindOf(f[3]), f[4])] + PostRows(items[1..])
  }

  /** `loadPosts`: the table is cleared, then filled from a success response. */
  function LoadPosts(response: Option<string>): (r: seq<PostRow>)
    ensures response.None? ==> r == []
    ensures response.Some? && !IsSuccess(Parts(response.value)) ==> r == []
    ensures response.Some? ==> |r| <= |Parts(response.value)| - 2 || r == []
  {
    match response
    case None => []
    case Some(text) =>
      var parts := Parts(text);
      if IsSuccess(parts) then PostRows(parts[2..]) else []
  }

  /** The entries `loadComments` appends: author (field 1), date (field 3)
      and decoded content (field 2) of every item with at least four fields. */
  function CommentEntries(items: seq<string>): (r: seq<CommentEntry>)
    ensures |r| <= |items|
  {
    if |items| == 0 then []
    else
      var f := Split(items[0], ':');
      var rest := CommentEntries(items[1..]);
      if |f| < 4 then rest
      else [CommentEntry(f[1], f[3], Codec.Decode(f[2]))] + rest
  }

  /** `loadComments`. */
  function LoadComments(response: Option<string>): (r: CommentPane)
    ensures r == NoComments <==> response.Some? && IsSuccess(Parts(response.value)) && |Parts(response.value)| == 2
    ensures r == Blank <==> response.None? || !IsSuccess(Parts(response.value))
  {
    match response
    case None => Blank
    case Some(text) =>
      var parts := Parts(text);
      if !IsSuccess(parts) then Blank
      else if |parts| == 2 then NoComments
      else Entries(CommentEntries(parts[2..]))
  }

  /** A success response none of whose items has four `:` fields leaves the
      pane empty as well, though not through the `Blank` branch: the entry
      list is empty. */
  lemma ShortCommentItemsShowNothing(text: string)
    requires IsSuccess(Parts(text)) && |Parts(text)| > 2
    requires forall i :: 2 <= i < |Parts(text)| ==> |Split(Parts(text)[i], ':')| < 4
    ensures LoadComments(Some(text)) == Entries([])
  {
    var items := Parts(text)[2..];
    assert forall i :: 0 <= i < |items| ==> items[i] == Parts(text)[i + 2];
    NoCommentEntries(items);
  }

  lemma {:induction false} NoCommentEntries(items: seq<string>)
    requires forall i :: 0 <= i < |items| ==> |Split(items[i], ':')| < 4
    ensures CommentEntries(items) == []
  {
    if |items| > 0 {
      NoCommentEntries(items[1..]);
    }
  }

  /** The names `loadReadStatus` lists: field 1 of every item with at least
      two fields. */
  function ReaderNames(items: seq<string>): (r: seq<string>)
    ensures |r| <= |items|
  {
    if |items| == 0 then []
    else
      var f := Split(items[0], ':');
      var rest := ReaderNames(items[1..]);
      if |f| < 2 then rest else [f[1]] + rest
  }

  /** `loadReadStatus`: the count is the number of items, whether or not
      each of them yields a name. */
  function LoadReadStatus(response: Option<string>): (r: ReadPane)
    ensures r.Readers? <==> response.Some? && IsSuccess(Parts(response.value))
    ensures r.Readers? ==> r.count == |Parts(response.value)| - 2 && r.count >= 0 && |r.names| <= r.count
  {
    match response
    case None => ReadBlank
    case Some(text) =>
      var parts := Parts(text);
      if IsSuccess(parts) then Readers(|parts| - 2, ReaderNames(parts[2..])) else ReadBlank
  }

  /** The create/delete handlers: the third field is the message when there
      is one. */
  function AckOf(response: Option<string>): (a: Ack)
    ensures a.NoResponse? <==> response.None?
    ensures a.Done? <==> response.Some? && IsSuccess(Parts(response.value))
    ensures a.Failed? && a.message.Some? ==>
      |Parts(response.value)| >= 3 && a.message.value == Parts(response.value)[2]
    ensures a.Failed? && a.message.None? ==> |Parts(response.value)| < 3
  {
    match response
    case None => NoResponse
    case Some(text) =>
      var parts := Parts(text);
      if IsSuccess(parts) then Done
      else if |parts| >= 3 then Failed(Some(parts[2]))
      else Failed(None)
  }

  // ---------------------------------------------------------------------
  // The response grammar, built from the other side
  // ---------------------------------------------------------------------

  /** `TAG|SUCCESS|item|…`. */
  function SuccessFrame(tag: string, items: seq<string>): string
  {
    Join([tag, "SUCCESS"] + items, '|')
  }

  /** `TAG|ERROR|message`. */
  function ErrorFrame(tag: string, message: string): string
  {
    Join([tag, "ERROR", message], '|')
  }

  /** A post as a listing carries it. */
  datatype PostListing = PostListing(id: int, title: string, author: string, postType: string, createdAt: string)

  datatype CommentListing = CommentListing(id: int, author: string, content: string, createdAt: string)

  datatype ReaderListing = ReaderListing(user: int, name: string)

  function PostItem(p: PostListing): string
  {
    Join([LongToString(p.id), Codec.Encode(p.title), p.author, p.postType, p.createdAt], ':')
  }

  function CommentItem(c: CommentListing): string
  {
    Join([LongToString(c.id), c.author, Codec.Encode(c.content), c.createdAt], ':')
  }

  function ReaderItem(r: ReaderListing): string
  {
    Join([LongToString(r.user), r.name], ':')
  }

  function PostItems(ps: seq<PostListing>): (r: seq<string>)
    ensures |r| == |ps| && forall i :: 0 <= i < |ps| ==> r[i] == PostItem(ps[i])
  {
    if |ps| == 0 then [] else [PostItem(ps[0])] + PostItems(ps[1..])
  }

  function CommentItems(cs: seq<CommentListing>): (r: seq<string>)
    ensures |r| == |cs| && forall i :: 0 <= i < |cs| ==> r[i] == CommentItem(cs[i])
  {
    if |cs| == 0 then [] else [CommentItem(cs[0])] + CommentItems(cs[1..])
  }

  function ReaderItems(rs: seq<ReaderListing>): (r: seq<string>)
    ensures |r| == |rs| && forall i :: 0 <= i < |rs| ==> r[i] == ReaderItem(rs[i])
  {
    if |rs| == 0 then [] else [ReaderItem(rs[0])] + ReaderItems(rs[1..])
  }

  /** A text that can stand as a field of an item: no separator of either level. */
  predicate Plain(s: string)
  {
    ':' !in s && '|' !in s
  }

  /** The listing can be carried without loss: a 64-bit id, a title with no
      `&` (so that the codec round-trips), plain other fields, and a
      non-empty last field (an empty one would be dropped by `split`). */
  predicate PostCarried(p: PostListing)
  {
    InLongRange(p.id) && '&' !in p.title && Plain(p.author) && Plain(p.postType)
    && Plain(p.createdAt) && p.createdAt != ""
  }

  predicate CommentCarried(c: CommentListing)
  {
    InLongRange(c.id) && Plain(c.author) && '&' !in c.content && Plain(c.createdAt) && c.createdAt != ""
  }

  predicate ReaderCarried(r: ReaderListing)
  {
    Plain(r.name) && r.name != ""
  }

  /** The row a listed post should become. */
  function RowOf(p: PostListing): PostRow
  {
    PostRow(p.id, p.title, p.author, KindOf(p.postType), p.createdAt)
  }

  /** What the table should show for a listing. */
  function ExpectedRows(ps: seq<PostListing>): (r: seq<PostRow>)
    ensures |r| == |ps|
  {
    if |ps| == 0 then [] else [RowOf(ps[0])] + ExpectedRows(ps[1..])
  }

  function ExpectedEntries(cs: seq<CommentListing>): (r: seq<CommentEntry>)
    ensures |r| == |cs|
  {
    if |cs| == 0 then []
    else [CommentEntry(cs[0].author, cs[0].createdAt, cs[0].content)] + ExpectedEntries(cs[1..])
  }

  function Names(rs: seq<ReaderListing>): (r: seq<string>)
    ensures |r| == |rs|
  {
    if |rs| == 0 then [] else [rs[0].name] + Names(rs[1..])
  }

  // ---------------------------------------------------------------------
  // The client reads back what the grammar carries
  // ---------------------------------------------------------------------

  /** A frame whose fields are free of `|` splits back into those fields. */
  lemma FrameParts(tag: string, kind: string, items: seq<string>)
    requires '|' !in tag && '|' !in kind && kind != ""
    requires forall i :: 0 <= i < |items| ==> '|' !in items[i] && items[i] != ""
    ensures Parts(Join([tag, kind] + items, '|')) == [tag, kind] + items
  {
    HeaderedFields(tag, kind, items);
    SplitJoin([tag, kind] + items, '|');
  }

  /** The fields of a frame: none holds `|`, and the last is non-empty. */
  lemma HeaderedFields(tag: string, kind: string, items: seq<string>)
    requires '|' !in tag && '|' !in kind && kind != ""
    requires forall i :: 0 <= i < |items| ==> '|' !in items[i] && items[i] != ""
    ensures var xs := [tag, kind] + items;
      (forall k :: 0 <= k < |xs| ==> '|' !in xs[k]) && xs[|xs| - 1] != ""
  {
    var xs := [tag, kind] + items;
    forall k | 0 <= k < |xs| ensures '|' !in xs[k] {
      if k >= 2 { assert xs[k] == items[k - 2]; }
    }
    if |items| > 0 {
      assert xs[|xs| - 1] == items[|items| - 1];
    }
  }

  /** A success frame reads as success, and an error frame with a non-empty
      message reads as that message. */
  lemma AckOfFrames(tag: string, items: seq<string>, message: string)
    requires '|' !in tag && '|' !in message && message != ""
    requires forall i :: 0 <= i < |items| ==> '|' !in items[i] && items[i] != ""
    ensures AckOf(Some(SuccessFrame(tag, items))) == Done
    ensures AckOf(Some(ErrorFrame(tag, message))) == Failed(Some(message))
  {
    FrameParts(tag, "SUCCESS", items);
    FrameParts(tag, "ERROR", [message]);
    assert [tag, "ERROR"] + [message] == [tag, "ERROR", message];
  }

  /** An error frame with an empty message loses it to `split`, and the
      dialog falls back to the fixed text. */
  lemma EmptyErrorMessageFallsBack(tag: string)
    requires '|' !in tag
    ensures AckOf(Some(ErrorFrame(tag, ""))) == Failed(None)
  {
    EmptyLastField(tag, "ERROR");
    assert Parts(ErrorFrame(tag, "")) == [tag, "ERROR"];
  }

  /** `split` drops an empty last field of `tag|kind|`. */
  lemma EmptyLastField(tag: string, kind: string)
    requires '|' !in tag && '|' !in kind && kind != ""
    ensures Parts(Join([tag, kind, ""], '|')) == [tag, kind]
  {
    var s := Join([tag, kind, ""], '|');
    assert s == tag + ['|'] + kind + ['|'] + "" by {
      assert Join([tag, kind, ""][1..], '|') == kind + ['|'] + "";
    }
    FieldsTwo(tag, kind, "", '|');
    assert Fields("", '|') == [""];
    assert s[|tag|] == '|';
    assert [tag, kind] + [""] == [tag, kind, ""];
    assert DropTrailingEmpty([tag, kind, ""]) == [tag, kind];
  }

  /** The fields of one carried post item. */
  lemma PostItemFields(p: PostListing)
    requires PostCarried(p)
    ensures PostItem(p) != "" && '|' !in PostItem(p)
    ensures Split(PostItem(p), ':') ==
      [LongToString(p.id), Codec.Encode(p.title), p.author, p.postType, p.createdAt]
  {
    var xs := [LongToString(p.id), Codec.Encode(p.title), p.author, p.postType, p.createdAt];
    LongToStringChars(p.id);
    Codec.EncodeFree(p.title);
    SplitJoin(xs, ':');
    JoinFree(xs, '|', ':');
    assert PostItem(p) == Join(xs, ':');
    JoinNonEmpty(xs, ':');
  }

  lemma CommentItemFields(c: CommentListing)
    requires CommentCarried(c)
    ensures CommentItem(c) != "" && '|' !in CommentItem(c)
    ensures Split(CommentItem(c), ':') ==
      [LongToString(c.id), c.author, Codec.Encode(c.content), c.createdAt]
  {
    var xs := [LongToString(c.id), c.author, Codec.Encode(c.content), c.createdAt];
    LongToStringChars(c.id);
    Codec.EncodeFree(c.content);
    SplitJoin(xs, ':');
    JoinFree(xs, '|', ':');
    JoinNonEmpty(xs, ':');
  }

  lemma ReaderItemFields(r: ReaderListing)
    requires ReaderCarried(r)
    ensures ReaderItem(r) != "" && '|' !in ReaderItem(r)
    ensures Split(ReaderItem(r), ':') == [LongToString(r.user), r.name]
  {
    var xs := [LongToString(r.user), r.name];
    LongToStringChars(r.user);
    SplitJoin(xs, ':');
    JoinFree(xs, '|', ':');
    JoinNonEmpty(xs, ':');
  }

  /** Joining fields free of `x` with a separator other than `x` gives a text free of `x`. */
  lemma {:induction false} JoinFree(xs: seq<string>, x: char, c: char)
    requires x != c
    requires forall k :: 0 <= k < |xs| ==> x !in xs[k]
    ensures x !in Join(xs, c)
  {
    if |xs| > 1 {
      JoinFree(xs[1..], x, c);
    }
  }

  lemma JoinNonEmpty(xs: seq<string>, c: char)
    requires |xs| >= 2
    ensures Join(xs, c) != ""
  {
  }

  /** A carried post item becomes its row. */
  lemma PostRowsCons(p: PostListing, rest: seq<string>)
    requires PostCarried(p)
    ensures PostRows([PostItem(p)] + rest) == [RowOf(p)] + PostRows(rest)
  {
    PostItemFields(p);
    LongRoundTrip(p.id);
    Codec.DecodeEncode(p.title);
    assert ([PostItem(p)] + rest)[1..] == rest;
  }

  lemma {:induction false} PostRowsRoundTrip(ps: seq<PostListing>)
    requires forall i :: 0 <= i < |ps| ==> PostCarried(ps[i])
    ensures PostRows(PostItems(ps)) == ExpectedRows(ps)
  {
    if |ps| > 0 {
      PostRowsRoundTrip(ps[1..]);
      PostRowsCons(ps[0], PostItems(ps[1..]));
    }
  }

  lemma {:induction false} CommentEntriesRoundTrip(cs: seq<CommentListing>)
    requires forall i :: 0 <= i < |cs| ==> CommentCarried(cs[i])
    ensures CommentEntries(CommentItems(cs)) == ExpectedEntries(cs)
  {
    if |cs| > 0 {
      CommentItemFields(cs[0]);
      Codec.DecodeEncode(cs[0].content);
      CommentEntriesRoundTrip(cs[1..]);
      assert CommentItems(cs)[1..] == CommentItems(cs[1..]);
    }
  }

  lemma {:induction false} ReaderNamesRoundTrip(rs: seq<ReaderListing>)
    requires forall i :: 0 <= i < |rs| ==> ReaderCarried(rs[i])
    ensures ReaderNames(ReaderItems(rs)) == Names(rs)
  {
    if |rs| > 0 {
      ReaderItemFields(rs[0]);
      ReaderNamesRoundTrip(rs[1..]);
      assert ReaderItems(rs)[1..] == ReaderItems(rs[1..]);
    }
  }

  /** A success frame over well-formed items reads as success with exactly
      those items after the two header fields. */
  lemma SuccessParts(tag: string, items: seq<string>)
    requires '|' !in tag
    requires forall i :: 0 <= i < |items| ==> '|' !in items[i] && items[i] != ""
    ensures IsSuccess(Parts(SuccessFrame(tag, items)))
    ensures |Parts(SuccessFrame(tag, items))| == |items| + 2
    ensures Parts(SuccessFrame(tag, items))[2..] == items
  {
    FrameParts(tag, "SUCCESS", items);
    assert ([tag, "SUCCESS"] + items)[2..] == items;
  }

  lemma PostItemsWellFormed(ps: seq<PostListing>)
    requires forall i :: 0 <= i < |ps| ==> PostCarried(ps[i])
    ensures forall i :: 0 <= i < |ps| ==> '|' !in PostItems(ps)[i] && PostItems(ps)[i] != ""
  {
    forall i | 0 <= i < |ps| ensures '|' !in PostItems(ps)[i] && PostItems(ps)[i] != "" {
      PostItemFields(ps[i]);
    }
  }

  /** The post table shows exactly the listed posts, in order, with their
      titles decoded back to what was encoded. */
  lemma LoadPostsOfListing(tag: string, ps: seq<PostListing>)
    requires '|' !in tag
    requires forall i :: 0 <= i < |ps| ==> PostCarried(ps[i])
    ensures LoadPosts(Some(SuccessFrame(tag, PostItems(ps)))) == ExpectedRows(ps)
  {
    PostItemsWellFormed(ps);
    LoadPostsOfItems(tag, PostItems(ps));
    PostRowsRoundTrip(ps);
  }

  /** A success frame loads the rows of exactly its items. */
  lemma LoadPostsOfItems(tag: string, items: seq<string>)
    requires '|' !in tag
    requires forall i :: 0 <= i < |items| ==> '|' !in items[i] && items[i] != ""
    ensures LoadPosts(Some(SuccessFrame(tag, items))) == PostRows(items)
  {
    SuccessParts(tag, items);
  }

  /** The comment pane shows "no comments" for an empty listing and
      otherwise exactly the listed comments with their content decoded. */
  lemma LoadCommentsOfListing(tag: string, cs: seq<CommentListing>)
    requires '|' !in tag
    requires forall i :: 0 <= i < |cs| ==> CommentCarried(cs[i])
    ensures LoadComments(Some(SuccessFrame(tag, CommentItems(cs)))) ==
      if |cs| == 0 then NoComments else Entries(ExpectedEntries(cs))
  {
    var items := CommentItems(cs);
    forall i | 0 <= i < |items| ensures '|' !in items[i] && items[i] != "" {
      CommentItemFields(cs[i]);
    }
    SuccessParts(tag, items);
    CommentEntriesRoundTrip(cs);
  }

  /** The read-status pane counts the listed readers and names each of them. */
  lemma LoadReadStatusOfListing(tag: string, rs: seq<ReaderListing>)
    requires '|' !in tag
    requires forall i :: 0 <= i < |rs| ==> ReaderCarried(rs[i])
    ensures LoadReadStatus(Some(SuccessFrame(tag, ReaderItems(rs)))) == Readers(|rs|, Names(rs))
  {
    var items := ReaderItems(rs);
    forall i | 0 <= i < |items| ensures '|' !in items[i] && items[i] != "" {
      ReaderItemFields(rs[i]);
    }
    SuccessParts(tag, items);
    ReaderNamesRoundTrip(rs);
  }

  /** A post item whose id does not parse stops the table there: the rows
      before it stay and nothing after it is added. */
  lemma {:induction false} BadIdStopsLoading(before: seq<PostListing>, bad: string, after: seq<string>)
    requires forall i :: 0 <= i < |before| ==> PostCarried(before[i])
    requires |Split(bad, ':')| >= 5 && ParseLong(Split(bad, ':')[0]).None?
    ensures PostRows(PostItems(before) + ([bad] + after)) == ExpectedRows(before)
    decreases |before|
  {
    if |before| == 0 {
      assert PostItems(before) + ([bad] + after) == [bad] + after;
      BadItemStops(bad, after);
    } else {
      var rest := [bad] + after;
      var tail := PostItems(before[1..]) + rest;
      ConsAppend(PostItem(before[0]), PostItems(before[1..]), rest);
      assert PostItems(before) == [PostItem(before[0])] + PostItems(before[1..]);
      PostRowsCons(before[0], tail);
      BadIdStopsLoading(before[1..], bad, after);
      assert ExpectedRows(before) == [RowOf(before[0])] + ExpectedRows(before[1..]);
    }
  }

  lemma ConsAppend<T>(x: T, a: seq<T>, b: seq<T>)
    ensures ([x] + a) + b == [x] + (a + b)
  {
  }

  lemma BadItemStops(bad: string, after: seq<string>)
    requires |Split(bad, ':')| >= 5 && ParseLong(Split(bad, ':')[0]).None?
    ensures PostRows([bad] + after) == []
  {
    assert ([bad] + after)[0] == bad;
  }

  /** A date that holds `:` (the text form of a time of day has one) does
      not survive the trip: the item splits into more than five fields and
      the row shows the date cut at its first `:`. */
  lemma DateColonCut(tag: string, p: PostListing, rest: string)
    requires '|' !in tag && '|' !in rest
    requires PostCarried(p)
    ensures LoadPosts(Some(SuccessFrame(tag, [PostItem(p.(createdAt := p.createdAt + ":" + rest))]))) ==
      [RowOf(p)]
  {
    var q := p.(createdAt := p.createdAt + ":" + rest);
    var item := PostItem(q);
    DateColonFields(p, rest);
    assert PostRows([item]) == [RowOf(p)] by {
      LongRoundTrip(p.id);
      Codec.DecodeEncode(p.title);
      assert [item][1..] == [];
    }
    LoadPostsOfItems(tag, [item]);
  }

  /** A post with an empty date loses its last field to `split`, so its item
      is too short and the table shows no row for it. */
  lemma EmptyDateDropsRow(tag: string, p: PostListing)
    requires '|' !in tag
    requires Plain(p.author) && Plain(p.postType) && p.createdAt == ""
    ensures LoadPosts(Some(SuccessFrame(tag, [PostItem(p)]))) == []
  {
    var item := PostItem(p);
    EmptyDateItem(p);
    ShortItemsSkipped(item, []);
    LoadPostsOfItems(tag, [item]);
  }

  /** The item of a post with an empty date splits into at most four fields. */
  lemma EmptyDateItem(p: PostListing)
    requires Plain(p.author) && Plain(p.postType) && p.createdAt == ""
    ensures PostItem(p) != "" && '|' !in PostItem(p) && |Split(PostItem(p), ':')| < 5
  {
    var xs := [LongToString(p.id), Codec.Encode(p.title), p.author, p.postType, p.createdAt];
    var item := PostItem(p);
    LongToStringChars(p.id);
    Codec.EncodeFree(p.title);
    JoinFree(xs, '|', ':');
    JoinNonEmpty(xs, ':');
    FieldsJoin(xs, ':');
    assert |Fields(item, ':')| > 1;
  }

  /** A reader with an empty name is counted but not listed: the item
      `id:` splits into the id alone. */
  lemma EmptyReaderCountedNotListed(tag: string, r: ReaderListing)
    requires '|' !in tag && r.name == ""
    ensures LoadReadStatus(Some(SuccessFrame(tag, [ReaderItem(r)]))) == Readers(1, [])
  {
    var id := LongToString(r.user);
    var item := ReaderItem(r);
    LongToStringChars(r.user);
    var xs := [id, r.name];
    assert Join(xs[1..], ':') == "";
    assert item == Join(xs, ':') == id + [':'] + "";
    SplitTrailing(id, ':');
    assert id + [':'] + "" == id + [':'];
    assert Split(item, ':') == [id];
    assert ReaderNames([item]) == [] by {
      assert [item][0] == item && [item][1..] == [];
    }
    SuccessParts(tag, [item]);
  }

  /** The item of a post whose date holds `:` still begins with the five
      fields of the post with the date cut there. */
  lemma DateColonFields(p: PostListing, rest: string)
    requires '|' !in rest
    requires PostCarried(p)
    ensures var item := PostItem(p.(createdAt := p.createdAt + ":" + rest));
      item != "" && '|' !in item &&
      |Split(item, ':')| >= 5 &&
      Split(item, ':')[..5] == [LongToString(p.id), Codec.Encode(p.title), p.author, p.postType, p.createdAt]
  {
    var xs := [LongToString(p.id), Codec.Encode(p.title), p.author, p.postType];
    var d := p.createdAt + ":" + rest;
    var item := PostItem(p.(createdAt := d));
    assert [LongToString(p.id), Codec.Encode(p.title), p.author, p.postType, d] == xs + [d];
    assert d == p.createdAt + [':'] + rest;
    LongToStringChars(p.id);
    Codec.EncodeFree(p.title);
    FieldsJoinLast(xs, p.createdAt, rest, ':');
    JoinFree(xs + [d], '|', ':');
    JoinNonEmpty(xs + [d], ':');
    assert |Fields(item, ':')| > 1;
    DropTrailingAppend(xs + [p.createdAt], Fields(rest, ':'));
    assert xs + [p.createdAt] + Fields(rest, ':') == (xs + [p.createdAt]) + Fields(rest, ':');
  }

  /** Items too short to be a row are passed over. */
  lemma ShortItemsSkipped(item: string, rest: seq<string>)
    requires |Split(item, ':')| < 5
    ensures PostRows([item] + rest) == PostRows(rest)
  {
    assert ([item] + rest)[1..] == rest;
  }
}
