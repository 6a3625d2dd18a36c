/** `PostService`: posts on a room's board. Notices are the room creator's;
    general posts are open to anyone. */
module Posts {
  import opened Common
  import opened Store
  import Rooms

  datatype PostType = Notice | General

  /** A row of the `posts` table. `hasAssignment` is the flag the assignment
      service sets; a new post starts without one. */
  datatype Post = Post(room: int, author: int, title: string, content: string, kind: PostType,
                       createdAt: int, hasAssignment: bool)

  /** The `IllegalArgumentException`s the post service throws. */
  datatype PostError = NoSuchRoom | NotRoomCreator | NoSuchPost | NotAuthor

  /** `createPost`: a notice needs an existing room created by the author; a
      general post is stored unchecked. */
  function CreatePost(posts: Table<Post>, rooms: Table<Rooms.Room>, roomId: int, authorId: int,
                      title: string, content: string, kind: PostType, now: int): (r: Result<(Table<Post>, int), PostError>)
    requires posts.Valid()
    ensures r == Err(NoSuchRoom) <==> kind == Notice && roomId !in rooms.rows
    ensures r == Err(NotRoomCreator) <==>
      kind == Notice && roomId in rooms.rows && rooms.rows[roomId].creator != authorId
    ensures r.Ok? <==> (kind == Notice ==> roomId in rooms.rows && rooms.rows[roomId].creator == authorId)
    ensures kind == General ==> r.Ok?
    ensures r.Ok? ==> var (after, id) := r.value;
      after.Valid() && id !in posts.rows &&
      after.rows == posts.rows[id := Post(roomId, authorId, title, content, kind, now, false)]
  {
    if kind == Notice && roomId !in rooms.rows then Err(NoSuchRoom)
    else if kind == Notice && rooms.rows[roomId].creator != authorId then Err(NotRoomCreator)
    else Ok(Insert(posts, Post(roomId, authorId, title, content, kind, now, false)))
  }

  /** `updatePost`: the author may change the title and the content, and
      nothing else about the post or the board. */
  function UpdatePost(posts: Table<Post>, postId: int, userId: int, title: string, content: string): (r: Result<Table<Post>, PostError>)
    ensures r == Err(NoSuchPost) <==> postId !in posts.rows
    ensures r == Err(NotAuthor) <==> postId in posts.rows && posts.rows[postId].author != userId
    ensures r.Ok? ==>
      r.value.rows == posts.rows[postId := posts.rows[postId].(title := title, content := content)]
    ensures posts.Valid() && r.Ok? ==> r.value.Valid()
  {
    match Find(posts, postId)
    case None => Err(NoSuchPost)
    case Some(post) =>
      if post.author != userId then Err(NotAuthor)
      else Ok(Update(posts, postId, post.(title := title, content := content)))
  }

  /** `deletePost`: the author may remove the post; exactly that row goes. */
  function DeletePost(posts: Table<Post>, postId: int, userId: int): (r: Result<Table<Post>, PostError>)
    ensures r == Err(NoSuchPost) <==> postId !in posts.rows
    ensures r == Err(NotAuthor) <==> postId in posts.rows && posts.rows[postId].author != userId
    ensures r.Ok? ==> r.value.rows == posts.rows - {postId}
    ensures posts.Valid() && r.Ok? ==> r.value.Valid()
  {
    match Find(posts, postId)
    case None => Err(NoSuchPost)
    case Some(post) =>
      if post.author != userId then Err(NotAuthor) else Ok(Remove(posts, postId))
  }

  /** `findByRoomId`: the room's posts, newest first. */
  function FindByRoomId(posts: Table<Post>, roomId: int): (r: seq<int>)
    requires posts.Valid()
    ensures forall id :: id in r <==> id in posts.rows && posts.rows[id].room == roomId
    ensures forall i, j :: 0 <= i < j < |r| ==> r[i] > r[j]
  {
    var ids := Where(posts, (p: Post) => p.room == roomId);
    ReverseMembers(ids);
    Reverse(ids)
  }

  /** `findNoticesByRoomId`. */
  function FindNotices(posts: Table<Post>, roomId: int): (r: seq<int>)
    requires posts.Valid()
    ensures forall id :: id in r <==> id in posts.rows && posts.rows[id].room == roomId && posts.rows[id].kind == Notice
  {
    Where(posts, (p: Post) => p.room == roomId && p.kind == Notice)
  }

  /** `findGeneralPostsByRoomId`. */
  function FindGeneral(posts: Table<Post>, roomId: int): (r: seq<int>)
    requires posts.Valid()
    ensures forall id :: id in r <==> id in posts.rows && posts.rows[id].room == roomId && posts.rows[id].kind == General
  {
    Where(posts, (p: Post) => p.room == roomId && p.kind == General)
  }

  /** The notice list and the general list split the room's posts: every
      post of the room is in exactly one of them. */
  lemma NoticeGeneralPartition(posts: Table<Post>, roomId: int)
    requires posts.Valid()
    ensures forall id :: id in FindByRoomId(posts, roomId) <==> id in FindNotices(posts, roomId) || id in FindGeneral(posts, roomId)
    ensures forall id :: !(id in FindNotices(posts, roomId) && id in FindGeneral(posts, roomId))
  {
    var all := FindByRoomId(posts, roomId);
    forall id | id in all ensures id in FindNotices(posts, roomId) || id in FindGeneral(posts, roomId) {
      assert posts.rows[id].kind == Notice || posts.rows[id].kind == General;
    }
  }

  /** Under a clock that never runs backwards, the room's list is newest first. */
  lemma RoomListNewestFirst(posts: Table<Post>, roomId: int)
    requires posts.Valid() && Monotone(posts, (p: Post) => p.createdAt)
    ensures var r := FindByRoomId(posts, roomId);
      forall i, j :: 0 <= i < j < |r| ==> posts.rows[r[i]].createdAt >= posts.rows[r[j]].createdAt
  {
    var ids := Where(posts, (p: Post) => p.room == roomId);
    ReverseIsNewestFirst(posts, ids, (p: Post) => p.createdAt);
  }

  /** A post created and then deleted by its author leaves the board as it was. */
  lemma CreateThenDelete(posts: Table<Post>, rooms: Table<Rooms.Room>, roomId: int, authorId: int,
                         title: string, content: string, kind: PostType, now: int)
    requires posts.Valid()
    requires CreatePost(posts, rooms, roomId, authorId, title, content, kind, now).Ok?
    ensures var (after, id) := CreatePost(posts, rooms, roomId, authorId, title, content, kind, now).value;
      DeletePost(after, id, authorId).Ok? && DeletePost(after, id, authorId).value.rows == posts.rows
  {
    var (after, id) := CreatePost(posts, rooms, roomId, authorId, title, content, kind, now).value;
    assert after.rows - {id} == posts.rows;
  }
}
