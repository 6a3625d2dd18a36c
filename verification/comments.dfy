/** `CommentService`: comments under a post. */
module Comments {
  import opened Common
  import opened Store

  /** A row of the `comments` table; `createdAt` is the clock reading at insert. */
  datatype Comment = Comment(post: int, author: int, content: string, createdAt: int)

  /** The `IllegalArgumentException`s `deleteComment` throws. */
  datatype CommentError = NoSuchComment | NotAuthor

  /** `createComment`: stores a comment with the given post, author and content. */
  function CreateComment(comments: Table<Comment>, postId: int, authorId: int, content: string, now: int): (r: (Table<Comment>, int))
    requires comments.Valid()
    ensures r.0.Valid() && r.1 !in comments.rows
    ensures r.0.rows == comments.rows[r.1 := Comment(postId, authorId, content, now)]
  {
    Insert(comments, Comment(postId, authorId, content, now))
  }

  /** `deleteComment`: only the author may delete; exactly that comment goes. */
  function DeleteComment(comments: Table<Comment>, commentId: int, userId: int): (r: Result<Table<Comment>, CommentError>)
    ensures r == Err(NoSuchComment) <==> commentId !in comments.rows
    ensures r == Err(NotAuthor) <==> commentId in comments.rows && comments.rows[commentId].author != userId
    ensures r.Ok? ==> r.value.rows == comments.rows - {commentId}
    ensures comments.Valid() && r.Ok? ==> r.value.Valid()
  {
    match Find(comments, commentId)
    case None => Err(NoSuchComment)
    case Some(c) =>
      if c.author != userId then Err(NotAuthor) else Ok(Remove(comments, commentId))
  }

  /** `findByPostId`: the post's comments in creation order. */
  function FindByPostId(comments: Table<Comment>, postId: int): (r: seq<int>)
    requires comments.Valid()
    ensures forall id :: id in r <==> id in comments.rows && comments.rows[id].post == postId
    ensures Ascending(r)
  {
    Where(comments, (c: Comment) => c.post == postId)
  }

  /** Under a clock that never runs backwards the listing is oldest first. */
  lemma ListingOldestFirst(comments: Table<Comment>, postId: int)
    requires comments.Valid() && Monotone(comments, (c: Comment) => c.createdAt)
    ensures var r := FindByPostId(comments, postId);
      forall i, j :: 0 <= i < j < |r| ==> comments.rows[r[i]].createdAt <= comments.rows[r[j]].createdAt
  {
    var r := FindByPostId(comments, postId);
    forall i, j | 0 <= i < j < |r|
      ensures comments.rows[r[i]].createdAt <= comments.rows[r[j]].createdAt
    {
      assert r[i] < r[j];
    }
  }

  /** A new comment comes last in its post's listing, after the post's
      earlier comments, and leaves every other post's listing as it was. */
  lemma NewCommentListedLast(comments: Table<Comment>, postId: int, authorId: int, content: string, now: int, other: int)
    requires comments.Valid()
    ensures var (after, id) := CreateComment(comments, postId, authorId, content, now);
      FindByPostId(after, postId) == FindByPostId(comments, postId) + [id]
    ensures other != postId ==>
      FindByPostId(CreateComment(comments, postId, authorId, content, now).0, other) == FindByPostId(comments, other)
  {
    var c := Comment(postId, authorId, content, now);
    WhereInsert(comments, c, (x: Comment) => x.post == postId);
    if other != postId {
      WhereInsertOther(comments, c, (x: Comment) => x.post == other);
    }
  }

  /** A comment created and then deleted by its author leaves the comments as they were. */
  lemma CreateThenDelete(comments: Table<Comment>, postId: int, authorId: int, content: string, now: int)
    requires comments.Valid()
    ensures var (after, id) := CreateComment(comments, postId, authorId, content, now);
      DeleteComment(after, id, authorId).Ok? && DeleteComment(after, id, authorId).value.rows == comments.rows
  {
    var (after, id) := CreateComment(comments, postId, authorId, content, now);
    assert after.rows - {id} == comments.rows;
  }
}
