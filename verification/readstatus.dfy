/** `PostReadStatusService`: who has read which post. */
module ReadStatus {
  import opened Common
  import opened Store

  /** A row of the `post_read_status` table. */
  datatype ReadRecord = ReadRecord(post: int, user: int, readAt: int)

  /** The `IllegalArgumentException` `markAsRead` throws. */
  datatype ReadError = AlreadyRead

  /** `hasRead` (`existsByPostIdAndUserId`): some record pairs the post with the user. */
  predicate HasRead(records: Table<ReadRecord>, postId: int, userId: int)
  {
    exists id :: id in records.rows && records.rows[id].post == postId && records.rows[id].user == userId
  }

  /** At most one record per (post, user). */
  predicate UniquePairs(records: Table<ReadRecord>)
  {
    forall a, b :: a in records.rows && b in records.rows && a != b ==>
      (records.rows[a].post, records.rows[a].user) != (records.rows[b].post, records.rows[b].user)
  }

  /** `markAsRead`: a pair already read is an error; otherwise one record is
      added for it. */
  function MarkAsRead(records: Table<ReadRecord>, postId: int, userId: int, now: int): (r: Result<(Table<ReadRecord>, int), ReadError>)
    requires records.Valid()
    ensures r.Err? <==> HasRead(records, postId, userId)
    ensures r.Ok? ==> var (after, id) := r.value;
      after.Valid() && id !in records.rows && after.rows == records.rows[id := ReadRecord(postId, userId, now)]
  {
    if HasRead(records, postId, userId) then Err(AlreadyRead)
    else Ok(Insert(records, ReadRecord(postId, userId, now)))
  }

  /** `getReadStatusByPost`: the records of that post, in id order. */
  function ByPost(records: Table<ReadRecord>, postId: int): (r: seq<int>)
    requires records.Valid()
    ensures forall id :: id in r <==> id in records.rows && records.rows[id].post == postId
    ensures Ascending(r)
  {
    Where(records, (x: ReadRecord) => x.post == postId)
  }

  /** `getReadStatusByUser`: the records of that user, in id order. */
  function ByUser(records: Table<ReadRecord>, userId: int): (r: seq<int>)
    requires records.Valid()
    ensures forall id :: id in r <==> id in records.rows && records.rows[id].user == userId
    ensures Ascending(r)
  {
    Where(records, (x: ReadRecord) => x.user == userId)
  }

  /** A successful `markAsRead` keeps one record per pair, makes `hasRead`
      hold for its pair and changes it for no other pair. */
  lemma MarkAsReadEffect(records: Table<ReadRecord>, postId: int, userId: int, now: int, p: int, u: int)
    requires records.Valid() && UniquePairs(records)
    requires MarkAsRead(records, postId, userId, now).Ok?
    ensures var after := MarkAsRead(records, postId, userId, now).value.0;
      UniquePairs(after) && HasRead(after, postId, userId) &&
      ((p, u) != (postId, userId) ==> (HasRead(after, p, u) <==> HasRead(records, p, u)))
  {
    var (after, id) := MarkAsRead(records, postId, userId, now).value;
    assert after.rows[id].post == postId && after.rows[id].user == userId;
    if (p, u) != (postId, userId) {
      if HasRead(after, p, u) {
        var k :| k in after.rows && after.rows[k].post == p && after.rows[k].user == u;
        assert k != id && k in records.rows && records.rows[k] == after.rows[k];
      }
      if HasRead(records, p, u) {
        var k :| k in records.rows && records.rows[k].post == p && records.rows[k].user == u;
        assert k in after.rows && after.rows[k] == records.rows[k];
      }
    }
    forall a, b | a in after.rows && b in after.rows && a != b
      ensures (after.rows[a].post, after.rows[a].user) != (after.rows[b].post, after.rows[b].user)
    {
      if a == id {
        assert b in records.rows;
      } else if b == id {
        assert a in records.rows;
      }
    }
  }

  /** A second `markAsRead` of the same pair is refused. */
  lemma MarkTwiceRefused(records: Table<ReadRecord>, postId: int, userId: int, now: int, later: int)
    requires records.Valid() && MarkAsRead(records, postId, userId, now).Ok?
    ensures MarkAsRead(MarkAsRead(records, postId, userId, now).value.0, postId, userId, later) == Err(AlreadyRead)
  {
    var (after, id) := MarkAsRead(records, postId, userId, now).value;
    assert after.rows[id].post == postId && after.rows[id].user == userId;
  }

  /** With one record per pair, the post's list names each reader once: the
      read-status count is the number of distinct readers. */
  lemma ByPostReadersDistinct(records: Table<ReadRecord>, postId: int)
    requires records.Valid() && UniquePairs(records)
    ensures var r := ByPost(records, postId);
      forall i, j :: 0 <= i < j < |r| ==> records.rows[r[i]].user != records.rows[r[j]].user
  {
    var r := ByPost(records, postId);
    forall i, j | 0 <= i < j < |r| ensures records.rows[r[i]].user != records.rows[r[j]].user {
      assert r[i] < r[j];
      assert r[i] in records.rows && r[j] in records.rows;
    }
  }
}
