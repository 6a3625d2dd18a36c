/** `AssignmentService`: assignments attached to posts, and the members'
    submissions to them. */
module Assignments {
  import opened Common
  import opened Store
  import opened Posts

  /** A row of the assignments table, with the fields the service sets. */
  datatype Assignment = Assignment(post: int, title: string, description: string, dueDate: int)

  datatype SubmissionStatus = Submitted | Graded | Returned

  /** A row of the `assignment_submissions` table; the file fields, the
      feedback and the score are nullable columns. */
  datatype Submission = Submission(
    assignment: int, user: int, content: string,
    fileName: Option<string>, filePath: Option<string>, fileSize: Option<int>,
    status: SubmissionStatus, feedback: Option<string>, score: Option<int>,
    submittedAt: int, gradedAt: Option<int>)

  /** The three tables the service works on. */
  datatype Board = Board(posts: Table<Post>, assignments: Table<Assignment>, submissions: Table<Submission>)
  {
    predicate Valid()
    {
      posts.Valid() && assignments.Valid() && submissions.Valid()
    }
  }

  /** The `IllegalArgumentException`s the assignment service throws. */
  datatype AssignmentError = AlreadySubmitted | NoSuchSubmission | NotOwner

  /** The post with its assignment flag set to `flag`, when the post exists. */
  function Flag(posts: Table<Post>, postId: int, flag: bool): (r: Table<Post>)
    ensures postId in posts.rows ==> r.rows == posts.rows[postId := posts.rows[postId].(hasAssignment := flag)]
    ensures postId !in posts.rows ==> r == posts
    ensures posts.Valid() ==> r.Valid()
  {
    match Find(posts, postId)
    case None => posts
    case Some(post) => Update(posts, postId, post.(hasAssignment := flag))
  }

  /** `createAssignment`: always stores the assignment, and marks the post
      as having one only if the post exists. */
  function CreateAssignment(b: Board, postId: int, title: string, description: string, dueDate: int): (r: (Board, int))
    requires b.Valid()
    ensures r.0.Valid() && r.1 !in b.assignments.rows
    ensures r.0.assignments.rows == b.assignments.rows[r.1 := Assignment(postId, title, description, dueDate)]
    ensures postId in b.posts.rows ==>
      r.0.posts.rows == b.posts.rows[postId := b.posts.rows[postId].(hasAssignment := true)]
    ensures postId !in b.posts.rows ==> r.0.posts == b.posts
    ensures r.0.submissions == b.submissions
  {
    var (assignments, id) := Insert(b.assignments, Assignment(postId, title, description, dueDate));
    (Board(Flag(b.posts, postId, true), assignments, b.submissions), id)
  }

  /** `deleteAssignment`: clears the post's flag and removes the assignment;
      nothing happens when the assignment does not exist. Submissions stay. */
  function DeleteAssignment(b: Board, assignmentId: int): (r: Board)
    ensures assignmentId !in b.assignments.rows ==> r == b
    ensures assignmentId in b.assignments.rows ==>
      var postId := b.assignments.rows[assignmentId].post;
      r.assignments.rows == b.assignments.rows - {assignmentId} &&
      (postId in b.posts.rows ==> r.posts.rows == b.posts.rows[postId := b.posts.rows[postId].(hasAssignment := false)]) &&
      (postId !in b.posts.rows ==> r.posts == b.posts)
    ensures r.submissions == b.submissions
    ensures b.Valid() ==> r.Valid()
  {
    match Find(b.assignments, assignmentId)
    case None => b
    case Some(a) => Board(Flag(b.posts, a.post, false), Remove(b.assignments, assignmentId), b.submissions)
  }

  /** `hasSubmitted` (`existsByAssignmentIdAndUserId`). */
  predicate HasSubmitted(b: Board, assignmentId: int, userId: int)
  {
    exists id :: id in b.submissions.rows &&
      b.submissions.rows[id].assignment == assignmentId && b.submissions.rows[id].user == userId
  }

  /** At most one submission per (assignment, user). */
  predicate OnePerPair(b: Board)
  {
    forall x, y :: x in b.submissions.rows && y in b.submissions.rows && x != y ==>
      (b.submissions.rows[x].assignment, b.submissions.rows[x].user) !=
      (b.submissions.rows[y].assignment, b.submissions.rows[y].user)
  }

  /** `getSubmission`: that user's submission to that assignment, if any. */
  function GetSubmission(b: Board, assignmentId: int, userId: int): (r: Option<int>)
    requires b.Valid()
    ensures r.Some? <==> HasSubmitted(b, assignmentId, userId)
    ensures r.Some? ==>
      r.value in b.submissions.rows &&
      b.submissions.rows[r.value].assignment == assignmentId && b.submissions.rows[r.value].user == userId
  {
    var ids := Where(b.submissions, (s: Submission) => s.assignment == assignmentId && s.user == userId);
    if |ids| == 0 then None
    else
      assert ids[0] in ids;
      Some(ids[0])
  }

  /** `submitAssignment`: a second submission for the pair is refused; a
      new one is SUBMITTED, ungraded, and carries the given file fields. The
      assignment itself is not looked up. */
  function Submit(b: Board, assignmentId: int, userId: int, content: string,
                  fileName: Option<string>, filePath: Option<string>, fileSize: Option<int>, now: int): (r: Result<(Board, int), AssignmentError>)
    requires b.Valid()
    ensures r.Err? <==> HasSubmitted(b, assignmentId, userId)
    ensures r.Err? ==> r.error == AlreadySubmitted
    ensures r.Ok? ==> var (after, id) := r.value;
      after.Valid() && after.posts == b.posts && after.assignments == b.assignments &&
      id !in b.submissions.rows &&
      after.submissions.rows == b.submissions.rows[id := Submission(assignmentId, userId, content,
        fileName, filePath, fileSize, Submitted, None, None, now, None)]
  {
    if HasSubmitted(b, assignmentId, userId) then Err(AlreadySubmitted)
    else
      var s := Submission(assignmentId, userId, content, fileName, filePath, fileSize, Submitted, None, None, now, None);
      var (submissions, id) := Insert(b.submissions, s);
      Ok((b.(submissions := submissions), id))
  }

  /** `updateSubmission`: only the owner may edit; the content is replaced,
      and the three file fields only when a file name is given. */
  function UpdateSubmission(b: Board, submissionId: int, userId: int, content: string,
                            fileName: Option<string>, filePath: Option<string>, fileSize: Option<int>): (r: Result<Board, AssignmentError>)
    ensures r == Err(NoSuchSubmission) <==> submissionId !in b.submissions.rows
    ensures r == Err(NotOwner) <==> submissionId in b.submissions.rows && b.submissions.rows[submissionId].user != userId
    ensures r.Ok? ==> submissionId in b.submissions.rows && submissionId in r.value.submissions.rows
    ensures r.Ok? ==>
      var before := b.submissions.rows[submissionId];
      var after := r.value.submissions.rows[submissionId];
      r.value.posts == b.posts && r.value.assignments == b.assignments &&
      r.value.submissions.rows == b.submissions.rows[submissionId := after] &&
      after.content == content &&
      (if fileName.Some? then after.fileName == fileName && after.filePath == filePath && after.fileSize == fileSize
       else after.fileName == before.fileName && after.filePath == before.filePath && after.fileSize == before.fileSize) &&
      after.(content := before.content, fileName := before.fileName, filePath := before.filePath, fileSize := before.fileSize) == before
    ensures b.Valid() && r.Ok? ==> r.value.Valid()
  {
    match Find(b.submissions, submissionId)
    case None => Err(NoSuchSubmission)
    case Some(s) =>
      if s.user != userId then Err(NotOwner)
      else
        var edited := s.(content := content);
        var withFile := if fileName.Some? then edited.(fileName := fileName, filePath := filePath, fileSize := fileSize) else edited;
        Ok(b.(submissions := Update(b.submissions, submissionId, withFile)))
  }

  /** `gradeSubmission`: sets score, feedback, status GRADED and the grading
      time; anyone may grade, and only a missing submission is an error. */
  function GradeSubmission(b: Board, submissionId: int, score: Option<int>, feedback: Option<string>, now: int): (r: Result<Board, AssignmentError>)
    ensures r.Err? <==> submissionId !in b.submissions.rows
    ensures r.Err? ==> r.error == NoSuchSubmission
    ensures r.Ok? ==>
      var s := b.submissions.rows[submissionId];
      r.value.posts == b.posts && r.value.assignments == b.assignments &&
      r.value.submissions.rows == b.submissions.rows[submissionId :=
        s.(score := score, feedback := feedback, status := Graded, gradedAt := Some(now))]
    ensures b.Valid() && r.Ok? ==> r.value.Valid()
  {
    match Find(b.submissions, submissionId)
    case None => Err(NoSuchSubmission)
    case Some(s) =>
      Ok(b.(submissions := Update(b.submissions, submissionId,
        s.(score := score, feedback := feedback, status := Graded, gradedAt := Some(now)))))
  }

  /** `getSubmissionsByAssignment`: that assignment's submissions, newest first. */
  function ByAssignment(b: Board, assignmentId: int): (r: seq<int>)
    requires b.Valid()
    ensures forall id :: id in r <==> id in b.submissions.rows && b.submissions.rows[id].assignment == assignmentId
    ensures forall i, j :: 0 <= i < j < |r| ==> r[i] > r[j]
  {
    var ids := Where(b.submissions, (s: Submission) => s.assignment == assignmentId);
    ReverseMembers(ids);
    Reverse(ids)
  }

  /** Under a clock that never runs backwards, the listing is newest first. */
  lemma ByAssignmentNewestFirst(b: Board, assignmentId: int)
    requires b.Valid() && Monotone(b.submissions, (s: Submission) => s.submittedAt)
    ensures var r := ByAssignment(b, assignmentId);
      forall i, j :: 0 <= i < j < |r| ==>
        b.submissions.rows[r[i]].submittedAt >= b.submissions.rows[r[j]].submittedAt
  {
    var ids := Where(b.submissions, (s: Submission) => s.assignment == assignmentId);
    ReverseIsNewestFirst(b.submissions, ids, (s: Submission) => s.submittedAt);
  }

  /** A successful submission keeps one submission per pair and makes
      `hasSubmitted` hold for its pair; a second one is refused. */
  lemma SubmitKeepsOnePerPair(b: Board, assignmentId: int, userId: int, content: string,
                              fileName: Option<string>, filePath: Option<string>, fileSize: Option<int>, now: int)
    requires b.Valid() && OnePerPair(b)
    requires Submit(b, assignmentId, userId, content, fileName, filePath, fileSize, now).Ok?
    ensures var after := Submit(b, assignmentId, userId, content, fileName, filePath, fileSize, now).value.0;
      OnePerPair(after) && HasSubmitted(after, assignmentId, userId) &&
      Submit(after, assignmentId, userId, content, fileName, filePath, fileSize, now) == Err(AlreadySubmitted)
  {
    var (after, id) := Submit(b, assignmentId, userId, content, fileName, filePath, fileSize, now).value;
    var rows := after.submissions.rows;
    assert rows[id].assignment == assignmentId && rows[id].user == userId;
    forall x, y | x in rows && y in rows && x != y
      ensures (rows[x].assignment, rows[x].user) != (rows[y].assignment, rows[y].user)
    {
      if x == id {
        assert y in b.submissions.rows;
      } else if y == id {
        assert x in b.submissions.rows;
      }
    }
  }

  /** Editing and grading never change whose submission to what a row is,
      so they keep one submission per pair. */
  lemma EditsKeepOnePerPair(b: Board, submissionId: int, userId: int, content: string,
                            fileName: Option<string>, filePath: Option<string>, fileSize: Option<int>,
                            score: Option<int>, feedback: Option<string>, now: int)
    requires OnePerPair(b)
    ensures var r := UpdateSubmission(b, submissionId, userId, content, fileName, filePath, fileSize);
      r.Ok? ==> OnePerPair(r.value)
    ensures var r := GradeSubmission(b, submissionId, score, feedback, now);
      r.Ok? ==> OnePerPair(r.value)
  {
    var r := UpdateSubmission(b, submissionId, userId, content, fileName, filePath, fileSize);
    if r.Ok? {
      SameKeysKeepOnePerPair(b, r.value, submissionId);
    }
    var g := GradeSubmission(b, submissionId, score, feedback, now);
    if g.Ok? {
      SameKeysKeepOnePerPair(b, g.value, submissionId);
    }
  }

  lemma SameKeysKeepOnePerPair(b: Board, c: Board, submissionId: int)
    requires OnePerPair(b) && submissionId in b.submissions.rows
    requires c.submissions.rows.Keys == b.submissions.rows.Keys
    requires forall id :: id in b.submissions.rows && id != submissionId ==> c.submissions.rows[id] == b.submissions.rows[id]
    requires c.submissions.rows[submissionId].assignment == b.submissions.rows[submissionId].assignment
    requires c.submissions.rows[submissionId].user == b.submissions.rows[submissionId].user
    ensures OnePerPair(c)
  {
    var rows := c.submissions.rows;
    forall x, y | x in rows && y in rows && x != y
      ensures (rows[x].assignment, rows[x].user) != (rows[y].assignment, rows[y].user)
    {
      assert (rows[x].assignment, rows[x].user) == (b.submissions.rows[x].assignment, b.submissions.rows[x].user);
      assert (rows[y].assignment, rows[y].user) == (b.submissions.rows[y].assignment, b.submissions.rows[y].user);
    }
  }

  /** Deleting an assignment right after creating it restores the
      assignments and leaves the post without an assignment. */
  lemma CreateThenDelete(b: Board, postId: int, title: string, description: string, dueDate: int)
    requires b.Valid()
    ensures var (created, id) := CreateAssignment(b, postId, title, description, dueDate);
      var after := DeleteAssignment(created, id);
      after.assignments.rows == b.assignments.rows && after.submissions == b.submissions &&
      (postId in b.posts.rows ==> after.posts.rows == b.posts.rows[postId := b.posts.rows[postId].(hasAssignment := false)]) &&
      (postId !in b.posts.rows ==> after.posts == b.posts)
  {
    var (created, id) := CreateAssignment(b, postId, title, description, dueDate);
    assert created.assignments.rows - {id} == b.assignments.rows;
    if postId in b.posts.rows {
      assert created.posts.rows[postId := created.posts.rows[postId].(hasAssignment := false)] ==
        b.posts.rows[postId := b.posts.rows[postId].(hasAssignment := false)];
    }
  }
}
