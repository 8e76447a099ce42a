/** The persistence rules of `lib/db-utils.ts`, over in-memory tables:
    like/unlike/comment counters on `posts`, the friend list as the union of
    both directions of `friendships`, the task board order, and the SQL text
    built by `updateUserSettings`. */
module DbUtils {
  import opened Common
  import opened Sequences
  import opened Sorting

  // ------------------------------------------------------------ counters

  datatype Post = Post(id: int, likesCount: int, commentsCount: int)
  datatype PostLike = PostLike(postId: int, userId: int)
  datatype CommentRow = CommentRow(id: int, postId: int, userId: int, content: string)

  predicate CountersValid(posts: seq<Post>) {
    forall k :: 0 <= k < |posts| ==> posts[k].likesCount >= 0 && posts[k].commentsCount >= 0
  }

  /** `UPDATE posts SET likes_count = likes_count + 1 WHERE id = ?` */
  function AddLike(posts: seq<Post>, postId: int): (r: seq<Post>)
    ensures |r| == |posts|
    ensures forall k :: 0 <= k < |posts| && posts[k].id == postId ==>
              r[k] == posts[k].(likesCount := posts[k].likesCount + 1)
    ensures forall k :: 0 <= k < |posts| && posts[k].id != postId ==> r[k] == posts[k]
  {
    seq(|posts|, k requires 0 <= k < |posts| =>
      if posts[k].id == postId then posts[k].(likesCount := posts[k].likesCount + 1) else posts[k])
  }

  /** `UPDATE posts SET likes_count = likes_count - 1 WHERE id = ? AND likes_count > 0` */
  function RemoveLike(posts: seq<Post>, postId: int): (r: seq<Post>)
    ensures |r| == |posts|
    ensures forall k :: 0 <= k < |posts| && posts[k].id == postId && posts[k].likesCount > 0 ==>
              r[k] == posts[k].(likesCount := posts[k].likesCount - 1)
    ensures forall k :: 0 <= k < |posts| && (posts[k].id != postId || posts[k].likesCount <= 0) ==>
              r[k] == posts[k]
  {
    seq(|posts|, k requires 0 <= k < |posts| =>
      if posts[k].id == postId && posts[k].likesCount > 0 then posts[k].(likesCount := posts[k].likesCount - 1) else posts[k])
  }

  /** `UPDATE posts SET comments_count = comments_count + 1 WHERE id = ?` */
  function AddComment(posts: seq<Post>, postId: int): (r: seq<Post>)
    ensures |r| == |posts|
    ensures forall k :: 0 <= k < |posts| && posts[k].id == postId ==>
              r[k] == posts[k].(commentsCount := posts[k].commentsCount + 1)
    ensures forall k :: 0 <= k < |posts| && posts[k].id != postId ==> r[k] == posts[k]
  {
    seq(|posts|, k requires 0 <= k < |posts| =>
      if posts[k].id == postId then posts[k].(commentsCount := posts[k].commentsCount + 1) else posts[k])
  }

  /** `DELETE FROM post_likes WHERE post_id = ? AND user_id = ?` */
  function DeleteLike(likes: seq<PostLike>, postId: int, userId: int): (r: seq<PostLike>)
    ensures SubsequenceOf(r, likes)
    ensures forall l :: multiset(r)[l] == if l == PostLike(postId, userId) then 0 else multiset(likes)[l]
    ensures forall l :: l in r <==> l in likes && l != PostLike(postId, userId)
    ensures |r| <= |likes|
  {
    Filter(likes, (l: PostLike) => l != PostLike(postId, userId))
  }

  /** The guarded decrement never takes a counter below zero, and counting
      up never does either. */
  lemma CountersStayValid(posts: seq<Post>, postId: int)
    requires CountersValid(posts)
    ensures CountersValid(RemoveLike(posts, postId))
    ensures CountersValid(AddLike(posts, postId))
    ensures CountersValid(AddComment(posts, postId))
  {
  }

  /** An unlike undoes a like on the counters. */
  lemma UnlikeUndoesLike(posts: seq<Post>, postId: int)
    requires CountersValid(posts)
    ensures RemoveLike(AddLike(posts, postId), postId) == posts
  {
    var r := RemoveLike(AddLike(posts, postId), postId);
    assert forall k :: 0 <= k < |posts| ==> r[k] == posts[k];
  }

  /** A like undoes an unlike as long as the post's counter was positive;
      on a zero counter the unlike changed nothing and the like does count. */
  lemma LikeUndoesUnlike(posts: seq<Post>, postId: int)
    ensures (forall k :: 0 <= k < |posts| && posts[k].id == postId ==> posts[k].likesCount > 0) <==>
            AddLike(RemoveLike(posts, postId), postId) == posts
  {
    var r := AddLike(RemoveLike(posts, postId), postId);
    if forall k :: 0 <= k < |posts| && posts[k].id == postId ==> posts[k].likesCount > 0 {
      assert forall k :: 0 <= k < |posts| ==> r[k] == posts[k];
    } else {
      var k :| 0 <= k < |posts| && posts[k].id == postId && posts[k].likesCount <= 0;
      assert r[k].likesCount == posts[k].likesCount + 1;
    }
  }

  /** What a call on the store ended with: the value returned, or an
      exception that reached the caller. */
  datatype CreateCommentOutcome = CommentCreated(commentId: int) | CommentThrown

  /** The tables touched by the like and comment helpers. Each statement's
      success is an input: the database decides it. */
  class SocialStore {
    var posts: seq<Post>
    var likes: seq<PostLike>
    var comments: seq<CommentRow>
    var nextCommentId: int

    ghost predicate Valid()
      reads this
    {
      CountersValid(posts) && nextCommentId >= 1 &&
      forall k :: 0 <= k < |comments| ==> comments[k].id < nextCommentId
    }

    constructor (posts0: seq<Post>)
      requires CountersValid(posts0)
      ensures Valid() && posts == posts0 && likes == [] && comments == []
    {
      posts := posts0;
      likes := [];
      comments := [];
      nextCommentId := 1;
    }

    /** `likePost`: the counter moves only after the like row went in; any
        failure is caught and reported as `false`. */
    method LikePost(postId: int, userId: int, insertOk: bool, updateOk: bool) returns (ok: bool)
      requires Valid()
      modifies this
      ensures Valid()
      ensures ok == (insertOk && updateOk)
      ensures likes == if insertOk then old(likes) + [PostLike(postId, userId)] else old(likes)
      ensures posts == if insertOk && updateOk then AddLike(old(posts), postId) else old(posts)
      ensures comments == old(comments) && nextCommentId == old(nextCommentId)
    {
      if !insertOk {
        return false;
      }
      likes := likes + [PostLike(postId, userId)];
      if !updateOk {
        return false;
      }
      CountersStayValid(posts, postId);
      posts := AddLike(posts, postId);
      ok := true;
    }

    /** `unlikePost`: deletes the user's like rows, then decrements the
        counter if it is positive, whether or not a row was deleted. */
    method UnlikePost(postId: int, userId: int, deleteOk: bool, updateOk: bool) returns (ok: bool)
      requires Valid()
      modifies this
      ensures Valid()
      ensures ok == (deleteOk && updateOk)
      ensures likes == if deleteOk then DeleteLike(old(likes), postId, userId) else old(likes)
      ensures posts == if deleteOk && updateOk then RemoveLike(old(posts), postId) else old(posts)
      ensures comments == old(comments) && nextCommentId == old(nextCommentId)
    {
      if !deleteOk {
        return false;
      }
      likes := DeleteLike(likes, postId, userId);
      if !updateOk {
        return false;
      }
      CountersStayValid(posts, postId);
      posts := RemoveLike(posts, postId);
      ok := true;
    }

    /** `createComment`: one new comment row with a fresh id, then the post's
        `comments_count` goes up by one. Nothing is caught: a failure of
        either statement reaches the caller, after whatever ran before it. */
    method CreateComment(postId: int, userId: int, content: string, insertOk: bool, updateOk: bool)
      returns (outcome: CreateCommentOutcome)
      requires Valid()
      modifies this
      ensures Valid()
      ensures outcome.CommentCreated? <==> insertOk && updateOk
      ensures insertOk ==> comments == old(comments) + [CommentRow(old(nextCommentId), postId, userId, content)] &&
                           nextCommentId == old(nextCommentId) + 1
      ensures !insertOk ==> comments == old(comments) && nextCommentId == old(nextCommentId)
      ensures outcome.CommentCreated? ==>
                outcome.commentId == old(nextCommentId) &&
                forall k :: 0 <= k < |old(comments)| ==> old(comments)[k].id != outcome.commentId
      ensures posts == if insertOk && updateOk then AddComment(old(posts), postId) else old(posts)
      ensures likes == old(likes)
    {
      if !insertOk {
        return CommentThrown;
      }
      var insertId := nextCommentId;
      comments := comments + [CommentRow(insertId, postId, userId, content)];
      nextCommentId := nextCommentId + 1;
      if !updateOk {
        return CommentThrown;
      }
      CountersStayValid(posts, postId);
      posts := AddComment(posts, postId);
      outcome := CommentCreated(insertId);
    }
  }

  // ------------------------------------------------------------- friends

  datatype Friendship = Friendship(userId: int, friendId: int, status: string)
  datatype UserRecord = UserRecord(fullName: string, username: string, bio: string, avatarUrl: string)
  datatype FriendRow = FriendRow(id: int, name: string, handle: string, bio: string, avatarUrl: string)

  predicate Accepted(f: Friendship) {
    f.status == "accepted"
  }

  /** An accepted row links `u` and `x`, in either direction. */
  predicate Links(f: Friendship, u: int, x: int) {
    Accepted(f) && ((f.userId == u && f.friendId == x) || (f.friendId == u && f.userId == x))
  }

  /** The ids the two halves of the `UNION` select, before the join. */
  function FriendIds(fs: seq<Friendship>, u: int): (ids: set<int>)
    ensures forall x :: x in ids <==> exists k :: 0 <= k < |fs| && Links(fs[k], u, x)
  {
    if fs == [] then {}
    else
      var rest := FriendIds(fs[1..], u);
      assert forall k :: 1 <= k < |fs| ==> fs[k] == fs[1..][k - 1];
      var here := if !Accepted(fs[0]) then {}
                  else (if fs[0].userId == u then {fs[0].friendId} else {}) +
                       (if fs[0].friendId == u then {fs[0].userId} else {});
      here + rest
  }

  function FriendRowOf(id: int, r: UserRecord): FriendRow {
    FriendRow(id, r.fullName, r.username, r.bio, r.avatarUrl)
  }

  /** `getFriends`: the `UNION` (so no duplicates) of the accepted friends in
      both directions, each joined with its user row. */
  function GetFriends(fs: seq<Friendship>, users: map<int, UserRecord>, u: int): (r: set<FriendRow>)
    ensures forall row :: row in r <==> row.id in users && row == FriendRowOf(row.id, users[row.id]) &&
                                        exists k :: 0 <= k < |fs| && Links(fs[k], u, row.id)
  {
    set x | x in FriendIds(fs, u) && x in users :: FriendRowOf(x, users[x])
  }

  /** Friendship as listed is symmetric: an accepted row makes each side
      appear in the other's list, whichever side stored it. */
  lemma FriendsSymmetric(fs: seq<Friendship>, users: map<int, UserRecord>, a: int, b: int)
    requires a in users && b in users
    ensures FriendRowOf(b, users[b]) in GetFriends(fs, users, a) <==> FriendRowOf(a, users[a]) in GetFriends(fs, users, b)
  {
    if FriendRowOf(b, users[b]) in GetFriends(fs, users, a) {
      var k :| 0 <= k < |fs| && Links(fs[k], a, b);
      assert Links(fs[k], b, a);
    }
    if FriendRowOf(a, users[a]) in GetFriends(fs, users, b) {
      var k :| 0 <= k < |fs| && Links(fs[k], b, a);
      assert Links(fs[k], a, b);
    }
  }

  // --------------------------------------------------------------- tasks

  datatype Task = Task(id: int, projectId: int, title: string, description: string, status: string,
                       priority: string, dueDate: int, createdAt: int, assignedTo: Option<int>)
  datatype TaskRow = TaskRow(id: int, title: string, description: string, status: string, priority: string,
                             dueDate: int, createdAt: int, assignedToName: Option<string>, assignedToHandle: Option<string>)

  /** The `CASE` of the `ORDER BY`: todo, in progress, review, then the rest. */
  function StatusRank(status: string): (r: int)
    ensures 1 <= r <= 4
    ensures r == 1 <==> status == "todo"
    ensures r == 2 <==> status == "in_progress"
    ensures r == 3 <==> status == "review"
  {
    if status == "todo" then 1
    else if status == "in_progress" then 2
    else if status == "review" then 3
    else 4
  }

  /** A task with the `LEFT JOIN users` on its assignee. */
  function TaskRowOf(t: Task, users: map<int, UserRecord>): TaskRow {
    var assignee := if t.assignedTo.Some? && t.assignedTo.value in users then Some(users[t.assignedTo.value]) else None;
    TaskRow(t.id, t.title, t.description, t.status, t.priority, t.dueDate, t.createdAt,
            if assignee.Some? then Some(assignee.value.fullName) else None,
            if assignee.Some? then Some(assignee.value.username) else None)
  }

  /** `WHERE t.project_id = ?`: the project's tasks, in table order, each
      as often as it is stored. */
  function ProjectTasks(tasks: seq<Task>, projectId: int): seq<Task> {
    Filter(tasks, (t: Task) => t.projectId == projectId)
  }

  /** The rows of the project's tasks, in table order. */
  function ProjectTaskRows(tasks: seq<Task>, users: map<int, UserRecord>, projectId: int): (r: seq<TaskRow>)
    ensures |r| <= |tasks|
    ensures forall row :: row in r <==> exists t :: t in tasks && t.projectId == projectId && row == TaskRowOf(t, users)
  {
    if tasks == [] then []
    else
      var rest := ProjectTaskRows(tasks[1..], users, projectId);
      assert forall t :: t in tasks <==> t == tasks[0] || t in tasks[1..];
      if tasks[0].projectId == projectId then [TaskRowOf(tasks[0], users)] + rest else rest
  }

  /** One step of the `WHERE`: the first task, if it belongs to the
      project, followed by the project's other tasks. */
  lemma ProjectTasksStep(tasks: seq<Task>, projectId: int)
    requires tasks != []
    ensures ProjectTasks(tasks, projectId) ==
            (if tasks[0].projectId == projectId then [tasks[0]] else []) + ProjectTasks(tasks[1..], projectId)
  {
  }

  /** The join gives one row per task of the project, in the same
      position: none is dropped or repeated. */
  lemma {:induction false} TaskRowsOnePerTask(tasks: seq<Task>, users: map<int, UserRecord>, projectId: int)
    ensures var p := ProjectTasks(tasks, projectId);
            |ProjectTaskRows(tasks, users, projectId)| == |p| &&
            forall k :: 0 <= k < |p| ==> ProjectTaskRows(tasks, users, projectId)[k] == TaskRowOf(p[k], users)
  {
    if tasks != [] {
      TaskRowsOnePerTask(tasks[1..], users, projectId);
      ProjectTasksStep(tasks, projectId);
      var p1 := ProjectTasks(tasks[1..], projectId);
      var r1 := ProjectTaskRows(tasks[1..], users, projectId);
      var head: seq<Task> := if tasks[0].projectId == projectId then [tasks[0]] else [];
      assert ProjectTaskRows(tasks, users, projectId) == (if tasks[0].projectId == projectId then [TaskRowOf(tasks[0], users)] else []) + r1;
      RowsAlign(head, p1, r1, users);
    }
  }

  /** Prepending at most one task and its row keeps the two aligned. */
  lemma RowsAlign(head: seq<Task>, p1: seq<Task>, r1: seq<TaskRow>, users: map<int, UserRecord>)
    requires |head| <= 1 && |r1| == |p1|
    requires forall k :: 0 <= k < |p1| ==> r1[k] == TaskRowOf(p1[k], users)
    ensures var p, r := head + p1, (if |head| == 1 then [TaskRowOf(head[0], users)] else []) + r1;
            |r| == |p| && forall k :: 0 <= k < |p| ==> r[k] == TaskRowOf(p[k], users)
  {
  }

  function TaskKey(row: TaskRow): Key {
    Key(StatusRank(row.status), row.dueDate)
  }

  /** `getTasks`: exactly the project's tasks, by status rank and then by
      due date ascending. */
  function GetTasks(tasks: seq<Task>, users: map<int, UserRecord>, projectId: int): (r: seq<TaskRow>)
    ensures multiset(r) == multiset(ProjectTaskRows(tasks, users, projectId))
    ensures forall i, j :: 0 <= i < j < |r| ==>
              StatusRank(r[i].status) < StatusRank(r[j].status) ||
              (StatusRank(r[i].status) == StatusRank(r[j].status) && r[i].dueDate <= r[j].dueDate)
  {
    var r := SortBy(ProjectTaskRows(tasks, users, projectId), TaskKey);
    assert forall i, j :: 0 <= i < j < |r| ==> KeyLe(TaskKey(r[i]), TaskKey(r[j]));
    r
  }

  /** Only the project's tasks are listed, and all of them. */
  lemma GetTasksExactly(tasks: seq<Task>, users: map<int, UserRecord>, projectId: int, row: TaskRow)
    ensures row in GetTasks(tasks, users, projectId) <==>
            exists t :: t in tasks && t.projectId == projectId && row == TaskRowOf(t, users)
  {
    var r := GetTasks(tasks, users, projectId);
    assert row in r <==> row in multiset(r);
    assert row in ProjectTaskRows(tasks, users, projectId) <==> row in multiset(ProjectTaskRows(tasks, users, projectId));
  }
}
