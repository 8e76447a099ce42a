/** The comment thread under a post, `components/comments.tsx`: adding a
    comment, deleting one, and who is offered the delete menu. The signed-in
    user (`None` when there is none), the confirmation dialog and the
    responses of `/api/posts/[id]/comments` are inputs. */
module Comments {
  import opened Common
  import opened Sequences

  datatype Comment = Comment(
    id: int, postId: int, userId: int, content: string, createdAt: string,
    authorName: string, username: string, avatarUrl: Option<string>)

  /** The JSON body of the `POST`. */
  datatype AddRequest = AddRequest(userId: int, content: string)

  /** How the `POST` ended: the created comment, a non-ok status whose body
      may carry an `error` text, or a thrown `Error` with its message. */
  datatype AddOutcome = Created(comment: Comment) | Rejected(errorField: Option<string>) | AddThrown(message: string)

  /** How the `DELETE` ended: ok, a non-ok status, or a thrown `Error`. */
  datatype DeleteOutcome = Deleted | DeleteNotOk | DeleteThrown(message: string)

  const EmptyCommentError := "Digite um comentário"
  const AddFailedError := "Erro ao adicionar comentário"
  const DeleteFailedError := "Erro ao excluir comentário"

  /** `comments.filter(comment => comment.id !== commentId)`: the comments
      with another id, each kept in its place. */
  function WithoutComment(comments: seq<Comment>, commentId: int): (r: seq<Comment>)
    ensures SubsequenceOf(r, comments)
    ensures forall c :: c in r <==> c in comments && c.id != commentId
    ensures (forall c :: c in comments ==> c.id != commentId) ==> r == comments
  {
    var r := Filter(comments, (c: Comment) => c.id != commentId);
    if forall c :: c in comments ==> c.id != commentId then
      FilterKeepsAll(comments, (c: Comment) => c.id != commentId);
      r
    else r
  }

  /** Deleting the same id twice leaves what deleting it once left. */
  lemma WithoutCommentIdempotent(comments: seq<Comment>, commentId: int)
    ensures WithoutComment(WithoutComment(comments, commentId), commentId) == WithoutComment(comments, commentId)
  {
  }

  /** `user?.id === comment.user_id`: the delete menu is shown on a comment
      only to its author, and never without a signed-in user. */
  predicate DeleteMenuShown(user: Option<int>, comment: Comment) {
    user.Some? && user.value == comment.userId
  }

  /** Of all signed-in users, exactly the author sees the menu. */
  lemma DeleteMenuOnlyForAuthor(comment: Comment, u: int)
    ensures DeleteMenuShown(Some(u), comment) <==> u == comment.userId
    ensures !DeleteMenuShown(None, comment)
  {
  }

  /** The state fields of the component; `error` is `""` when there is none. */
  class CommentThread {
    var comments: seq<Comment>
    var newComment: string
    var loading: bool
    var error: string

    constructor ()
      ensures comments == [] && newComment == "" && !loading && error == ""
    {
      comments := [];
      newComment := "";
      loading := false;
      error := "";
    }

    /** `handleAddComment`. A blank text or no user sets the error and sends
        nothing. Otherwise the trimmed text is sent (`sent`); the created
        comment goes in front of the others and the input is cleared; a
        failure keeps the list and the input and sets the error. */
    method HandleAddComment(user: Option<int>, outcome: AddOutcome) returns (sent: Option<AddRequest>)
      modifies this
      ensures sent.None? <==> IsBlank(old(newComment)) || user.None?
      ensures sent.None? ==>
                error == EmptyCommentError && comments == old(comments) &&
                newComment == old(newComment) && loading == old(loading)
      ensures sent.Some? ==>
                sent.value == AddRequest(user.value, Trim(old(newComment))) &&
                !IsBlank(sent.value.content) && !loading
      ensures sent.Some? ==> AddApplied(outcome, old(comments), old(newComment))
    {
      var content, blank := TrimText(newComment);
      if blank || user.None? {
        error := EmptyCommentError;
        return None;
      }
      assert !IsSpace(content[0]);
      sent := Some(AddRequest(user.value, content));
      Submit(outcome);
    }

    /** What the outcome of the `POST` leaves: the created comment in front
        of the previous list and an empty input, or the previous list and
        input with the error. */
    ghost predicate AddApplied(outcome: AddOutcome, before: seq<Comment>, input: string)
      reads this
    {
      match outcome
      case Created(c) => comments == [c] + before && newComment == "" && error == ""
      case Rejected(e) => comments == before && newComment == input && error == TextOr(e, AddFailedError)
      case AddThrown(m) => comments == before && newComment == input && error == m
    }

    /** The part of `handleAddComment` after the request is sent. */
    method Submit(outcome: AddOutcome)
      modifies this
      ensures AddApplied(outcome, old(comments), old(newComment)) && !loading
    {
      loading := true;
      error := "";
      match outcome {
        case Created(c) =>
          comments := [c] + comments;
          newComment := "";
        case Rejected(e) =>
          error := TextOr(e, AddFailedError);
        case AddThrown(m) =>
          error := m;
      }
      loading := false;
    }

    /** `handleDeleteComment(commentId)`. Without a user or a confirmation
        nothing happens and nothing is sent. Otherwise the `DELETE` is sent
        (`requested`); on success exactly the comments with that id leave
        the list, on failure the list stays and the error is set. */
    method HandleDeleteComment(user: Option<int>, confirmed: bool, commentId: int, outcome: DeleteOutcome)
      returns (requested: bool)
      modifies this
      ensures requested <==> user.Some? && confirmed
      ensures !requested ==> comments == old(comments) && error == old(error)
      ensures requested && outcome.Deleted? ==>
                comments == WithoutComment(old(comments), commentId) && error == old(error)
      ensures requested && outcome.DeleteNotOk? ==> comments == old(comments) && error == DeleteFailedError
      ensures requested && outcome.DeleteThrown? ==> comments == old(comments) && error == outcome.message
      ensures newComment == old(newComment) && loading == old(loading)
    {
      if user.None? || !confirmed {
        return false;
      }
      requested := true;
      match outcome {
        case Deleted =>
          comments := WithoutComment(comments, commentId);
        case DeleteNotOk =>
          error := DeleteFailedError;
        case DeleteThrown(m) =>
          error := m;
      }
    }
  }
}
