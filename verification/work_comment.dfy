/**
 WorkComment's two owner references. Both setters are plain field writes;
 `setWork` accepts null, `setUser` declares a non-null UserInterface, so a
 null argument raises a TypeError before the body runs.
 */
module WorkCommentEntity {
  import opened Store

  /** `WorkComment::setWork(?Work)`: the comment now points at `work` (or at
      nothing); no other object and no other field changes. */
  function SetWork(s: Store, c: CommentId, work: Option<WorkId>): (r: Store)
    requires c in s.comments && Refers(work, s.works)
    ensures c in r.comments && r.comments[c].work == work
    ensures r.comments[c].user == s.comments[c].user
    ensures r.comments[c].isDeleted == s.comments[c].isDeleted
    ensures forall d :: d in s.comments && d != c ==> d in r.comments && r.comments[d] == s.comments[d]
    ensures r.comments.Keys == s.comments.Keys
    ensures r.users == s.users && r.tags == s.tags && r.works == s.works
    ensures Valid(s) ==> Valid(r)
  {
    var x := s.comments[c].(work := work);
    ValidAfterCommentUpdate(s, c, x);
    s.(comments := s.comments[c := x])
  }

  /** Only the last `setWork` is observable. */
  lemma SetWorkLastWins(s: Store, c: CommentId, a: Option<WorkId>, b: Option<WorkId>)
    requires c in s.comments && Refers(a, s.works) && Refers(b, s.works)
    ensures SetWork(SetWork(s, c, a), c, b) == SetWork(s, c, b)
  {
  }

  /** `WorkComment::setUser(UserInterface)`: null raises a TypeError and
      leaves the store untouched; a user becomes the comment's author and
      nothing else changes. */
  function SetUser(s: Store, c: CommentId, user: Option<UserId>): (r: Outcome)
    requires c in s.comments && Refers(user, s.users)
    ensures r.TypeError? <==> user.None?
    ensures user.None? ==> r.store == s
    ensures c in r.store.comments
    ensures user.Some? ==> r.store.comments[c].user == user
    ensures r.store.comments[c].work == s.comments[c].work
    ensures r.store.comments[c].isDeleted == s.comments[c].isDeleted
    ensures forall d :: d in s.comments && d != c ==> d in r.store.comments && r.store.comments[d] == s.comments[d]
    ensures r.store.comments.Keys == s.comments.Keys
    ensures r.store.users == s.users && r.store.tags == s.tags && r.store.works == s.works
    ensures Valid(s) ==> Valid(r.store)
  {
    match user
    case None => TypeError(s)
    case Some(u) =>
      var x := s.comments[c].(user := Some(u));
      ValidAfterCommentUpdate(s, c, x);
      Returned(s.(comments := s.comments[c := x]))
  }
}
