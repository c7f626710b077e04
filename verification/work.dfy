/**
 Work's side of its three associations. `addTag`/`removeTag` touch only the
 work's own list (the Tag side is synchronised from Tag::addWork alone);
 `addWorkComment`/`removeWorkComment` also move the comment's `work`
 reference; `setUser` is a non-nullable field write.
 */
module WorkEntity {
  import opened Collection
  import opened Store
  import WorkCommentEntity

  /** `Work::addTag`: appends the tag unless already listed. The tag's own
      list of works is left alone, and so is every other object. */
  function AddTag(s: Store, w: WorkId, t: TagId): (r: Store)
    requires w in s.works && t in s.tags
    ensures w in r.works && t in r.works[w].tags
    ensures t in s.works[w].tags ==> r == s
    ensures t !in s.works[w].tags ==>
      r.works[w].tags == s.works[w].tags + [t]
    ensures r.works[w] == s.works[w].(tags := r.works[w].tags)
    ensures r.works == s.works[w := r.works[w]]
    ensures r.users == s.users && r.tags == s.tags && r.comments == s.comments
    ensures Valid(s) ==> Valid(r)
  {
    var work := s.works[w];
    if t !in work.tags then
      var x := work.(tags := AddIfAbsent(work.tags, t));
      ValidAfterWorkUpdate(s, w, x);
      s.(works := s.works[w := x])
    else s
  }

  /** `Work::removeTag`: drops the tag's first occurrence from the work's list
      only; an absent tag changes nothing. */
  function RemoveTag(s: Store, w: WorkId, t: TagId): (r: Store)
    requires w in s.works
    ensures w in r.works
    ensures t !in s.works[w].tags ==> r == s
    ensures r.works[w].tags == RemoveFirst(s.works[w].tags, t)
    ensures NoDup(s.works[w].tags) ==> t !in r.works[w].tags
    ensures r.works[w] == s.works[w].(tags := r.works[w].tags)
    ensures r.works == s.works[w := r.works[w]]
    ensures r.users == s.users && r.tags == s.tags && r.comments == s.comments
    ensures Valid(s) ==> Valid(r)
  {
    var work := s.works[w];
    if t in work.tags then
      var x := work.(tags := RemoveFirst(work.tags, t));
      ValidAfterWorkUpdate(s, w, x);
      s.(works := s.works[w := x])
    else s
  }

  /** `Work::setUser(UserInterface)`: null raises a TypeError with the store
      untouched; otherwise the owner is replaced and no other field or object
      changes. The user's own list of works is not consulted. */
  function SetUser(s: Store, w: WorkId, user: Option<UserId>): (r: Outcome)
    requires w in s.works && Refers(user, s.users)
    ensures r.TypeError? <==> user.None?
    ensures user.None? ==> r.store == s
    ensures w in r.store.works
    ensures user.Some? ==> r.store.works[w].user == user
    ensures r.store.works[w] == s.works[w].(user := r.store.works[w].user)
    ensures r.store.works == s.works[w := r.store.works[w]]
    ensures r.store.users == s.users && r.store.tags == s.tags && r.store.comments == s.comments
    ensures Valid(s) ==> Valid(r.store)
  {
    match user
    case None => TypeError(s)
    case Some(u) =>
      var x := s.works[w].(user := Some(u));
      ValidAfterWorkUpdate(s, w, x);
      Returned(s.(works := s.works[w := x]))
  }

  /** Only the last successful `setUser` is observable. */
  lemma SetUserLastWins(s: Store, w: WorkId, a: UserId, b: UserId)
    requires w in s.works && a in s.users && b in s.users
    ensures SetUser(SetUser(s, w, Some(a)).store, w, Some(b)) == SetUser(s, w, Some(b))
  {
  }

  /** `Work::addWorkComment`: a comment not yet listed is appended and its
      `work` set to this work; a listed one changes nothing, even when its
      `work` points elsewhere. */
  function AddWorkComment(s: Store, w: WorkId, c: CommentId): (r: Store)
    requires w in s.works && c in s.comments
    ensures w in r.works && c in r.comments && c in r.works[w].comments
    ensures c in s.works[w].comments ==> r == s
    ensures c !in s.works[w].comments ==>
      && r.works[w].comments == s.works[w].comments + [c]
      && r.comments[c].work == Some(w)
    ensures r.works[w] == s.works[w].(comments := r.works[w].comments)
    ensures r.works == s.works[w := r.works[w]]
    ensures r.comments[c] == s.comments[c].(work := r.comments[c].work)
    ensures r.comments == s.comments[c := r.comments[c]]
    ensures r.users == s.users && r.tags == s.tags
    ensures Valid(s) ==> Valid(r)
  {
    var work := s.works[w];
    if c !in work.comments then
      var x := work.(comments := AddIfAbsent(work.comments, c));
      ValidAfterWorkUpdate(s, w, x);
      var s1 := s.(works := s.works[w := x]);
      WorkCommentEntity.SetWork(s1, c, Some(w))
    else s
  }

  /** `Work::removeWorkComment`: a listed comment loses its first occurrence
      in the list, and its `work` is cleared only when it still points at this
      work; an unlisted comment changes nothing. */
  function RemoveWorkComment(s: Store, w: WorkId, c: CommentId): (r: Store)
    requires w in s.works && c in s.comments
    ensures w in r.works && c in r.comments
    ensures c !in s.works[w].comments ==> r == s
    ensures r.works[w].comments == RemoveFirst(s.works[w].comments, c)
    ensures NoDup(s.works[w].comments) ==> c !in r.works[w].comments
    ensures c in s.works[w].comments && s.comments[c].work == Some(w) ==> r.comments[c].work == None
    ensures s.comments[c].work != Some(w) ==> r.comments == s.comments
    ensures r.works[w] == s.works[w].(comments := r.works[w].comments)
    ensures r.works == s.works[w := r.works[w]]
    ensures r.comments[c] == s.comments[c].(work := r.comments[c].work)
    ensures r.comments == s.comments[c := r.comments[c]]
    ensures r.users == s.users && r.tags == s.tags
    ensures Valid(s) ==> Valid(r)
  {
    var work := s.works[w];
    if c in work.comments then
      var x := work.(comments := RemoveFirst(work.comments, c));
      ValidAfterWorkUpdate(s, w, x);
      var s1 := s.(works := s.works[w := x]);
      if s1.comments[c].work == Some(w) then WorkCommentEntity.SetWork(s1, c, None) else s1
    else s
  }
}
