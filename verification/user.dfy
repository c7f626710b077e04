/**
 User's side of its three associations, and its soft-delete flag.
 `addTag`/`removeTag` keep the Tag side in step through `Tag::addUser` and
 `Tag::removeUser`. `addWork`/`addWorkComment` set the item's owner;
 `removeWork`/`removeWorkComment` try to reset it to null through setters
 that do not accept null, so they raise whenever the item is still owned by
 this user.
 */
module UserEntity {
  import opened Collection
  import opened Store
  import TagEntity
  import WorkEntity
  import WorkCommentEntity

  /** `User::setIsDeleted`: the soft-delete flag takes the given value; nothing
      else about this user or any other object changes. */
  function SetIsDeleted(s: Store, u: UserId, isDeleted: bool): (r: Store)
    requires u in s.users
    ensures u in r.users && r.users[u].isDeleted == isDeleted
    ensures r.users[u] == s.users[u].(isDeleted := isDeleted)
    ensures forall v :: v in s.users && v != u ==> v in r.users && r.users[v] == s.users[v]
    ensures r.users.Keys == s.users.Keys
    ensures r.tags == s.tags && r.works == s.works && r.comments == s.comments
    ensures Valid(s) ==> Valid(r)
  {
    var x := s.users[u].(isDeleted := isDeleted);
    ValidAfterUserUpdate(s, u, x);
    s.(users := s.users[u := x])
  }

  /** `User::addTag`: a tag not yet listed is appended here and the user is
      added to the tag through `Tag::addUser`; a listed tag changes nothing. */
  function AddTag(s: Store, u: UserId, t: TagId): (r: Store)
    requires u in s.users && t in s.tags
    ensures u in r.users && t in r.tags
    ensures t in r.users[u].tags
    ensures t !in s.users[u].tags ==> u in r.tags[t].users
    ensures t in s.users[u].tags ==> r == s
    ensures t !in s.users[u].tags ==>
      && r.users[u].tags == s.users[u].tags + [t]
      && r.tags[t].users == AddIfAbsent(s.tags[t].users, u)
    ensures r.users[u] == s.users[u].(tags := r.users[u].tags)
    ensures r.users == s.users[u := r.users[u]]
    ensures r.tags[t] == s.tags[t].(users := r.tags[t].users)
    ensures r.tags == s.tags[t := r.tags[t]]
    ensures r.works == s.works && r.comments == s.comments
    ensures Valid(s) ==> Valid(r)
  {
    var user := s.users[u];
    if t !in user.tags then
      var x := user.(tags := AddIfAbsent(user.tags, t));
      ValidAfterUserUpdate(s, u, x);
      TagEntity.AddUser(s.(users := s.users[u := x]), t, u)
    else s
  }

  /** `User::removeTag`: when the tag was listed, its first occurrence is
      dropped here and the user is removed from the tag through
      `Tag::removeUser`; otherwise nothing changes. */
  function RemoveTag(s: Store, u: UserId, t: TagId): (r: Store)
    requires u in s.users && t in s.tags
    ensures u in r.users && t in r.tags
    ensures t !in s.users[u].tags ==> r == s
    ensures r.users[u].tags == RemoveFirst(s.users[u].tags, t)
    ensures NoDup(s.users[u].tags) ==> t !in r.users[u].tags
    ensures t in s.users[u].tags ==> r.tags[t].users == RemoveFirst(s.tags[t].users, u)
    ensures t in s.users[u].tags && NoDup(s.tags[t].users) ==> u !in r.tags[t].users
    ensures r.users[u] == s.users[u].(tags := r.users[u].tags)
    ensures r.users == s.users[u := r.users[u]]
    ensures r.tags[t] == s.tags[t].(users := r.tags[t].users)
    ensures r.tags == s.tags[t := r.tags[t]]
    ensures r.works == s.works && r.comments == s.comments
    ensures Valid(s) ==> Valid(r)
  {
    var user := s.users[u];
    if t in user.tags then
      var x := user.(tags := RemoveFirst(user.tags, t));
      ValidAfterUserUpdate(s, u, x);
      TagEntity.RemoveUser(s.(users := s.users[u := x]), t, u)
    else s
  }

  /** `User::addWork`: a work not yet listed is appended and its owner set to
      this user through `Work::setUser`; a listed work changes nothing, even
      when its owner is somebody else. The previous owner's list is not
      touched. */
  function AddWork(s: Store, u: UserId, w: WorkId): (r: Store)
    requires u in s.users && w in s.works
    ensures u in r.users && w in r.works
    ensures w in r.users[u].works
    ensures w in s.users[u].works ==> r == s
    ensures w !in s.users[u].works ==>
      && r.users[u].works == s.users[u].works + [w]
      && r.works[w].user == Some(u)
    ensures r.users[u] == s.users[u].(works := r.users[u].works)
    ensures r.users == s.users[u := r.users[u]]
    ensures r.works[w] == s.works[w].(user := r.works[w].user)
    ensures r.works == s.works[w := r.works[w]]
    ensures r.tags == s.tags && r.comments == s.comments
    ensures Valid(s) ==> Valid(r)
  {
    var user := s.users[u];
    if w !in user.works then
      var x := user.(works := AddIfAbsent(user.works, w));
      ValidAfterUserUpdate(s, u, x);
      WorkEntity.SetUser(s.(users := s.users[u := x]), w, Some(u)).store
    else s
  }

  /** `User::removeWork` as written: a listed work loses its first occurrence
      in the list; then, if the work is still owned by this user,
      `Work::setUser(null)` raises a TypeError, after the list has changed.
      The owner reference itself is never changed. */
  function RemoveWork(s: Store, u: UserId, w: WorkId): (r: Outcome)
    requires u in s.users && w in s.works
    ensures r.TypeError? <==> w in s.users[u].works && s.works[w].user == Some(u)
    ensures w !in s.users[u].works ==> r == Returned(s)
    ensures u in r.store.users
    ensures r.store.users[u].works == RemoveFirst(s.users[u].works, w)
    ensures NoDup(s.users[u].works) ==> w !in r.store.users[u].works
    ensures r.store.users[u] == s.users[u].(works := r.store.users[u].works)
    ensures r.store.users == s.users[u := r.store.users[u]]
    ensures r.store.works == s.works && r.store.tags == s.tags && r.store.comments == s.comments
    ensures Valid(s) ==> Valid(r.store)
  {
    var user := s.users[u];
    if w in user.works then
      var x := user.(works := RemoveFirst(user.works, w));
      ValidAfterUserUpdate(s, u, x);
      var s1 := s.(users := s.users[u := x]);
      if s1.works[w].user == Some(u) then WorkEntity.SetUser(s1, w, None) else Returned(s1)
    else Returned(s)
  }

  /** `User::removeWork` as its comment says it should behave, that is, with a
      `Work::setUser` that accepts null: the work leaves the list and, when
      still owned by this user, is left without an owner. */
  function RemoveWorkIntended(s: Store, u: UserId, w: WorkId): (r: Store)
    requires u in s.users && w in s.works
    ensures u in r.users && w in r.works
    ensures w !in s.users[u].works ==> r == s
    ensures r.users[u].works == RemoveFirst(s.users[u].works, w)
    ensures NoDup(s.users[u].works) ==> w !in r.users[u].works
    ensures w in s.users[u].works && s.works[w].user == Some(u) ==> r.works[w].user == None
    ensures s.works[w].user != Some(u) ==> r.works == s.works
    ensures r.users[u] == s.users[u].(works := r.users[u].works)
    ensures r.users == s.users[u := r.users[u]]
    ensures r.works[w] == s.works[w].(user := r.works[w].user)
    ensures r.works == s.works[w := r.works[w]]
    ensures r.tags == s.tags && r.comments == s.comments
    ensures Valid(s) ==> Valid(r)
  {
    var user := s.users[u];
    if w in user.works then
      var x := user.(works := RemoveFirst(user.works, w));
      ValidAfterUserUpdate(s, u, x);
      var s1 := s.(users := s.users[u := x]);
      if s1.works[w].user == Some(u) then
        var y := s1.works[w].(user := None);
        ValidAfterWorkUpdate(s1, w, y);
        s1.(works := s1.works[w := y])
      else s1
    else s
  }

  /** `User::addWorkComment`: a comment not yet listed is appended and its
      author set to this user through `WorkComment::setUser`; a listed comment
      changes nothing. */
  function AddWorkComment(s: Store, u: UserId, c: CommentId): (r: Store)
    requires u in s.users && c in s.comments
    ensures u in r.users && c in r.comments
    ensures c in r.users[u].comments
    ensures c in s.users[u].comments ==> r == s
    ensures c !in s.users[u].comments ==>
      && r.users[u].comments == s.users[u].comments + [c]
      && r.comments[c].user == Some(u)
    ensures r.users[u] == s.users[u].(comments := r.users[u].comments)
    ensures r.users == s.users[u := r.users[u]]
    ensures r.comments[c] == s.comments[c].(user := r.comments[c].user)
    ensures r.comments == s.comments[c := r.comments[c]]
    ensures r.tags == s.tags && r.works == s.works
    ensures Valid(s) ==> Valid(r)
  {
    var user := s.users[u];
    if c !in user.comments then
      var x := user.(comments := AddIfAbsent(user.comments, c));
      ValidAfterUserUpdate(s, u, x);
      WorkCommentEntity.SetUser(s.(users := s.users[u := x]), c, Some(u)).store
    else s
  }

  /** `User::removeWorkComment` as written: a listed comment loses its first
      occurrence in the list; then, if this user is still its author,
      `WorkComment::setUser(null)` raises a TypeError, after the list has
      changed. The author reference itself is never changed. */
  function RemoveWorkComment(s: Store, u: UserId, c: CommentId): (r: Outcome)
    requires u in s.users && c in s.comments
    ensures r.TypeError? <==> c in s.users[u].comments && s.comments[c].user == Some(u)
    ensures c !in s.users[u].comments ==> r == Returned(s)
    ensures u in r.store.users
    ensures r.store.users[u].comments == RemoveFirst(s.users[u].comments, c)
    ensures NoDup(s.users[u].comments) ==> c !in r.store.users[u].comments
    ensures r.store.users[u] == s.users[u].(comments := r.store.users[u].comments)
    ensures r.store.users == s.users[u := r.store.users[u]]
    ensures r.store.comments == s.comments && r.store.tags == s.tags && r.store.works == s.works
    ensures Valid(s) ==> Valid(r.store)
  {
    var user := s.users[u];
    if c in user.comments then
      var x := user.(comments := RemoveFirst(user.comments, c));
      ValidAfterUserUpdate(s, u, x);
      var s1 := s.(users := s.users[u := x]);
      if s1.comments[c].user == Some(u) then WorkCommentEntity.SetUser(s1, c, None) else Returned(s1)
    else Returned(s)
  }

  /** `User::removeWorkComment` as its comment says it should behave, with a
      `WorkComment::setUser` that accepts null: the comment leaves the list
      and, when this user is still its author, is left without one. */
  function RemoveWorkCommentIntended(s: Store, u: UserId, c: CommentId): (r: Store)
    requires u in s.users && c in s.comments
    ensures u in r.users && c in r.comments
    ensures c !in s.users[u].comments ==> r == s
    ensures r.users[u].comments == RemoveFirst(s.users[u].comments, c)
    ensures NoDup(s.users[u].comments) ==> c !in r.users[u].comments
    ensures c in s.users[u].comments && s.comments[c].user == Some(u) ==> r.comments[c].user == None
    ensures s.comments[c].user != Some(u) ==> r.comments == s.comments
    ensures r.users[u] == s.users[u].(comments := r.users[u].comments)
    ensures r.users == s.users[u := r.users[u]]
    ensures r.comments[c] == s.comments[c].(user := r.comments[c].user)
    ensures r.comments == s.comments[c := r.comments[c]]
    ensures r.tags == s.tags && r.works == s.works
    ensures Valid(s) ==> Valid(r)
  {
    var user := s.users[u];
    if c in user.comments then
      var x := user.(comments := RemoveFirst(user.comments, c));
      ValidAfterUserUpdate(s, u, x);
      var s1 := s.(users := s.users[u := x]);
      if s1.comments[c].user == Some(u) then
        var y := s1.comments[c].(user := None);
        ValidAfterCommentUpdate(s1, c, y);
        s1.(comments := s1.comments[c := y])
      else s1
    else s
  }
}
