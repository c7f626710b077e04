/**
 Tag's side of its two many-to-many associations. `addUser`/`removeUser`
 touch only the tag's own list; `addWork`/`removeWork` also update the
 work's list of tags; `setUser` is an unimplemented stub.
 */
module TagEntity {
  import opened Collection
  import opened Store
  import WorkEntity

  /** `Tag::addUser`: appends the user unless already listed. The user's own
      list of tags is left alone, and so is every other object. */
  function AddUser(s: Store, t: TagId, u: UserId): (r: Store)
    requires t in s.tags && u in s.users
    ensures t in r.tags && u in r.tags[t].users
    ensures u in s.tags[t].users ==> r == s
    ensures u !in s.tags[t].users ==>
      r.tags[t].users == s.tags[t].users + [u]
    ensures r.tags[t] == s.tags[t].(users := r.tags[t].users)
    ensures r.tags == s.tags[t := r.tags[t]]
    ensures r.users == s.users && r.works == s.works && r.comments == s.comments
    ensures Valid(s) ==> Valid(r)
  {
    var tag := s.tags[t];
    if u !in tag.users then
      var x := tag.(users := AddIfAbsent(tag.users, u));
      ValidAfterTagUpdate(s, t, x);
      s.(tags := s.tags[t := x])
    else s
  }

  /** `Tag::setUser`: the body is empty, so the store is left exactly as it was. */
  function SetUser(s: Store, t: TagId, u: UserId): (r: Store)
    ensures r == s
  {
    s
  }

  /** `Tag::removeUser`: drops the user's first occurrence from the tag's list
      only; an absent user changes nothing. */
  function RemoveUser(s: Store, t: TagId, u: UserId): (r: Store)
    requires t in s.tags
    ensures t in r.tags
    ensures u !in s.tags[t].users ==> r == s
    ensures r.tags[t].users == RemoveFirst(s.tags[t].users, u)
    ensures NoDup(s.tags[t].users) ==> u !in r.tags[t].users
    ensures r.tags[t] == s.tags[t].(users := r.tags[t].users)
    ensures r.tags == s.tags[t := r.tags[t]]
    ensures r.users == s.users && r.works == s.works && r.comments == s.comments
    ensures Valid(s) ==> Valid(r)
  {
    var tag := s.tags[t];
    if u in tag.users then
      var x := tag.(users := RemoveFirst(tag.users, u));
      ValidAfterTagUpdate(s, t, x);
      s.(tags := s.tags[t := x])
    else s
  }

  /** `Tag::addWork`: a work not yet listed is appended here and the tag is
      added to the work through `Work::addTag`; a listed work changes nothing. */
  function AddWork(s: Store, t: TagId, w: WorkId): (r: Store)
    requires t in s.tags && w in s.works
    ensures t in r.tags && w in r.works
    ensures w in r.tags[t].works
    ensures w !in s.tags[t].works ==> t in r.works[w].tags
    ensures w in s.tags[t].works ==> r == s
    ensures w !in s.tags[t].works ==>
      && r.tags[t].works == s.tags[t].works + [w]
      && r.works[w].tags == AddIfAbsent(s.works[w].tags, t)
    ensures r.tags[t] == s.tags[t].(works := r.tags[t].works)
    ensures r.tags == s.tags[t := r.tags[t]]
    ensures r.works[w] == s.works[w].(tags := r.works[w].tags)
    ensures r.works == s.works[w := r.works[w]]
    ensures r.users == s.users && r.comments == s.comments
    ensures Valid(s) ==> Valid(r)
  {
    var tag := s.tags[t];
    if w !in tag.works then
      var x := tag.(works := AddIfAbsent(tag.works, w));
      ValidAfterTagUpdate(s, t, x);
      WorkEntity.AddTag(s.(tags := s.tags[t := x]), w, t)
    else s
  }

  /** `Tag::removeWork`: when the work was listed, its first occurrence is
      dropped here and the tag is removed from the work through
      `Work::removeTag`; otherwise nothing changes. */
  function RemoveWork(s: Store, t: TagId, w: WorkId): (r: Store)
    requires t in s.tags && w in s.works
    ensures t in r.tags && w in r.works
    ensures w !in s.tags[t].works ==> r == s
    ensures r.tags[t].works == RemoveFirst(s.tags[t].works, w)
    ensures NoDup(s.tags[t].works) ==> w !in r.tags[t].works
    ensures w in s.tags[t].works ==> r.works[w].tags == RemoveFirst(s.works[w].tags, t)
    ensures w in s.tags[t].works && NoDup(s.works[w].tags) ==> t !in r.works[w].tags
    ensures r.tags[t] == s.tags[t].(works := r.tags[t].works)
    ensures r.tags == s.tags[t := r.tags[t]]
    ensures r.works[w] == s.works[w].(tags := r.works[w].tags)
    ensures r.works == s.works[w := r.works[w]]
    ensures r.users == s.users && r.comments == s.comments
    ensures Valid(s) ==> Valid(r)
  {
    var tag := s.tags[t];
    if w in tag.works then
      var x := tag.(works := RemoveFirst(tag.works, w));
      ValidAfterTagUpdate(s, t, x);
      WorkEntity.RemoveTag(s.(tags := s.tags[t := x]), w, t)
    else s
  }
}
