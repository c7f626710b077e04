/**
 What the add/remove pairs do to the two sides of each association taken
 together: which operations keep the sides in step, which ones break that on
 purpose (the one-sided `Work::addTag` and `Tag::addUser`), round trips, and
 the state `User::removeWork`/`removeWorkComment` leave behind when they raise.
 */
module Associations {
  import opened Collection
  import opened Store
  import TagEntity
  import WorkEntity
  import UserEntity

  /** User–Tag: a user lists a tag exactly when the tag lists the user. */
  predicate UserTagSynced(s: Store) {
    forall u, t :: u in s.users && t in s.tags ==>
      (t in s.users[u].tags <==> u in s.tags[t].users)
  }

  /** Tag–Work: a tag lists a work exactly when the work lists the tag. */
  predicate TagWorkSynced(s: Store) {
    forall t, w :: t in s.tags && w in s.works ==>
      (w in s.tags[t].works <==> t in s.works[w].tags)
  }

  /** Every owned work is listed by its owner. */
  predicate OwnersListWorks(s: Store) {
    forall w :: w in s.works && s.works[w].user.Some? && s.works[w].user.value in s.users ==>
      w in s.users[s.works[w].user.value].works
  }

  /** Every authored comment is listed by its author. */
  predicate AuthorsListComments(s: Store) {
    forall c :: c in s.comments && s.comments[c].user.Some? && s.comments[c].user.value in s.users ==>
      c in s.users[s.comments[c].user.value].comments
  }

  /** Every comment attached to a work is listed by that work. */
  predicate WorksListComments(s: Store) {
    forall c :: c in s.comments && s.comments[c].work.Some? && s.comments[c].work.value in s.works ==>
      c in s.works[s.comments[c].work.value].comments
  }

  // ---------------------------------------------------------------- User–Tag

  /** `User::addTag` keeps the User–Tag sides in step. */
  lemma UserAddTagKeepsSync(s: Store, u: UserId, t: TagId)
    requires u in s.users && t in s.tags
    requires UserTagSynced(s)
    ensures UserTagSynced(UserEntity.AddTag(s, u, t))
  {
    var r := UserEntity.AddTag(s, u, t);
    forall u', t' | u' in r.users && t' in r.tags
      ensures t' in r.users[u'].tags <==> u' in r.tags[t'].users
    {
      assert u' in s.users && t' in s.tags;
      if u' == u && t' == t {
      } else if u' == u {
        assert t' in r.users[u].tags <==> t' in s.users[u].tags;
      } else if t' == t {
        assert u' in r.tags[t].users <==> u' in s.tags[t].users;
      }
    }
  }

  /** `User::removeTag` keeps the User–Tag sides in step. */
  lemma UserRemoveTagKeepsSync(s: Store, u: UserId, t: TagId)
    requires u in s.users && t in s.tags
    requires Valid(s) && UserTagSynced(s)
    ensures UserTagSynced(UserEntity.RemoveTag(s, u, t))
  {
    var r := UserEntity.RemoveTag(s, u, t);
    assert NoDup(s.users[u].tags) && NoDup(s.tags[t].users);
    forall u', t' | u' in r.users && t' in r.tags
      ensures t' in r.users[u'].tags <==> u' in r.tags[t'].users
    {
      assert u' in s.users && t' in s.tags;
      if t !in s.users[u].tags {
      } else if u' == u && t' == t {
      } else if u' == u {
        assert t' in r.users[u].tags <==> t' in s.users[u].tags;
      } else if t' == t {
        assert u' in r.tags[t].users <==> u' in s.tags[t].users;
      }
    }
  }

  /** `Tag::addUser` alone is one-sided: on a store in step, adding a user
      the tag does not list puts the two sides out of step. */
  lemma TagAddUserBreaksSync(s: Store, t: TagId, u: UserId)
    requires u in s.users && t in s.tags
    requires UserTagSynced(s) && u !in s.tags[t].users
    ensures !UserTagSynced(TagEntity.AddUser(s, t, u))
  {
    var r := TagEntity.AddUser(s, t, u);
    assert u in r.tags[t].users && t !in r.users[u].tags;
  }

  /** `Tag::removeUser` alone is one-sided too. */
  lemma TagRemoveUserBreaksSync(s: Store, t: TagId, u: UserId)
    requires u in s.users && t in s.tags
    requires Valid(s) && UserTagSynced(s) && u in s.tags[t].users
    ensures !UserTagSynced(TagEntity.RemoveUser(s, t, u))
  {
    var r := TagEntity.RemoveUser(s, t, u);
    assert NoDup(s.tags[t].users);
    assert u !in r.tags[t].users && t in r.users[u].tags;
  }

  /** Removing a freshly added tag restores the store exactly. */
  lemma UserAddTagRoundTrip(s: Store, u: UserId, t: TagId)
    requires u in s.users && t in s.tags
    requires t !in s.users[u].tags && u !in s.tags[t].users
    ensures UserEntity.RemoveTag(UserEntity.AddTag(s, u, t), u, t) == s
  {
    var a := UserEntity.AddTag(s, u, t);
    var r := UserEntity.RemoveTag(a, u, t);
    assert a.users[u].tags == s.users[u].tags + [t];
    assert a.tags[t].users == s.tags[t].users + [u];
    RemoveFirstUndoesAppend(s.users[u].tags, t);
    RemoveFirstUndoesAppend(s.tags[t].users, u);
    assert r.users[u] == s.users[u];
    assert r.tags[t] == s.tags[t];
    MapRestored(s.users, a.users, r.users, u);
    MapRestored(s.tags, a.tags, r.tags, t);
  }

  /** Removing a freshly added user from a tag restores the store exactly. */
  lemma TagAddUserRoundTrip(s: Store, t: TagId, u: UserId)
    requires u in s.users && t in s.tags && u !in s.tags[t].users
    ensures TagEntity.RemoveUser(TagEntity.AddUser(s, t, u), t, u) == s
  {
    var a := TagEntity.AddUser(s, t, u);
    assert a.tags[t].users == s.tags[t].users + [u];
    RemoveFirstUndoesAppend(s.tags[t].users, u);
    assert TagEntity.RemoveUser(a, t, u).tags[t] == s.tags[t];
  }

  // ---------------------------------------------------------------- Tag–Work

  /** `Tag::addWork` keeps the Tag–Work sides in step. */
  lemma TagAddWorkKeepsSync(s: Store, t: TagId, w: WorkId)
    requires t in s.tags && w in s.works
    requires TagWorkSynced(s)
    ensures TagWorkSynced(TagEntity.AddWork(s, t, w))
  {
    var r := TagEntity.AddWork(s, t, w);
    forall t', w' | t' in r.tags && w' in r.works
      ensures w' in r.tags[t'].works <==> t' in r.works[w'].tags
    {
      assert t' in s.tags && w' in s.works;
      if t' == t && w' == w {
      } else if t' == t {
        assert w' in r.tags[t].works <==> w' in s.tags[t].works;
      } else if w' == w {
        assert t' in r.works[w].tags <==> t' in s.works[w].tags;
      }
    }
  }

  /** `Tag::removeWork` keeps the Tag–Work sides in step. */
  lemma TagRemoveWorkKeepsSync(s: Store, t: TagId, w: WorkId)
    requires t in s.tags && w in s.works
    requires Valid(s) && TagWorkSynced(s)
    ensures TagWorkSynced(TagEntity.RemoveWork(s, t, w))
  {
    var r := TagEntity.RemoveWork(s, t, w);
    assert NoDup(s.tags[t].works) && NoDup(s.works[w].tags);
    forall t', w' | t' in r.tags && w' in r.works
      ensures w' in r.tags[t'].works <==> t' in r.works[w'].tags
    {
      assert t' in s.tags && w' in s.works;
      if w !in s.tags[t].works {
      } else if t' == t && w' == w {
      } else if t' == t {
        assert w' in r.tags[t].works <==> w' in s.tags[t].works;
      } else if w' == w {
        assert t' in r.works[w].tags <==> t' in s.works[w].tags;
      }
    }
  }

  /** `Work::addTag` alone is one-sided: on a store in step, adding a tag the
      work does not list puts the two sides out of step. */
  lemma WorkAddTagBreaksSync(s: Store, w: WorkId, t: TagId)
    requires t in s.tags && w in s.works
    requires TagWorkSynced(s) && t !in s.works[w].tags
    ensures !TagWorkSynced(WorkEntity.AddTag(s, w, t))
  {
    var r := WorkEntity.AddTag(s, w, t);
    assert t in r.works[w].tags && w !in r.tags[t].works;
  }

  /** `Work::removeTag` alone is one-sided too. */
  lemma WorkRemoveTagBreaksSync(s: Store, w: WorkId, t: TagId)
    requires t in s.tags && w in s.works
    requires Valid(s) && TagWorkSynced(s) && t in s.works[w].tags
    ensures !TagWorkSynced(WorkEntity.RemoveTag(s, w, t))
  {
    var r := WorkEntity.RemoveTag(s, w, t);
    assert NoDup(s.works[w].tags);
    assert t !in r.works[w].tags && w in r.tags[t].works;
  }

  /** Removing a freshly added work from a tag restores the store exactly. */
  lemma TagAddWorkRoundTrip(s: Store, t: TagId, w: WorkId)
    requires t in s.tags && w in s.works
    requires w !in s.tags[t].works && t !in s.works[w].tags
    ensures TagEntity.RemoveWork(TagEntity.AddWork(s, t, w), t, w) == s
  {
    var a := TagEntity.AddWork(s, t, w);
    var r := TagEntity.RemoveWork(a, t, w);
    assert a.tags[t].works == s.tags[t].works + [w];
    assert a.works[w].tags == s.works[w].tags + [t];
    RemoveFirstUndoesAppend(s.tags[t].works, w);
    RemoveFirstUndoesAppend(s.works[w].tags, t);
    assert r.tags[t] == s.tags[t];
    assert r.works[w] == s.works[w];
    MapRestored(s.tags, a.tags, r.tags, t);
    MapRestored(s.works, a.works, r.works, w);
  }

  /** Removing a freshly added tag from a work restores the store exactly. */
  lemma WorkAddTagRoundTrip(s: Store, w: WorkId, t: TagId)
    requires t in s.tags && w in s.works && t !in s.works[w].tags
    ensures WorkEntity.RemoveTag(WorkEntity.AddTag(s, w, t), w, t) == s
  {
    var a := WorkEntity.AddTag(s, w, t);
    assert a.works[w].tags == s.works[w].tags + [t];
    RemoveFirstUndoesAppend(s.works[w].tags, t);
    assert WorkEntity.RemoveTag(a, w, t).works[w] == s.works[w];
  }

  /** A second call of any of User's add operations changes nothing. */
  lemma UserAddsAreIdempotent(s: Store, u: UserId, t: TagId, w: WorkId, c: CommentId)
    requires u in s.users && t in s.tags && w in s.works && c in s.comments
    ensures UserEntity.AddTag(UserEntity.AddTag(s, u, t), u, t) == UserEntity.AddTag(s, u, t)
    ensures UserEntity.AddWork(UserEntity.AddWork(s, u, w), u, w) == UserEntity.AddWork(s, u, w)
    ensures UserEntity.AddWorkComment(UserEntity.AddWorkComment(s, u, c), u, c)
      == UserEntity.AddWorkComment(s, u, c)
  {
  }

  /** A second call of either of Tag's add operations changes nothing. */
  lemma TagAddsAreIdempotent(s: Store, t: TagId, u: UserId, w: WorkId)
    requires t in s.tags && u in s.users && w in s.works
    ensures TagEntity.AddUser(TagEntity.AddUser(s, t, u), t, u) == TagEntity.AddUser(s, t, u)
    ensures TagEntity.AddWork(TagEntity.AddWork(s, t, w), t, w) == TagEntity.AddWork(s, t, w)
  {
  }

  /** A second call of either of Work's add operations changes nothing. */
  lemma WorkAddsAreIdempotent(s: Store, w: WorkId, t: TagId, c: CommentId)
    requires w in s.works && t in s.tags && c in s.comments
    ensures WorkEntity.AddTag(WorkEntity.AddTag(s, w, t), w, t) == WorkEntity.AddTag(s, w, t)
    ensures WorkEntity.AddWorkComment(WorkEntity.AddWorkComment(s, w, c), w, c)
      == WorkEntity.AddWorkComment(s, w, c)
  {
  }

  // ------------------------------------------------------- Work–WorkComment

  /** `Work::addWorkComment` keeps every attached comment listed by its work. */
  lemma WorkAddWorkCommentKeepsListing(s: Store, w: WorkId, c: CommentId)
    requires w in s.works && c in s.comments
    requires WorksListComments(s)
    ensures WorksListComments(WorkEntity.AddWorkComment(s, w, c))
  {
    var r := WorkEntity.AddWorkComment(s, w, c);
    forall d | d in r.comments && r.comments[d].work.Some? && r.comments[d].work.value in r.works
      ensures d in r.works[r.comments[d].work.value].comments
    {
      var v := r.comments[d].work.value;
      assert d in s.comments && v in s.works;
      if c in s.works[w].comments {
      } else if d == c {
      } else if v == w {
        assert d in s.works[w].comments;
      } else {
        assert d in s.works[v].comments;
      }
    }
  }

  /** `Work::removeWorkComment` keeps every attached comment listed by its
      work, because it detaches the comment it unlists. */
  lemma WorkRemoveWorkCommentKeepsListing(s: Store, w: WorkId, c: CommentId)
    requires w in s.works && c in s.comments
    requires Valid(s) && WorksListComments(s)
    ensures WorksListComments(WorkEntity.RemoveWorkComment(s, w, c))
  {
    var r := WorkEntity.RemoveWorkComment(s, w, c);
    forall d | d in r.comments && r.comments[d].work.Some? && r.comments[d].work.value in r.works
      ensures d in r.works[r.comments[d].work.value].comments
    {
      var v := r.comments[d].work.value;
      assert d in s.comments && v in s.works;
      if c !in s.works[w].comments {
      } else if d == c {
        assert s.comments[c].work != Some(w);
        assert r.comments[c] == s.comments[c];
        assert v != w;
        assert c in s.works[v].comments;
      } else if v == w {
        assert r.comments[d] == s.comments[d];
        assert d in s.works[w].comments;
      } else {
        assert r.comments[d] == s.comments[d];
        assert d in s.works[v].comments;
      }
    }
  }

  /** Removing a freshly added, previously unattached comment restores the
      store exactly. */
  lemma WorkAddWorkCommentRoundTrip(s: Store, w: WorkId, c: CommentId)
    requires w in s.works && c in s.comments
    requires c !in s.works[w].comments && s.comments[c].work == None
    ensures WorkEntity.RemoveWorkComment(WorkEntity.AddWorkComment(s, w, c), w, c) == s
  {
    var a := WorkEntity.AddWorkComment(s, w, c);
    var r := WorkEntity.RemoveWorkComment(a, w, c);
    assert a.works[w].comments == s.works[w].comments + [c];
    RemoveFirstUndoesAppend(s.works[w].comments, c);
    assert r.works[w] == s.works[w];
    assert r.comments[c] == s.comments[c];
    MapRestored(s.works, a.works, r.works, w);
    MapRestored(s.comments, a.comments, r.comments, c);
  }

  // ------------------------------------------------------ User–Work owners

  /** `User::addWork` keeps every owned work listed by its owner. */
  lemma UserAddWorkKeepsListing(s: Store, u: UserId, w: WorkId)
    requires u in s.users && w in s.works
    requires OwnersListWorks(s)
    ensures OwnersListWorks(UserEntity.AddWork(s, u, w))
  {
    var r := UserEntity.AddWork(s, u, w);
    forall x | x in r.works && r.works[x].user.Some? && r.works[x].user.value in r.users
      ensures x in r.users[r.works[x].user.value].works
    {
      var v := r.works[x].user.value;
      assert x in s.works && v in s.users;
      if w in s.users[u].works {
      } else if x == w {
      } else if v == u {
        assert x in s.users[u].works;
      } else {
        assert x in s.users[v].works;
      }
    }
  }

  /** When `User::removeWork` returns normally, every owned work is still
      listed by its owner: the work it unlisted belongs to somebody else. */
  lemma UserRemoveWorkReturnedKeepsListing(s: Store, u: UserId, w: WorkId)
    requires u in s.users && w in s.works
    requires Valid(s) && OwnersListWorks(s)
    requires w !in s.users[u].works || s.works[w].user != Some(u)
    ensures UserEntity.RemoveWork(s, u, w).Returned?
    ensures OwnersListWorks(UserEntity.RemoveWork(s, u, w).store)
  {
    var r := UserEntity.RemoveWork(s, u, w).store;
    forall x | x in r.works && r.works[x].user.Some? && r.works[x].user.value in r.users
      ensures x in r.users[r.works[x].user.value].works
    {
      var v := r.works[x].user.value;
      assert x in s.works && v in s.users && r.works[x] == s.works[x];
      if w !in s.users[u].works {
      } else if v == u {
        assert x != w;
        assert x in s.users[u].works;
      } else {
        assert x in s.users[v].works;
      }
    }
  }

  /** The state a raising `User::removeWork` leaves behind: the work is gone
      from its owner's list while it still names that owner. */
  lemma UserRemoveWorkRaisedBreaksListing(s: Store, u: UserId, w: WorkId)
    requires u in s.users && w in s.works
    requires Valid(s)
    requires UserEntity.RemoveWork(s, u, w).TypeError?
    ensures !OwnersListWorks(UserEntity.RemoveWork(s, u, w).store)
  {
    var r := UserEntity.RemoveWork(s, u, w).store;
    assert NoDup(s.users[u].works);
    assert r.works[w].user == Some(u) && w !in r.users[u].works;
  }

  /** Removing a work just added to a user always raises as written: after
      `addWork` the work is owned by that user, so `removeWork` reaches
      `setUser(null)`. */
  lemma UserAddWorkThenRemoveWorkRaises(s: Store, u: UserId, w: WorkId)
    requires u in s.users && w in s.works && w !in s.users[u].works
    ensures UserEntity.RemoveWork(UserEntity.AddWork(s, u, w), u, w).TypeError?
  {
  }

  /** With a null-accepting owner setter the same sequence is an exact round
      trip for a work that had no owner. */
  lemma UserAddWorkThenRemoveWorkIntendedRoundTrip(s: Store, u: UserId, w: WorkId)
    requires u in s.users && w in s.works
    requires w !in s.users[u].works && s.works[w].user == None
    ensures UserEntity.RemoveWorkIntended(UserEntity.AddWork(s, u, w), u, w) == s
  {
    var a := UserEntity.AddWork(s, u, w);
    var r := UserEntity.RemoveWorkIntended(a, u, w);
    assert a.users[u].works == s.users[u].works + [w];
    RemoveFirstUndoesAppend(s.users[u].works, w);
    assert r.users[u] == s.users[u];
    assert r.works[w] == s.works[w];
    MapRestored(s.users, a.users, r.users, u);
    MapRestored(s.works, a.works, r.works, w);
  }

  /** The null-accepting variant keeps every owned work listed by its owner. */
  lemma UserRemoveWorkIntendedKeepsListing(s: Store, u: UserId, w: WorkId)
    requires u in s.users && w in s.works
    requires Valid(s) && OwnersListWorks(s)
    ensures OwnersListWorks(UserEntity.RemoveWorkIntended(s, u, w))
  {
    var r := UserEntity.RemoveWorkIntended(s, u, w);
    forall x | x in r.works && r.works[x].user.Some? && r.works[x].user.value in r.users
      ensures x in r.users[r.works[x].user.value].works
    {
      var v := r.works[x].user.value;
      assert x in s.works && v in s.users;
      if w !in s.users[u].works {
      } else if x == w {
        assert v != u;
        assert r.works[w] == s.works[w];
        assert w in s.users[v].works;
      } else if v == u {
        assert r.works[x] == s.works[x];
        assert x in s.users[u].works;
      } else {
        assert r.works[x] == s.works[x];
        assert x in s.users[v].works;
      }
    }
  }

  // -------------------------------------------------- User–WorkComment authors

  /** `User::addWorkComment` keeps every authored comment listed by its author. */
  lemma UserAddWorkCommentKeepsListing(s: Store, u: UserId, c: CommentId)
    requires u in s.users && c in s.comments
    requires AuthorsListComments(s)
    ensures AuthorsListComments(UserEntity.AddWorkComment(s, u, c))
  {
    var r := UserEntity.AddWorkComment(s, u, c);
    forall d | d in r.comments && r.comments[d].user.Some? && r.comments[d].user.value in r.users
      ensures d in r.users[r.comments[d].user.value].comments
    {
      var v := r.comments[d].user.value;
      assert d in s.comments && v in s.users;
      if c in s.users[u].comments {
      } else if d == c {
      } else if v == u {
        assert d in s.users[u].comments;
      } else {
        assert d in s.users[v].comments;
      }
    }
  }

  /** The state a raising `User::removeWorkComment` leaves behind: the comment
      is gone from its author's list while it still names that author. */
  lemma UserRemoveWorkCommentRaisedBreaksListing(s: Store, u: UserId, c: CommentId)
    requires u in s.users && c in s.comments
    requires Valid(s)
    requires UserEntity.RemoveWorkComment(s, u, c).TypeError?
    ensures !AuthorsListComments(UserEntity.RemoveWorkComment(s, u, c).store)
  {
    var r := UserEntity.RemoveWorkComment(s, u, c).store;
    assert NoDup(s.users[u].comments);
    assert r.comments[c].user == Some(u) && c !in r.users[u].comments;
  }

  /** When `User::removeWorkComment` returns normally, every authored comment
      is still listed by its author: the comment it unlisted was written by
      somebody else. */
  lemma UserRemoveWorkCommentReturnedKeepsListing(s: Store, u: UserId, c: CommentId)
    requires u in s.users && c in s.comments
    requires Valid(s) && AuthorsListComments(s)
    requires c !in s.users[u].comments || s.comments[c].user != Some(u)
    ensures UserEntity.RemoveWorkComment(s, u, c).Returned?
    ensures AuthorsListComments(UserEntity.RemoveWorkComment(s, u, c).store)
  {
    var r := UserEntity.RemoveWorkComment(s, u, c).store;
    forall d | d in r.comments && r.comments[d].user.Some? && r.comments[d].user.value in r.users
      ensures d in r.users[r.comments[d].user.value].comments
    {
      var v := r.comments[d].user.value;
      assert d in s.comments && v in s.users && r.comments[d] == s.comments[d];
      if c !in s.users[u].comments {
      } else if v == u {
        assert d != c;
        assert d in s.users[u].comments;
      } else {
        assert d in s.users[v].comments;
      }
    }
  }

  /** The null-accepting variant keeps every authored comment listed by its
      author. */
  lemma UserRemoveWorkCommentIntendedKeepsListing(s: Store, u: UserId, c: CommentId)
    requires u in s.users && c in s.comments
    requires Valid(s) && AuthorsListComments(s)
    ensures AuthorsListComments(UserEntity.RemoveWorkCommentIntended(s, u, c))
  {
    var r := UserEntity.RemoveWorkCommentIntended(s, u, c);
    forall d | d in r.comments && r.comments[d].user.Some? && r.comments[d].user.value in r.users
      ensures d in r.users[r.comments[d].user.value].comments
    {
      var v := r.comments[d].user.value;
      assert d in s.comments && v in s.users;
      if c !in s.users[u].comments {
      } else if d == c {
        assert v != u;
        assert r.comments[c] == s.comments[c];
        assert c in s.users[v].comments;
      } else if v == u {
        assert r.comments[d] == s.comments[d];
        assert d in s.users[u].comments;
      } else {
        assert r.comments[d] == s.comments[d];
        assert d in s.users[v].comments;
      }
    }
  }

  /** Removing a comment just added to a user always raises as written. */
  lemma UserAddWorkCommentThenRemoveRaises(s: Store, u: UserId, c: CommentId)
    requires u in s.users && c in s.comments && c !in s.users[u].comments
    ensures UserEntity.RemoveWorkComment(UserEntity.AddWorkComment(s, u, c), u, c).TypeError?
  {
  }

  /** With a null-accepting author setter the same sequence is an exact round
      trip for a comment that had no author. */
  lemma UserAddWorkCommentThenRemoveIntendedRoundTrip(s: Store, u: UserId, c: CommentId)
    requires u in s.users && c in s.comments
    requires c !in s.users[u].comments && s.comments[c].user == None
    ensures UserEntity.RemoveWorkCommentIntended(UserEntity.AddWorkComment(s, u, c), u, c) == s
  {
    var a := UserEntity.AddWorkComment(s, u, c);
    var r := UserEntity.RemoveWorkCommentIntended(a, u, c);
    assert a.users[u].comments == s.users[u].comments + [c];
    RemoveFirstUndoesAppend(s.users[u].comments, c);
    assert r.users[u] == s.users[u];
    assert r.comments[c] == s.comments[c];
    MapRestored(s.users, a.users, r.users, u);
    MapRestored(s.comments, a.comments, r.comments, c);
  }
}
