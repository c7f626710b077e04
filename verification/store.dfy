/**
 The four entities (User, Tag, Work, WorkComment) and the object graph they
 form in memory. PHP object identity (`===`, and Doctrine's `contains`) is
 modelled by ids: two references denote the same object exactly when they
 carry the same id, so an association is an ordered list of ids and an owner
 reference is an optional id.
 */
module Store {
  import opened Collection

  datatype Option<+T> = None | Some(value: T)

  newtype UserId = n: int | 0 <= n
  newtype TagId = n: int | 0 <= n
  newtype WorkId = n: int | 0 <= n
  newtype CommentId = n: int | 0 <= n

  /** A User: its stored role list, its soft-delete flag and the inverse sides
      of its three associations. */
  datatype User = User(
    roles: seq<string>,
    isDeleted: bool,
    tags: seq<TagId>,
    works: seq<WorkId>,
    comments: seq<CommentId>)

  /** A Tag: the owning side of the User–Tag association and the inverse side
      of the Work–Tag association. */
  datatype Tag = Tag(users: seq<UserId>, works: seq<WorkId>, isDeleted: bool)

  /** A Work: its tags (owning side), its owner and its comments. */
  datatype Work = Work(
    tags: seq<TagId>,
    user: Option<UserId>,
    comments: seq<CommentId>,
    isDeleted: bool)

  /** A WorkComment: the work it belongs to and its author. */
  datatype WorkComment = WorkComment(work: Option<WorkId>, user: Option<UserId>, isDeleted: bool)

  /** Every live object of the four classes, by id. */
  datatype Store = Store(
    users: map<UserId, User>,
    tags: map<TagId, Tag>,
    works: map<WorkId, Work>,
    comments: map<CommentId, WorkComment>)

  /** What a call that may raise leaves behind. PHP does not roll back: when a
      TypeError is raised, `store` holds every change made before the raise. */
  datatype Outcome = Returned(store: Store) | TypeError(store: Store)

  /** The state of a freshly constructed object of each class. */
  const NewUser: User := User([], false, [], [], [])
  const NewTag: Tag := Tag([], [], false)
  const NewWork: Work := Work([], None, [], false)
  const NewWorkComment: WorkComment := WorkComment(None, None, false)

  /** An optional reference is null or points at an object that exists. */
  predicate Refers<K, V>(o: Option<K>, m: map<K, V>) {
    o.Some? ==> o.value in m
  }

  predicate UserValid(s: Store, u: User) {
    && NoDup(u.tags) && NoDup(u.works) && NoDup(u.comments)
    && (forall t :: t in u.tags ==> t in s.tags)
    && (forall w :: w in u.works ==> w in s.works)
    && (forall c :: c in u.comments ==> c in s.comments)
  }

  predicate TagValid(s: Store, t: Tag) {
    && NoDup(t.users) && NoDup(t.works)
    && (forall u :: u in t.users ==> u in s.users)
    && (forall w :: w in t.works ==> w in s.works)
  }

  predicate WorkValid(s: Store, w: Work) {
    && NoDup(w.tags) && NoDup(w.comments)
    && Refers(w.user, s.users)
    && (forall t :: t in w.tags ==> t in s.tags)
    && (forall c :: c in w.comments ==> c in s.comments)
  }

  predicate CommentValid(s: Store, c: WorkComment) {
    Refers(c.work, s.works) && Refers(c.user, s.users)
  }

  /** The shape every reachable store has: each collection is duplicate-free
      (the entities only ever append after a `contains` check) and every
      reference points at an existing object. */
  predicate Valid(s: Store) {
    && (forall u :: u in s.users ==> UserValid(s, s.users[u]))
    && (forall t :: t in s.tags ==> TagValid(s, s.tags[t]))
    && (forall w :: w in s.works ==> WorkValid(s, s.works[w]))
    && (forall c :: c in s.comments ==> CommentValid(s, s.comments[c]))
  }

  /** Replacing the record of an existing user by a well-formed one keeps the
      store valid: no key set changes, so no other reference is affected. */
  lemma ValidAfterUserUpdate(s: Store, id: UserId, x: User)
    requires id in s.users
    ensures Valid(s) && UserValid(s, x) ==> Valid(s.(users := s.users[id := x]))
  {
    var r := s.(users := s.users[id := x]);
    if Valid(s) && UserValid(s, x) {
      forall u | u in r.users ensures UserValid(r, r.users[u]) {
        assert UserValid(s, r.users[u]);
      }
      forall t | t in r.tags ensures TagValid(r, r.tags[t]) {
        assert TagValid(s, r.tags[t]);
      }
      forall w | w in r.works ensures WorkValid(r, r.works[w]) {
        assert WorkValid(s, r.works[w]);
      }
      forall c | c in r.comments ensures CommentValid(r, r.comments[c]) {
        assert CommentValid(s, r.comments[c]);
      }
    }
  }

  /** As ValidAfterUserUpdate, for a tag. */
  lemma ValidAfterTagUpdate(s: Store, id: TagId, x: Tag)
    requires id in s.tags
    ensures Valid(s) && TagValid(s, x) ==> Valid(s.(tags := s.tags[id := x]))
  {
    var r := s.(tags := s.tags[id := x]);
    if Valid(s) && TagValid(s, x) {
      forall u | u in r.users ensures UserValid(r, r.users[u]) {
        assert UserValid(s, r.users[u]);
      }
      forall t | t in r.tags ensures TagValid(r, r.tags[t]) {
        assert TagValid(s, r.tags[t]);
      }
      forall w | w in r.works ensures WorkValid(r, r.works[w]) {
        assert WorkValid(s, r.works[w]);
      }
      forall c | c in r.comments ensures CommentValid(r, r.comments[c]) {
        assert CommentValid(s, r.comments[c]);
      }
    }
  }

  /** As ValidAfterUserUpdate, for a work. */
  lemma ValidAfterWorkUpdate(s: Store, id: WorkId, x: Work)
    requires id in s.works
    ensures Valid(s) && WorkValid(s, x) ==> Valid(s.(works := s.works[id := x]))
  {
    var r := s.(works := s.works[id := x]);
    if Valid(s) && WorkValid(s, x) {
      forall u | u in r.users ensures UserValid(r, r.users[u]) {
        assert UserValid(s, r.users[u]);
      }
      forall t | t in r.tags ensures TagValid(r, r.tags[t]) {
        assert TagValid(s, r.tags[t]);
      }
      forall w | w in r.works ensures WorkValid(r, r.works[w]) {
        assert WorkValid(s, r.works[w]);
      }
      forall c | c in r.comments ensures CommentValid(r, r.comments[c]) {
        assert CommentValid(s, r.comments[c]);
      }
    }
  }

  /** As ValidAfterUserUpdate, for a comment. */
  lemma ValidAfterCommentUpdate(s: Store, id: CommentId, x: WorkComment)
    requires id in s.comments
    ensures Valid(s) && CommentValid(s, x) ==> Valid(s.(comments := s.comments[id := x]))
  {
    var r := s.(comments := s.comments[id := x]);
    if Valid(s) && CommentValid(s, x) {
      forall u | u in r.users ensures UserValid(r, r.users[u]) {
        assert UserValid(s, r.users[u]);
      }
      forall t | t in r.tags ensures TagValid(r, r.tags[t]) {
        assert TagValid(s, r.tags[t]);
      }
      forall w | w in r.works ensures WorkValid(r, r.works[w]) {
        assert WorkValid(s, r.works[w]);
      }
      forall c | c in r.comments ensures CommentValid(r, r.comments[c]) {
        assert CommentValid(s, r.comments[c]);
      }
    }
  }

  /** Two single-key updates at the same key that end with the original value
      give back the original map. */
  lemma MapRestored<K, V>(m0: map<K, V>, m1: map<K, V>, m2: map<K, V>, k: K)
    requires k in m0
    requires k in m1 && k in m2
    requires m1 == m0[k := m1[k]] && m2 == m1[k := m2[k]] && m2[k] == m0[k]
    ensures m2 == m0
  {
  }

  /** `new User()`: no roles, not deleted, no tags, works or comments. */
  function CreateUser(s: Store, id: UserId): (r: Store)
    requires id !in s.users
    ensures id in r.users && r.users[id].roles == [] && !r.users[id].isDeleted
    ensures r.users[id].tags == [] && r.users[id].works == [] && r.users[id].comments == []
    ensures forall u :: u in s.users ==> u in r.users && r.users[u] == s.users[u]
    ensures r.users.Keys == s.users.Keys + {id}
    ensures r.tags == s.tags && r.works == s.works && r.comments == s.comments
    ensures Valid(s) ==> Valid(r)
  {
    s.(users := s.users[id := NewUser])
  }

  /** `new Tag()`: not deleted, no users, no works. */
  function CreateTag(s: Store, id: TagId): (r: Store)
    requires id !in s.tags
    ensures id in r.tags && !r.tags[id].isDeleted
    ensures r.tags[id].users == [] && r.tags[id].works == []
    ensures forall t :: t in s.tags ==> t in r.tags && r.tags[t] == s.tags[t]
    ensures r.tags.Keys == s.tags.Keys + {id}
    ensures r.users == s.users && r.works == s.works && r.comments == s.comments
    ensures Valid(s) ==> Valid(r)
  {
    s.(tags := s.tags[id := NewTag])
  }

  /** `new Work()`: not deleted, no tags, no comments, no owner yet. */
  function CreateWork(s: Store, id: WorkId): (r: Store)
    requires id !in s.works
    ensures id in r.works && !r.works[id].isDeleted && r.works[id].user == None
    ensures r.works[id].tags == [] && r.works[id].comments == []
    ensures forall w :: w in s.works ==> w in r.works && r.works[w] == s.works[w]
    ensures r.works.Keys == s.works.Keys + {id}
    ensures r.users == s.users && r.tags == s.tags && r.comments == s.comments
    ensures Valid(s) ==> Valid(r)
  {
    s.(works := s.works[id := NewWork])
  }

  /** A WorkComment has no constructor: not deleted, no work, no author. */
  function CreateWorkComment(s: Store, id: CommentId): (r: Store)
    requires id !in s.comments
    ensures id in r.comments && !r.comments[id].isDeleted
    ensures r.comments[id].work == None && r.comments[id].user == None
    ensures forall c :: c in s.comments ==> c in r.comments && r.comments[c] == s.comments[c]
    ensures r.comments.Keys == s.comments.Keys + {id}
    ensures r.users == s.users && r.tags == s.tags && r.works == s.works
    ensures Valid(s) ==> Valid(r)
  {
    s.(comments := s.comments[id := NewWorkComment])
  }
}
