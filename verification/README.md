# itfl.uz entities — a Dafny model of the role list and the association bookkeeping

The backend's four Doctrine entities (User, Tag, Work, WorkComment) are mostly
declarative metadata. Two small pieces of real logic sit among those
annotations, and this project models both:

* **The user's role list.** `getRoles` appends the base role `ROLE_USER` to
  the stored roles and passes the result through `array_unique`. `setRoles`
  replaces the stored list. `addRole` is an append guarded by a strict
  `in_array`. `deleteRole` unsets every occurrence of a role.
* **The bidirectional association bookkeeping.** These are the
  `add*`/`remove*` pairs that keep both sides of User–Tag, Tag–Work,
  User–Work, User–WorkComment and Work–WorkComment in step. Some pairs keep
  both sides in step and some do not.

The object graph is an immutable `Store`: one map from id to record per entity
class. PHP object identity (`===`, Doctrine's `contains`) becomes id equality.
A collection is an ordered list of ids and an owner reference is an optional
id. Each entity method is a pure function from store to store. Four members
can raise, and they return an `Outcome`. Two are the non-nullable owner
setters `Work::setUser` and `WorkComment::setUser`. The other two,
`User::removeWork` and `User::removeWorkComment`, propagate the TypeError
raised when they pass null to those setters. An `Outcome` is either `Returned(store)` or
`TypeError(store)`. PHP does not roll back, so the store inside a
`TypeError` already holds the changes made before the raise.

Doctrine's `ArrayCollection` is modelled in `collection.dfy`:

* `contains` is list membership.
* `$c[] = x` is an append.
* `removeElement` is a strict `array_search` followed by `unset`, so it drops
  the first occurrence only.

`array_unique` keeps the first occurrence of each value, in the order those
first occurrences appear.

Files:

* `collection.dfy`: list helpers.
* `store.dfy`: entities, store, well-formedness and constructors.
* `roles.dfy`: the role list.
* `work_comment.dfy`, `work.dfy`, `tag.dfy`, `user.dfy`: one module per entity
  class.
* `associations.dfy`: properties that span several operations.

`Valid` is the well-formedness predicate. It says every collection is
duplicate-free and every reference points at an existing object. Every
operation preserves it.

The code's deliberate asymmetries are modelled as written:

* `Tag::addWork` updates the work's list of tags, but `Work::addTag` does not
  touch the tag's list of works.
* `User::addTag` updates the tag's list of users, but `Tag::addUser` does not
  touch the user's list of tags.

The bookkeeping is therefore not symmetric. This model follows the code, and
`Associations.WorkAddTagBreaksSync` and `Associations.TagAddUserBreaksSync`
prove the difference.

## Model

| member | source | states |
|---|---|---|
| `Collection.Unique` | src/Entity/User.php:236 | `array_unique`: the result is duplicate-free and holds exactly the values of its input |
| `Collection.UniqueKeepsFirstOccurrenceOrder` | src/Entity/User.php:236 | `array_unique` lists values in the order of their first occurrence in the input |
| `Collection.RemoveAll` | src/Entity/User.php:257-264 | the `deleteRole` loop: no occurrence of the role remains, every other role keeps its multiplicity, and an absent role leaves the list unchanged |
| `Collection.RemoveAllDistributes` | src/Entity/User.php:259-264 | the loop removes element by element: it commutes with concatenation, so the roles it keeps stay in their original order |
| `Collection.AddIfAbsent` | src/Entity/Work.php:145-147 | the `contains` guard and append: the element ends up present; a present element changes nothing; otherwise the old list is kept as a prefix and the element is appended; duplicate-freedom is kept |
| `Collection.RemoveFirst` | src/Entity/Work.php:154 | `removeElement`: an absent element changes nothing; otherwise the list loses exactly one copy of it; on a duplicate-free list the element is gone and every other element stays; which copy leaves, and that the order is kept, is stated by `Collection.RemoveFirstSplit` |
| `Collection.RemoveFirstSplit` | src/Entity/Work.php:154 | `removeElement` drops exactly the first occurrence: the elements before it and after it stay, in order, even when the element occurs again later |
| `Collection.RemoveFirstUndoesAppend` | src/Entity/Work.php:143-157 | removing an element that was just appended to a list that lacked it gives back the original list |
| `Roles.GetRoles` | src/Entity/User.php:231-237 | the reported roles always contain ROLE_USER, have no duplicates, and are exactly the stored roles plus ROLE_USER; the stored list is untouched |
| `Roles.GetRolesOrder` | src/Entity/User.php:233-236 | reported roles appear in the order of their first occurrence in the stored list followed by ROLE_USER |
| `Roles.GetRolesOfCleanList` | src/Entity/User.php:233-236 | a duplicate-free stored list without ROLE_USER is reported as is, with ROLE_USER last |
| `Roles.SetRoles` | src/Entity/User.php:239-244 | the stored list becomes the given one and no other field of the user changes |
| `Roles.AddRole` | src/Entity/User.php:246-253 | the role ends up stored; when already stored nothing changes; otherwise the old list is kept as a prefix and grows by one |
| `Roles.AddRoleIdempotent` | src/Entity/User.php:246-253 | adding a role twice equals adding it once |
| `Roles.AddRoleKeepsNoDup` | src/Entity/User.php:246-253 | `addRole` keeps a duplicate-free stored list duplicate-free |
| `Roles.DeleteRole` | src/Entity/User.php:255-267 | no occurrence of the role remains, the others keep their multiplicity, and an absent role changes nothing |
| `Roles.DeleteRoleAfterAddRole` | src/Entity/User.php:246-267 | deleting after adding equals deleting, and it is an exact undo for a role that was not stored |
| `Roles.AddRoleAfterDeleteRole` | src/Entity/User.php:246-267 | deleting then re-adding a role moves it to the end of the stored list |
| `Roles.DeleteRoleUserStillReported` | src/Entity/User.php:231-267 | after `deleteRole('ROLE_USER')`, `getRoles` still reports ROLE_USER, now after every other role |
| `Store.CreateUser` | src/Entity/User.php:155-212 | a new user has no roles, is not deleted and has empty tag, work and comment lists; exactly one user is added, existing objects are unchanged and validity is kept |
| `Store.CreateTag` | src/Entity/Tag.php:63-93 | a new tag is not deleted and has empty user and work lists; exactly one tag is added, existing objects are unchanged and validity is kept |
| `Store.CreateWork` | src/Entity/Work.php:61-104 | a new work is not deleted, has no owner and has empty tag and comment lists; exactly one work is added, existing objects are unchanged and validity is kept |
| `Store.CreateWorkComment` | src/Entity/WorkComment.php:52-83 | a new comment is not deleted and has neither work nor author; exactly one comment is added, existing objects are unchanged and validity is kept |
| `WorkCommentEntity.SetWork` | src/Entity/WorkComment.php:95-100 | the comment's work becomes the given one, which may be null, and nothing else changes |
| `WorkCommentEntity.SetWorkLastWins` | src/Entity/WorkComment.php:95-100 | only the last `setWork` is observable |
| `WorkCommentEntity.SetUser` | src/Entity/WorkComment.php:119-124 | null raises a TypeError with the store unchanged; otherwise the author becomes the given user and nothing else changes |
| `WorkEntity.AddTag` | src/Entity/Work.php:143-150 | the tag ends up listed; an already listed tag changes nothing; otherwise it is appended; the tag's list of works is not touched |
| `WorkEntity.RemoveTag` | src/Entity/Work.php:152-157 | the work's list loses the tag's first occurrence; an absent tag changes nothing; no other object changes |
| `WorkEntity.SetUser` | src/Entity/Work.php:176-181 | null raises a TypeError with the store unchanged; otherwise the owner becomes the given user and no other field changes |
| `WorkEntity.SetUserLastWins` | src/Entity/Work.php:176-181 | only the last successful `setUser` is observable |
| `WorkEntity.AddWorkComment` | src/Entity/Work.php:227-235 | a new comment is appended and its work set to this work; a listed comment changes nothing |
| `WorkEntity.RemoveWorkComment` | src/Entity/Work.php:237-247 | a listed comment leaves the list, and its work is cleared only if it still points here; an unlisted one changes nothing |
| `TagEntity.AddUser` | src/Entity/Tag.php:120-127 | the user ends up listed, appended only if absent; the user's list of tags is not touched |
| `TagEntity.SetUser` | src/Entity/Tag.php:129-132 | the stub leaves the store exactly as it was |
| `TagEntity.RemoveUser` | src/Entity/Tag.php:134-139 | the tag's list loses the user's first occurrence; an absent user changes nothing; no other object changes |
| `TagEntity.AddWork` | src/Entity/Tag.php:185-193 | a new work is appended here and the tag is added to the work; a listed work changes nothing |
| `TagEntity.RemoveWork` | src/Entity/Tag.php:195-202 | a listed work leaves this list and the tag leaves the work's list; an unlisted work changes nothing |
| `UserEntity.SetIsDeleted` | src/Entity/User.php:325-330 | the soft-delete flag takes the given value and nothing else changes |
| `UserEntity.AddTag` | src/Entity/User.php:340-348 | a new tag is appended here and the user is added to the tag's list; a listed tag changes nothing |
| `UserEntity.RemoveTag` | src/Entity/User.php:350-357 | a listed tag leaves this list and the user leaves the tag's list; an unlisted tag changes nothing |
| `UserEntity.AddWork` | src/Entity/User.php:391-399 | a new work is appended and owned by this user; a listed work changes nothing even when owned by someone else |
| `UserEntity.RemoveWork` | src/Entity/User.php:401-411 | raises exactly when the work was listed and is still owned by this user; the list has already changed when it raises; the owner is never changed |
| `UserEntity.RemoveWorkIntended` | src/Entity/User.php:401-411 | the corrected behaviour: the work leaves the list and, if still owned by this user, is left without an owner |
| `UserEntity.AddWorkComment` | src/Entity/User.php:421-429 | a new comment is appended and authored by this user; a listed comment changes nothing |
| `UserEntity.RemoveWorkComment` | src/Entity/User.php:431-441 | raises exactly when the comment was listed and this user is still its author; the list has already changed when it raises |
| `UserEntity.RemoveWorkCommentIntended` | src/Entity/User.php:431-441 | the corrected behaviour: the comment leaves the list and, if still authored by this user, is left without an author |
| `Associations.UserAddTagKeepsSync` | src/Entity/User.php:340-348 | `User::addTag` keeps "user lists tag iff tag lists user" |
| `Associations.UserRemoveTagKeepsSync` | src/Entity/User.php:350-357 | `User::removeTag` keeps the User–Tag sides in step on a valid store |
| `Associations.TagAddUserBreaksSync` | src/Entity/Tag.php:120-127 | `Tag::addUser` alone puts in-step User–Tag sides out of step |
| `Associations.TagRemoveUserBreaksSync` | src/Entity/Tag.php:134-139 | `Tag::removeUser` alone puts in-step User–Tag sides out of step |
| `Associations.UserAddTagRoundTrip` | src/Entity/User.php:340-357 | `removeTag` after `addTag` of a new tag restores the store exactly |
| `Associations.TagAddUserRoundTrip` | src/Entity/Tag.php:120-139 | `removeUser` after `addUser` of a new user restores the store exactly |
| `Associations.TagAddWorkKeepsSync` | src/Entity/Tag.php:185-193 | `Tag::addWork` keeps "tag lists work iff work lists tag" |
| `Associations.TagRemoveWorkKeepsSync` | src/Entity/Tag.php:195-202 | `Tag::removeWork` keeps the Tag–Work sides in step on a valid store |
| `Associations.WorkAddTagBreaksSync` | src/Entity/Work.php:143-150 | `Work::addTag` alone puts in-step Tag–Work sides out of step |
| `Associations.WorkRemoveTagBreaksSync` | src/Entity/Work.php:152-157 | `Work::removeTag` alone puts in-step Tag–Work sides out of step |
| `Associations.TagAddWorkRoundTrip` | src/Entity/Tag.php:185-202 | `removeWork` after `addWork` of a new work restores the store exactly |
| `Associations.WorkAddTagRoundTrip` | src/Entity/Work.php:143-157 | `removeTag` after `addTag` of a new tag restores the store exactly |
| `Associations.UserAddsAreIdempotent` | src/Entity/User.php:340-429 | a second `addTag`, `addWork` or `addWorkComment` on a user changes nothing |
| `Associations.TagAddsAreIdempotent` | src/Entity/Tag.php:120-193 | a second `addUser` or `addWork` on a tag changes nothing |
| `Associations.WorkAddsAreIdempotent` | src/Entity/Work.php:143-235 | a second `addTag` or `addWorkComment` on a work changes nothing |
| `Associations.WorkAddWorkCommentKeepsListing` | src/Entity/Work.php:227-235 | `Work::addWorkComment` keeps every attached comment listed by its work |
| `Associations.WorkRemoveWorkCommentKeepsListing` | src/Entity/Work.php:237-247 | `Work::removeWorkComment` keeps every attached comment listed by its work |
| `Associations.WorkAddWorkCommentRoundTrip` | src/Entity/Work.php:227-247 | removing a just-added, unattached comment restores the store exactly |
| `Associations.UserAddWorkKeepsListing` | src/Entity/User.php:391-399 | `User::addWork` keeps every owned work listed by its owner |
| `Associations.UserRemoveWorkReturnedKeepsListing` | src/Entity/User.php:401-411 | when the work is not listed, or is owned by someone else, `removeWork` returns normally and every owned work is still listed by its owner |
| `Associations.UserRemoveWorkRaisedBreaksListing` | src/Entity/User.php:401-411 | when `removeWork` raises, the store it leaves has a work that names its owner but is missing from the owner's list |
| `Associations.UserAddWorkThenRemoveWorkRaises` | src/Entity/User.php:391-411 | `removeWork` right after `addWork` of a new work always raises |
| `Associations.UserAddWorkThenRemoveWorkIntendedRoundTrip` | src/Entity/User.php:391-411 | with the corrected removal, that sequence restores the store exactly for an unowned work |
| `Associations.UserRemoveWorkIntendedKeepsListing` | src/Entity/User.php:401-411 | the corrected removal keeps every owned work listed by its owner |
| `Associations.UserAddWorkCommentKeepsListing` | src/Entity/User.php:421-429 | `User::addWorkComment` keeps every authored comment listed by its author |
| `Associations.UserRemoveWorkCommentRaisedBreaksListing` | src/Entity/User.php:431-441 | when `removeWorkComment` raises, the store it leaves has a comment that names its author but is missing from the author's list |
| `Associations.UserRemoveWorkCommentReturnedKeepsListing` | src/Entity/User.php:431-441 | when the comment is not listed, or was written by someone else, `removeWorkComment` returns normally and every authored comment is still listed by its author |
| `Associations.UserRemoveWorkCommentIntendedKeepsListing` | src/Entity/User.php:431-441 | the corrected removal keeps every authored comment listed by its author |
| `Associations.UserAddWorkCommentThenRemoveRaises` | src/Entity/User.php:421-441 | `removeWorkComment` right after `addWorkComment` of a new comment always raises |
| `Associations.UserAddWorkCommentThenRemoveIntendedRoundTrip` | src/Entity/User.php:421-441 | with the corrected removal, that sequence restores the store exactly for a comment without an author |

## Left out

- API Platform resource and filter attributes, security expressions and serialization groups are left out. The framework interprets them, and the role hierarchy behind `is_granted` is not part of this model.
- Validation constraints (`Assert\...`, `UniqueEntity`) and the DTOs `UserDto` and `UserAuthDto` are left out. The validators are library code, and the DTOs are only constructors and getters.
- Doctrine mappings, persistence and the migrations are left out. The `nullable=false` join columns of `Work.user`, `WorkComment.work` and `WorkComment.user` are enforced only at flush time, which is not modelled.
- Timestamps, email, password, names, theme, text and price are left out. They are plain setters with no rule beyond their PHP types.
- `getSalt`, `getUsername`, `eraseCredentials` and all getters are left out. They are trivial framework hooks and reads.
- The `setIsDeleted` setters of Tag, Work and WorkComment are left out. Each writes a nullable flag and contains no logic. Only their `false` defaults are modelled.
- The owner setters accept any `UserInterface`. The model only has User objects to pass them.
- `Tag.SetUser`: a null argument would raise a TypeError, but the model's argument is never null and the stub is a no-op.
- PHP arrays keep their keys: after `deleteRole`, the stored role array has gaps in its keys, and the JSON encoder may then emit an object instead of a list. Only the order of the values is modelled. `setRoles` may also store non-string values; the model's roles are strings.

## Findings

| source | as written | input that shows it | evidently intended | confidence | as-written member | corrected member |
|---|---|---|---|---|---|---|
| src/Entity/User.php:401-411 | `removeWork` calls `$work->setUser(null)`, but `Work::setUser` (src/Entity/Work.php:176) only accepts a non-null `UserInterface`, so a TypeError is raised after the work has already left the user's list | any user `u` and any work `w` not in `u`'s works: `addWork(w)` then `removeWork(w)` (`Associations.UserAddWorkThenRemoveWorkRaises`); the store left behind has a work that names its owner but is missing from the owner's list (`Associations.UserRemoveWorkRaisedBreaksListing`) | reset the owning side to null, as the comment in the method says | high; not executed | `UserEntity.RemoveWork` | `UserEntity.RemoveWorkIntended` (`Associations.UserAddWorkThenRemoveWorkIntendedRoundTrip`, `Associations.UserRemoveWorkIntendedKeepsListing`) |
| src/Entity/User.php:431-441 | `removeWorkComment` calls `$workComment->setUser(null)`, but `WorkComment::setUser` (src/Entity/WorkComment.php:119) only accepts a non-null `UserInterface` | any user `u` and any comment `c` not in `u`'s comments: `addWorkComment(c)` then `removeWorkComment(c)` (`Associations.UserAddWorkCommentThenRemoveRaises`, `Associations.UserRemoveWorkCommentRaisedBreaksListing`) | reset the author to null | high; not executed | `UserEntity.RemoveWorkComment` | `UserEntity.RemoveWorkCommentIntended` (`Associations.UserAddWorkCommentThenRemoveIntendedRoundTrip`, `Associations.UserRemoveWorkCommentIntendedKeepsListing`) |
