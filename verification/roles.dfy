/**
 The role list of a User. The stored list is whatever `setRoles` and
 `addRole`/`deleteRole` left there; the list the security layer sees is
 `getRoles`, which always carries the base role ROLE_USER.
 */
module Roles {
  import opened Collection
  import opened Store

  /** The base role every user has, stored or not. */
  const RoleUser: string := "ROLE_USER"

  /** `getRoles`: the stored roles with ROLE_USER appended, passed through
      `array_unique`. The stored list itself is not changed. */
  function GetRoles(user: User): (r: seq<string>)
    ensures RoleUser in r
    ensures NoDup(r)
    ensures forall role :: role in r <==> role in user.roles || role == RoleUser
  {
    Unique(user.roles + [RoleUser])
  }

  /** The roles `getRoles` reports come in the order of their first
      occurrence in the stored list, with ROLE_USER placed where it first
      occurs there, or last when it is not stored. */
  lemma GetRolesOrder(user: User)
    ensures forall i, j :: 0 <= i < j < |GetRoles(user)| ==>
      FirstIndex(user.roles + [RoleUser], GetRoles(user)[i])
        < FirstIndex(user.roles + [RoleUser], GetRoles(user)[j])
  {
    UniqueKeepsFirstOccurrenceOrder(user.roles + [RoleUser]);
  }

  /** A stored list that is already duplicate-free and lacks ROLE_USER is
      reported as is, followed by ROLE_USER. */
  lemma GetRolesOfCleanList(user: User)
    requires NoDup(user.roles) && RoleUser !in user.roles
    ensures GetRoles(user) == user.roles + [RoleUser]
  {
    UniqueAppendFresh(user.roles, RoleUser);
    UniqueOfNoDup(user.roles);
  }

  /** `setRoles`: replaces the stored list wholesale; no check for duplicates
      or for ROLE_USER, and nothing else about the user changes. */
  function SetRoles(user: User, roles: seq<string>): (r: User)
    ensures r.roles == roles
    ensures r.isDeleted == user.isDeleted && r.tags == user.tags
    ensures r.works == user.works && r.comments == user.comments
  {
    user.(roles := roles)
  }

  /** `addRole`: a strict `in_array` check, then an append. The role ends up
      stored; the old list is kept as a prefix and grows by at most one. */
  function AddRole(user: User, role: string): (r: User)
    ensures role in r.roles
    ensures forall x :: x in r.roles <==> x in user.roles || x == role
    ensures role in user.roles ==> r == user
    ensures role !in user.roles ==>
      |r.roles| == |user.roles| + 1 && r.roles[..|user.roles|] == user.roles
    ensures r.isDeleted == user.isDeleted && r.tags == user.tags
    ensures r.works == user.works && r.comments == user.comments
  {
    user.(roles := AddIfAbsent(user.roles, role))
  }

  /** Adding a role twice is the same as adding it once. */
  lemma AddRoleIdempotent(user: User, role: string)
    ensures AddRole(AddRole(user, role), role) == AddRole(user, role)
  {
  }

  /** `addRole` keeps a duplicate-free stored list duplicate-free. */
  lemma AddRoleKeepsNoDup(user: User, role: string)
    requires NoDup(user.roles)
    ensures NoDup(AddRole(user, role).roles)
  {
  }

  /** `deleteRole`: every stored occurrence of the role is unset; the other
      roles keep their multiplicity and order. Absent role: nothing changes. */
  function DeleteRole(user: User, role: string): (r: User)
    ensures role !in r.roles
    ensures multiset(r.roles) == multiset(user.roles)[role := 0]
    ensures role !in user.roles ==> r == user
    ensures r.isDeleted == user.isDeleted && r.tags == user.tags
    ensures r.works == user.works && r.comments == user.comments
  {
    user.(roles := RemoveAll(user.roles, role))
  }

  /** `deleteRole` undoes `addRole` for a role that was not stored, and in
      general adding and then deleting a role equals deleting it. */
  lemma DeleteRoleAfterAddRole(user: User, role: string)
    ensures DeleteRole(AddRole(user, role), role) == DeleteRole(user, role)
    ensures role !in user.roles ==> DeleteRole(AddRole(user, role), role) == user
  {
    if role !in user.roles {
      RemoveAllDistributes(user.roles, [role], role);
      assert RemoveAll([role], role) == [];
    }
  }

  /** Deleting and then re-adding a role moves it to the end of the stored list. */
  lemma AddRoleAfterDeleteRole(user: User, role: string)
    ensures AddRole(DeleteRole(user, role), role).roles == RemoveAll(user.roles, role) + [role]
  {
  }

  /** Deleting ROLE_USER from the stored list does not take it away: `getRoles`
      re-appends it, now after every other role. */
  lemma DeleteRoleUserStillReported(user: User)
    ensures RoleUser in GetRoles(DeleteRole(user, RoleUser))
    ensures GetRoles(DeleteRole(user, RoleUser)) == Unique(RemoveAll(user.roles, RoleUser)) + [RoleUser]
  {
    UniqueAppendFresh(RemoveAll(user.roles, RoleUser), RoleUser);
  }
}
