/**
 * The `group_members` table: a row links a group to a user. Both columns are
 * foreign keys with ON DELETE CASCADE, so deleting a group or a user deletes
 * the rows that point at it. Nothing in the schema keeps a (group, user) pair
 * from appearing twice.
 */
module GroupMembers {
  import opened Tables

  datatype GroupMember = GroupMember(id: int, groupId: int, userId: int, joinedAt: Long)

  /** `GroupMember(groupId = …, userId = …)`: id 0, assigned by the store on insert. */
  function NewGroupMember(groupId: int, userId: int, joinedAt: Long): GroupMember
  {
    GroupMember(0, groupId, userId, joinedAt)
  }

  function Ids(members: seq<GroupMember>): set<int>
  {
    set m | m in members :: m.id
  }

  function IdOf(m: GroupMember): int
  {
    m.id
  }

  /** The primary key column holds no value twice. */
  ghost predicate UniqueIds(rows: seq<GroupMember>)
  {
    DistinctKeys(rows, IdOf)
  }

  /** The primary key, and no id above the last one AUTOINCREMENT handed out. */
  ghost predicate PrimaryKey(rows: seq<GroupMember>, lastId: int)
  {
    UniqueIds(rows) && forall x :: x in rows ==> x.id <= lastId
  }

  /** Both foreign keys hold: every row names an existing group and an existing user. */
  ghost predicate References(members: seq<GroupMember>, groupIds: set<int>, userIds: set<int>)
  {
    forall m :: m in members ==> m.groupId in groupIds && m.userId in userIds
  }

  /** The membership uniqueness that only the repository's pre-check provides. */
  ghost predicate UniquePairs(members: seq<GroupMember>)
  {
    DistinctKeys(members, PairOf)
  }

  function PairOf(m: GroupMember): (int, int)
  {
    (m.groupId, m.userId)
  }

  /** The rows a deletion of group `groupId` leaves. */
  function NotOfGroup(groupId: int): GroupMember -> bool
  {
    (m: GroupMember) => m.groupId != groupId
  }

  /** The rows a deletion of user `userId` leaves. */
  function NotOfUser(userId: int): GroupMember -> bool
  {
    (m: GroupMember) => m.userId != userId
  }

  /** ON DELETE CASCADE from `groups`: the rows left after group `groupId` is deleted. */
  function CascadeGroup(members: seq<GroupMember>, groupId: int): (r: seq<GroupMember>)
    ensures forall m :: m in r <==> m in members && m.groupId != groupId
    ensures forall m: GroupMember :: m.groupId != groupId ==> multiset(r)[m] == multiset(members)[m]
  {
    FilterMultiset(members, NotOfGroup(groupId));
    Filter(members, NotOfGroup(groupId))
  }

  /** ON DELETE CASCADE from `users`: the rows left after user `userId` is deleted. */
  function CascadeUser(members: seq<GroupMember>, userId: int): (r: seq<GroupMember>)
    ensures forall m :: m in r <==> m in members && m.userId != userId
    ensures forall m: GroupMember :: m.userId != userId ==> multiset(r)[m] == multiset(members)[m]
  {
    FilterMultiset(members, NotOfUser(userId));
    Filter(members, NotOfUser(userId))
  }

  /** A cascade keeps the foreign keys true of the parent table that lost the row. */
  lemma CascadesKeepReferences(members: seq<GroupMember>, groupIds: set<int>, userIds: set<int>, groupId: int, userId: int)
    requires References(members, groupIds, userIds)
    ensures References(CascadeGroup(members, groupId), groupIds - {groupId}, userIds)
    ensures References(CascadeUser(members, userId), groupIds, userIds - {userId})
  {
  }

  /** A cascade only deletes rows, so the primary key and the one-row-per-pair rule still hold. */
  lemma CascadesKeepPrimaryKey(rows: seq<GroupMember>, lastId: int, groupId: int, userId: int)
    ensures PrimaryKey(rows, lastId) ==> PrimaryKey(CascadeGroup(rows, groupId), lastId)
    ensures PrimaryKey(rows, lastId) ==> PrimaryKey(CascadeUser(rows, userId), lastId)
    ensures UniquePairs(rows) ==> UniquePairs(CascadeGroup(rows, groupId))
    ensures UniquePairs(rows) ==> UniquePairs(CascadeUser(rows, userId))
  {
    FilterKeepsDistinct(rows, NotOfGroup(groupId), IdOf);
    FilterKeepsDistinct(rows, NotOfUser(userId), IdOf);
    FilterKeepsDistinct(rows, NotOfGroup(groupId), PairOf);
    FilterKeepsDistinct(rows, NotOfUser(userId), PairOf);
  }
}
