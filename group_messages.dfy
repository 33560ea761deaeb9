/**
 * The `group_messages` table: a message sent by a user to a group. Both
 * columns are foreign keys with ON DELETE CASCADE. A new message is unread.
 */
module GroupMessages {
  import opened Tables

  datatype GroupMessage = GroupMessage(id: int, groupId: int, senderId: int, content: string, timestamp: Long, isRead: bool)

  /** `GroupMessage(groupId = …, senderId = …, content = …)`: id 0 and `isRead` false unless given. */
  function NewGroupMessage(groupId: int, senderId: int, content: string, timestamp: Long, isRead: bool := false): GroupMessage
  {
    GroupMessage(0, groupId, senderId, content, timestamp, isRead)
  }

  lemma NewGroupMessageDefaults(groupId: int, senderId: int, content: string, timestamp: Long)
    ensures !NewGroupMessage(groupId, senderId, content, timestamp).isRead
    ensures NewGroupMessage(groupId, senderId, content, timestamp).id == 0
  {
  }

  function Ids(messages: seq<GroupMessage>): set<int>
  {
    set m | m in messages :: m.id
  }

  function IdOf(m: GroupMessage): int
  {
    m.id
  }

  /** The primary key column holds no value twice. */
  ghost predicate UniqueIds(rows: seq<GroupMessage>)
  {
    DistinctKeys(rows, IdOf)
  }

  /** The primary key, and no id above the last one AUTOINCREMENT handed out. */
  ghost predicate PrimaryKey(rows: seq<GroupMessage>, lastId: int)
  {
    UniqueIds(rows) && forall x :: x in rows ==> x.id <= lastId
  }

  /** Both foreign keys hold: every message names an existing group and an existing sender. */
  ghost predicate References(messages: seq<GroupMessage>, groupIds: set<int>, userIds: set<int>)
  {
    forall m :: m in messages ==> m.groupId in groupIds && m.senderId in userIds
  }

  /** The messages a deletion of group `groupId` leaves. */
  function NotInGroup(groupId: int): GroupMessage -> bool
  {
    (m: GroupMessage) => m.groupId != groupId
  }

  /** The messages a deletion of user `userId` leaves. */
  function NotSentBy(userId: int): GroupMessage -> bool
  {
    (m: GroupMessage) => m.senderId != userId
  }

  /** ON DELETE CASCADE from `groups`: the messages left after group `groupId` is deleted. */
  function CascadeGroup(messages: seq<GroupMessage>, groupId: int): (r: seq<GroupMessage>)
    ensures forall m :: m in r <==> m in messages && m.groupId != groupId
    ensures forall m: GroupMessage :: m.groupId != groupId ==> multiset(r)[m] == multiset(messages)[m]
  {
    FilterMultiset(messages, NotInGroup(groupId));
    Filter(messages, NotInGroup(groupId))
  }

  /** ON DELETE CASCADE from `users`: the messages left after user `userId` is deleted. */
  function CascadeSender(messages: seq<GroupMessage>, userId: int): (r: seq<GroupMessage>)
    ensures forall m :: m in r <==> m in messages && m.senderId != userId
    ensures forall m: GroupMessage :: m.senderId != userId ==> multiset(r)[m] == multiset(messages)[m]
  {
    FilterMultiset(messages, NotSentBy(userId));
    Filter(messages, NotSentBy(userId))
  }

  lemma CascadesKeepReferences(messages: seq<GroupMessage>, groupIds: set<int>, userIds: set<int>, groupId: int, userId: int)
    requires References(messages, groupIds, userIds)
    ensures References(CascadeGroup(messages, groupId), groupIds - {groupId}, userIds)
    ensures References(CascadeSender(messages, userId), groupIds, userIds - {userId})
  {
  }

  /** A cascade only deletes rows, so the primary key still holds. */
  lemma CascadesKeepPrimaryKey(rows: seq<GroupMessage>, lastId: int, groupId: int, userId: int)
    ensures PrimaryKey(rows, lastId) ==> PrimaryKey(CascadeGroup(rows, groupId), lastId)
    ensures PrimaryKey(rows, lastId) ==> PrimaryKey(CascadeSender(rows, userId), lastId)
  {
    FilterKeepsDistinct(rows, NotInGroup(groupId), IdOf);
    FilterKeepsDistinct(rows, NotSentBy(userId), IdOf);
  }
}
