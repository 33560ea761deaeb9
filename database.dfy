/**
 * The Room database restricted to its four group and user tables, with the
 * statements of the DAOs that change them, and the seed it is populated with
 * when it is first created.
 *
 * Room turns `PRAGMA foreign_keys` on for a schema with foreign keys, so an
 * insert naming a missing group or user fails and changes nothing, and
 * deleting a group or a user deletes the membership and message rows that
 * point at it (ON DELETE CASCADE). Every `@PrimaryKey(autoGenerate = true)`
 * column is AUTOINCREMENT: SQLite remembers the largest id it has handed out
 * per table (`sqlite_sequence`), kept here in the `last…Id` fields.
 */
module AppDatabase {
  import opened Tables
  import opened Users
  import opened Groups
  import opened GroupMembers
  import opened GroupMessages
  import UserDao
  import GroupDao

  /**
   * The constraints the schema keeps: every primary key holds, with no id
   * above the last one AUTOINCREMENT handed out, and every membership and
   * message names a stored group and a stored user.
   */
  ghost predicate Integrity(users: seq<User>, groups: seq<Group>, members: seq<GroupMember>, messages: seq<GroupMessage>,
                            lastUserId: int, lastGroupId: int, lastMemberId: int, lastMessageId: int)
  {
    && lastUserId >= 0 && lastGroupId >= 0 && lastMemberId >= 0 && lastMessageId >= 0
    && Users.PrimaryKey(users, lastUserId)
    && Groups.PrimaryKey(groups, lastGroupId)
    && GroupMembers.PrimaryKey(members, lastMemberId)
    && GroupMessages.PrimaryKey(messages, lastMessageId)
    && GroupMembers.References(members, Groups.Ids(groups), Users.Ids(users))
    && GroupMessages.References(messages, Groups.Ids(groups), Users.Ids(users))
  }

  /** Adding a user under a fresh id keeps every constraint. */
  lemma AddUserKeepsIntegrity(users: seq<User>, groups: seq<Group>, members: seq<GroupMember>, messages: seq<GroupMessage>,
                              lu: int, lg: int, lm: int, lmsg: int, u: User)
    requires Integrity(users, groups, members, messages, lu, lg, lm, lmsg)
    requires u.id == 0 || u.id !in Users.Ids(users)
    ensures Integrity(users + [u.(id := AssignedId(u.id, lu))], groups, members, messages,
                      NextLastId(lu, AssignedId(u.id, lu)), lg, lm, lmsg)
  {
    var row := u.(id := AssignedId(u.id, lu));
    AssignedIdFresh(Users.Ids(users), lu, u.id);
    AppendKeepsDistinct(users, row, Users.IdOf);
    assert Users.Ids(users) <= Users.Ids(users + [row]);
  }

  /** INSERT OR REPLACE over a stored id, with its cascades, keeps every constraint. */
  lemma ReplaceUserKeepsIntegrity(users: seq<User>, groups: seq<Group>, members: seq<GroupMember>, messages: seq<GroupMessage>,
                                  lu: int, lg: int, lm: int, lmsg: int, u: User)
    requires Integrity(users, groups, members, messages, lu, lg, lm, lmsg)
    requires u.id in Users.Ids(users)
    ensures Integrity(UserDao.ReplaceRow(users, u), groups, CascadeUser(members, u.id), CascadeSender(messages, u.id),
                      lu, lg, lm, lmsg)
  {
    UserDao.ReplaceRowKeepsKeys(users, u, lu);
    GroupMembers.CascadesKeepReferences(members, Groups.Ids(groups), Users.Ids(users), 0, u.id);
    GroupMessages.CascadesKeepReferences(messages, Groups.Ids(groups), Users.Ids(users), 0, u.id);
    GroupMembers.CascadesKeepPrimaryKey(members, lm, 0, u.id);
    GroupMessages.CascadesKeepPrimaryKey(messages, lmsg, 0, u.id);
  }

  /** Deleting a user, with its cascades, keeps every constraint: no membership or message is left pointing at it. */
  lemma DeleteUserKeepsIntegrity(users: seq<User>, groups: seq<Group>, members: seq<GroupMember>, messages: seq<GroupMessage>,
                                 lu: int, lg: int, lm: int, lmsg: int, id: int)
    requires Integrity(users, groups, members, messages, lu, lg, lm, lmsg)
    ensures Integrity(UserDao.DeleteById(users, id), groups, CascadeUser(members, id), CascadeSender(messages, id),
                      lu, lg, lm, lmsg)
  {
    GroupMembers.CascadesKeepReferences(members, Groups.Ids(groups), Users.Ids(users), 0, id);
    GroupMessages.CascadesKeepReferences(messages, Groups.Ids(groups), Users.Ids(users), 0, id);
    GroupMembers.CascadesKeepPrimaryKey(members, lm, 0, id);
    GroupMessages.CascadesKeepPrimaryKey(messages, lmsg, 0, id);
    UserDao.DeleteByIdKeepsKeys(users, id, lu);
  }

  /** Changing a password keeps every constraint. */
  lemma SetPasswordKeepsIntegrity(users: seq<User>, groups: seq<Group>, members: seq<GroupMember>, messages: seq<GroupMessage>,
                                  lu: int, lg: int, lm: int, lmsg: int, userId: int, newPassword: string)
    requires Integrity(users, groups, members, messages, lu, lg, lm, lmsg)
    ensures Integrity(UserDao.SetPassword(users, userId, newPassword), groups, members, messages, lu, lg, lm, lmsg)
  {
    UserDao.SetPasswordKeepsKeys(users, userId, newPassword, lu);
  }

  /** Adding a group under a fresh id keeps every constraint. */
  lemma AddGroupKeepsIntegrity(users: seq<User>, groups: seq<Group>, members: seq<GroupMember>, messages: seq<GroupMessage>,
                               lu: int, lg: int, lm: int, lmsg: int, g: Group)
    requires Integrity(users, groups, members, messages, lu, lg, lm, lmsg)
    requires g.id == 0 || g.id !in Groups.Ids(groups)
    ensures Integrity(users, groups + [g.(id := AssignedId(g.id, lg))], members, messages,
                      lu, NextLastId(lg, AssignedId(g.id, lg)), lm, lmsg)
  {
    var row := g.(id := AssignedId(g.id, lg));
    AssignedIdFresh(Groups.Ids(groups), lg, g.id);
    AppendKeepsDistinct(groups, row, Groups.IdOf);
    assert Groups.Ids(groups) <= Groups.Ids(groups + [row]);
  }

  /** Deleting a group, with its cascades, keeps every constraint: no membership or message is left pointing at it. */
  lemma DeleteGroupKeepsIntegrity(users: seq<User>, groups: seq<Group>, members: seq<GroupMember>, messages: seq<GroupMessage>,
                                  lu: int, lg: int, lm: int, lmsg: int, id: int)
    requires Integrity(users, groups, members, messages, lu, lg, lm, lmsg)
    ensures Integrity(users, GroupDao.DeleteById(groups, id), GroupMembers.CascadeGroup(members, id),
                      GroupMessages.CascadeGroup(messages, id), lu, lg, lm, lmsg)
  {
    GroupMembers.CascadesKeepReferences(members, Groups.Ids(groups), Users.Ids(users), id, 0);
    GroupMessages.CascadesKeepReferences(messages, Groups.Ids(groups), Users.Ids(users), id, 0);
    GroupMembers.CascadesKeepPrimaryKey(members, lm, id, 0);
    GroupMessages.CascadesKeepPrimaryKey(messages, lmsg, id, 0);
    GroupDao.DeleteByIdKeepsKeys(groups, id, lg);
  }

  /** Adding a membership that names a stored group and user, under a fresh id, keeps every constraint. */
  lemma AddMemberKeepsIntegrity(users: seq<User>, groups: seq<Group>, members: seq<GroupMember>, messages: seq<GroupMessage>,
                                lu: int, lg: int, lm: int, lmsg: int, m: GroupMember)
    requires Integrity(users, groups, members, messages, lu, lg, lm, lmsg)
    requires m.groupId in Groups.Ids(groups) && m.userId in Users.Ids(users)
    requires m.id == 0 || m.id !in GroupMembers.Ids(members)
    ensures Integrity(users, groups, members + [m.(id := AssignedId(m.id, lm))], messages,
                      lu, lg, NextLastId(lm, AssignedId(m.id, lm)), lmsg)
  {
    var row := m.(id := AssignedId(m.id, lm));
    AssignedIdFresh(GroupMembers.Ids(members), lm, m.id);
    AppendKeepsDistinct(members, row, GroupMembers.IdOf);
  }

  /** Deleting the rows of one (group, user) pair keeps every constraint. */
  lemma RemovePairKeepsIntegrity(users: seq<User>, groups: seq<Group>, members: seq<GroupMember>, messages: seq<GroupMessage>,
                                 lu: int, lg: int, lm: int, lmsg: int, groupId: int, userId: int)
    requires Integrity(users, groups, members, messages, lu, lg, lm, lmsg)
    ensures Integrity(users, groups, GroupDao.RemovePair(members, groupId, userId), messages, lu, lg, lm, lmsg)
  {
    GroupDao.RemovePairKeepsKeys(members, groupId, userId, lm);
  }

  /** Adding a message that names a stored group and sender, under a fresh id, keeps every constraint. */
  lemma AddMessageKeepsIntegrity(users: seq<User>, groups: seq<Group>, members: seq<GroupMember>, messages: seq<GroupMessage>,
                                 lu: int, lg: int, lm: int, lmsg: int, m: GroupMessage)
    requires Integrity(users, groups, members, messages, lu, lg, lm, lmsg)
    requires m.groupId in Groups.Ids(groups) && m.senderId in Users.Ids(users)
    requires m.id == 0 || m.id !in GroupMessages.Ids(messages)
    ensures Integrity(users, groups, members, messages + [m.(id := AssignedId(m.id, lmsg))],
                      lu, lg, lm, NextLastId(lmsg, AssignedId(m.id, lmsg)))
  {
    var row := m.(id := AssignedId(m.id, lmsg));
    AssignedIdFresh(GroupMessages.Ids(messages), lmsg, m.id);
    AppendKeepsDistinct(messages, row, GroupMessages.IdOf);
  }

  /** Marking messages read keeps every constraint. */
  lemma MarkReadKeepsIntegrity(users: seq<User>, groups: seq<Group>, members: seq<GroupMember>, messages: seq<GroupMessage>,
                               lu: int, lg: int, lm: int, lmsg: int, groupId: int)
    requires Integrity(users, groups, members, messages, lu, lg, lm, lmsg)
    ensures Integrity(users, groups, members, GroupDao.MarkRead(messages, groupId), lu, lg, lm, lmsg)
  {
    GroupDao.MarkReadKeepsKeys(messages, groupId, Groups.Ids(groups), Users.Ids(users), lmsg);
  }

  class Store {
    var users: seq<User>
    var groups: seq<Group>
    var members: seq<GroupMember>
    var messages: seq<GroupMessage>
    var lastUserId: int
    var lastGroupId: int
    var lastMemberId: int
    var lastMessageId: int

    /** Primary keys hold in every table and both foreign keys of both child tables hold. */
    ghost predicate Valid()
      reads this
    {
      Integrity(users, groups, members, messages, lastUserId, lastGroupId, lastMemberId, lastMessageId)
    }

    /** A database just created: empty tables, no id handed out yet. */
    constructor ()
      ensures Valid()
      ensures users == [] && groups == [] && members == [] && messages == []
      ensures lastUserId == 0 && lastGroupId == 0 && lastMemberId == 0 && lastMessageId == 0
    {
      users, groups, members, messages := [], [], [], [];
      lastUserId, lastGroupId, lastMemberId, lastMessageId := 0, 0, 0, 0;
    }

    /**
     * `UserDao.insertUser`, `@Insert(onConflict = REPLACE)`. A new id (or id 0)
     * adds a row. An id already stored replaces that row; SQLite's REPLACE
     * deletes the old row, and that delete cascades, so the memberships and
     * messages of that user go too.
     */
    method InsertUser(u: User)
      requires Valid()
      modifies this
      ensures Valid()
      ensures u.id != 0 && u.id in Users.Ids(old(users)) ==>
        && users == UserDao.ReplaceRow(old(users), u)
        && members == CascadeUser(old(members), u.id)
        && messages == CascadeSender(old(messages), u.id)
        && lastUserId == old(lastUserId)
      ensures !(u.id != 0 && u.id in Users.Ids(old(users))) ==>
        && users == old(users) + [u.(id := AssignedId(u.id, old(lastUserId)))]
        && members == old(members) && messages == old(messages)
        && lastUserId == NextLastId(old(lastUserId), AssignedId(u.id, old(lastUserId)))
      ensures groups == old(groups)
      ensures lastGroupId == old(lastGroupId) && lastMemberId == old(lastMemberId) && lastMessageId == old(lastMessageId)
    {
      if u.id != 0 && u.id in Users.Ids(users) {
        ReplaceUserKeepsIntegrity(users, groups, members, messages, lastUserId, lastGroupId, lastMemberId, lastMessageId, u);
        users := UserDao.ReplaceRow(users, u);
        members := CascadeUser(members, u.id);
        messages := CascadeSender(messages, u.id);
      } else {
        AddUserKeepsIntegrity(users, groups, members, messages, lastUserId, lastGroupId, lastMemberId, lastMessageId, u);
        var row := u.(id := AssignedId(u.id, lastUserId));
        users := users + [row];
        lastUserId := NextLastId(lastUserId, row.id);
      }
    }

    /** `UserDao.updatePassword`: `UPDATE users SET password = … WHERE id = …`. */
    method UpdatePassword(userId: int, newPassword: string)
      requires Valid()
      modifies this
      ensures Valid()
      ensures users == UserDao.SetPassword(old(users), userId, newPassword)
      ensures groups == old(groups) && members == old(members) && messages == old(messages)
      ensures lastUserId == old(lastUserId) && lastGroupId == old(lastGroupId)
      ensures lastMemberId == old(lastMemberId) && lastMessageId == old(lastMessageId)
    {
      SetPasswordKeepsIntegrity(users, groups, members, messages, lastUserId, lastGroupId, lastMemberId, lastMessageId,
                                userId, newPassword);
      users := UserDao.SetPassword(users, userId, newPassword);
    }

    /** `UserDao.deleteUser`: the row with the user's id goes, and with it that user's memberships and messages. */
    method DeleteUser(u: User)
      requires Valid()
      modifies this
      ensures Valid()
      ensures users == UserDao.DeleteById(old(users), u.id)
      ensures members == CascadeUser(old(members), u.id)
      ensures messages == CascadeSender(old(messages), u.id)
      ensures groups == old(groups)
      ensures lastUserId == old(lastUserId) && lastGroupId == old(lastGroupId)
      ensures lastMemberId == old(lastMemberId) && lastMessageId == old(lastMessageId)
    {
      ghost var users0, members0, messages0 := users, members, messages;
      users, members, messages := UserDao.DeleteById(users, u.id), CascadeUser(members, u.id), CascadeSender(messages, u.id);
      DeleteUserKeepsIntegrity(users0, groups, members0, messages0, lastUserId, lastGroupId, lastMemberId, lastMessageId, u.id);
    }

    /**
     * `GroupDao.insertGroup`, a plain `@Insert`: the id of the new row, or
     * none when the group carries an id already stored (the insert aborts).
     */
    method InsertGroup(g: Group) returns (r: Option<int>)
      requires Valid()
      modifies this
      ensures Valid()
      ensures r.None? <==> g.id != 0 && g.id in Groups.Ids(old(groups))
      ensures r.Some? ==>
        && r.value == AssignedId(g.id, old(lastGroupId))
        && r.value !in Groups.Ids(old(groups))
        && groups == old(groups) + [g.(id := r.value)]
        && lastGroupId == NextLastId(old(lastGroupId), r.value)
      ensures r.None? ==> groups == old(groups) && lastGroupId == old(lastGroupId)
      ensures users == old(users) && members == old(members) && messages == old(messages)
      ensures lastUserId == old(lastUserId) && lastMemberId == old(lastMemberId) && lastMessageId == old(lastMessageId)
    {
      if g.id != 0 && g.id in Groups.Ids(groups) {
        r := None;
      } else {
        AddGroupKeepsIntegrity(users, groups, members, messages, lastUserId, lastGroupId, lastMemberId, lastMessageId, g);
        AssignedIdFresh(Groups.Ids(groups), lastGroupId, g.id);
        var row := g.(id := AssignedId(g.id, lastGroupId));
        groups := groups + [row];
        lastGroupId := NextLastId(lastGroupId, row.id);
        r := Some(row.id);
      }
    }

    /** `GroupDao.deleteGroup`: the row with the group's id goes, and with it its memberships and messages. */
    method DeleteGroup(g: Group)
      requires Valid()
      modifies this
      ensures Valid()
      ensures groups == GroupDao.DeleteById(old(groups), g.id)
      ensures members == GroupMembers.CascadeGroup(old(members), g.id)
      ensures messages == GroupMessages.CascadeGroup(old(messages), g.id)
      ensures users == old(users)
      ensures lastUserId == old(lastUserId) && lastGroupId == old(lastGroupId)
      ensures lastMemberId == old(lastMemberId) && lastMessageId == old(lastMessageId)
    {
      ghost var groups0, members0, messages0 := groups, members, messages;
      groups, members, messages := GroupDao.DeleteById(groups, g.id), GroupMembers.CascadeGroup(members, g.id),
                                   GroupMessages.CascadeGroup(messages, g.id);
      DeleteGroupKeepsIntegrity(users, groups0, members0, messages0, lastUserId, lastGroupId, lastMemberId, lastMessageId, g.id);
    }

    /**
     * `GroupMemberDao.insertGroupMember`, a plain `@Insert`. It fails, changing
     * nothing, when the group or the user does not exist or the id is taken.
     */
    method InsertGroupMember(m: GroupMember) returns (ok: bool)
      requires Valid()
      modifies this
      ensures Valid()
      ensures ok <==> m.groupId in Groups.Ids(groups) && m.userId in Users.Ids(users)
                      && (m.id == 0 || m.id !in GroupMembers.Ids(old(members)))
      ensures ok ==>
        && AssignedId(m.id, old(lastMemberId)) !in GroupMembers.Ids(old(members))
        && members == old(members) + [m.(id := AssignedId(m.id, old(lastMemberId)))]
        && lastMemberId == NextLastId(old(lastMemberId), AssignedId(m.id, old(lastMemberId)))
      ensures !ok ==> members == old(members) && lastMemberId == old(lastMemberId)
      ensures users == old(users) && groups == old(groups) && messages == old(messages)
      ensures lastUserId == old(lastUserId) && lastGroupId == old(lastGroupId) && lastMessageId == old(lastMessageId)
    {
      if m.groupId in Groups.Ids(groups) && m.userId in Users.Ids(users)
         && (m.id == 0 || m.id !in GroupMembers.Ids(members))
      {
        AddMemberKeepsIntegrity(users, groups, members, messages, lastUserId, lastGroupId, lastMemberId, lastMessageId, m);
        AssignedIdFresh(GroupMembers.Ids(members), lastMemberId, m.id);
        var row := m.(id := AssignedId(m.id, lastMemberId));
        members := members + [row];
        lastMemberId := NextLastId(lastMemberId, row.id);
        ok := true;
      } else {
        ok := false;
      }
    }

    /** `GroupMemberDao.removeGroupMember`: `DELETE … WHERE groupId = … AND userId = …`. */
    method RemoveGroupMember(groupId: int, userId: int)
      requires Valid()
      modifies this
      ensures Valid()
      ensures members == GroupDao.RemovePair(old(members), groupId, userId)
      ensures users == old(users) && groups == old(groups) && messages == old(messages)
      ensures lastUserId == old(lastUserId) && lastGroupId == old(lastGroupId)
      ensures lastMemberId == old(lastMemberId) && lastMessageId == old(lastMessageId)
    {
      RemovePairKeepsIntegrity(users, groups, members, messages, lastUserId, lastGroupId, lastMemberId, lastMessageId,
                               groupId, userId);
      members := GroupDao.RemovePair(members, groupId, userId);
    }

    /**
     * `GroupMessageDao.insertGroupMessage`, a plain `@Insert`. It fails,
     * changing nothing, when the group or the sender does not exist or the id is taken.
     */
    method InsertGroupMessage(m: GroupMessage) returns (ok: bool)
      requires Valid()
      modifies this
      ensures Valid()
      ensures ok <==> m.groupId in Groups.Ids(groups) && m.senderId in Users.Ids(users)
                      && (m.id == 0 || m.id !in GroupMessages.Ids(old(messages)))
      ensures ok ==>
        && AssignedId(m.id, old(lastMessageId)) !in GroupMessages.Ids(old(messages))
        && messages == old(messages) + [m.(id := AssignedId(m.id, old(lastMessageId)))]
        && lastMessageId == NextLastId(old(lastMessageId), AssignedId(m.id, old(lastMessageId)))
      ensures !ok ==> messages == old(messages) && lastMessageId == old(lastMessageId)
      ensures users == old(users) && groups == old(groups) && members == old(members)
      ensures lastUserId == old(lastUserId) && lastGroupId == old(lastGroupId) && lastMemberId == old(lastMemberId)
    {
      if m.groupId in Groups.Ids(groups) && m.senderId in Users.Ids(users)
         && (m.id == 0 || m.id !in GroupMessages.Ids(messages))
      {
        AddMessageKeepsIntegrity(users, groups, members, messages, lastUserId, lastGroupId, lastMemberId, lastMessageId, m);
        AssignedIdFresh(GroupMessages.Ids(messages), lastMessageId, m.id);
        var row := m.(id := AssignedId(m.id, lastMessageId));
        messages := messages + [row];
        lastMessageId := NextLastId(lastMessageId, row.id);
        ok := true;
      } else {
        ok := false;
      }
    }

    /** `GroupMessageDao.markGroupMessagesAsRead`: `UPDATE group_messages SET isRead = 1 WHERE groupId = …`. */
    method MarkGroupMessagesAsRead(groupId: int)
      requires Valid()
      modifies this
      ensures Valid()
      ensures messages == GroupDao.MarkRead(old(messages), groupId)
      ensures users == old(users) && groups == old(groups) && members == old(members)
      ensures lastUserId == old(lastUserId) && lastGroupId == old(lastGroupId)
      ensures lastMemberId == old(lastMemberId) && lastMessageId == old(lastMessageId)
    {
      MarkReadKeepsIntegrity(users, groups, members, messages, lastUserId, lastGroupId, lastMemberId, lastMessageId, groupId);
      messages := GroupDao.MarkRead(messages, groupId);
    }
  }

  /** The users `populateDatabase` inserts, with the ids AUTOINCREMENT gives them: three teachers, then three students. */
  function SeedUsers(now: Long): seq<User>
  {
    [ User(1, "Administrador Geral", "admin@ipbeja.pt", "1234", true, now),
      User(2, "Professor António", "antonio@ipbeja.pt", "1234", true, now),
      User(3, "Professora Ana", "ana@ipbeja.pt", "1234", true, now),
      User(4, "João Carapuça", "joao@ipbeja.pt", "1234", false, now),
      User(5, "Maria Silva", "maria@ipbeja.pt", "1234", false, now),
      User(6, "Laura Remechido", "laura@ipbeja.pt", "1234", false, now) ]
  }

  /** The groups `populateDatabase` inserts, all created by user 1. */
  function SeedGroups(now: Long): seq<Group>
  {
    [ Group(1, "SI", "Sistemas de Informação", now, 1),
      Group(2, "TW", "Tecnologia Web", now, 1),
      Group(3, "Design", "Design e Multimédia", now, 1) ]
  }

  /** The memberships `populateDatabase` inserts, pointing at the ids `insertGroup` returned. */
  function SeedMembers(now: Long): seq<GroupMember>
  {
    [ GroupMember(1, 1, 4, now),
      GroupMember(2, 2, 5, now),
      GroupMember(3, 3, 6, now),
      GroupMember(4, 1, 2, now) ]
  }

  /** The seed's six users: ids 1 to 3 are teachers, 4 to 6 students, every password is "1234". */
  lemma SeedUserRoles(now: Long)
    ensures |SeedUsers(now)| == 6
    ensures forall i :: 0 <= i < |SeedUsers(now)| ==>
      && SeedUsers(now)[i].id == i + 1
      && SeedUsers(now)[i].isAdmin == (i < 3)
      && SeedUsers(now)[i].password == "1234"
  {
  }

  /** No two seeded users share an email, so each seeded email is counted once and a later registration with it is refused. */
  lemma SeedEmailsTaken(now: Long)
    ensures UniqueEmails(SeedUsers(now))
    ensures forall u :: u in SeedUsers(now) ==> UserDao.EmailExists(SeedUsers(now), u.email) == 1
  {
    var users := SeedUsers(now);
    assert UniqueEmails(users);
    forall u | u in users
      ensures UserDao.EmailExists(users, u.email) == 1
    {
      UserDao.EmailExistsAtMostOne(users, u.email);
    }
  }

  /** The seed's three groups are SI, TW and Design, all created by user 1. */
  lemma SeedGroupNames(now: Long)
    ensures |SeedGroups(now)| == 3
    ensures SeedGroups(now)[0].name == "SI" && SeedGroups(now)[1].name == "TW" && SeedGroups(now)[2].name == "Design"
    ensures forall g :: g in SeedGroups(now) ==> g.createdBy == 1
  {
  }

  /**
   * The seed's memberships: SI holds users 4 and 2, TW user 5, Design user 6;
   * `isUserInGroup` counts exactly one row for each of these pairs and none for
   * any other.
   */
  lemma SeedMemberships(now: Long)
    ensures UniquePairs(SeedMembers(now))
    ensures forall groupId, userId ::
      GroupDao.IsUserInGroup(SeedMembers(now), groupId, userId) ==
        if (groupId, userId) in {(1, 4), (2, 5), (3, 6), (1, 2)} then 1 else 0
  {
    var members := SeedMembers(now);
    assert UniquePairs(members);
    forall groupId, userId
      ensures GroupDao.IsUserInGroup(members, groupId, userId) ==
        if (groupId, userId) in {(1, 4), (2, 5), (3, 6), (1, 2)} then 1 else 0
    {
      GroupDao.IsUserInGroupAtMostOne(members, groupId, userId);
    }
  }

  /** The seeded users have distinct ids 1 to 6. */
  lemma SeedUserKeys(now: Long)
    ensures Users.PrimaryKey(SeedUsers(now), 6)
    ensures Users.Ids(SeedUsers(now)) == {1, 2, 3, 4, 5, 6}
  {
    var users := SeedUsers(now);
    assert users[0] in users && users[1] in users && users[2] in users;
    assert users[3] in users && users[4] in users && users[5] in users;
  }

  /** The seeded groups have distinct ids 1 to 3. */
  lemma SeedGroupKeys(now: Long)
    ensures Groups.PrimaryKey(SeedGroups(now), 3)
    ensures Groups.Ids(SeedGroups(now)) == {1, 2, 3}
  {
    var groups := SeedGroups(now);
    assert groups[0] in groups && groups[1] in groups && groups[2] in groups;
  }

  /** The seeded memberships have distinct ids 1 to 4 and name seeded groups and users only. */
  lemma SeedMemberKeys(now: Long)
    ensures GroupMembers.PrimaryKey(SeedMembers(now), 4)
    ensures GroupMembers.References(SeedMembers(now), {1, 2, 3}, {1, 2, 3, 4, 5, 6})
  {
  }

  /** The seed is a consistent database, with the AUTOINCREMENT counters at the last seeded ids. */
  lemma SeedIntegrity(now: Long)
    ensures Integrity(SeedUsers(now), SeedGroups(now), SeedMembers(now), [], 6, 3, 4, 0)
  {
    SeedUserKeys(now);
    SeedGroupKeys(now);
    SeedMemberKeys(now);
  }

  /**
   * `DatabaseCallback.populateDatabase`, run once on a database just created:
   * six users, three groups and four memberships, inserted in this order, every
   * insert taking its id from AUTOINCREMENT. All rows share one clock reading.
   */
  method PopulateDatabase(database: Store, now: Long)
    requires database.Valid()
    requires database.users == [] && database.groups == [] && database.members == [] && database.messages == []
    requires database.lastUserId == 0 && database.lastGroupId == 0
    requires database.lastMemberId == 0 && database.lastMessageId == 0
    modifies database
    ensures database.Valid()
    ensures database.users == SeedUsers(now)
    ensures database.groups == SeedGroups(now)
    ensures database.members == SeedMembers(now)
    ensures database.messages == []
    ensures database.lastUserId == 6 && database.lastGroupId == 3
    ensures database.lastMemberId == 4 && database.lastMessageId == 0
  {
    PopulateUsers(database, now);
    var siGroupId, twGroupId, designGroupId := PopulateGroups(database, now);
    assert SeedGroups(now)[0] in database.groups && SeedGroups(now)[1] in database.groups && SeedGroups(now)[2] in database.groups;
    assert SeedUsers(now)[1] in database.users && SeedUsers(now)[3] in database.users;
    assert SeedUsers(now)[4] in database.users && SeedUsers(now)[5] in database.users;
    PopulateMembers(database, siGroupId, twGroupId, designGroupId, now);
  }

  /** The six `insertUser` calls of the seed. */
  method PopulateUsers(database: Store, now: Long)
    requires database.Valid()
    requires database.users == [] && database.lastUserId == 0
    modifies database
    ensures database.Valid()
    ensures database.users == SeedUsers(now) && database.lastUserId == 6
    ensures database.groups == old(database.groups) && database.members == old(database.members)
    ensures database.messages == old(database.messages)
    ensures database.lastGroupId == old(database.lastGroupId) && database.lastMemberId == old(database.lastMemberId)
    ensures database.lastMessageId == old(database.lastMessageId)
  {
    var users := SeedUsers(now);
    database.InsertUser(NewUser("Administrador Geral", "admin@ipbeja.pt", "1234", now, true));
    database.InsertUser(NewUser("Professor António", "antonio@ipbeja.pt", "1234", now, true));
    database.InsertUser(NewUser("Professora Ana", "ana@ipbeja.pt", "1234", now, true));
    database.InsertUser(NewUser("João Carapuça", "joao@ipbeja.pt", "1234", now, false));
    database.InsertUser(NewUser("Maria Silva", "maria@ipbeja.pt", "1234", now, false));
    database.InsertUser(NewUser("Laura Remechido", "laura@ipbeja.pt", "1234", now, false));
  }

  /** The three `insertGroup` calls of the seed, returning the ids they hand out. */
  method PopulateGroups(database: Store, now: Long) returns (siGroupId: int, twGroupId: int, designGroupId: int)
    requires database.Valid()
    requires database.groups == [] && database.lastGroupId == 0
    modifies database
    ensures database.Valid()
    ensures database.groups == SeedGroups(now) && database.lastGroupId == 3
    ensures siGroupId == 1 && twGroupId == 2 && designGroupId == 3
    ensures database.users == old(database.users) && database.members == old(database.members)
    ensures database.messages == old(database.messages)
    ensures database.lastUserId == old(database.lastUserId) && database.lastMemberId == old(database.lastMemberId)
    ensures database.lastMessageId == old(database.lastMessageId)
  {
    var groups := SeedGroups(now);
    var si := database.InsertGroup(NewGroup("SI", 1, now, "Sistemas de Informação"));
    assert database.groups == [groups[0]];
    var tw := database.InsertGroup(NewGroup("TW", 1, now, "Tecnologia Web"));
    assert database.groups == [groups[0], groups[1]];
    var design := database.InsertGroup(NewGroup("Design", 1, now, "Design e Multimédia"));
    siGroupId, twGroupId, designGroupId := si.value, tw.value, design.value;
  }

  /** The four `insertGroupMember` calls of the seed, with the group ids `insertGroup` returned. */
  method PopulateMembers(database: Store, siGroupId: int, twGroupId: int, designGroupId: int, now: Long)
    requires database.Valid()
    requires {siGroupId, twGroupId, designGroupId} <= Groups.Ids(database.groups)
    requires {2, 4, 5, 6} <= Users.Ids(database.users)
    requires database.members == [] && database.lastMemberId == 0
    modifies database
    ensures database.Valid()
    ensures database.members == [ GroupMember(1, siGroupId, 4, now), GroupMember(2, twGroupId, 5, now),
                                  GroupMember(3, designGroupId, 6, now), GroupMember(4, siGroupId, 2, now) ]
    ensures database.lastMemberId == 4
    ensures database.users == old(database.users) && database.groups == old(database.groups)
    ensures database.messages == old(database.messages)
    ensures database.lastUserId == old(database.lastUserId) && database.lastGroupId == old(database.lastGroupId)
    ensures database.lastMessageId == old(database.lastMessageId)
  {
    var ok := database.InsertGroupMember(NewGroupMember(siGroupId, 4, now));
    ok := database.InsertGroupMember(NewGroupMember(twGroupId, 5, now));
    ok := database.InsertGroupMember(NewGroupMember(designGroupId, 6, now));
    ok := database.InsertGroupMember(NewGroupMember(siGroupId, 2, now));
  }
}
