# Groups and users data layer, in Dafny

This project models the part of the Android app's Room database that holds
users, groups, group memberships and group messages, and the two
repositories built on it.

- **Tables and entities.** `users`, `groups`, `group_members` and
  `group_messages` are sequences of rows in insertion order. Every table has
  an auto-generated integer id: id 0 asks SQLite for the next AUTOINCREMENT
  value, which is one more than the largest id the table has handed out.
- **Store.** `AppDatabase.Store` is a class holding the four tables and the
  four AUTOINCREMENT counters. Its invariant `Valid` covers three things:
  - the primary keys hold;
  - no id is above its table's counter;
  - every membership and every message names a stored group and a stored user.
- **Statements that change tables.** The DAO statements that change a table
  are `Store` methods. Each one states the whole new state.
  - A membership or message insert that would break a foreign key fails and
    changes nothing.
  - Deleting a group or a user cascades to memberships and messages
    (ON DELETE CASCADE).
  - `insertUser` is INSERT OR REPLACE. Replacing an existing id deletes the
    old row, and that delete cascades too.
- **Queries.** The DAO queries are functions on table snapshots (modules
  `UserDao` and `GroupDao`).
  - A query without ORDER BY promises the rows, not their order.
  - An ORDER BY query promises a sorted permutation of the joined rows, with
    no promise about how ties are ordered.
  - Names compare by code point, SQLite's BINARY collation.
  - Inner joins drop rows whose partner row is missing.
- **Repositories.** `UserRepository` and `GroupRepository` are classes over one
  `Store`. They add the check-then-insert rules: one registration per email,
  one membership per (group, user) pair. They turn failures into `false`
  or into an absent result.
- **Seed.** `AppDatabase.PopulateDatabase` inserts the fixed first-run seed of
  users, groups and memberships into an empty store.
- **Converters.** `Converters` holds the `Long`/`Date` type converters.

Modules: `Tables` holds the generic row operations: filter, count, first match,
insertion sort, text order, key uniqueness and AUTOINCREMENT. `Converters`,
`Users`, `Groups`, `GroupMembers` and `GroupMessages` hold the entities and
their cascades. `UserDao` and `GroupDao` hold the queries and table updates.
`AppDatabase` holds the store and the seed. `UserRepository` and
`GroupRepository` hold the repositories.

Source paths in the table are relative to the repository root.

## Model

| member | source | states |
|---|---|---|
| Converters.FromTimestamp | app/src/main/java/com/example/myapplication/database/Converts.kt:11-14 | null gives null; a count gives the date holding that count |
| Converters.DateToTimestamp | app/src/main/java/com/example/myapplication/database/Converts.kt:16-19 | null gives null; a date gives its millisecond count |
| Converters.TimestampRoundTrip | app/src/main/java/com/example/myapplication/database/Converts.kt:12-19 | `dateToTimestamp(fromTimestamp(v)) == v` for every value, null included |
| Converters.DateRoundTrip | app/src/main/java/com/example/myapplication/database/Converts.kt:12-19 | `fromTimestamp(dateToTimestamp(d)) == d` for every date, null included |
| Users.NewUserDefaults | app/src/main/java/com/example/myapplication/database/User.kt:8-13 | a new user has id 0 (to be assigned), `isAdmin` false, and the password exactly as given |
| Users.SameEmailAllowed | app/src/main/java/com/example/myapplication/database/User.kt:6-12 | two users may share an email: the table still satisfies its primary key, yet emails are not unique |
| Groups.NewGroupDefaults | app/src/main/java/com/example/myapplication/database/Group.kt:11-14 | a new group has id 0 (to be assigned) and an empty description |
| Groups.SameNameAllowed | app/src/main/java/com/example/myapplication/database/Group.kt:9-16 | two groups with the same name and creator satisfy every schema constraint |
| GroupMessages.NewGroupMessageDefaults | app/src/main/java/com/example/myapplication/database/GroupMessage.kt:28-34 | a new message has id 0 and is unread |
| GroupMembers.CascadeGroup | app/src/main/java/com/example/myapplication/database/GroupMember.kt:13-18 | after deleting a group, exactly the memberships of other groups remain, each as often as before |
| GroupMembers.CascadeUser | app/src/main/java/com/example/myapplication/database/GroupMember.kt:19-24 | after deleting a user, exactly the memberships of other users remain, each as often as before |
| GroupMembers.CascadesKeepReferences | app/src/main/java/com/example/myapplication/database/GroupMember.kt:12-24 | after a cascade every membership still names a surviving group and user |
| GroupMembers.CascadesKeepPrimaryKey | app/src/main/java/com/example/myapplication/database/GroupMember.kt:12-29 | a cascade keeps ids unique and keeps at most one row per (group, user) pair |
| GroupMessages.CascadeGroup | app/src/main/java/com/example/myapplication/database/GroupMessage.kt:13-18 | after deleting a group, exactly the messages of other groups remain, each as often as before |
| GroupMessages.CascadeSender | app/src/main/java/com/example/myapplication/database/GroupMessage.kt:19-24 | after deleting a user, exactly the messages of other senders remain, each as often as before |
| GroupMessages.CascadesKeepReferences | app/src/main/java/com/example/myapplication/database/GroupMessage.kt:12-24 | after a cascade every message still names a surviving group and sender |
| GroupMessages.CascadesKeepPrimaryKey | app/src/main/java/com/example/myapplication/database/GroupMessage.kt:12-29 | a cascade keeps message ids unique |
| Tables.AssignedIdFresh | app/src/main/java/com/example/myapplication/database/User.kt:8-9 | id 0 (or an unused id) gives a row id that no stored row has, and the counter moves up to it |
| UserDao.LoginUser | app/src/main/java/com/example/myapplication/database/UserDao.kt:12-13 | some row whose email and password equal the arguments exactly, or none exactly when no row matches |
| UserDao.EmailExists | app/src/main/java/com/example/myapplication/database/UserDao.kt:15-16 | the number of rows holding the email; 0 exactly when no row has it |
| UserDao.EmailExistsAtMostOne | app/src/main/java/com/example/myapplication/database/UserDao.kt:15-16 | with emails unique the count is at most one |
| UserDao.GetAllUsers | app/src/main/java/com/example/myapplication/database/UserDao.kt:18-19 | every user, as often as stored, with `createdAt` non-increasing |
| UserDao.GetUserById | app/src/main/java/com/example/myapplication/database/UserDao.kt:21-22 | a row with that id, or none exactly when no row has it |
| UserDao.GetUserByIdUnique | app/src/main/java/com/example/myapplication/database/UserDao.kt:21-22 | under the primary key the look-up returns the one row with that id |
| UserDao.GetTeachers | app/src/main/java/com/example/myapplication/database/UserDao.kt:30-31 | exactly the administrators, each as often as stored |
| UserDao.GetStudents | app/src/main/java/com/example/myapplication/database/UserDao.kt:33-34 | exactly the non-administrators, each as often as stored |
| UserDao.TeachersAndStudentsPartition | app/src/main/java/com/example/myapplication/database/UserDao.kt:30-34 | teachers and students together are every user exactly as often as stored |
| UserDao.SetPassword | app/src/main/java/com/example/myapplication/database/UserDao.kt:24-25 | row by row, only the password of rows with that id changes, to the new one |
| UserDao.SetPasswordMissingId | app/src/main/java/com/example/myapplication/database/UserDao.kt:24-25 | with no row holding the id the table is unchanged |
| UserDao.SetPasswordKeepsKeys | app/src/main/java/com/example/myapplication/database/UserDao.kt:24-25 | the update keeps the set of ids, the primary key and email uniqueness |
| UserDao.DeleteById | app/src/main/java/com/example/myapplication/database/UserDao.kt:27-28 | exactly the rows with other ids remain, each as often as before |
| UserDao.DeleteByIdKeepsKeys | app/src/main/java/com/example/myapplication/database/UserDao.kt:27-28 | the deleted id and no other leaves the id set; primary key and email uniqueness survive |
| UserDao.ReplaceRow | app/src/main/java/com/example/myapplication/database/UserDao.kt:9-10 | REPLACE writes the new row over the row with its id, in place; row count, ids and other rows are unchanged |
| UserDao.ReplaceRowKeepsKeys | app/src/main/java/com/example/myapplication/database/UserDao.kt:9-10 | after REPLACE the new row is stored, the id set is the same and the primary key holds |
| GroupDao.GetAllGroups | app/src/main/java/com/example/myapplication/database/GroupDao.kt:21-22 | every group, as often as stored, sorted by name |
| GroupDao.GetAllGroupsOnce | app/src/main/java/com/example/myapplication/database/GroupDao.kt:21-22 | under the primary key each stored group is listed exactly once |
| GroupDao.UserGroupRows | app/src/main/java/com/example/myapplication/database/GroupDao.kt:27-33 | the join yields exactly the groups with a membership row for the user |
| GroupDao.GetUserGroups | app/src/main/java/com/example/myapplication/database/GroupDao.kt:27-33 | the joined rows, each as often as the join yields it, sorted by name; exactly the groups the user belongs to |
| GroupDao.UserGroupRowsCount | app/src/main/java/com/example/myapplication/database/GroupDao.kt:27-33 | under the groups' primary key, a stored group is yielded once per membership row of the (group, user) pair; an unstored group never |
| GroupDao.GetUserGroupsCount | app/src/main/java/com/example/myapplication/database/GroupDao.kt:27-33 | under the groups' primary key, each stored group is listed as often as `isUserInGroup` counts the pair |
| GroupDao.GetGroupById | app/src/main/java/com/example/myapplication/database/GroupDao.kt:44-45 | a group with that id, or none exactly when no group has it |
| GroupDao.DeleteById | app/src/main/java/com/example/myapplication/database/GroupDao.kt:38-39 | exactly the groups with other ids remain, each as often as before |
| GroupDao.DeleteByIdKeepsKeys | app/src/main/java/com/example/myapplication/database/GroupDao.kt:38-39 | the deleted id and no other leaves the id set; the primary key survives |
| GroupDao.RemovePair | app/src/main/java/com/example/myapplication/database/GroupDao.kt:63-64 | exactly the rows of other pairs remain, each as often as before |
| GroupDao.RemovePairKeepsKeys | app/src/main/java/com/example/myapplication/database/GroupDao.kt:63-64 | the delete keeps the primary key and at most one row per pair |
| GroupDao.IsUserInGroup | app/src/main/java/com/example/myapplication/database/GroupDao.kt:80-81 | the number of rows for the pair; 0 exactly when there is none |
| GroupDao.IsUserInGroupAppend | app/src/main/java/com/example/myapplication/database/GroupDao.kt:80-81 | appending a row for the pair raises the count by one |
| GroupDao.IsUserInGroupAtMostOne | app/src/main/java/com/example/myapplication/database/GroupDao.kt:80-81 | with unique pairs the count is 0 or 1 |
| GroupDao.MemberRows | app/src/main/java/com/example/myapplication/database/GroupDao.kt:69-75 | the join yields exactly the stored users with a membership in the group; memberships of missing users give nothing |
| GroupDao.GetGroupMembers | app/src/main/java/com/example/myapplication/database/GroupDao.kt:69-75 | the joined users, each as often as the join yields it, sorted by name |
| GroupDao.MemberRowsCount | app/src/main/java/com/example/myapplication/database/GroupDao.kt:69-75 | under the users' primary key, a stored user is yielded once per membership row of the (group, user) pair; an unstored user never |
| GroupDao.GetGroupMembersCount | app/src/main/java/com/example/myapplication/database/GroupDao.kt:69-75 | under the users' primary key, each stored user is listed as often as `isUserInGroup` counts the pair |
| GroupDao.SenderRows | app/src/main/java/com/example/myapplication/database/GroupDao.kt:110-117 | one message joined with exactly the users whose id is its sender id |
| GroupDao.SenderRowsCount | app/src/main/java/com/example/myapplication/database/GroupDao.kt:110-117 | one message yields as many joined rows as there are users with its sender id |
| GroupDao.SenderRowsOne | app/src/main/java/com/example/myapplication/database/GroupDao.kt:110-117 | under the users' primary key, a message whose sender is stored yields exactly one row, with that sender's name and email |
| GroupDao.MessageRows | app/src/main/java/com/example/myapplication/database/GroupDao.kt:110-117 | the join yields exactly the group's messages paired with their existing sender's name and email |
| GroupDao.GetGroupMessages | app/src/main/java/com/example/myapplication/database/GroupDao.kt:110-117 | the joined rows, each as often as the join yields it, oldest first |
| GroupDao.MessageRowsOnce | app/src/main/java/com/example/myapplication/database/GroupDao.kt:110-117 | under both primary keys, each of the group's messages with a stored sender is joined exactly once |
| GroupDao.GetGroupMessagesOnce | app/src/main/java/com/example/myapplication/database/GroupDao.kt:110-117 | under both primary keys, each of the group's messages with a stored sender is listed exactly once |
| GroupDao.MarkRead | app/src/main/java/com/example/myapplication/database/GroupDao.kt:122-123 | row by row, the group's messages become read and nothing else changes |
| GroupDao.MarkReadIdempotent | app/src/main/java/com/example/myapplication/database/GroupDao.kt:122-123 | marking twice equals marking once |
| GroupDao.MarkReadKeepsKeys | app/src/main/java/com/example/myapplication/database/GroupDao.kt:122-123 | the update keeps ids, the primary key and both foreign keys |
| AppDatabase.AddUserKeepsIntegrity | app/src/main/java/com/example/myapplication/database/UserDao.kt:9-10 | adding a user under a fresh id keeps every schema constraint |
| AppDatabase.ReplaceUserKeepsIntegrity | app/src/main/java/com/example/myapplication/database/UserDao.kt:9-10 | REPLACE over a stored id, with its cascades, keeps every schema constraint |
| AppDatabase.DeleteUserKeepsIntegrity | app/src/main/java/com/example/myapplication/database/UserDao.kt:27-28 | deleting a user, with its cascades, keeps every schema constraint |
| AppDatabase.SetPasswordKeepsIntegrity | app/src/main/java/com/example/myapplication/database/UserDao.kt:24-25 | a password update keeps every schema constraint |
| AppDatabase.AddGroupKeepsIntegrity | app/src/main/java/com/example/myapplication/database/GroupDao.kt:15-16 | adding a group under a fresh id keeps every schema constraint |
| AppDatabase.DeleteGroupKeepsIntegrity | app/src/main/java/com/example/myapplication/database/GroupDao.kt:38-39 | deleting a group, with its cascades, keeps every schema constraint |
| AppDatabase.AddMemberKeepsIntegrity | app/src/main/java/com/example/myapplication/database/GroupDao.kt:57-58 | a membership naming a stored group and user, under a fresh id, keeps every schema constraint |
| AppDatabase.RemovePairKeepsIntegrity | app/src/main/java/com/example/myapplication/database/GroupDao.kt:63-64 | removing a pair's rows keeps every schema constraint |
| AppDatabase.AddMessageKeepsIntegrity | app/src/main/java/com/example/myapplication/database/GroupDao.kt:104-105 | a message naming a stored group and sender, under a fresh id, keeps every schema constraint |
| AppDatabase.MarkReadKeepsIntegrity | app/src/main/java/com/example/myapplication/database/GroupDao.kt:122-123 | marking messages read keeps every schema constraint |
| AppDatabase.Store.constructor | app/src/main/java/com/example/myapplication/database/AppDatabase.kt:45-54 | a new database: empty tables, counters at 0, constraints hold |
| AppDatabase.Store.InsertUser | app/src/main/java/com/example/myapplication/database/UserDao.kt:9-10 | a stored id: that row is replaced in place, and its memberships and messages go; otherwise one row is appended under the assigned id and the counter advances |
| AppDatabase.Store.UpdatePassword | app/src/main/java/com/example/myapplication/database/UserDao.kt:24-25 | users become `SetPassword` of the old table; nothing else changes |
| AppDatabase.Store.DeleteUser | app/src/main/java/com/example/myapplication/database/UserDao.kt:27-28 | the user's row goes, with its memberships and messages; groups are untouched, since `createdBy` has no foreign key |
| AppDatabase.Store.InsertGroup | app/src/main/java/com/example/myapplication/database/GroupDao.kt:15-16 | absent exactly when the id is already stored; otherwise one group is appended under a fresh id, which is returned |
| AppDatabase.Store.DeleteGroup | app/src/main/java/com/example/myapplication/database/GroupDao.kt:38-39 | the group's row goes, with its memberships and messages; users are untouched |
| AppDatabase.Store.InsertGroupMember | app/src/main/java/com/example/myapplication/database/GroupDao.kt:57-58 | succeeds exactly when the group and user exist and the id is free; it then appends under a fresh id, and otherwise changes nothing |
| AppDatabase.Store.RemoveGroupMember | app/src/main/java/com/example/myapplication/database/GroupDao.kt:63-64 | memberships become `RemovePair` of the old table; nothing else changes |
| AppDatabase.Store.InsertGroupMessage | app/src/main/java/com/example/myapplication/database/GroupDao.kt:104-105 | succeeds exactly when the group and sender exist and the id is free; it then appends under a fresh id, and otherwise changes nothing |
| AppDatabase.Store.MarkGroupMessagesAsRead | app/src/main/java/com/example/myapplication/database/GroupDao.kt:122-123 | messages become `MarkRead` of the old table; nothing else changes |
| AppDatabase.SeedUserRoles | app/src/main/java/com/example/myapplication/database/AppDatabase.kt:84-105 | six seeded users, ids 1 to 6; ids 1–3 administrators, 4–6 not; every password "1234" |
| AppDatabase.SeedEmailsTaken | app/src/main/java/com/example/myapplication/database/AppDatabase.kt:84-105 | seeded emails are distinct and each is counted once, so registering with one is refused |
| AppDatabase.SeedGroupNames | app/src/main/java/com/example/myapplication/database/AppDatabase.kt:118-127 | three seeded groups, SI, TW and Design, all created by user 1 |
| AppDatabase.SeedMemberships | app/src/main/java/com/example/myapplication/database/AppDatabase.kt:129-133 | SI holds users 4 and 2, TW user 5, Design user 6; one row per such pair and none for any other pair |
| AppDatabase.SeedUserKeys | app/src/main/java/com/example/myapplication/database/AppDatabase.kt:84-105 | seeded user ids are distinct and are exactly 1 to 6 |
| AppDatabase.SeedGroupKeys | app/src/main/java/com/example/myapplication/database/AppDatabase.kt:118-127 | seeded group ids are distinct and are exactly 1 to 3 |
| AppDatabase.SeedMemberKeys | app/src/main/java/com/example/myapplication/database/AppDatabase.kt:129-133 | seeded memberships have distinct ids and name only seeded groups and users |
| AppDatabase.SeedIntegrity | app/src/main/java/com/example/myapplication/database/AppDatabase.kt:84-133 | the seed state satisfies every schema constraint, referential integrity included |
| AppDatabase.PopulateDatabase | app/src/main/java/com/example/myapplication/database/AppDatabase.kt:77-134 | seeding an empty database leaves exactly the seeded users, groups and memberships and no messages; the counters end at 6, 3, 4 and 0 |
| AppDatabase.PopulateUsers | app/src/main/java/com/example/myapplication/database/AppDatabase.kt:84-105 | the six user inserts give the seeded users ids 1 to 6 |
| AppDatabase.PopulateGroups | app/src/main/java/com/example/myapplication/database/AppDatabase.kt:118-127 | the three group inserts give ids 1, 2 and 3, which are returned |
| AppDatabase.PopulateMembers | app/src/main/java/com/example/myapplication/database/AppDatabase.kt:129-133 | the four membership inserts, with the returned group ids, all succeed, in order, with ids 1 to 4; the membership counter ends at 4 and the other tables and counters are unchanged |
| UserRepository.UserRepository.LoginUser | app/src/main/java/com/example/myapplication/repository/UserRepository.kt:18-20 | some user with exactly that email and password, or none exactly when there is none |
| UserRepository.UserRepository.RegisterUser | app/src/main/java/com/example/myapplication/repository/UserRepository.kt:25-37 | refused, with nothing changed, exactly when the email is taken; otherwise exactly one user with the given fields is appended under a fresh id. Email uniqueness is preserved |
| UserRepository.UserRepository.GetAllUsers | app/src/main/java/com/example/myapplication/repository/UserRepository.kt:42 | every user, newest first |
| UserRepository.UserRepository.GetUserById | app/src/main/java/com/example/myapplication/repository/UserRepository.kt:47 | the user with that id, or none exactly when there is none |
| UserRepository.UserRepository.UpdatePassword | app/src/main/java/com/example/myapplication/repository/UserRepository.kt:52-59 | true; only the password of the user with that id changes, and all other users, fields, tables and counters stay |
| UserRepository.UserRepository.DeleteUser | app/src/main/java/com/example/myapplication/repository/UserRepository.kt:64-71 | true, with no role check; the user and every membership and message of theirs are gone and nothing else is; groups and all four counters are unchanged |
| UserRepository.UserRepository.GetStudents | app/src/main/java/com/example/myapplication/repository/UserRepository.kt:76 | exactly the non-administrators |
| UserRepository.UserRepository.GetTeachers | app/src/main/java/com/example/myapplication/repository/UserRepository.kt:81 | exactly the administrators |
| GroupRepository.GroupRepository.CreateGroup | app/src/main/java/com/example/myapplication/repository/GroupRepository.kt:18-25 | exactly one group with the given fields is appended under a fresh id, which is returned; no other table and no other counter changes |
| GroupRepository.GroupRepository.GetAllGroups | app/src/main/java/com/example/myapplication/repository/GroupRepository.kt:30-32 | every group, sorted by name |
| GroupRepository.GroupRepository.GetUserGroups | app/src/main/java/com/example/myapplication/repository/GroupRepository.kt:37-39 | exactly the user's groups, as the join yields them (same multiset), sorted by name |
| GroupRepository.GroupRepository.AddMemberToGroup | app/src/main/java/com/example/myapplication/repository/GroupRepository.kt:44-56 | true exactly when the pair had no row and both group and user exist; one row is then appended and the count is 1; otherwise nothing changes. At most one row per pair is preserved |
| GroupRepository.GroupRepository.RemoveMemberFromGroup | app/src/main/java/com/example/myapplication/repository/GroupRepository.kt:61-68 | true; afterwards the pair has no row and other pairs' rows are unchanged; other tables and all counters are unchanged |
| GroupRepository.GroupRepository.GetGroupMembers | app/src/main/java/com/example/myapplication/repository/GroupRepository.kt:73-75 | exactly the group's existing members, as the join yields them (same multiset), sorted by name |
| GroupRepository.GroupRepository.GetGroupMembersList | app/src/main/java/com/example/myapplication/repository/GroupRepository.kt:80-82 | the same sequence as `getGroupMembers` on the same snapshot |
| GroupRepository.GroupRepository.SendGroupMessage | app/src/main/java/com/example/myapplication/repository/GroupRepository.kt:87-99 | true exactly when group and sender exist; exactly one unread message is then appended under a fresh id; otherwise nothing changes |
| GroupRepository.GroupRepository.GetGroupMessages | app/src/main/java/com/example/myapplication/repository/GroupRepository.kt:104-106 | the group's messages with an existing sender, with the sender's name and email, as the join yields them (same multiset), oldest first |
| GroupRepository.GroupRepository.DeleteGroup | app/src/main/java/com/example/myapplication/repository/GroupRepository.kt:111-118 | true; the group and all its memberships and messages are gone, rows of other groups unchanged; users and all counters are unchanged |
| GroupRepository.GroupRepository.IsUserInGroup | app/src/main/java/com/example/myapplication/repository/GroupRepository.kt:123-125 | true exactly when some membership row links the user to the group |
| GroupRepository.GroupRepository.GetGroupById | app/src/main/java/com/example/myapplication/repository/GroupRepository.kt:130-132 | the group with that id, or none exactly when there is none |
| GroupRepository.GroupRepository.AddMemberToGroupTwice | app/src/main/java/com/example/myapplication/repository/GroupRepository.kt:46-51 | for a new pair, the first call returns true, the second false; exactly one row is appended under the next membership id, and no other table or counter changes |

## Left out

- Messages, posts, likes, schedules and alerts: their DAOs and entities are not part of this model. The three schedule inserts of the seed (`AppDatabase.kt:107-116`) are therefore left out of `PopulateDatabase`.
- The singleton in `AppDatabase.getDatabase`, the coroutine that starts seeding, destructive migration and schema versions: these are lifecycle and concurrency concerns, not table logic.
- Check-then-insert races in `registerUser` and `addMemberToGroup`: every operation runs alone here.
- Live `Flow` queries: each is a snapshot function of the current tables; re-delivery on change is not modelled.
- `System.currentTimeMillis()`: the clock reading is a `now` parameter. The seed uses one reading for every row, where the app reads the clock once per row.
- Ids are unbounded integers. Kotlin's 32-bit `Int` columns, SQLite's 64-bit rowids, and the `.toInt()` on the group ids returned to the seed are not modelled: no overflow or truncation can happen in the model.
- Exception messages: only the boolean or absent outcome is kept. Throwing is modelled as the failed insert leaving the tables unchanged.
- UserRepository.UserRepository.RegisterUser: the `catch` branch is not modelled, because an insert with id 0 under REPLACE cannot fail.
- UserRepository.UserRepository.UpdatePassword: it states the per-row effect, not a count of changed rows, because the source returns `true` whatever the UPDATE matched.
- Query results without ORDER BY (`loginUser`, `getUserById`, `getGroupById`, `getTeachers`, `getStudents`) promise which rows are returned, not their order. SQL gives no order for them either.
- GroupDao.UserGroupRowsCount: the multiplicity is stated under the groups' primary key only, which every valid store satisfies; with duplicate group rows each copy would be yielded too.
- GroupDao.MemberRowsCount: the multiplicity is stated under the users' primary key only, which every valid store satisfies; with duplicate user rows each copy would be yielded too.
- Ties under ORDER BY are ordered by insertion order in the model. The contracts promise only sortedness and the multiset of rows.
