/**
 * `UserRepository`: the layer between the screens and `UserDao`. Registration
 * checks that the email is not taken before inserting; the other operations
 * forward to the DAO and report success as a boolean. The queries are
 * snapshots of the users table.
 */
module UserRepository {
  import opened Tables
  import opened Users
  import opened AppDatabase
  import UserDao

  class UserRepository {
    const database: Store

    constructor (database: Store)
      ensures this.database == database
    {
      this.database := database;
    }

    /** `loginUser`: a user whose stored email and password equal the arguments exactly, or none when there is none. */
    function LoginUser(email: string, password: string): (r: Option<User>)
      reads database
      ensures r.Some? ==> r.value in database.users && r.value.email == email && r.value.password == password
      ensures r.None? <==> forall u :: u in database.users ==> u.email != email || u.password != password
    {
      UserDao.LoginUser(database.users, email, password)
    }

    /**
     * `registerUser`: refused when some user already has the email; otherwise
     * one new user with the given fields and a fresh id is added. The insert
     * cannot fail (REPLACE with id 0), so the catch branch is never taken.
     */
    method RegisterUser(name: string, email: string, password: string, now: Long, isAdmin: bool := false)
      returns (ok: bool)
      requires database.Valid()
      modifies database
      ensures database.Valid()
      ensures ok <==> forall u :: u in old(database.users) ==> u.email != email
      ensures ok ==>
        && database.lastUserId == old(database.lastUserId) + 1
        && database.lastUserId !in Users.Ids(old(database.users))
        && database.users == old(database.users) + [User(database.lastUserId, name, email, password, isAdmin, now)]
      ensures !ok ==> database.users == old(database.users) && database.lastUserId == old(database.lastUserId)
      ensures UniqueEmails(old(database.users)) ==> UniqueEmails(database.users)
      ensures database.groups == old(database.groups) && database.members == old(database.members)
      ensures database.messages == old(database.messages)
      ensures database.lastGroupId == old(database.lastGroupId) && database.lastMemberId == old(database.lastMemberId)
      ensures database.lastMessageId == old(database.lastMessageId)
    {
      if UserDao.EmailExists(database.users, email) > 0 {
        ok := false;
      } else {
        var u := NewUser(name, email, password, now, isAdmin);
        ghost var before := database.users;
        AssignedIdFresh(Users.Ids(before), database.lastUserId, 0);
        database.InsertUser(u);
        if UniqueEmails(before) {
          AppendKeepsDistinct(before, u.(id := AssignedId(0, old(database.lastUserId))), EmailOf);
        }
        ok := true;
      }
    }

    /** `getAllUsers`: every user, as often as stored, newest first. */
    function GetAllUsers(): (r: seq<User>)
      reads database
      ensures multiset(r) == multiset(database.users)
      ensures SortedBy(r, UserDao.NewestFirst)
    {
      UserDao.GetAllUsers(database.users)
    }

    /** `getUserById`: the user with that id, or none when no user has it. */
    function GetUserById(id: int): (r: Option<User>)
      reads database
      ensures r.Some? ==> r.value in database.users && r.value.id == id
      ensures r.None? <==> id !in Users.Ids(database.users)
    {
      UserDao.GetUserById(database.users, id)
    }

    /** `updatePassword`: only the password of the user with that id changes; it always reports success. */
    method UpdatePassword(userId: int, newPassword: string) returns (ok: bool)
      requires database.Valid()
      modifies database
      ensures database.Valid()
      ensures ok
      ensures |database.users| == |old(database.users)|
      ensures forall i :: 0 <= i < |database.users| ==>
        database.users[i] == if old(database.users)[i].id == userId
                             then old(database.users)[i].(password := newPassword)
                             else old(database.users)[i]
      ensures database.groups == old(database.groups) && database.members == old(database.members)
      ensures database.messages == old(database.messages)
      ensures database.lastUserId == old(database.lastUserId) && database.lastGroupId == old(database.lastGroupId)
      ensures database.lastMemberId == old(database.lastMemberId) && database.lastMessageId == old(database.lastMessageId)
    {
      database.UpdatePassword(userId, newPassword);
      ok := true;
    }

    /**
     * `deleteUser`: the user goes, with every membership and message that
     * points at it. There is no check of who is asking or of the user's role.
     */
    method DeleteUser(user: User) returns (ok: bool)
      requires database.Valid()
      modifies database
      ensures database.Valid()
      ensures ok
      ensures user.id !in Users.Ids(database.users)
      ensures forall u :: u in database.users <==> u in old(database.users) && u.id != user.id
      ensures forall m :: m in database.members <==> m in old(database.members) && m.userId != user.id
      ensures forall m :: m in database.messages <==> m in old(database.messages) && m.senderId != user.id
      ensures database.groups == old(database.groups)
      ensures database.lastUserId == old(database.lastUserId) && database.lastGroupId == old(database.lastGroupId)
      ensures database.lastMemberId == old(database.lastMemberId) && database.lastMessageId == old(database.lastMessageId)
    {
      database.DeleteUser(user);
      ok := true;
    }

    /** `getStudents`: exactly the users that are not administrators. */
    function GetStudents(): (r: seq<User>)
      reads database
      ensures forall u :: u in r <==> u in database.users && !u.isAdmin
      ensures forall u: User :: !u.isAdmin ==> multiset(r)[u] == multiset(database.users)[u]
    {
      UserDao.GetStudents(database.users)
    }

    /** `getTeachers`: exactly the users that are administrators. */
    function GetTeachers(): (r: seq<User>)
      reads database
      ensures forall u :: u in r <==> u in database.users && u.isAdmin
      ensures forall u: User :: u.isAdmin ==> multiset(r)[u] == multiset(database.users)[u]
    {
      UserDao.GetTeachers(database.users)
    }
  }
}
