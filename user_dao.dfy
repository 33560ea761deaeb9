/**
 * `UserDao`: each query is the SQL of its annotation evaluated on a snapshot
 * of the `users` table; each update is the new table the statement leaves.
 * The statements that change the store are methods of `AppDatabase.Store`,
 * which use the table functions below.
 */
module UserDao {
  import opened Tables
  import opened Users

  predicate HasCredentials(u: User, email: string, password: string)
  {
    u.email == email && u.password == password
  }

  /**
   * `SELECT * FROM users WHERE email = :email AND password = :password LIMIT 1`:
   * a user whose stored email and password are exactly the arguments, or none
   * when there is no such user. Which one, when several match, is not promised.
   */
  function LoginUser(users: seq<User>, email: string, password: string): (r: Option<User>)
    ensures r.Some? ==> r.value in users && r.value.email == email && r.value.password == password
    ensures r.None? <==> forall u :: u in users ==> u.email != email || u.password != password
  {
    First(users, (u: User) => HasCredentials(u, email, password))
  }

  predicate HasEmail(u: User, email: string)
  {
    u.email == email
  }

  /** `SELECT COUNT(*) FROM users WHERE email = :email`: the number of rows holding that email. */
  function EmailExists(users: seq<User>, email: string): (n: nat)
    ensures n == |set i | 0 <= i < |users| && users[i].email == email|
    ensures n == 0 <==> forall u :: u in users ==> u.email != email
  {
    var p := (u: User) => HasEmail(u, email);
    CountIsMatchingPositions(users, p);
    assert MatchingPositions(users, p) == set i | 0 <= i < |users| && users[i].email == email;
    Count(users, p)
  }

  /** With emails unique, at most one row has a given email. */
  lemma {:induction false} EmailExistsAtMostOne(users: seq<User>, email: string)
    requires UniqueEmails(users)
    ensures EmailExists(users, email) <= 1
  {
    var hits := set i | 0 <= i < |users| && users[i].email == email;
    if hits != {} {
      var i :| i in hits;
      assert hits == {i};
    }
  }

  /** ORDER BY createdAt DESC. */
  predicate NewestFirst(a: User, b: User)
  {
    a.createdAt >= b.createdAt
  }

  lemma NewestFirstIsTotalPreorder()
    ensures TotalPreorder(NewestFirst)
  {
  }

  /** `SELECT * FROM users ORDER BY createdAt DESC`: every row, newest first. */
  function GetAllUsers(users: seq<User>): (r: seq<User>)
    ensures multiset(r) == multiset(users)
    ensures SortedBy(r, NewestFirst)
  {
    NewestFirstIsTotalPreorder();
    SortBySorted(users, NewestFirst);
    SortBy(users, NewestFirst)
  }

  predicate HasId(u: User, id: int)
  {
    u.id == id
  }

  /** `WHERE id = :id` on users. */
  function IdIs(id: int): User -> bool
  {
    (u: User) => HasId(u, id)
  }

  /** `SELECT * FROM users WHERE id = :id`: the row with that id, or none. */
  function GetUserById(users: seq<User>, id: int): (r: Option<User>)
    ensures r.Some? ==> r.value in users && r.value.id == id
    ensures r.None? <==> id !in Ids(users)
  {
    First(users, IdIs(id))
  }

  /** The id is the primary key, so the look-up finds the one row with that id. */
  lemma GetUserByIdUnique(users: seq<User>, lastId: int, u: User)
    requires PrimaryKey(users, lastId)
    requires u in users
    ensures GetUserById(users, u.id) == Some(u)
  {
    var p := IdIs(u.id);
    forall y | y in users && p(y)
      ensures y == u
    {
      var i :| 0 <= i < |users| && users[i] == y;
      var j :| 0 <= j < |users| && users[j] == u;
      assert i == j;
    }
    FirstIsOnly(users, p, u);
  }

  predicate IsTeacher(u: User)
  {
    u.isAdmin
  }

  predicate IsStudent(u: User)
  {
    !u.isAdmin
  }

  /** `SELECT * FROM users WHERE isAdmin = 1`. */
  function GetTeachers(users: seq<User>): (r: seq<User>)
    ensures forall u :: u in r <==> u in users && u.isAdmin
    ensures forall u: User :: u.isAdmin ==> multiset(r)[u] == multiset(users)[u]
  {
    FilterMultiset(users, IsTeacher);
    Filter(users, IsTeacher)
  }

  /** `SELECT * FROM users WHERE isAdmin = 0`. */
  function GetStudents(users: seq<User>): (r: seq<User>)
    ensures forall u :: u in r <==> u in users && !u.isAdmin
    ensures forall u: User :: !u.isAdmin ==> multiset(r)[u] == multiset(users)[u]
  {
    FilterMultiset(users, IsStudent);
    Filter(users, IsStudent)
  }

  /** Teachers and students together are every user, each as often as in the table. */
  lemma TeachersAndStudentsPartition(users: seq<User>)
    ensures multiset(GetTeachers(users)) + multiset(GetStudents(users)) == multiset(users)
  {
    var t, s := GetTeachers(users), GetStudents(users);
    FilterMultiset(users, IsTeacher);
    FilterMultiset(users, IsStudent);
    assert forall u :: (multiset(t) + multiset(s))[u] == multiset(users)[u];
  }

  /**
   * `UPDATE users SET password = :newPassword WHERE id = :userId`: the rows
   * with that id get the new password; every other field and row stays.
   */
  function SetPassword(users: seq<User>, userId: int, newPassword: string): (r: seq<User>)
    ensures |r| == |users|
    ensures forall i :: 0 <= i < |r| ==> r[i].(password := users[i].password) == users[i]
    ensures forall i :: 0 <= i < |r| ==> r[i].password == if users[i].id == userId then newPassword else users[i].password
  {
    seq(|users|, i requires 0 <= i < |users| =>
      if users[i].id == userId then users[i].(password := newPassword) else users[i])
  }

  /** No row has the id: the UPDATE changes nothing. */
  lemma SetPasswordMissingId(users: seq<User>, userId: int, newPassword: string)
    requires userId !in Ids(users)
    ensures SetPassword(users, userId, newPassword) == users
  {
    var r := SetPassword(users, userId, newPassword);
    forall i | 0 <= i < |users|
      ensures r[i] == users[i]
    {
      assert users[i] in users;
    }
  }

  /** The UPDATE keeps ids and emails, so it keeps the primary key and email uniqueness. */
  lemma SetPasswordKeepsKeys(users: seq<User>, userId: int, newPassword: string, lastId: int)
    ensures Ids(SetPassword(users, userId, newPassword)) == Ids(users)
    ensures PrimaryKey(users, lastId) ==> PrimaryKey(SetPassword(users, userId, newPassword), lastId)
    ensures UniqueEmails(users) ==> UniqueEmails(SetPassword(users, userId, newPassword))
  {
    var r := SetPassword(users, userId, newPassword);
    assert forall i :: 0 <= i < |r| ==> r[i].id == users[i].id && r[i].email == users[i].email;
    forall id | id in Ids(users) ensures id in Ids(r) {
      var i :| 0 <= i < |users| && users[i].id == id;
      assert r[i] in r;
    }
    forall id | id in Ids(r) ensures id in Ids(users) {
      var i :| 0 <= i < |r| && r[i].id == id;
      assert users[i] in users;
    }
    if PrimaryKey(users, lastId) {
      forall u | u in r ensures u.id <= lastId {
        var i :| 0 <= i < |r| && r[i] == u;
        assert users[i] in users;
      }
    }
  }

  /** The rows a deletion of id `id` leaves. */
  function OtherId(id: int): User -> bool
  {
    (u: User) => u.id != id
  }

  /** `@Delete deleteUser(user)`: `DELETE FROM users WHERE id = :user.id`. */
  function DeleteById(users: seq<User>, id: int): (r: seq<User>)
    ensures forall u :: u in r <==> u in users && u.id != id
    ensures forall u: User :: u.id != id ==> multiset(r)[u] == multiset(users)[u]
  {
    FilterMultiset(users, OtherId(id));
    Filter(users, OtherId(id))
  }

  /** The deleted id is gone and no other; the primary key and distinct emails survive the delete. */
  lemma DeleteByIdKeepsKeys(users: seq<User>, id: int, lastId: int)
    ensures Ids(DeleteById(users, id)) == Ids(users) - {id}
    ensures PrimaryKey(users, lastId) ==> PrimaryKey(DeleteById(users, id), lastId)
    ensures UniqueEmails(users) ==> UniqueEmails(DeleteById(users, id))
  {
    FilterKeepsDistinct(users, OtherId(id), IdOf);
    FilterKeepsDistinct(users, OtherId(id), EmailOf);
  }

  /**
   * The row that INSERT OR REPLACE writes over: the row holding `u.id` becomes
   * `u`, in the same place; the other rows stay.
   */
  function ReplaceRow(users: seq<User>, u: User): (r: seq<User>)
    ensures |r| == |users|
    ensures forall i :: 0 <= i < |r| ==> r[i].id == users[i].id
    ensures forall i :: 0 <= i < |r| && users[i].id == u.id ==> r[i] == u
    ensures forall i :: 0 <= i < |r| && users[i].id != u.id ==> r[i] == users[i]
  {
    seq(|users|, i requires 0 <= i < |users| => if users[i].id == u.id then u else users[i])
  }

  /** Replacing keeps the set of ids and the primary key, and the new row is in the table. */
  lemma ReplaceRowKeepsKeys(users: seq<User>, u: User, lastId: int)
    requires u.id in Ids(users)
    ensures u in ReplaceRow(users, u)
    ensures Ids(ReplaceRow(users, u)) == Ids(users)
    ensures PrimaryKey(users, lastId) ==> PrimaryKey(ReplaceRow(users, u), lastId)
  {
    var r := ReplaceRow(users, u);
    assert u in r by {
      var k :| 0 <= k < |users| && users[k].id == u.id;
      assert r[k] == u;
    }
    assert Ids(r) <= Ids(users) by {
      forall x | x in r
        ensures x.id in Ids(users)
      {
        var i :| 0 <= i < |r| && r[i] == x;
        assert users[i] in users;
      }
    }
    assert Ids(users) <= Ids(r) by {
      forall y | y in users
        ensures y.id in Ids(r)
      {
        var i :| 0 <= i < |users| && users[i] == y;
        assert r[i] in r;
      }
    }
  }
}
