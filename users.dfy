/**
 * The `users` table: its row type, the constructor defaults, and the
 * predicates over a whole table that the store and the repository keep.
 */
module Users {
  import opened Tables

  /**
   * A row of `users`. The password is stored as given; nothing in the schema
   * makes `email` unique.
   */
  datatype User = User(id: int, name: string, email: string, password: string, isAdmin: bool, createdAt: Long)

  /**
   * `User(name = …, email = …, password = …)`: the id is 0, meaning "let the
   * store assign one", and `isAdmin` is false unless given. The clock reading
   * that Kotlin takes for `createdAt` is a parameter.
   */
  function NewUser(name: string, email: string, password: string, createdAt: Long, isAdmin: bool := false): User
  {
    User(0, name, email, password, isAdmin, createdAt)
  }

  lemma NewUserDefaults(name: string, email: string, password: string, createdAt: Long)
    ensures NewUser(name, email, password, createdAt).id == 0
    ensures !NewUser(name, email, password, createdAt).isAdmin
    ensures NewUser(name, email, password, createdAt).password == password
  {
  }

  function Ids(users: seq<User>): set<int>
  {
    set u | u in users :: u.id
  }

  function IdOf(u: User): int
  {
    u.id
  }

  /** The primary key column holds no value twice. */
  ghost predicate UniqueIds(rows: seq<User>)
  {
    DistinctKeys(rows, IdOf)
  }

  /** The primary key, and no id above the last one AUTOINCREMENT handed out. */
  ghost predicate PrimaryKey(rows: seq<User>, lastId: int)
  {
    UniqueIds(rows) && forall x :: x in rows ==> x.id <= lastId
  }

  /** The uniqueness the repository (not the schema) aims for. */
  ghost predicate UniqueEmails(users: seq<User>)
  {
    DistinctKeys(users, EmailOf)
  }

  function EmailOf(u: User): string
  {
    u.email
  }

  /** The schema accepts two users with the same email: the table keeps its primary key without unique emails. */
  lemma SameEmailAllowed(email: string, createdAt: Long, last: int)
    requires last >= 2
    ensures PrimaryKey([User(1, "a", email, "", false, createdAt), User(2, "b", email, "", false, createdAt)], last)
    ensures !UniqueEmails([User(1, "a", email, "", false, createdAt), User(2, "b", email, "", false, createdAt)])
  {
    var rows := [User(1, "a", email, "", false, createdAt), User(2, "b", email, "", false, createdAt)];
    assert EmailOf(rows[0]) == EmailOf(rows[1]);
  }
}
