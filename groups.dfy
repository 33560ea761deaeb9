/**
 * The `groups` table. `name` carries no uniqueness constraint and `createdBy`
 * no foreign key: a group outlives the user who created it.
 */
module Groups {
  import opened Tables

  datatype Group = Group(id: int, name: string, description: string, createdAt: Long, createdBy: int)

  /** `Group(name = …, createdBy = …)`: id 0 (assigned by the store) and an empty description unless given. */
  function NewGroup(name: string, createdBy: int, createdAt: Long, description: string := ""): Group
  {
    Group(0, name, description, createdAt, createdBy)
  }

  lemma NewGroupDefaults(name: string, createdBy: int, createdAt: Long)
    ensures NewGroup(name, createdBy, createdAt).id == 0
    ensures NewGroup(name, createdBy, createdAt).description == ""
  {
  }

  function Ids(groups: seq<Group>): set<int>
  {
    set g | g in groups :: g.id
  }

  function IdOf(g: Group): int
  {
    g.id
  }

  /** The primary key column holds no value twice. */
  ghost predicate UniqueIds(rows: seq<Group>)
  {
    DistinctKeys(rows, IdOf)
  }

  /** The primary key, and no id above the last one AUTOINCREMENT handed out. */
  ghost predicate PrimaryKey(rows: seq<Group>, lastId: int)
  {
    UniqueIds(rows) && forall x :: x in rows ==> x.id <= lastId
  }

  /** Two groups with the same name and creator are a valid table: only the id is a key. */
  lemma SameNameAllowed(name: string, createdBy: int, createdAt: Long, last: int)
    requires last >= 2
    ensures PrimaryKey([Group(1, name, "", createdAt, createdBy), Group(2, name, "", createdAt, createdBy)], last)
  {
  }
}
