/**
 * The two stored records (flaskapi/models.py) and the in-memory store that
 * stands in for the relational database: one sequence of rows per table, in
 * insertion order.
 */
module Models {

  datatype User = User(id: int, name: string, lastName: string, email: string, role: string, state: string)

  datatype Post = Post(id: int, title: string, description: string, author: int)

  datatype Db = Db(users: seq<User>, posts: seq<Post>)

  /**
   * The id the store gives a new row: one more than the largest id in the
   * table, or 1 for an empty table (rows are never deleted here).
   */
  function NextId(ids: seq<int>): (n: int)
    ensures |ids| == 0 ==> n == 1
    ensures forall i | i in ids :: i < n
    ensures |ids| > 0 ==> n - 1 in ids
    decreases |ids|
  {
    if |ids| == 0 then 1
    else
      var last := ids[|ids| - 1];
      if |ids| == 1 then last + 1
      else
        var rest := NextId(ids[..|ids| - 1]);
        assert ids == ids[..|ids| - 1] + [last];
        if last + 1 > rest then last + 1 else rest
  }

  /** The ids of a table, in row order. */
  function Ids<T>(rows: seq<T>, id: T -> int): (ids: seq<int>)
    ensures |ids| == |rows|
    ensures forall r | r in rows :: id(r) in ids
  {
    var ids := seq(|rows|, i requires 0 <= i < |rows| => id(rows[i]));
    assert forall r | r in rows :: id(r) in ids by {
      forall r | r in rows ensures id(r) in ids {
        var i :| 0 <= i < |rows| && rows[i] == r;
        assert ids[i] == id(r);
      }
    }
    ids
  }

  /** The primary-key property of a table's ids. */
  predicate UniqueUserIds(users: seq<User>)
  {
    forall i, j | 0 <= i < j < |users| :: users[i].id != users[j].id
  }

  predicate UniquePostIds(posts: seq<Post>)
  {
    forall i, j | 0 <= i < j < |posts| :: posts[i].id != posts[j].id
  }

  /** No two users share an email address. */
  predicate UniqueEmails(users: seq<User>)
  {
    forall i, j | 0 <= i < j < |users| :: users[i].email != users[j].email
  }

  /** The invariants the request handlers maintain on the store. */
  predicate Wellformed(db: Db)
  {
    UniqueUserIds(db.users) && UniquePostIds(db.posts) && UniqueEmails(db.users)
  }

  /** The distinct authors of the stored posts. */
  function Authors(posts: seq<Post>): (r: set<int>)
    ensures r == {} <==> posts == []
  {
    var r := set p | p in posts :: p.author;
    assert posts != [] ==> posts[0].author in r;
    r
  }
}
