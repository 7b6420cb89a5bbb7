/**
 * The four request handlers of flaskapi/routes.py over the in-memory store:
 * GET and POST on /api/users and on /api/posts. Each handler is a pure
 * function from the store and the request to a response (and, for POST, the
 * store afterwards). Only outcomes are modelled: status codes, the result
 * sequences and the keys of the error map.
 */
module Routes {
  import opened Wrappers
  import opened Text
  import opened Models
  import opened Schemas
  import opened Listing

  datatype Response =
    | BadRequest(errors: Errors)
    | NotFound
    | Conflict
    | OneUser(found: Option<User>)
    | UserPage(total: seq<User>, items: seq<User>)
    | PostPage(totalPosts: seq<Post>, itemPosts: seq<Post>)
    | UserAdded(added: User)
    | PostAdded(addedPost: Post)
  {
    /** The HTTP status code the response is sent with. */
    function Status(): int
    {
      match this
      case BadRequest(_) => 400
      case NotFound => 404
      case Conflict => 409
      case _ => 200
    }
  }

  /** A POST handler's result: the store afterwards and the response. */
  datatype Outcome = Outcome(db: Db, response: Response)

  // ---------------------------------------------------------------------------
  // GET /api/users

  /** The user column an ordering key selects; the mapping is fixed, not reflective. */
  function Column(k: OrderKey, u: User): string
  {
    match k
    case ByName => u.name
    case ByLastName => u.lastName
    case ByEmail => u.email
  }

  function UserKey(k: OrderKey): User -> string
  {
    u => Column(k, u)
  }

  /** The WHERE clause of the user listing: exact email, and the name containing name_substr. */
  predicate UserMatches(u: User, a: Args)
  {
    && (a.email.Some? ==> u.email == a.email.value)
    && (a.nameSubstr.Some? ==> Contains(u.name, a.nameSubstr.value))
  }

  function UserFilter(a: Args): User -> bool
  {
    u => UserMatches(u, a)
  }

  /** `filter_by(id=...).first()`: the first stored user with this id, if any. */
  function FirstWithId(users: seq<User>, id: int): (r: Option<User>)
    ensures r.None? <==> forall u | u in users :: u.id != id
    ensures r.Some? ==> r.value.id == id && r.value in users
    ensures r.Some? ==> exists i | 0 <= i < |users| :: users[i] == r.value && forall j | 0 <= j < i :: users[j].id != id
    decreases |users|
  {
    if |users| == 0 then None
    else if users[0].id == id then Some(users[0])
    else
      var r := FirstWithId(users[1..], id);
      assert users == [users[0]] + users[1..];
      if r.Some? then
        var i :| 0 <= i < |users[1..]| && users[1..][i] == r.value && forall j | 0 <= j < i :: users[1..][j].id != id;
        assert users[i + 1] == r.value;
        assert forall j | 0 <= j < i + 1 :: users[j].id != id by {
          forall j | 0 <= j < i + 1 ensures users[j].id != id {
            if j > 0 {
              assert users[j] == users[1..][j - 1];
            }
          }
        }
        r
      else r
  }

  /** The unpaginated result of the user listing ("total_count"). */
  function UserTotal(users: seq<User>, a: Args): (total: seq<User>)
    ensures forall u :: u in total <==> u in users && UserMatches(u, a)
    ensures forall u :: multiset(total)[u] == if UserMatches(u, a) then multiset(users)[u] else 0
    ensures a.orderBy.Some? ==> SortedBy(total, UserKey(a.orderBy.value))
  {
    var matching := Filter(users, UserFilter(a));
    assert forall u :: multiset(matching)[u] == if UserMatches(u, a) then multiset(users)[u] else 0 by {
      forall u
        ensures multiset(matching)[u] == if UserMatches(u, a) then multiset(users)[u] else 0
      {
        assert UserFilter(a)(u) == UserMatches(u, a);
        if !UserMatches(u, a) {
          assert u !in matching;
        }
      }
    }
    if a.orderBy.Some? then SortBy(matching, UserKey(a.orderBy.value)) else matching
  }

  /**
   * ApiUsers.get after argument validation: always 200; a single user (or
   * none) with id, otherwise the matching users and a window no longer than them.
   */
  function ListUsers(users: seq<User>, a: Args): (r: Response)
    ensures r.Status() == 200
    ensures r.OneUser? <==> a.id.Some?
    ensures r.UserPage? ==> forall u :: u in r.total <==> u in users && UserMatches(u, a)
    ensures r.UserPage? ==> |r.items| <= |r.total|
  {
    if a.id.Some? then OneUser(FirstWithId(users, a.id.value))
    else
      var total := UserTotal(users, a);
      UserPage(total, Paginate(total, a.offset, a.limit))
  }

  /** GET /api/users: 400 with the argument errors exactly when validation fails, 200 otherwise. */
  function GetUsers(db: Db, q: map<string, string>): (r: Response)
    ensures r.Status() in {200, 400}
    ensures r.Status() == 400 <==> exists k | k in q :: ArgRefused(q, k)
    ensures r.Status() == 400 ==> r == BadRequest(Validate(ArgsSchema, ArgsData(q)))
  {
    match ParseArgs(q)
    case Failure(errs) => BadRequest(errs)
    case Success(a) => ListUsers(db.users, a)
  }

  // ---------------------------------------------------------------------------
  // GET /api/posts

  /** A row of the inner join of users with posts on `User.id == Post.author`. */
  datatype Row = Row(user: User, post: Post)

  /** The join rows of one post. */
  function RowsFor(users: seq<User>, p: Post): (rows: seq<Row>)
    ensures forall r :: r in rows <==> r.user in users && r.post == p && r.user.id == p.author
    decreases |users|
  {
    if |users| == 0 then []
    else
      assert users == [users[0]] + users[1..];
      (if users[0].id == p.author then [Row(users[0], p)] else []) + RowsFor(users[1..], p)
  }

  /** The inner join: one row per (user, post) pair with user.id == post.author. */
  function Join(users: seq<User>, posts: seq<Post>): (rows: seq<Row>)
    ensures forall r :: r in rows <==> r.user in users && r.post in posts && r.user.id == r.post.author
    decreases |posts|
  {
    if |posts| == 0 then []
    else
      assert posts == [posts[0]] + posts[1..];
      RowsFor(users, posts[0]) + Join(users, posts[1..])
  }

  function RowKey(k: OrderKey): Row -> string
  {
    (r: Row) => Column(k, r.user)
  }

  /** The WHERE clause of the post listing: the exact author, when given. */
  predicate RowMatches(r: Row, a: Args)
  {
    a.author.Some? ==> r.post.author == a.author.value
  }

  function RowFilter(a: Args): Row -> bool
  {
    (r: Row) => RowMatches(r, a)
  }

  /** The joined rows of the unpaginated post listing, ordered by the joined user's column when asked. */
  function PostRows(users: seq<User>, posts: seq<Post>, a: Args): (rows: seq<Row>)
    ensures forall r :: r in rows <==> r.user in users && r.post in posts && r.user.id == r.post.author && RowMatches(r, a)
    ensures a.orderBy.Some? ==> SortedBy(rows, RowKey(a.orderBy.value))
  {
    var matching := Filter(Join(users, posts), RowFilter(a));
    if a.orderBy.Some? then SortBy(matching, RowKey(a.orderBy.value)) else matching
  }

  /** The listing keeps each joined row that passes the author filter as often as the join holds it. */
  lemma PostRowsCount(users: seq<User>, posts: seq<Post>, a: Args, r: Row)
    ensures multiset(PostRows(users, posts, a))[r] == if RowMatches(r, a) then multiset(Join(users, posts))[r] else 0
  {
    var matching := Filter(Join(users, posts), RowFilter(a));
    assert RowFilter(a)(r) == RowMatches(r, a);
    if !RowMatches(r, a) {
      assert r !in matching;
    }
  }

  /** The Post half of each joined row. */
  function PostsOf(rows: seq<Row>): (ps: seq<Post>)
    ensures |ps| == |rows|
    ensures forall i | 0 <= i < |rows| :: ps[i] == rows[i].post
  {
    seq(|rows|, i requires 0 <= i < |rows| => rows[i].post)
  }

  /** ApiPosts.get after argument validation: always 200, with a window no longer than the total. */
  function ListPosts(users: seq<User>, posts: seq<Post>, a: Args): (r: Response)
    ensures r.PostPage? && r.Status() == 200
    ensures |r.itemPosts| <= |r.totalPosts|
  {
    PostPageOf(PostRows(users, posts, a), a)
  }

  /** The page built from the listing's rows: their posts, and the posts of the requested window. */
  function PostPageOf(rows: seq<Row>, a: Args): (r: Response)
    ensures r.PostPage? && r.Status() == 200
    ensures |r.itemPosts| <= |r.totalPosts|
  {
    PostPage(PostsOf(rows), PostsOf(Paginate(rows, a.offset, a.limit)))
  }

  /** GET /api/posts: 400 with the argument errors exactly when validation fails, 200 otherwise. */
  function GetPosts(db: Db, q: map<string, string>): (r: Response)
    ensures r.Status() in {200, 400}
    ensures r.Status() == 400 <==> exists k | k in q :: ArgRefused(q, k)
    ensures r.Status() == 400 ==> r == BadRequest(Validate(ArgsSchema, ArgsData(q)))
  {
    match ParseArgs(q)
    case Failure(errs) => BadRequest(errs)
    case Success(a) => ListPosts(db.users, db.posts, a)
  }

  // ---------------------------------------------------------------------------
  // POST /api/users and POST /api/posts

  /** Some stored user already has this email. */
  predicate EmailTaken(users: seq<User>, email: string)
  {
    exists u | u in users :: u.email == email
  }

  /** Some stored post already has this author: the check ApiPosts.post makes before inserting. */
  predicate AuthorHasPost(posts: seq<Post>, author: int)
  {
    exists p | p in posts :: p.author == author
  }

  /** The client-supplied part of a stored user. */
  function Submitted(u: User): NewUser
  {
    NewUser(u.name, u.lastName, u.email, u.role, u.state)
  }

  function SubmittedPost(p: Post): NewPost
  {
    NewPost(p.title, p.description, p.author)
  }

  /** POST /api/users: validate, refuse a taken email, otherwise insert with a fresh id. */
  function PostUsers(db: Db, body: Payload): (o: Outcome)
    ensures o.response.Status() in {200, 400, 409}
    ensures o.response.Status() == 400 <==> LoadUser(body).Failure?
    ensures o.response.Status() == 400 ==> o.response == BadRequest(Validate(UserSchema, body))
    ensures o.response.Status() == 409 <==>
      LoadUser(body).Success? && EmailTaken(db.users, LoadUser(body).value.email)
    ensures o.response.Status() != 200 ==> o.db == db
    ensures o.response.Status() == 200 ==>
      && o.response.UserAdded?
      && o.db == Db(db.users + [o.response.added], db.posts)
      && Submitted(o.response.added) == LoadUser(body).value
      && (forall u | u in db.users :: u.id < o.response.added.id && u.email != o.response.added.email)
  {
    match LoadUser(body)
    case Failure(errs) => Outcome(db, BadRequest(errs))
    case Success(nu) =>
      if EmailTaken(db.users, nu.email) then Outcome(db, Conflict)
      else
        var u := User(NextId(Ids(db.users, (v: User) => v.id)), nu.name, nu.lastName, nu.email, nu.role, nu.state);
        Outcome(Db(db.users + [u], db.posts), UserAdded(u))
  }

  /** POST /api/posts: validate, refuse (404) unless a post by the same author exists, otherwise insert. */
  function PostPosts(db: Db, body: Payload): (o: Outcome)
    ensures o.response.Status() in {200, 400, 404}
    ensures o.response.Status() == 400 <==> LoadPost(body).Failure?
    ensures o.response.Status() == 400 ==> o.response == BadRequest(Validate(PostSchema, body))
    ensures o.response.Status() == 404 <==>
      LoadPost(body).Success? && !AuthorHasPost(db.posts, LoadPost(body).value.author)
    ensures o.response.Status() != 200 ==> o.db == db
    ensures o.response.Status() == 200 ==>
      && o.response.PostAdded?
      && o.db == Db(db.users, db.posts + [o.response.addedPost])
      && SubmittedPost(o.response.addedPost) == LoadPost(body).value
      && (forall p | p in db.posts :: p.id < o.response.addedPost.id)
  {
    match LoadPost(body)
    case Failure(errs) => Outcome(db, BadRequest(errs))
    case Success(np) =>
      if !AuthorHasPost(db.posts, np.author) then Outcome(db, NotFound)
      else
        var p := Post(NextId(Ids(db.posts, (v: Post) => v.id)), np.title, np.description, np.author);
        Outcome(Db(db.users, db.posts + [p]), PostAdded(p))
  }

  // ---------------------------------------------------------------------------
  // Properties of the GET handlers

  /** A 400 from GET /api/users carries the validation errors, whatever the store holds. */
  lemma UsersBadArgsIgnoreStore(db1: Db, db2: Db, q: map<string, string>)
    requires ParseArgs(q).Failure?
    ensures GetUsers(db1, q) == GetUsers(db2, q)
    ensures GetUsers(db1, q) == BadRequest(ParseArgs(q).error)
  {
  }

  /** GET /api/posts refuses exactly the arguments GET /api/users refuses, with the same errors. */
  lemma PostsBadArgsLikeUsers(db1: Db, db2: Db, q: map<string, string>)
    ensures GetPosts(db1, q).Status() == 400 <==> GetUsers(db2, q).Status() == 400
    ensures GetPosts(db1, q).Status() == 400 ==> GetPosts(db1, q) == GetUsers(db2, q)
  {
  }

  /** With an id, the user listing is the first user with that id (or none); every other argument is ignored. */
  lemma UserByIdIgnoresRest(users: seq<User>, a: Args, b: Args)
    requires a.id.Some? && b.id == a.id
    ensures ListUsers(users, a) == ListUsers(users, b)
    ensures ListUsers(users, a).OneUser?
    ensures ListUsers(users, a).found.None? <==> forall u | u in users :: u.id != a.id.value
    ensures ListUsers(users, a).found.Some? ==>
      exists i | 0 <= i < |users| :: users[i] == ListUsers(users, a).found.value && users[i].id == a.id.value
        && forall j | 0 <= j < i :: users[j].id != a.id.value
  {
  }

  /**
   * Without an id, "total_count" holds exactly the stored users that pass the
   * email and name filters, each as often as it is stored; with order_by it is
   * sorted by the chosen column.
   */
  lemma UserListingContents(users: seq<User>, a: Args)
    requires a.id.None?
    ensures ListUsers(users, a).UserPage?
    ensures forall u :: u in ListUsers(users, a).total <==> u in users && UserMatches(u, a)
    ensures forall u :: multiset(ListUsers(users, a).total)[u] == if UserMatches(u, a) then multiset(users)[u] else 0
    ensures a.orderBy.Some? ==> SortedBy(ListUsers(users, a).total, UserKey(a.orderBy.value))
  {
  }

  /** "items" is "total_count" with the offset dropped and at most limit kept. */
  lemma UserListingWindow(users: seq<User>, a: Args)
    requires a.id.None?
    ensures var r := ListUsers(users, a);
      r.items == if a.limit.Some? && a.limit.value >= 0 then Take(a.limit.value, Drop(Skip(a.offset), r.total))
                 else Drop(Skip(a.offset), r.total)
  {
    PaginateIsTakeDrop(UserTotal(users, a), a.offset, a.limit);
  }

  /** offset and limit never change "total_count". */
  lemma UserTotalIgnoresPagination(users: seq<User>, a: Args, offset: Option<int>, limit: Option<int>)
    requires a.id.None?
    ensures ListUsers(users, a).total == ListUsers(users, a.(offset := offset, limit := limit)).total
  {
    FilterAgrees(users, UserFilter(a), UserFilter(a.(offset := offset, limit := limit)));
  }

  /** Some stored user has this id. */
  predicate HasUser(users: seq<User>, id: int)
  {
    exists u | u in users :: u.id == id
  }

  /**
   * The post listing holds exactly the stored posts whose author is the id of
   * some stored user (the inner join) and, when author is given, whose author
   * is that one.
   */
  lemma PostListingContents(users: seq<User>, posts: seq<Post>, a: Args)
    ensures forall p :: p in ListPosts(users, posts, a).totalPosts <==>
      p in posts && HasUser(users, p.author) && (a.author.Some? ==> p.author == a.author.value)
  {
    var rows := PostRows(users, posts, a);
    assert ListPosts(users, posts, a).totalPosts == PostsOf(rows);
    forall p
      ensures p in PostsOf(rows) <==> p in posts && HasUser(users, p.author) && (a.author.Some? ==> p.author == a.author.value)
    {
      if p in PostsOf(rows) {
        ListedPostJoined(users, posts, a, p);
      }
      if p in posts && HasUser(users, p.author) && (a.author.Some? ==> p.author == a.author.value) {
        JoinedPostListed(users, posts, a, p);
      }
    }
  }

  /** A listed post is stored, has its author among the users, and passes the author filter. */
  lemma ListedPostJoined(users: seq<User>, posts: seq<Post>, a: Args, p: Post)
    requires p in PostsOf(PostRows(users, posts, a))
    ensures p in posts && HasUser(users, p.author) && (a.author.Some? ==> p.author == a.author.value)
  {
    var rows := PostRows(users, posts, a);
    var i :| 0 <= i < |rows| && PostsOf(rows)[i] == p;
    assert rows[i] in rows;
  }

  /** A stored post whose author is a user and that passes the author filter is listed. */
  lemma JoinedPostListed(users: seq<User>, posts: seq<Post>, a: Args, p: Post)
    requires p in posts && HasUser(users, p.author) && (a.author.Some? ==> p.author == a.author.value)
    ensures p in PostsOf(PostRows(users, posts, a))
  {
    var rows := PostRows(users, posts, a);
    var u :| u in users && u.id == p.author;
    assert Row(u, p) in rows;
    var i :| 0 <= i < |rows| && rows[i] == Row(u, p);
    assert PostsOf(rows)[i] == p;
  }

  /** The join rows of one post hold each user with the post's author id as often as that user is stored. */
  lemma {:induction false} RowsForCount(users: seq<User>, p: Post, r: Row)
    ensures multiset(RowsFor(users, p))[r] == if r.post == p && r.user.id == p.author then multiset(users)[r.user] else 0
    decreases |users|
  {
    if |users| > 0 {
      RowsForCount(users[1..], p, r);
      assert users == [users[0]] + users[1..];
    }
  }

  /** The inner join holds each (user, post) pair with matching ids as often as the user's count times the post's count. */
  lemma {:induction false} JoinCount(users: seq<User>, posts: seq<Post>, r: Row)
    ensures multiset(Join(users, posts))[r] ==
      if r.user.id == r.post.author then multiset(users)[r.user] * multiset(posts)[r.post] else 0
    decreases |posts|
  {
    if |posts| > 0 {
      JoinConsCount(users, posts, r);
      RowsForCount(users, posts[0], r);
      JoinCount(users, posts[1..], r);
      HeadCount(posts, r.post);
      var m := multiset(users)[r.user];
      var c := multiset(posts[1..])[r.post];
      var here := if r.post == posts[0] then 1 else 0;
      if r.user.id == r.post.author {
        assert multiset(Join(users, posts))[r] == (if here == 1 then m else 0) + m * c;
        MulAddOne(m, here, c);
        assert multiset(posts)[r.post] == here + c;
      } else {
        assert multiset(Join(users, posts))[r] == 0;
      }
    }
  }

  /** One step of the join: the rows of the first post, then the rest. */
  lemma JoinConsCount(users: seq<User>, posts: seq<Post>, r: Row)
    requires |posts| > 0
    ensures multiset(Join(users, posts))[r] == multiset(RowsFor(users, posts[0]))[r] + multiset(Join(users, posts[1..]))[r]
  {
    assert Join(users, posts) == RowsFor(users, posts[0]) + Join(users, posts[1..]);
  }

  lemma HeadCount<T>(xs: seq<T>, x: T)
    requires |xs| > 0
    ensures multiset(xs)[x] == (if x == xs[0] then 1 else 0) + multiset(xs[1..])[x]
  {
    assert xs == [xs[0]] + xs[1..];
  }

  lemma MulAddOne(m: nat, b: nat, c: nat)
    requires b <= 1
    ensures m * (b + c) == (if b == 1 then m else 0) + m * c
  {
  }

  /** When every row of a post is the same row, the post occurs in the Post halves as often as that row occurs. */
  lemma {:induction false} PostsOfCount(rows: seq<Row>, row: Row)
    requires forall r | r in rows && r.post == row.post :: r == row
    ensures multiset(PostsOf(rows))[row.post] == multiset(rows)[row]
    decreases |rows|
  {
    if |rows| > 0 {
      var tail := rows[1..];
      assert rows == [rows[0]] + tail;
      assert rows[0].post == row.post ==> rows[0] == row by {
        assert rows[0] in rows;
      }
      PostsOfCount(tail, row);
      PostsOfCons(rows);
    }
  }

  lemma PostsOfCons(rows: seq<Row>)
    requires |rows| > 0
    ensures PostsOf(rows) == [rows[0].post] + PostsOf(rows[1..])
  {
  }

  /** With unique ids, a stored user is stored exactly once. */
  lemma StoredOnce(users: seq<User>, u: User)
    requires UniqueUserIds(users)
    requires u in users
    ensures multiset(users)[u] == 1
  {
    var i :| 0 <= i < |users| && users[i] == u;
    assert users == users[..i] + [u] + users[i + 1..];
    assert u !in users[..i] by {
      forall j | 0 <= j < i
        ensures users[..i][j] != u
      {
        assert users[j].id != users[i].id;
      }
    }
    assert u !in users[i + 1..] by {
      forall k | i < k < |users|
        ensures users[k] != u
      {
        assert users[i].id != users[k].id;
      }
    }
  }

  /** With unique user ids, the user a post joins with is the one user with its author's id. */
  lemma {:induction false} JoinedUserIsAuthor(users: seq<User>, u: User)
    requires UniqueUserIds(users)
    requires u in users
    ensures FirstWithId(users, u.id) == Some(u)
    decreases |users|
  {
    if users[0] != u {
      assert users[0].id != u.id by {
        var i :| 0 <= i < |users| && users[i] == u;
      }
      assert u in users[1..];
      JoinedUserIsAuthor(users[1..], u);
    }
  }

  /**
   * With unique user ids (the primary key), the post listing holds every
   * joined post exactly as often as it is stored, and no other post.
   */
  lemma PostListingCounts(users: seq<User>, posts: seq<Post>, a: Args)
    requires UniqueUserIds(users)
    ensures forall p ::
      multiset(ListPosts(users, posts, a).totalPosts)[p] ==
      if HasUser(users, p.author) && (a.author.Some? ==> p.author == a.author.value) then multiset(posts)[p] else 0
  {
    var rows := PostRows(users, posts, a);
    forall p
      ensures multiset(PostsOf(rows))[p] ==
        if HasUser(users, p.author) && (a.author.Some? ==> p.author == a.author.value) then multiset(posts)[p] else 0
    {
      if HasUser(users, p.author) {
        var u :| u in users && u.id == p.author;
        var row := Row(u, p);
        forall r | r in rows && r.post == p
          ensures r == row
        {
          JoinedUserIsAuthor(users, r.user);
          JoinedUserIsAuthor(users, u);
        }
        PostsOfCount(rows, row);
        PostRowsCount(users, posts, a, row);
        JoinCount(users, posts, row);
        StoredOnce(users, u);
      } else {
        var row := Row(User(p.author, "", "", "", "", ""), p);
        PostsOfCount(rows, row);
        assert row !in rows;
      }
    }
  }

  /** The value of the chosen column of a post's author: what ordering the post listing sorts by. */
  function AuthorColumn(users: seq<User>, k: OrderKey): Post -> string
  {
    (p: Post) => match FirstWithId(users, p.author)
                 case Some(u) => Column(k, u)
                 case None => ""
  }

  /** With order_by, posts come sorted by the chosen column of their author (ids being unique, as a primary key). */
  lemma PostListingOrdered(users: seq<User>, posts: seq<Post>, a: Args)
    requires UniqueUserIds(users)
    requires a.orderBy.Some?
    ensures SortedBy(ListPosts(users, posts, a).totalPosts, AuthorColumn(users, a.orderBy.value))
  {
    var k := a.orderBy.value;
    var rows := PostRows(users, posts, a);
    var total := PostsOf(rows);
    forall i | 0 <= i < |rows|
      ensures AuthorColumn(users, k)(total[i]) == RowKey(k)(rows[i])
    {
      assert rows[i] in rows;
      JoinedUserIsAuthor(users, rows[i].user);
    }
    forall i, j | 0 <= i < j < |total|
      ensures LexLe(AuthorColumn(users, k)(total[i]), AuthorColumn(users, k)(total[j]))
    {
      assert LexLe(RowKey(k)(rows[i]), RowKey(k)(rows[j]));
    }
  }

  /** "items" of the post listing is "total_count" paginated. */
  lemma PostListingWindow(users: seq<User>, posts: seq<Post>, a: Args)
    ensures var r := ListPosts(users, posts, a);
      r.itemPosts == Paginate(r.totalPosts, a.offset, a.limit)
  {
    PostsOfPaginate(PostRows(users, posts, a), a.offset, a.limit);
  }

  /** Taking the Post halves commutes with pagination. */
  lemma PostsOfPaginate(rows: seq<Row>, offset: Option<int>, limit: Option<int>)
    ensures PostsOf(Paginate(rows, offset, limit)) == Paginate(PostsOf(rows), offset, limit)
  {
    var f := (r: Row) => r.post;
    PaginateMap(rows, f, offset, limit);
    assert PostsOf(rows) == seq(|rows|, i requires 0 <= i < |rows| => f(rows[i]));
    var page := Paginate(rows, offset, limit);
    assert PostsOf(page) == seq(|page|, i requires 0 <= i < |page| => f(page[i]));
  }

  /** offset and limit never change the post "total_count". */
  lemma PostTotalIgnoresPagination(users: seq<User>, posts: seq<Post>, a: Args, offset: Option<int>, limit: Option<int>)
    ensures ListPosts(users, posts, a).totalPosts == ListPosts(users, posts, a.(offset := offset, limit := limit)).totalPosts
  {
    FilterAgrees(Join(users, posts), RowFilter(a), RowFilter(a.(offset := offset, limit := limit)));
  }

  // ---------------------------------------------------------------------------
  // Properties of the POST handlers

  /** POST /api/users keeps ids and emails unique. */
  lemma PostUsersPreservesWellformed(db: Db, body: Payload)
    requires Wellformed(db)
    ensures Wellformed(PostUsers(db, body).db)
  {
    var o := PostUsers(db, body);
    if o.response.Status() == 200 {
      var u := o.response.added;
      var users := db.users + [u];
      assert o.db == Db(users, db.posts);
      forall i, j | 0 <= i < j < |users|
        ensures users[i].id != users[j].id && users[i].email != users[j].email
      {
        if j == |db.users| {
          assert users[i] in db.users;
        } else {
          assert users[i] == db.users[i] && users[j] == db.users[j];
        }
      }
    }
  }

  /** POST /api/posts keeps post ids unique and never changes the users. */
  lemma PostPostsPreservesWellformed(db: Db, body: Payload)
    requires Wellformed(db)
    ensures Wellformed(PostPosts(db, body).db)
  {
  }

  /** POST /api/posts never changes the set of authors that have posts. */
  lemma PostPostsKeepsAuthors(db: Db, body: Payload)
    ensures Authors(PostPosts(db, body).db.posts) == Authors(db.posts)
  {
    var o := PostPosts(db, body);
    if o.response.Status() == 200 {
      var p := o.response.addedPost;
      assert p.author in Authors(db.posts) by {
        var q :| q in db.posts && q.author == LoadPost(body).value.author;
      }
      assert o.db.posts == db.posts + [p];
    }
  }

  /** With no posts stored, POST /api/posts always fails and stores nothing. */
  lemma PostPostsOnEmptyTableFails(db: Db, body: Payload)
    requires |db.posts| == 0
    ensures PostPosts(db, body).response.Status() in {400, 404}
    ensures PostPosts(db, body).db == db
  {
  }

  /** The query `?id=<n>` parses to a lookup of n and nothing else. */
  lemma IdQuery(n: int)
    ensures ParseArgs(map["id" := FormatInt(n)]) == Success(Args(None, None, None, Some(n), None, None, None))
  {
    var q := map["id" := FormatInt(n)];
    ParseFormatRoundTrip(n);
    assert !ArgRefused(q, "id");
    assert q.Keys == {"id"};
  }

  /** A user appended with an id no stored user has is the one an id lookup finds. */
  lemma {:induction false} FirstWithIdAppended(users: seq<User>, u: User)
    requires forall v | v in users :: v.id != u.id
    ensures FirstWithId(users + [u], u.id) == Some(u)
    decreases |users|
  {
    if |users| > 0 {
      assert (users + [u])[1..] == users[1..] + [u];
      assert users[0] in users;
      FirstWithIdAppended(users[1..], u);
    }
  }

  /** A user just created can be read back by its id, with the fields that were sent. */
  lemma PostThenGetById(db: Db, body: Payload)
    requires PostUsers(db, body).response.Status() == 200
    ensures var o := PostUsers(db, body);
      GetUsers(o.db, map["id" := FormatInt(o.response.added.id)]) == OneUser(Some(o.response.added))
      && Submitted(o.response.added) == LoadUser(body).value
  {
    var o := PostUsers(db, body);
    var u := o.response.added;
    IdQuery(u.id);
    FirstWithIdAppended(db.users, u);
  }

  /** A second user with an email already stored gets 409 and the store is left as it was. */
  lemma DuplicateEmailConflicts(db: Db, body: Payload, again: Payload)
    requires PostUsers(db, body).response.Status() == 200
    requires LoadUser(again).Success? && LoadUser(again).value.email == LoadUser(body).value.email
    ensures var db' := PostUsers(db, body).db;
      PostUsers(db', again).response == Conflict && PostUsers(db', again).db == db'
  {
    var o := PostUsers(db, body);
    assert o.response.added in o.db.users;
  }

  /** In an empty user table, an acceptable user is stored with id 1. */
  lemma FirstUserGetsIdOne(nu: NewUser, posts: seq<Post>)
    requires UserAcceptable(nu)
    ensures var u := User(1, nu.name, nu.lastName, nu.email, nu.role, nu.state);
      PostUsers(Db([], posts), UserPayload(nu)) == Outcome(Db([u], posts), UserAdded(u))
  {
    LoadUserRoundTrip(nu);
    assert NextId(Ids([], (v: User) => v.id)) == 1;
  }

  /** Creating John Doe, `john@demo.com`, an active author, in an empty store gives user 1. */
  lemma JohnDoeCreated()
    ensures var john := NewUser("John", "Doe", "john@demo.com", "author", "active");
      var u := User(1, "John", "Doe", "john@demo.com", "author", "active");
      PostUsers(Db([], []), UserPayload(john)) == Outcome(Db([u], []), UserAdded(u))
  {
    var john := NewUser("John", "Doe", "john@demo.com", "author", "active");
    assert UserAcceptable(john) by {
      Email.ExampleAddressAccepted();
    }
    FirstUserGetsIdOne(john, []);
  }

  /** The same body with role "admin" is refused with an error on role. */
  lemma AdminRoleRefused(db: Db)
    ensures var admin := NewUser("John", "Doe", "john@demo.com", "admin", "active");
      PostUsers(db, UserPayload(admin)).response.Status() == 400
      && "role" in PostUsers(db, UserPayload(admin)).response.errors
  {
    var admin := NewUser("John", "Doe", "john@demo.com", "admin", "active");
    var d := UserPayload(admin);
    UserPayloadFields(admin);
    UserKeyError(d, "role");
  }
}
