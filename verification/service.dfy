/**
 * The service as a whole: a request is one of the four routes, and a run
 * serves a sequence of requests one after another against the same store.
 * The lemmas here are the invariants every run keeps.
 */
module Service {
  import opened Models
  import opened Schemas
  import opened Routes

  datatype Request =
    | GetUsersRequest(query: map<string, string>)
    | GetPostsRequest(query: map<string, string>)
    | PostUsersRequest(userBody: Payload)
    | PostPostsRequest(postBody: Payload)

  /** Dispatch one request; the GET routes never write. */
  function Handle(db: Db, req: Request): (o: Outcome)
    ensures req.GetUsersRequest? || req.GetPostsRequest? ==> o.db == db
    ensures o.response.Status() != 200 ==> o.db == db
    ensures o.db.users == db.users || (req.PostUsersRequest? && o.db.posts == db.posts && |o.db.users| == |db.users| + 1 && o.db.users[..|db.users|] == db.users)
    ensures o.db.posts == db.posts || (req.PostPostsRequest? && o.db.users == db.users && |o.db.posts| == |db.posts| + 1 && o.db.posts[..|db.posts|] == db.posts)
  {
    match req
    case GetUsersRequest(q) => Outcome(db, GetUsers(db, q))
    case GetPostsRequest(q) => Outcome(db, GetPosts(db, q))
    case PostUsersRequest(body) =>
      var o := PostUsers(db, body);
      assert o.db.users == db.users || o.db.users[..|db.users|] == db.users;
      o
    case PostPostsRequest(body) =>
      var o := PostPosts(db, body);
      assert o.db.posts == db.posts || o.db.posts[..|db.posts|] == db.posts;
      o
  }

  /**
   * The store after serving the requests in order: each request adds at most
   * one row, and a run of GET requests leaves the store as it was.
   */
  function Run(db: Db, reqs: seq<Request>): (end: Db)
    ensures |end.users| + |end.posts| <= |db.users| + |db.posts| + |reqs|
    ensures (forall i | 0 <= i < |reqs| :: reqs[i].GetUsersRequest? || reqs[i].GetPostsRequest?) ==> end == db
    decreases |reqs|
  {
    if |reqs| == 0 then db
    else
      assert forall i | 0 <= i < |reqs| - 1 :: reqs[1..][i] == reqs[i + 1];
      Run(Handle(db, reqs[0]).db, reqs[1..])
  }

  /** Serving one request keeps user ids, user emails and post ids unique. */
  lemma HandlePreservesWellformed(db: Db, req: Request)
    requires Wellformed(db)
    ensures Wellformed(Handle(db, req).db)
  {
    match req
    case GetUsersRequest(_) =>
    case GetPostsRequest(_) =>
    case PostUsersRequest(body) => PostUsersPreservesWellformed(db, body);
    case PostPostsRequest(body) => PostPostsPreservesWellformed(db, body);
  }

  /** Every run keeps user ids, user emails and post ids unique. */
  lemma {:induction false} RunPreservesWellformed(db: Db, reqs: seq<Request>)
    requires Wellformed(db)
    ensures Wellformed(Run(db, reqs))
    decreases |reqs|
  {
    if |reqs| > 0 {
      HandlePreservesWellformed(db, reqs[0]);
      RunPreservesWellformed(Handle(db, reqs[0]).db, reqs[1..]);
    }
  }

  /** No run ever adds a post by an author that had none. */
  lemma {:induction false} RunKeepsAuthors(db: Db, reqs: seq<Request>)
    ensures Authors(Run(db, reqs).posts) == Authors(db.posts)
    decreases |reqs|
  {
    if |reqs| > 0 {
      if reqs[0].PostPostsRequest? {
        PostPostsKeepsAuthors(db, reqs[0].postBody);
      }
      RunKeepsAuthors(Handle(db, reqs[0]).db, reqs[1..]);
    }
  }

  /** A store that starts with no posts never gets one through the API. */
  lemma RunEmptyPostsStayEmpty(db: Db, reqs: seq<Request>)
    requires |db.posts| == 0
    ensures Run(db, reqs).posts == []
  {
    RunKeepsAuthors(db, reqs);
  }

  /** Rows are only ever appended: every run keeps the stored users and posts as a prefix. */
  lemma {:induction false} RunOnlyAppends(db: Db, reqs: seq<Request>)
    ensures |db.users| <= |Run(db, reqs).users| && Run(db, reqs).users[..|db.users|] == db.users
    ensures |db.posts| <= |Run(db, reqs).posts| && Run(db, reqs).posts[..|db.posts|] == db.posts
    decreases |reqs|
  {
    if |reqs| > 0 {
      var next := Handle(db, reqs[0]).db;
      RunOnlyAppends(next, reqs[1..]);
      var end := Run(db, reqs);
      assert end.users[..|db.users|] == end.users[..|next.users|][..|db.users|];
      assert end.posts[..|db.posts|] == end.posts[..|next.posts|][..|db.posts|];
    }
  }

  /** Every post's author is a stored user: the state in which posts are never lost to the inner join. */
  predicate PostsJoined(db: Db)
  {
    forall p | p in db.posts :: HasUser(db.users, p.author)
  }

  /** Every run keeps every post listed by GET /api/posts. */
  lemma RunKeepsPostsJoined(db: Db, reqs: seq<Request>)
    requires PostsJoined(db)
    ensures PostsJoined(Run(db, reqs))
  {
    var end := Run(db, reqs);
    RunKeepsAuthors(db, reqs);
    RunOnlyAppends(db, reqs);
    forall p | p in end.posts
      ensures HasUser(end.users, p.author)
    {
      assert p.author in Authors(end.posts);
      var q :| q in db.posts && q.author == p.author;
      var u :| u in db.users && u.id == q.author;
      var i :| 0 <= i < |db.users| && db.users[i] == u;
      assert end.users[i] == u;
    }
  }
}
