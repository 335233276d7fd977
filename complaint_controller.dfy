/** Post social features (server/complaintController.js): creating a post,
    the post feed with support counts and comments, toggling a support, adding a
    comment, and deleting a post after its comments and supports. */
module ComplaintController {
  import opened Tables
  import opened Http
  import opened Database

  /** `createPost`: one post owned by the caller, with the body's type, title,
      content and city, no image and no likes. */
  method CreatePost(db: Database, caller: int, kind: string, title: string, content: string, city: string)
    returns (post: Row<Post>)
    requires db.Valid()
    modifies db`posts, db`clock
    ensures db.Valid() && db.clock == old(db.clock) + 1
    ensures post.id == old(db.clock) && post.createdAt == old(db.clock)
    ensures post.val == Post(caller, Some(kind), Some(title), content, Some(city), None, DefaultLikes)
    ensures db.posts == old(db.posts) + [post]
  {
    var id := db.Tick();
    post := Row(id, id, Post(caller, Some(kind), Some(title), content, Some(city), None, DefaultLikes));
    StampedAppend(db.posts, id, post);
    db.posts := db.posts + [post];
  }

  // ---------------------------------------------------------------------------
  // The feed (`getAllPosts`)
  // ---------------------------------------------------------------------------

  /** One element of the `comments` array of a feed entry. */
  datatype CommentView = CommentView(id: int, username: string, content: string)

  /** One row of the feed: the post, its author's name, and the three derived columns. */
  datatype PostView = PostView(
    post: Row<Post>,
    username: string,
    supportCount: nat,
    isSupported: bool,
    comments: seq<CommentView>)

  function OfPost(postId: int): Support -> bool
  {
    (s: Support) => s.postId == postId
  }

  /** `(SELECT COUNT(*) FROM supports s WHERE s.post_id = p.id)`. */
  function SupportCount(supports: seq<Support>, postId: int): nat
  {
    |Filter(supports, OfPost(postId))|
  }

  /** The users who support a post. */
  function Supporters(supports: seq<Support>, postId: int): set<int>
  {
    set i | 0 <= i < |supports| && supports[i].postId == postId :: supports[i].userId
  }

  /** Supporters of a post, peeling off the first row of the table. */
  lemma SupportersCons(supports: seq<Support>, postId: int)
    requires supports != []
    ensures Supporters(supports, postId) ==
      (if supports[0].postId == postId then {supports[0].userId} else {}) + Supporters(supports[1..], postId)
  {
    var rest := supports[1..];
    forall u | u in Supporters(supports, postId)
      ensures u in (if supports[0].postId == postId then {supports[0].userId} else {}) + Supporters(rest, postId)
    {
      var i :| 0 <= i < |supports| && supports[i].postId == postId && supports[i].userId == u;
      if i > 0 { assert rest[i - 1] == supports[i]; }
    }
    forall u | u in Supporters(rest, postId) ensures u in Supporters(supports, postId) {
      var i :| 0 <= i < |rest| && rest[i].postId == postId && rest[i].userId == u;
      assert supports[i + 1] == rest[i];
    }
  }

  /** With no support recorded twice, the support count of a post is its number of supporters. */
  lemma {:induction false} SupportCountIsSupporters(supports: seq<Support>, postId: int)
    requires UniqueSupports(supports)
    ensures SupportCount(supports, postId) == |Supporters(supports, postId)|
  {
    if supports != [] {
      var rest := supports[1..];
      SupportCountIsSupporters(rest, postId);
      SupportersCons(supports, postId);
    }
  }

  function OnPost(users: seq<Row<User>>, postId: int): Row<Comment> -> bool
  {
    (c: Row<Comment>) => c.val.postId == postId && NameOf(users, c.val.userId).Some?
  }

  /** The `comments` column of a feed entry: the comments on the post whose
      author exists, as `{ id, username, content }`; `[]` when there are none.
      The aggregate has no ORDER BY; the model keeps table order, one order the
      database may choose. */
  function PostComments(comments: seq<Row<Comment>>, users: seq<Row<User>>, postId: int): (r: seq<CommentView>)
    ensures |r| == |Filter(comments, OnPost(users, postId))|
    ensures forall i :: 0 <= i < |r| ==>
      exists k :: 0 <= k < |comments| && comments[k].val.postId == postId &&
        NameOf(users, comments[k].val.userId).Some? &&
        r[i] == CommentView(comments[k].id, NameOf(users, comments[k].val.userId).value, comments[k].val.content)
    ensures forall k ::
      (0 <= k < |comments| && comments[k].val.postId == postId && NameOf(users, comments[k].val.userId).Some?) ==>
      CommentView(comments[k].id, NameOf(users, comments[k].val.userId).value, comments[k].val.content) in r
  {
    var on := Filter(comments, OnPost(users, postId));
    Map(on, (c: Row<Comment>) => CommentView(c.id, AuthorName(users, c.val.userId), c.val.content))
  }

  function Authored(users: seq<Row<User>>): Row<Post> -> bool
  {
    (p: Row<Post>) => NameOf(users, p.val.userId).Some?
  }

  /** A feed entry for post `p` as seen by `viewerId`. */
  function FeedEntry(
    p: Row<Post>, supports: seq<Support>, comments: seq<Row<Comment>>,
    users: seq<Row<User>>, viewerId: int): PostView
  {
    PostView(
      p,
      AuthorName(users, p.val.userId),
      SupportCount(supports, p.id),
      Support(viewerId, p.id) in supports,
      PostComments(comments, users, p.id))
  }

  /** `getAllPosts`: every post whose author exists, newest first, with the
      author's name, its support count, whether `viewer` supports it, and its
      comments. A missing `userId` query parameter means viewer 0. */
  function AllPosts(
    posts: seq<Row<Post>>, supports: seq<Support>, comments: seq<Row<Comment>>,
    users: seq<Row<User>>, viewer: Option<int>): (r: seq<PostView>)
    ensures |r| == |Filter(posts, Authored(users))|
    ensures forall i :: 0 <= i < |r| ==>
      && r[i].post in posts
      && NameOf(users, r[i].post.val.userId) == Some(r[i].username)
      && r[i].supportCount == SupportCount(supports, r[i].post.id)
      && (r[i].isSupported <==> Support(if viewer.Some? then viewer.value else 0, r[i].post.id) in supports)
      && r[i].comments == PostComments(comments, users, r[i].post.id)
    ensures Ascending(posts) ==> forall i, j :: 0 <= i < j < |r| ==> r[i].post.createdAt > r[j].post.createdAt
  {
    var viewerId := if viewer.Some? then viewer.value else 0;
    Map(NewestFirst(posts, Authored(users)), (p: Row<Post>) => FeedEntry(p, supports, comments, users, viewerId))
  }

  /** Every post whose author exists is in the feed, as its feed entry. */
  lemma AllPostsListsEveryAuthoredPost(
    posts: seq<Row<Post>>, supports: seq<Support>, comments: seq<Row<Comment>>,
    users: seq<Row<User>>, viewer: Option<int>, k: int)
    requires 0 <= k < |posts| && NameOf(users, posts[k].val.userId).Some?
    ensures FeedEntry(posts[k], supports, comments, users, if viewer.Some? then viewer.value else 0)
      in AllPosts(posts, supports, comments, users, viewer)
  {
    var viewerId := if viewer.Some? then viewer.value else 0;
    InMap(NewestFirst(posts, Authored(users)), (p: Row<Post>) => FeedEntry(p, supports, comments, users, viewerId), posts[k]);
  }

  // ---------------------------------------------------------------------------
  // Supports
  // ---------------------------------------------------------------------------

  function Except(x: Support): Support -> bool
  {
    (s: Support) => s != x
  }

  /** The supports table after `toggleSupport` by `userId` on `postId`. */
  function Toggled(supports: seq<Support>, userId: int, postId: int): (r: seq<Support>)
    ensures Support(userId, postId) in r <==> Support(userId, postId) !in supports
    ensures forall x :: x != Support(userId, postId) ==> (x in r <==> x in supports)
  {
    var x := Support(userId, postId);
    if x in supports then Filter(supports, Except(x)) else supports + [x]
  }

  /** `toggleSupport`: removes the caller's support of the post if it exists,
      and adds it otherwise. */
  method ToggleSupport(db: Database, caller: int, postId: int) returns (reply: Reply)
    requires db.Valid()
    modifies db`supports
    ensures db.Valid()
    ensures db.supports == Toggled(old(db.supports), caller, postId)
    ensures reply == Ok(Action(if Support(caller, postId) in old(db.supports) then "unsupported" else "supported"))
  {
    var x := Support(caller, postId);
    if x in db.supports {
      db.supports := Filter(db.supports, Except(x));
      FilterKeepsUnique(old(db.supports), Except(x));
      reply := Ok(Action("unsupported"));
    } else {
      db.supports := db.supports + [x];
      reply := Ok(Action("supported"));
    }
  }

  /** Removing rows never creates a duplicate. */
  lemma {:induction false} FilterKeepsUnique(supports: seq<Support>, p: Support -> bool)
    requires UniqueSupports(supports)
    ensures UniqueSupports(Filter(supports, p))
  {
    if supports != [] {
      FilterKeepsUnique(supports[1..], p);
      var t := Filter(supports[1..], p);
      forall i | 0 <= i < |t| ensures t[i] != supports[0] {
        var k :| 0 <= k < |supports[1..]| && supports[1..][k] == t[i];
        assert supports[k + 1] == t[i];
      }
    }
  }

  /** Toggling keeps every (user, post) pair supported at most once. */
  lemma ToggleKeepsUnique(supports: seq<Support>, userId: int, postId: int)
    requires UniqueSupports(supports)
    ensures UniqueSupports(Toggled(supports, userId, postId))
  {
    FilterKeepsUnique(supports, Except(Support(userId, postId)));
  }

  /** Toggling twice restores the original set of supports. */
  lemma ToggleTwice(supports: seq<Support>, userId: int, postId: int)
    ensures forall x :: x in Toggled(Toggled(supports, userId, postId), userId, postId) <==> x in supports
  {
  }

  /** When the pair was not supported, toggling twice restores the table exactly. */
  lemma ToggleTwiceFromUnsupported(supports: seq<Support>, userId: int, postId: int)
    requires Support(userId, postId) !in supports
    ensures Toggled(Toggled(supports, userId, postId), userId, postId) == supports
  {
    var x := Support(userId, postId);
    FilterAppend(supports, [x], Except(x));
    FilterAll(supports, Except(x));
  }

  // ---------------------------------------------------------------------------
  // Comments and deletion
  // ---------------------------------------------------------------------------

  /** `addComment`: one comment by the caller on `postId`. */
  method AddComment(db: Database, caller: int, postId: int, content: string) returns (reply: Reply)
    requires db.Valid()
    modifies db`comments, db`clock
    ensures db.Valid() && db.clock == old(db.clock) + 1
    ensures db.comments == old(db.comments) + [Row(old(db.clock), old(db.clock), Comment(caller, postId, content))]
    ensures reply == Ok(Message("Comment added"))
  {
    var id := db.Tick();
    var row := Row(id, id, Comment(caller, postId, content));
    StampedAppend(db.comments, id, row);
    db.comments := db.comments + [row];
    reply := Ok(Message("Comment added"));
  }

  function CommentNotOn(postId: int): Row<Comment> -> bool
  {
    (c: Row<Comment>) => c.val.postId != postId
  }

  function SupportNotOf(postId: int): Support -> bool
  {
    (s: Support) => s.postId != postId
  }

  function PostNot(id: int): Row<Post> -> bool
  {
    (p: Row<Post>) => p.id != id
  }

  /** Every comment and every support refers to an existing post. */
  predicate NoOrphans(posts: seq<Row<Post>>, comments: seq<Row<Comment>>, supports: seq<Support>)
  {
    && (forall i :: 0 <= i < |comments| ==> Find(posts, comments[i].val.postId).Some?)
    && (forall i :: 0 <= i < |supports| ==> Find(posts, supports[i].postId).Some?)
  }

  /** `deletePost`: deletes the post's comments, then its supports, then the
      post. It checks no ownership. */
  method DeletePost(db: Database, id: int) returns (reply: Reply)
    requires db.Valid()
    modifies db`comments, db`supports, db`posts
    ensures db.Valid()
    ensures db.comments == Filter(old(db.comments), CommentNotOn(id))
    ensures db.supports == Filter(old(db.supports), SupportNotOf(id))
    ensures db.posts == Filter(old(db.posts), PostNot(id))
    ensures reply == Ok(Message("Post deleted successfully"))
  {
    db.comments := Filter(db.comments, CommentNotOn(id));
    StampedFilter(old(db.comments), db.clock, CommentNotOn(id));
    db.supports := Filter(db.supports, SupportNotOf(id));
    FilterKeepsUnique(old(db.supports), SupportNotOf(id));
    db.posts := Filter(db.posts, PostNot(id));
    StampedFilter(old(db.posts), db.clock, PostNot(id));
    reply := Ok(Message("Post deleted successfully"));
  }

  /** After `deletePost(id)` nothing refers to post `id`, and every comment,
      support and post of another post is kept. */
  lemma DeletePostRemovesDependents(
    posts: seq<Row<Post>>, comments: seq<Row<Comment>>, supports: seq<Support>, id: int)
    ensures forall i :: 0 <= i < |Filter(posts, PostNot(id))| ==> Filter(posts, PostNot(id))[i].id != id
    ensures forall i :: 0 <= i < |Filter(comments, CommentNotOn(id))| ==>
      Filter(comments, CommentNotOn(id))[i].val.postId != id
    ensures forall i :: 0 <= i < |Filter(supports, SupportNotOf(id))| ==>
      Filter(supports, SupportNotOf(id))[i].postId != id
    ensures forall i :: 0 <= i < |posts| && posts[i].id != id ==> posts[i] in Filter(posts, PostNot(id))
    ensures forall i :: 0 <= i < |comments| && comments[i].val.postId != id ==>
      comments[i] in Filter(comments, CommentNotOn(id))
    ensures forall i :: 0 <= i < |supports| && supports[i].postId != id ==>
      supports[i] in Filter(supports, SupportNotOf(id))
  {
  }

  /** The cascade leaves no comment or support pointing at a missing post. */
  lemma DeletePostKeepsIntegrity(
    posts: seq<Row<Post>>, comments: seq<Row<Comment>>, supports: seq<Support>, id: int)
    requires NoOrphans(posts, comments, supports)
    ensures NoOrphans(Filter(posts, PostNot(id)), Filter(comments, CommentNotOn(id)), Filter(supports, SupportNotOf(id)))
  {
    var ps := Filter(posts, PostNot(id));
    var cs := Filter(comments, CommentNotOn(id));
    var ss := Filter(supports, SupportNotOf(id));
    forall i | 0 <= i < |cs| ensures Find(ps, cs[i].val.postId).Some? {
      var p := Find(posts, cs[i].val.postId).value;
      var k :| 0 <= k < |posts| && posts[k] == p;
      assert posts[k] in ps;
    }
    forall i | 0 <= i < |ss| ensures Find(ps, ss[i].postId).Some? {
      var p := Find(posts, ss[i].postId).value;
      var k :| 0 <= k < |posts| && posts[k] == p;
      assert posts[k] in ps;
    }
  }
}
