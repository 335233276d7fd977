/** The route handlers of server/routes.js. Handlers behind the middleware
    receive the caller's claims as the middleware recorded them; write handlers
    are methods that take the `Database`, list handlers are functions of the tables. */
module Routes {
  import opened Tables
  import opened Http
  import opened Jwt
  import opened Database
  import opened Decimal
  import AuthController
  import ComplaintController

  // ===========================================================================
  // 1. Authentication: GET /auth/me
  // ===========================================================================

  /** `SELECT id, name, email, role FROM users WHERE id = $1`, first row;
      absent (the handler sends `undefined`) when there is no such user. */
  function CurrentUser(users: seq<Row<User>>, id: int): (r: Option<AuthController.Registered>)
    ensures r.None? <==> forall i :: 0 <= i < |users| ==> users[i].id != id
    ensures r.Some? ==>
      exists i :: 0 <= i < |users| && users[i].id == id && r.value == AuthController.Registered(id, users[i].val.name, users[i].val.email, users[i].val.role)
  {
    match Find(users, id)
    case None => None
    case Some(u) => Some(AuthController.Registered(u.id, u.val.name, u.val.email, u.val.role))
  }

  // ===========================================================================
  // 2. Happiness posts
  // ===========================================================================

  /** POST /posts: one post by the caller with the uploaded file's stored name, if any. */
  method CreatePost(db: Database, caller: int, content: string, image: Option<string>)
    returns (post: Row<Post>)
    requires db.Valid()
    modifies db`posts, db`clock
    ensures db.Valid() && db.clock == old(db.clock) + 1
    ensures post == Row(old(db.clock), old(db.clock), Post(caller, None, None, content, None, image, DefaultLikes))
    ensures db.posts == old(db.posts) + [post]
  {
    var id := db.Tick();
    post := Row(id, id, Post(caller, None, None, content, None, image, DefaultLikes));
    StampedAppend(db.posts, id, post);
    db.posts := db.posts + [post];
  }

  /** A row of GET /posts: the post with its author's name. */
  datatype PostRow = PostRow(post: Row<Post>, username: string)

  /** GET /posts: every post whose author exists, newest first. */
  function ListPosts(posts: seq<Row<Post>>, users: seq<Row<User>>): (r: seq<PostRow>)
    ensures |r| == |Filter(posts, ComplaintController.Authored(users))|
    ensures forall i :: 0 <= i < |r| ==>
      r[i].post in posts && NameOf(users, r[i].post.val.userId) == Some(r[i].username)
    ensures Ascending(posts) ==> forall i, j :: 0 <= i < j < |r| ==> r[i].post.createdAt > r[j].post.createdAt
  {
    Map(NewestFirst(posts, ComplaintController.Authored(users)), (p: Row<Post>) => PostRow(p, AuthorName(users, p.val.userId)))
  }

  /** Every post whose author exists is listed, with its author's name. */
  lemma ListPostsCover(posts: seq<Row<Post>>, users: seq<Row<User>>, k: int)
    requires 0 <= k < |posts| && NameOf(users, posts[k].val.userId).Some?
    ensures PostRow(posts[k], NameOf(users, posts[k].val.userId).value) in ListPosts(posts, users)
  {
    InMap(NewestFirst(posts, ComplaintController.Authored(users)), (p: Row<Post>) => PostRow(p, AuthorName(users, p.val.userId)), posts[k]);
  }

  /** The posts table after PUT /posts/:id/like. */
  function Liked(posts: seq<Row<Post>>, id: int): (r: seq<Row<Post>>)
    ensures |r| == |posts|
    ensures forall i :: 0 <= i < |posts| ==>
      && r[i].id == posts[i].id
      && r[i].createdAt == posts[i].createdAt
      && r[i].val.likes == posts[i].val.likes + (if posts[i].id == id then 1 else 0)
      && r[i].val.(likes := 0) == posts[i].val.(likes := 0)
  {
    Map(posts, (p: Row<Post>) => if p.id == id then p.(val := p.val.(likes := p.val.likes + 1)) else p)
  }

  /** PUT /posts/:id/like: `likes` of the post `id` goes up by one, every other post is unchanged. */
  method LikePost(db: Database, id: int) returns (reply: Reply)
    requires db.Valid()
    modifies db`posts
    ensures db.Valid()
    ensures db.posts == Liked(old(db.posts), id)
    ensures reply == Ok(Message("Post liked"))
  {
    db.posts := Liked(db.posts, id);
    reply := Ok(Message("Post liked"));
  }

  /** Whether user `userId` owns the post `id`. */
  predicate Owns(posts: seq<Row<Post>>, id: int, userId: int)
  {
    exists i :: 0 <= i < |posts| && posts[i].id == id && posts[i].val.userId == userId
  }

  /** DELETE /posts/:id: an admin deletes any post; anyone else only a post
      they own, otherwise 403 and nothing changes. Comments and supports of
      the post are left in place. */
  method DeletePost(db: Database, caller: Claims, id: int) returns (reply: Reply)
    requires db.Valid()
    modifies db`posts
    ensures db.Valid()
    ensures caller.role == AdminRole ==>
      db.posts == Filter(old(db.posts), ComplaintController.PostNot(id)) && reply == Ok(Message("Deleted by Admin"))
    ensures caller.role != AdminRole && Owns(old(db.posts), id, caller.id) ==>
      db.posts == Filter(old(db.posts), ComplaintController.PostNot(id)) && reply == Ok(Message("Post deleted"))
    ensures caller.role != AdminRole && !Owns(old(db.posts), id, caller.id) ==>
      db.posts == old(db.posts) && reply == Reply(403, JsonText("Unauthorized"))
  {
    if caller.role == AdminRole {
      StampedFilter(db.posts, db.clock, ComplaintController.PostNot(id));
      db.posts := Filter(db.posts, ComplaintController.PostNot(id));
      return Ok(Message("Deleted by Admin"));
    }
    var owned := Filter(db.posts, (p: Row<Post>) => p.id == id && p.val.userId == caller.id);
    if |owned| == 0 {
      return Reply(403, JsonText("Unauthorized"));
    }
    assert Owns(db.posts, id, caller.id) by {
      var k :| 0 <= k < |db.posts| && db.posts[k] == owned[0];
    }
    StampedFilter(db.posts, db.clock, ComplaintController.PostNot(id));
    db.posts := Filter(db.posts, ComplaintController.PostNot(id));
    reply := Ok(Message("Post deleted"));
  }

  /** The routed delete removes exactly the post: no post with that id is left,
      and every other post is kept, in order. */
  lemma DeleteRemovesExactlyThePost(posts: seq<Row<Post>>, id: int)
    ensures forall i :: 0 <= i < |Filter(posts, ComplaintController.PostNot(id))| ==>
      Filter(posts, ComplaintController.PostNot(id))[i].id != id
    ensures forall i :: 0 <= i < |posts| && posts[i].id != id ==>
      posts[i] in Filter(posts, ComplaintController.PostNot(id))
  {
  }

  /** Unlike the cascading delete of the post controller, the routed delete can
      leave a comment whose post no longer exists. */
  lemma RoutedDeleteCanOrphan()
    ensures var posts := [Row(0, 0, Post(1, None, None, "hi", None, None, 0))];
      var comments := [Row(1, 1, Comment(2, 0, "nice"))];
      ComplaintController.NoOrphans(posts, comments, []) &&
      !ComplaintController.NoOrphans(Filter(posts, ComplaintController.PostNot(0)), comments, [])
  {
    var posts := [Row(0, 0, Post(1, None, None, "hi", None, None, 0))];
    var comments := [Row(1, 1, Comment(2, 0, "nice"))];
    assert Find(posts, 0).Some?;
    assert Filter(posts, ComplaintController.PostNot(0)) == [];
    var none: seq<Row<Post>> := [];
    assert Find(none, comments[0].val.postId) == None;
  }

  // ===========================================================================
  // 3. Complaints
  // ===========================================================================

  /** POST /complaints: one complaint by the caller, with the default status. */
  method FileComplaint(db: Database, caller: int, category: string, description: string, location: string, image: Option<string>)
    returns (complaint: Row<Complaint>)
    requires db.Valid()
    modifies db`complaints, db`clock
    ensures db.Valid() && db.clock == old(db.clock) + 1
    ensures complaint == Row(old(db.clock), old(db.clock),
      Complaint(caller, category, description, location, image, Some(DefaultStatus)))
    ensures db.complaints == old(db.complaints) + [complaint]
  {
    var id := db.Tick();
    complaint := Row(id, id, Complaint(caller, category, description, location, image, Some(DefaultStatus)));
    StampedAppend(db.complaints, id, complaint);
    db.complaints := db.complaints + [complaint];
  }

  function FiledBy(userId: int): Row<Complaint> -> bool
  {
    (c: Row<Complaint>) => c.val.userId == userId
  }

  /** GET /complaints/my: exactly the caller's complaints, newest first. */
  function MyComplaints(complaints: seq<Row<Complaint>>, caller: int): (r: seq<Row<Complaint>>)
    ensures forall i :: 0 <= i < |r| ==> r[i] in complaints && r[i].val.userId == caller
    ensures forall k :: 0 <= k < |complaints| && complaints[k].val.userId == caller ==> complaints[k] in r
    ensures Ascending(complaints) ==> Descending(r)
  {
    NewestFirst(complaints, FiledBy(caller))
  }

  /** The complaints table after PUT /admin/complaints/:id. */
  function WithStatus(complaints: seq<Row<Complaint>>, id: int, status: Option<string>): (r: seq<Row<Complaint>>)
    ensures |r| == |complaints|
    ensures forall i :: 0 <= i < |complaints| ==>
      && r[i].id == complaints[i].id
      && r[i].createdAt == complaints[i].createdAt
      && r[i].val.status == (if complaints[i].id == id then status else complaints[i].val.status)
      && r[i].val.(status := None) == complaints[i].val.(status := None)
  {
    Map(complaints, (c: Row<Complaint>) => if c.id == id then c.(val := c.val.(status := status)) else c)
  }

  /** PUT /admin/complaints/:id: writes the body's status, any string or NULL
      when absent, on the targeted complaint only. */
  method UpdateComplaintStatus(db: Database, id: int, status: Option<string>) returns (reply: Reply)
    requires db.Valid()
    modifies db`complaints
    ensures db.Valid()
    ensures db.complaints == WithStatus(old(db.complaints), id, status)
    ensures reply == Ok(Message("Status updated"))
  {
    db.complaints := WithStatus(db.complaints, id, status);
    reply := Ok(Message("Status updated"));
  }

  // ===========================================================================
  // 4. Reviews
  // ===========================================================================

  /** POST /reviews: one unapproved review by the caller. */
  method SubmitReview(db: Database, caller: int, serviceName: string, rating: int, comment: string)
    returns (reply: Reply)
    requires db.Valid()
    modifies db`reviews, db`clock
    ensures db.Valid() && db.clock == old(db.clock) + 1
    ensures db.reviews == old(db.reviews) +
      [Row(old(db.clock), old(db.clock), Review(caller, serviceName, rating, comment, DefaultApproval))]
    ensures reply == Ok(Message("Review submitted"))
  {
    var id := db.Tick();
    var row := Row(id, id, Review(caller, serviceName, rating, comment, DefaultApproval));
    StampedAppend(db.reviews, id, row);
    db.reviews := db.reviews + [row];
    reply := Ok(Message("Review submitted"));
  }

  /** A row of GET /reviews: the review with its author's name. */
  datatype ReviewRow = ReviewRow(review: Row<Review>, username: string)

  function ApprovedWithAuthor(users: seq<Row<User>>): Row<Review> -> bool
  {
    (r: Row<Review>) => r.val.isApproved && NameOf(users, r.val.userId).Some?
  }

  /** GET /reviews: exactly the approved reviews whose author exists. The query
      has no ORDER BY; the model returns them in table order, one order the
      database may choose. */
  function PublicReviews(reviews: seq<Row<Review>>, users: seq<Row<User>>): (r: seq<ReviewRow>)
    ensures |r| == |Filter(reviews, ApprovedWithAuthor(users))|
    ensures forall i :: 0 <= i < |r| ==>
      r[i].review in reviews && r[i].review.val.isApproved && NameOf(users, r[i].review.val.userId) == Some(r[i].username)
    ensures forall k :: 0 <= k < |reviews| && reviews[k].val.isApproved && NameOf(users, reviews[k].val.userId).Some? ==>
      ReviewRow(reviews[k], NameOf(users, reviews[k].val.userId).value) in r
  {
    var shown := Filter(reviews, ApprovedWithAuthor(users));
    var r := Map(shown, (v: Row<Review>) => ReviewRow(v, AuthorName(users, v.val.userId)));
    PublicReviewsCover(reviews, users, shown, r);
    r
  }

  lemma PublicReviewsCover(reviews: seq<Row<Review>>, users: seq<Row<User>>, shown: seq<Row<Review>>, r: seq<ReviewRow>)
    requires shown == Filter(reviews, ApprovedWithAuthor(users))
    requires r == Map(shown, (v: Row<Review>) => ReviewRow(v, AuthorName(users, v.val.userId)))
    ensures forall k :: 0 <= k < |reviews| && reviews[k].val.isApproved && NameOf(users, reviews[k].val.userId).Some? ==>
      ReviewRow(reviews[k], NameOf(users, reviews[k].val.userId).value) in r
  {
    forall k | 0 <= k < |reviews| && reviews[k].val.isApproved && NameOf(users, reviews[k].val.userId).Some?
      ensures ReviewRow(reviews[k], NameOf(users, reviews[k].val.userId).value) in r
    {
      InMap(shown, (v: Row<Review>) => ReviewRow(v, AuthorName(users, v.val.userId)), reviews[k]);
    }
  }

  /** The reviews table after PUT /admin/reviews/:id/approve. */
  function Approved(reviews: seq<Row<Review>>, id: int): (r: seq<Row<Review>>)
    ensures |r| == |reviews|
    ensures forall i :: 0 <= i < |reviews| ==>
      && r[i].id == reviews[i].id
      && r[i].createdAt == reviews[i].createdAt
      && r[i].val.isApproved == (reviews[i].val.isApproved || reviews[i].id == id)
      && r[i].val.(isApproved := false) == reviews[i].val.(isApproved := false)
  {
    Map(reviews, (v: Row<Review>) => if v.id == id then v.(val := v.val.(isApproved := true)) else v)
  }

  /** PUT /admin/reviews/:id/approve. */
  method ApproveReview(db: Database, id: int) returns (reply: Reply)
    requires db.Valid()
    modifies db`reviews
    ensures db.Valid()
    ensures db.reviews == Approved(old(db.reviews), id)
    ensures reply == Ok(Message("Review approved."))
  {
    db.reviews := Approved(db.reviews, id);
    reply := Ok(Message("Review approved."));
  }

  function ReviewNot(id: int): Row<Review> -> bool
  {
    (v: Row<Review>) => v.id != id
  }

  /** DELETE /admin/reviews/:id: removes the review `id` and no other. */
  method DeleteReview(db: Database, id: int) returns (reply: Reply)
    requires db.Valid()
    modifies db`reviews
    ensures db.Valid()
    ensures db.reviews == Filter(old(db.reviews), ReviewNot(id))
    ensures forall i :: 0 <= i < |db.reviews| ==> db.reviews[i].id != id
    ensures forall i :: 0 <= i < |old(db.reviews)| && old(db.reviews)[i].id != id ==> old(db.reviews)[i] in db.reviews
    ensures reply == Ok(Message("Review deleted."))
  {
    StampedFilter(db.reviews, db.clock, ReviewNot(id));
    db.reviews := Filter(db.reviews, ReviewNot(id));
    reply := Ok(Message("Review deleted."));
  }

  /** Approving twice is approving once. */
  lemma {:induction false} ApproveIdempotent(reviews: seq<Row<Review>>, id: int)
    ensures Approved(Approved(reviews, id), id) == Approved(reviews, id)
  {
    var once := Approved(reviews, id);
    var twice := Approved(once, id);
    assert |twice| == |once|;
    forall i | 0 <= i < |once| ensures twice[i] == once[i] {
      assert twice[i].val.(isApproved := false) == once[i].val.(isApproved := false);
    }
  }

  /** A newly submitted review does not change the public feed. */
  lemma SubmittedReviewHidden(reviews: seq<Row<Review>>, users: seq<Row<User>>, row: Row<Review>)
    requires !row.val.isApproved
    ensures PublicReviews(reviews + [row], users) == PublicReviews(reviews, users)
  {
    FilterAppend(reviews, [row], ApprovedWithAuthor(users));
    assert Filter([row], ApprovedWithAuthor(users)) == [];
  }

  /** Once approved, a review whose author exists is in the public feed. */
  lemma ApprovedReviewVisible(reviews: seq<Row<Review>>, users: seq<Row<User>>, k: int)
    requires 0 <= k < |reviews| && NameOf(users, reviews[k].val.userId).Some?
    ensures var v := Approved(reviews, reviews[k].id)[k];
      v.val.isApproved && ReviewRow(v, NameOf(users, v.val.userId).value) in PublicReviews(Approved(reviews, reviews[k].id), users)
  {
    var after := Approved(reviews, reviews[k].id);
    assert after[k].val.userId == reviews[k].val.userId by {
      assert after[k].val.(isApproved := false) == reviews[k].val.(isApproved := false);
    }
  }

  /** In a table in id order, an approved review whose author exists is listed
      exactly once. */
  lemma ApprovedReviewListedOnce(reviews: seq<Row<Review>>, users: seq<Row<User>>, k: int)
    requires IdsAscending(reviews)
    requires 0 <= k < |reviews| && reviews[k].val.isApproved && NameOf(users, reviews[k].val.userId).Some?
    ensures var r := PublicReviews(reviews, users);
      && (exists i :: 0 <= i < |r| && r[i].review == reviews[k])
      && (forall i, j :: 0 <= i < |r| && 0 <= j < |r| && r[i].review == reviews[k] && r[j].review == reviews[k] ==> i == j)
  {
    var shown := Filter(reviews, ApprovedWithAuthor(users));
    var r := PublicReviews(reviews, users);
    FilterIdsAscending(reviews, ApprovedWithAuthor(users));
    assert forall i :: 0 <= i < |r| ==> r[i].review == shown[i];
    forall i, j | 0 <= i < |r| && 0 <= j < |r| && r[i].review == reviews[k] && r[j].review == reviews[k]
      ensures i == j
    {
      UniqueIds(shown, i, j);
    }
  }

  /** After deletion no row of the public feed is the deleted review. */
  lemma DeletedReviewHidden(reviews: seq<Row<Review>>, users: seq<Row<User>>, id: int)
    ensures forall i :: 0 <= i < |PublicReviews(Filter(reviews, ReviewNot(id)), users)| ==>
      PublicReviews(Filter(reviews, ReviewNot(id)), users)[i].review.id != id
  {
    var kept := Filter(reviews, ReviewNot(id));
    var r := PublicReviews(kept, users);
    forall i | 0 <= i < |r| ensures r[i].review.id != id {
      var k :| 0 <= k < |kept| && kept[k] == r[i].review;
    }
  }

  // ===========================================================================
  // 5. Announcements
  // ===========================================================================

  /** The number of announcements GET /announcements returns at most. */
  const AnnouncementLimit := 5

  /** GET /announcements: `ORDER BY created_at DESC LIMIT 5`. */
  function LatestAnnouncements(announcements: seq<Row<Announcement>>): (r: seq<Row<Announcement>>)
    ensures |r| == if |announcements| < AnnouncementLimit then |announcements| else AnnouncementLimit
    ensures forall i :: 0 <= i < |r| ==> r[i] == announcements[|announcements| - 1 - i]
  {
    var newest := Reverse(announcements);
    if |newest| < AnnouncementLimit then newest else newest[..AnnouncementLimit]
  }

  /** The announcements shown are newest first, and none left out is newer
      than one shown. */
  lemma LatestAreNewest(announcements: seq<Row<Announcement>>)
    requires Ascending(announcements)
    ensures Descending(LatestAnnouncements(announcements))
    ensures var r := LatestAnnouncements(announcements);
      forall a, i :: 0 <= i < |r| && a in announcements && a !in r ==> a.createdAt < r[i].createdAt
  {
    var r := LatestAnnouncements(announcements);
    var n := |announcements|;
    forall k | n - |r| <= k < n ensures announcements[k] in r {
      assert r[n - 1 - k] == announcements[k];
    }
    forall a, i | 0 <= i < |r| && a in announcements && a !in r ensures a.createdAt < r[i].createdAt {
      var k :| 0 <= k < n && announcements[k] == a;
    }
  }

  /** POST /admin/announcements. */
  method PostAnnouncement(db: Database, title: string, message: string, priority: string) returns (reply: Reply)
    requires db.Valid()
    modifies db`announcements, db`clock
    ensures db.Valid() && db.clock == old(db.clock) + 1
    ensures db.announcements == old(db.announcements) +
      [Row(old(db.clock), old(db.clock), Announcement(title, message, priority))]
    ensures reply == Ok(Message("Announcement posted"))
  {
    var id := db.Tick();
    var row := Row(id, id, Announcement(title, message, priority));
    StampedAppend(db.announcements, id, row);
    db.announcements := db.announcements + [row];
    reply := Ok(Message("Announcement posted"));
  }

  // ===========================================================================
  // 6. Groups and chat
  // ===========================================================================

  /** Whether user `userId` is enrolled in group `groupId`. */
  predicate IsMember(members: seq<Membership>, groupId: int, userId: int)
  {
    Membership(groupId, userId) in members
  }

  /** POST /groups: inserts the group owned by the caller, then the caller's
      membership of it (two separate statements). */
  method CreateGroup(db: Database, caller: int, name: string, description: string)
    returns (group: Row<Group>)
    requires db.Valid()
    modifies db`groups, db`members, db`clock
    ensures db.Valid() && db.clock == old(db.clock) + 1
    ensures group == Row(old(db.clock), old(db.clock), Group(name, description, caller))
    ensures db.groups == old(db.groups) + [group]
    ensures db.members == old(db.members) + [Membership(group.id, caller)]
    ensures IsMember(db.members, group.id, caller)
    ensures forall i :: 0 <= i < |old(db.groups)| ==> old(db.groups)[i].id != group.id
  {
    var id := db.Tick();
    group := Row(id, id, Group(name, description, caller));
    StampedAppend(db.groups, id, group);
    db.groups := db.groups + [group];
    db.members := db.members + [Membership(group.id, caller)];
  }

  /** The memberships after a join of `groupId` by `userId`. */
  function Joined(members: seq<Membership>, groupId: int, userId: int): (r: seq<Membership>)
    ensures IsMember(r, groupId, userId)
    ensures IsMember(members, groupId, userId) ==> r == members
    ensures !IsMember(members, groupId, userId) ==> |r| == |members| + 1 && r[..|members|] == members
  {
    if IsMember(members, groupId, userId) then members else members + [Membership(groupId, userId)]
  }

  /** POST /groups/:id/join: a member is told so and nothing is inserted;
      anyone else gets exactly one new membership row. */
  method JoinGroup(db: Database, caller: int, groupId: int) returns (reply: Reply)
    requires db.Valid()
    modifies db`members
    ensures db.Valid()
    ensures db.members == Joined(old(db.members), groupId, caller)
    ensures reply == Ok(Message(if IsMember(old(db.members), groupId, caller) then "Already a member" else "Joined successfully"))
  {
    if Membership(groupId, caller) in db.members {
      return Ok(Message("Already a member"));
    }
    db.members := db.members + [Membership(groupId, caller)];
    reply := Ok(Message("Joined successfully"));
  }

  /** Joining twice is joining once. */
  lemma JoinIdempotent(members: seq<Membership>, groupId: int, userId: int)
    ensures Joined(Joined(members, groupId, userId), groupId, userId) == Joined(members, groupId, userId)
  {
  }

  /** Joining never enrolls a pair twice. */
  lemma JoinKeepsUnique(members: seq<Membership>, groupId: int, userId: int)
    requires UniqueMemberships(members)
    ensures UniqueMemberships(Joined(members, groupId, userId))
  {
  }

  /** The creator's membership row is the only new one, so a fresh group keeps
      enrollments unique. */
  lemma CreateKeepsUnique(members: seq<Membership>, groupId: int, userId: int)
    requires UniqueMemberships(members)
    requires forall i :: 0 <= i < |members| ==> members[i].groupId != groupId
    ensures UniqueMemberships(members + [Membership(groupId, userId)])
  {
  }

  /** The row POST /groups/:groupId/messages inserts: `userId || null`,
      `username || 'Anonymous'`, `message || ''` (0 and '' are falsy). */
  function MessageRow(groupId: int, userId: Option<int>, username: Option<string>, message: Option<string>)
    : (m: GroupMessage)
    ensures m.groupId == groupId
    ensures m.userId.None? <==> userId.None? || userId.value == 0
    ensures m.userId.Some? ==> m.userId == userId
    ensures username.Some? && username.value != "" ==> m.username == username.value
    ensures username.None? || username.value == "" ==> m.username == "Anonymous"
    ensures m.text == if message.Some? then message.value else ""
  {
    GroupMessage(
      groupId,
      if userId.Some? && userId.value != 0 then userId else None,
      if username.Some? && username.value != "" then username.value else "Anonymous",
      if message.Some? && message.value != "" then message.value else "")
  }

  /** POST /groups/:groupId/messages (no authentication): appends one message. */
  method SendMessage(db: Database, groupId: int, userId: Option<int>, username: Option<string>, message: Option<string>)
    returns (sent: Row<GroupMessage>)
    requires db.Valid()
    modifies db`messages, db`clock
    ensures db.Valid() && db.clock == old(db.clock) + 1
    ensures sent == Row(old(db.clock), old(db.clock), MessageRow(groupId, userId, username, message))
    ensures db.messages == old(db.messages) + [sent]
  {
    var id := db.Tick();
    sent := Row(id, id, MessageRow(groupId, userId, username, message));
    StampedAppend(db.messages, id, sent);
    db.messages := db.messages + [sent];
  }

  function InGroup(groupId: int): Row<GroupMessage> -> bool
  {
    (m: Row<GroupMessage>) => m.val.groupId == groupId
  }

  /** GET /groups/:groupId/messages: exactly the group's messages, oldest first. */
  function ListMessages(messages: seq<Row<GroupMessage>>, groupId: int): (r: seq<Row<GroupMessage>>)
    ensures forall i :: 0 <= i < |r| ==> r[i] in messages && r[i].val.groupId == groupId
    ensures forall k :: 0 <= k < |messages| && messages[k].val.groupId == groupId ==> messages[k] in r
    ensures Ascending(messages) ==> Ascending(r)
  {
    assert Ascending(messages) ==> Ascending(Filter(messages, InGroup(groupId))) by {
      if Ascending(messages) { FilterAscending(messages, InGroup(groupId)); }
    }
    Filter(messages, InGroup(groupId))
  }

  /** Messages sent to a group, one after another, are listed after the earlier
      ones in the order they were sent; other groups' listings are unchanged. */
  lemma {:induction false} SentInOrder(messages: seq<Row<GroupMessage>>, sent: seq<Row<GroupMessage>>, groupId: int)
    ensures (forall i :: 0 <= i < |sent| ==> sent[i].val.groupId == groupId) ==>
      ListMessages(messages + sent, groupId) == ListMessages(messages, groupId) + sent
    ensures forall other :: (forall i :: 0 <= i < |sent| ==> sent[i].val.groupId != other) ==>
      ListMessages(messages + sent, other) == ListMessages(messages, other)
  {
    FilterAppend(messages, sent, InGroup(groupId));
    if forall i :: 0 <= i < |sent| ==> sent[i].val.groupId == groupId {
      FilterAll(sent, InGroup(groupId));
    }
    forall other | forall i :: 0 <= i < |sent| ==> sent[i].val.groupId != other
      ensures ListMessages(messages + sent, other) == ListMessages(messages, other)
    {
      FilterAppend(messages, sent, InGroup(other));
      FilterNone(sent, InGroup(other));
    }
  }

  /** A row of GET /groups/:groupId/members. */
  datatype MemberRow = MemberRow(name: string, id: int)

  function EnrolledIn(users: seq<Row<User>>, groupId: int): Membership -> bool
  {
    (m: Membership) => m.groupId == groupId && NameOf(users, m.userId).Some?
  }

  /** GET /groups/:groupId/members: the name and id of each enrolled user that
      exists. The query has no ORDER BY; the model lists them in table order,
      one order the database may choose. */
  function ListMembers(members: seq<Membership>, users: seq<Row<User>>, groupId: int): (r: seq<MemberRow>)
    ensures |r| == |Filter(members, EnrolledIn(users, groupId))|
    ensures forall k :: 0 <= k < |r| ==>
      r[k].id == Filter(members, EnrolledIn(users, groupId))[k].userId && NameOf(users, r[k].id) == Some(r[k].name)
    ensures forall i :: 0 <= i < |r| ==>
      IsMember(members, groupId, r[i].id) && NameOf(users, r[i].id) == Some(r[i].name)
    ensures forall k :: 0 <= k < |members| && members[k].groupId == groupId && NameOf(users, members[k].userId).Some? ==>
      MemberRow(NameOf(users, members[k].userId).value, members[k].userId) in r
  {
    var enrolled := Filter(members, EnrolledIn(users, groupId));
    var r := Map(enrolled, (m: Membership) => MemberRow(AuthorName(users, m.userId), m.userId));
    ListMembersCover(members, users, groupId, enrolled, r);
    r
  }

  lemma ListMembersCover(members: seq<Membership>, users: seq<Row<User>>, groupId: int, enrolled: seq<Membership>, r: seq<MemberRow>)
    requires enrolled == Filter(members, EnrolledIn(users, groupId))
    requires r == Map(enrolled, (m: Membership) => MemberRow(AuthorName(users, m.userId), m.userId))
    ensures forall k :: 0 <= k < |members| && members[k].groupId == groupId && NameOf(users, members[k].userId).Some? ==>
      MemberRow(NameOf(users, members[k].userId).value, members[k].userId) in r
  {
    forall k | 0 <= k < |members| && members[k].groupId == groupId && NameOf(users, members[k].userId).Some?
      ensures MemberRow(NameOf(users, members[k].userId).value, members[k].userId) in r
    {
      InMap(enrolled, (m: Membership) => MemberRow(AuthorName(users, m.userId), m.userId), members[k]);
    }
  }

  /** After creating a group, its creator is listed among its members. */
  lemma CreatorListed(members: seq<Membership>, users: seq<Row<User>>, groupId: int, creator: int)
    requires NameOf(users, creator).Some?
    ensures MemberRow(NameOf(users, creator).value, creator) in ListMembers(members + [Membership(groupId, creator)], users, groupId)
  {
    var m := members + [Membership(groupId, creator)];
    assert m[|members|] == Membership(groupId, creator);
  }

  // ===========================================================================
  // 7. Admin moderation: GET /admin/moderation
  // ===========================================================================

  /** How many characters of a description or content a moderation title keeps. */
  const ExcerptLength := 50

  /** `text.substring(0, 50) + '...'`. */
  function Excerpt(text: string): string
  {
    (if |text| < ExcerptLength then text else text[..ExcerptLength]) + "..."
  }

  /** An excerpt is the first 50 characters of the text, all of it when it is
      shorter, followed by "...". */
  lemma ExcerptShape(text: string)
    ensures var t := Excerpt(text);
      && |t| == (if |text| < ExcerptLength then |text| else ExcerptLength) + 3
      && t[..|t| - 3] == text[..|t| - 3]
      && t[|t| - 3..] == "..."
  {
  }

  /** The title of a pending review: `Review: ${service_name} (${rating} Star)`. */
  function ReviewTitle(serviceName: string, rating: int): string
  {
    "Review: " + serviceName + " (" + IntToString(rating) + " Star)"
  }

  /** A review title starts with "Review: " and the service name and ends with
      " Star)"; the digits between the service name's " (" and " Star)" parse
      back to the rating. */
  lemma ReviewTitleRating(serviceName: string, rating: int)
    ensures var t := ReviewTitle(serviceName, rating);
      && |t| >= |"Review: "| + |serviceName| + |" ("| + 1 + |" Star)"|
      && t[..|"Review: "| + |serviceName|] == "Review: " + serviceName
      && t[|t| - |" Star)"|..] == " Star)"
      && var digits := t[|"Review: "| + |serviceName| + |" ("|..|t| - |" Star)"|];
         digits == IntToString(rating) && ParseInt(digits) == rating
  {
    var t := ReviewTitle(serviceName, rating);
    assert t == "Review: " + serviceName + " (" + IntToString(rating) + " Star)";
    assert t[|"Review: "| + |serviceName| + |" ("|..|t| - |" Star)"|] == IntToString(rating);
    ParseIntToString(rating);
  }

  /** A review of the service "Transit" rated 4 is titled "Review: Transit (4 Star)". */
  lemma TransitTitle()
    ensures ReviewTitle("Transit", 4) == "Review: Transit (4 Star)"
  {
    assert IntToString(4) == "4";
  }

  /** One entry of the moderation list, tagged by its kind, with the selected
      columns, the author's name and the derived title. */
  datatype ModerationItem =
    | ComplaintItem(id: int, description: string, category: string, status: Option<string>, username: string, title: string)
    | ReviewItem(id: int, comment: string, serviceName: string, rating: int, username: string, title: string)
    | PostItem(id: int, content: string, username: string, title: string)

  /** The position of an item's section in the list. */
  function Section(item: ModerationItem): nat
  {
    match item
    case ComplaintItem(_, _, _, _, _, _) => 0
    case ReviewItem(_, _, _, _, _, _) => 1
    case PostItem(_, _, _, _) => 2
  }

  /** `c.status != 'Resolved'`: a NULL status compares to unknown and is left out. */
  predicate Unresolved(status: Option<string>)
  {
    status.Some? && status.value != "Resolved"
  }

  function PendingComplaint(users: seq<Row<User>>): Row<Complaint> -> bool
  {
    (c: Row<Complaint>) => Unresolved(c.val.status) && NameOf(users, c.val.userId).Some?
  }

  function PendingReview(users: seq<Row<User>>): Row<Review> -> bool
  {
    (v: Row<Review>) => !v.val.isApproved && NameOf(users, v.val.userId).Some?
  }

  /** The complaints section: unresolved complaints whose author exists, newest first. */
  function PendingComplaints(complaints: seq<Row<Complaint>>, users: seq<Row<User>>): (r: seq<Row<Complaint>>)
    ensures forall i :: 0 <= i < |r| ==>
      r[i] in complaints && Unresolved(r[i].val.status) && NameOf(users, r[i].val.userId).Some?
    ensures forall k :: 0 <= k < |complaints| && Unresolved(complaints[k].val.status) && NameOf(users, complaints[k].val.userId).Some? ==>
      complaints[k] in r
    ensures Ascending(complaints) ==> Descending(r)
  {
    NewestFirst(complaints, PendingComplaint(users))
  }

  /** The reviews section: unapproved reviews whose author exists, newest first. */
  function PendingReviews(reviews: seq<Row<Review>>, users: seq<Row<User>>): (r: seq<Row<Review>>)
    ensures forall i :: 0 <= i < |r| ==>
      r[i] in reviews && !r[i].val.isApproved && NameOf(users, r[i].val.userId).Some?
    ensures forall k :: 0 <= k < |reviews| && !reviews[k].val.isApproved && NameOf(users, reviews[k].val.userId).Some? ==>
      reviews[k] in r
    ensures Ascending(reviews) ==> Descending(r)
  {
    NewestFirst(reviews, PendingReview(users))
  }

  /** The posts section: every post whose author exists, newest first. */
  function ModeratedPosts(posts: seq<Row<Post>>, users: seq<Row<User>>): (r: seq<Row<Post>>)
    ensures forall i :: 0 <= i < |r| ==> r[i] in posts && NameOf(users, r[i].val.userId).Some?
    ensures forall k :: 0 <= k < |posts| && NameOf(users, posts[k].val.userId).Some? ==> posts[k] in r
    ensures Ascending(posts) ==> Descending(r)
  {
    NewestFirst(posts, ComplaintController.Authored(users))
  }

  function ComplaintEntry(users: seq<Row<User>>): Row<Complaint> -> ModerationItem
  {
    (c: Row<Complaint>) => ComplaintItem(c.id, c.val.description, c.val.category, c.val.status,
      AuthorName(users, c.val.userId), Excerpt(c.val.description))
  }

  function ReviewEntry(users: seq<Row<User>>): Row<Review> -> ModerationItem
  {
    (v: Row<Review>) => ReviewItem(v.id, v.val.comment, v.val.serviceName, v.val.rating,
      AuthorName(users, v.val.userId), ReviewTitle(v.val.serviceName, v.val.rating))
  }

  function PostEntry(users: seq<Row<User>>): Row<Post> -> ModerationItem
  {
    (p: Row<Post>) => PostItem(p.id, p.val.content, AuthorName(users, p.val.userId), Excerpt(p.val.content))
  }

  /** An item's title is derived from its own columns. */
  predicate Titled(item: ModerationItem)
  {
    match item
    case ComplaintItem(_, description, _, _, _, title) => title == Excerpt(description)
    case ReviewItem(_, _, serviceName, rating, _, title) => title == ReviewTitle(serviceName, rating)
    case PostItem(_, content, _, title) => title == Excerpt(content)
  }

  /** The list built from the three sections, in this order. */
  function Assemble(pc: seq<Row<Complaint>>, pr: seq<Row<Review>>, pp: seq<Row<Post>>, users: seq<Row<User>>): seq<ModerationItem>
  {
    Map(pc, ComplaintEntry(users)) + Map(pr, ReviewEntry(users)) + Map(pp, PostEntry(users))
  }

  /** GET /admin/moderation: the complaints section, then the reviews section,
      then the posts section. It is a function of the tables: it changes none. */
  function ModerationQueue(complaints: seq<Row<Complaint>>, reviews: seq<Row<Review>>, posts: seq<Row<Post>>, users: seq<Row<User>>)
    : (r: seq<ModerationItem>)
    ensures |r| == |PendingComplaints(complaints, users)| + |PendingReviews(reviews, users)| + |ModeratedPosts(posts, users)|
  {
    Assemble(PendingComplaints(complaints, users), PendingReviews(reviews, users), ModeratedPosts(posts, users), users)
  }

  /** Indexing into three concatenated maps. */
  lemma MapsAt<A, B, C, U>(a: seq<A>, f: A -> U, b: seq<B>, g: B -> U, c: seq<C>, h: C -> U, i: int)
    requires 0 <= i < |a| + |b| + |c|
    ensures var r := Map(a, f) + Map(b, g) + Map(c, h);
      && (i < |a| ==> r[i] == f(a[i]))
      && (|a| <= i < |a| + |b| ==> r[i] == g(b[i - |a|]))
      && (|a| + |b| <= i ==> r[i] == h(c[i - |a| - |b|]))
  {
  }

  /** The item at position `i` of an assembled list is the entry of the section
      row it stands for. */
  lemma AssembledAt(pc: seq<Row<Complaint>>, pr: seq<Row<Review>>, pp: seq<Row<Post>>, users: seq<Row<User>>, i: int)
    requires 0 <= i < |pc| + |pr| + |pp|
    ensures |Assemble(pc, pr, pp, users)| == |pc| + |pr| + |pp|
    ensures i < |pc| ==> Assemble(pc, pr, pp, users)[i] == ComplaintEntry(users)(pc[i])
    ensures |pc| <= i < |pc| + |pr| ==> Assemble(pc, pr, pp, users)[i] == ReviewEntry(users)(pr[i - |pc|])
    ensures |pc| + |pr| <= i ==> Assemble(pc, pr, pp, users)[i] == PostEntry(users)(pp[i - |pc| - |pr|])
  {
    MapsAt(pc, ComplaintEntry(users), pr, ReviewEntry(users), pp, PostEntry(users), i);
  }

  /** The list holds one item per section row; complaints come first, then
      reviews, then posts; and every item's title is derived from its own
      columns. */
  lemma ModerationQueueLayout(complaints: seq<Row<Complaint>>, reviews: seq<Row<Review>>, posts: seq<Row<Post>>, users: seq<Row<User>>)
    ensures var r := ModerationQueue(complaints, reviews, posts, users);
      && |r| == |PendingComplaints(complaints, users)| + |PendingReviews(reviews, users)| + |ModeratedPosts(posts, users)|
      && (forall i, j :: 0 <= i < j < |r| ==> Section(r[i]) <= Section(r[j]))
      && (forall i :: 0 <= i < |r| ==> Titled(r[i]))
  {
    var pc, pr, pp := PendingComplaints(complaints, users), PendingReviews(reviews, users), ModeratedPosts(posts, users);
    var r := Assemble(pc, pr, pp, users);
    assert |r| == |pc| + |pr| + |pp|;
    forall i | 0 <= i < |r|
      ensures Section(r[i]) == (if i < |pc| then 0 else if i < |pc| + |pr| then 1 else 2) && Titled(r[i])
    {
      AssembledAt(pc, pr, pp, users, i);
    }
  }

  /** Each item of the list stands for its section's row at the same position:
      same id, the author's name, and the row's own columns. */
  lemma ModerationItemsFromRows(complaints: seq<Row<Complaint>>, reviews: seq<Row<Review>>, posts: seq<Row<Post>>, users: seq<Row<User>>, i: int)
    requires 0 <= i < |PendingComplaints(complaints, users)| + |PendingReviews(reviews, users)| + |ModeratedPosts(posts, users)|
    ensures var r := ModerationQueue(complaints, reviews, posts, users);
      var nc := |PendingComplaints(complaints, users)|;
      var nr := |PendingReviews(reviews, users)|;
      && (i < nc ==>
            var c := PendingComplaints(complaints, users)[i];
            r[i].ComplaintItem? && r[i].id == c.id && r[i].description == c.val.description &&
            r[i].category == c.val.category && r[i].status == c.val.status &&
            Some(r[i].username) == NameOf(users, c.val.userId))
      && (nc <= i < nc + nr ==>
            var v := PendingReviews(reviews, users)[i - nc];
            r[i].ReviewItem? && r[i].id == v.id && r[i].comment == v.val.comment &&
            r[i].serviceName == v.val.serviceName && r[i].rating == v.val.rating &&
            Some(r[i].username) == NameOf(users, v.val.userId))
      && (nc + nr <= i ==>
            var p := ModeratedPosts(posts, users)[i - nc - nr];
            r[i].PostItem? && r[i].id == p.id && r[i].content == p.val.content &&
            Some(r[i].username) == NameOf(users, p.val.userId))
  {
    var pc, pr, pp := PendingComplaints(complaints, users), PendingReviews(reviews, users), ModeratedPosts(posts, users);
    assert ModerationQueue(complaints, reviews, posts, users) == Assemble(pc, pr, pp, users);
    AssembledAt(pc, pr, pp, users, i);
  }

  /** Complaint items occupy exactly the first section and review items the second. */
  lemma SectionBounds(complaints: seq<Row<Complaint>>, reviews: seq<Row<Review>>, posts: seq<Row<Post>>, users: seq<Row<User>>)
    ensures var r := ModerationQueue(complaints, reviews, posts, users);
      var nc := |PendingComplaints(complaints, users)|;
      var nr := |PendingReviews(reviews, users)|;
      && (forall i :: 0 <= i < |r| && r[i].ComplaintItem? ==> i < nc)
      && (forall i :: 0 <= i < |r| && r[i].ReviewItem? ==> nc <= i < nc + nr)
  {
    var pc, pr, pp := PendingComplaints(complaints, users), PendingReviews(reviews, users), ModeratedPosts(posts, users);
    var r := Assemble(pc, pr, pp, users);
    forall i | 0 <= i < |r|
      ensures Section(r[i]) == if i < |pc| then 0 else if i < |pc| + |pr| then 1 else 2
    {
      AssembledAt(pc, pr, pp, users, i);
    }
  }

  /** A resolved complaint (or one whose status is NULL) never reaches the list. */
  lemma ResolvedComplaintNotQueued(complaints: seq<Row<Complaint>>, reviews: seq<Row<Review>>, posts: seq<Row<Post>>, users: seq<Row<User>>, k: int)
    requires IdsAscending(complaints) && 0 <= k < |complaints| && !Unresolved(complaints[k].val.status)
    ensures var r := ModerationQueue(complaints, reviews, posts, users);
      forall i :: 0 <= i < |r| && r[i].ComplaintItem? ==> r[i].id != complaints[k].id
  {
    var pc, pr, pp := PendingComplaints(complaints, users), PendingReviews(reviews, users), ModeratedPosts(posts, users);
    var r := Assemble(pc, pr, pp, users);
    SectionBounds(complaints, reviews, posts, users);
    forall i | 0 <= i < |r| && r[i].ComplaintItem? ensures r[i].id != complaints[k].id {
      AssembledAt(pc, pr, pp, users, i);
      var j :| 0 <= j < |complaints| && complaints[j] == pc[i];
      if pc[i].id == complaints[k].id {
        UniqueIds(complaints, j, k);
      }
    }
  }

  /** An approved review never reaches the list. */
  lemma ApprovedReviewNotQueued(complaints: seq<Row<Complaint>>, reviews: seq<Row<Review>>, posts: seq<Row<Post>>, users: seq<Row<User>>, k: int)
    requires IdsAscending(reviews) && 0 <= k < |reviews| && reviews[k].val.isApproved
    ensures var r := ModerationQueue(complaints, reviews, posts, users);
      forall i :: 0 <= i < |r| && r[i].ReviewItem? ==> r[i].id != reviews[k].id
  {
    var pc, pr, pp := PendingComplaints(complaints, users), PendingReviews(reviews, users), ModeratedPosts(posts, users);
    var r := Assemble(pc, pr, pp, users);
    SectionBounds(complaints, reviews, posts, users);
    forall i | 0 <= i < |r| && r[i].ReviewItem? ensures r[i].id != reviews[k].id {
      AssembledAt(pc, pr, pp, users, i);
      var m := i - |pc|;
      var j :| 0 <= j < |reviews| && reviews[j] == pr[m];
      if pr[m].id == reviews[k].id {
        UniqueIds(reviews, j, k);
      }
    }
  }

  /** The complaint item standing for a row of the complaints section. */
  lemma ComplaintAt(pc: seq<Row<Complaint>>, pr: seq<Row<Review>>, pp: seq<Row<Post>>, users: seq<Row<User>>, i: int)
    requires 0 <= i < |pc|
    ensures i < |Assemble(pc, pr, pp, users)|
    ensures var item := Assemble(pc, pr, pp, users)[i];
      item.ComplaintItem? && item.id == pc[i].id && item.title == Excerpt(pc[i].val.description)
  {
    AssembledAt(pc, pr, pp, users, i);
  }

  /** The review item standing for a row of the reviews section. */
  lemma ReviewAt(pc: seq<Row<Complaint>>, pr: seq<Row<Review>>, pp: seq<Row<Post>>, users: seq<Row<User>>, m: int)
    requires 0 <= m < |pr|
    ensures |pc| + m < |Assemble(pc, pr, pp, users)|
    ensures var item := Assemble(pc, pr, pp, users)[|pc| + m];
      item.ReviewItem? && item.id == pr[m].id && item.title == ReviewTitle(pr[m].val.serviceName, pr[m].val.rating)
  {
    AssembledAt(pc, pr, pp, users, |pc| + m);
  }

  /** Every unresolved complaint whose author exists is listed, titled by its description. */
  lemma PendingComplaintQueued(complaints: seq<Row<Complaint>>, reviews: seq<Row<Review>>, posts: seq<Row<Post>>, users: seq<Row<User>>, k: int)
    requires 0 <= k < |complaints| && Unresolved(complaints[k].val.status) && NameOf(users, complaints[k].val.userId).Some?
    ensures var r := ModerationQueue(complaints, reviews, posts, users);
      exists i :: 0 <= i < |r| && r[i].ComplaintItem? && r[i].id == complaints[k].id &&
        r[i].title == Excerpt(complaints[k].val.description)
  {
    var pc, pr, pp := PendingComplaints(complaints, users), PendingReviews(reviews, users), ModeratedPosts(posts, users);
    var r := Assemble(pc, pr, pp, users);
    assert r == ModerationQueue(complaints, reviews, posts, users);
    var i :| 0 <= i < |pc| && pc[i] == complaints[k];
    ComplaintAt(pc, pr, pp, users, i);
    assert r[i].ComplaintItem? && r[i].id == complaints[k].id && r[i].title == Excerpt(complaints[k].val.description);
  }

  /** Every unapproved review whose author exists is listed, with its review title. */
  lemma PendingReviewQueued(complaints: seq<Row<Complaint>>, reviews: seq<Row<Review>>, posts: seq<Row<Post>>, users: seq<Row<User>>, k: int)
    requires 0 <= k < |reviews| && !reviews[k].val.isApproved && NameOf(users, reviews[k].val.userId).Some?
    ensures var r := ModerationQueue(complaints, reviews, posts, users);
      exists i :: 0 <= i < |r| && r[i].ReviewItem? && r[i].id == reviews[k].id &&
        r[i].title == ReviewTitle(reviews[k].val.serviceName, reviews[k].val.rating)
  {
    var pc, pr, pp := PendingComplaints(complaints, users), PendingReviews(reviews, users), ModeratedPosts(posts, users);
    var r := Assemble(pc, pr, pp, users);
    assert r == ModerationQueue(complaints, reviews, posts, users);
    var m :| 0 <= m < |pr| && pr[m] == reviews[k];
    ReviewAt(pc, pr, pp, users, m);
    var i := |pc| + m;
    assert r[i].ReviewItem? && r[i].id == reviews[k].id && r[i].title == ReviewTitle(reviews[k].val.serviceName, reviews[k].val.rating);
  }
}
