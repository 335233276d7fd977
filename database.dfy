/** The relational store behind the server, held in memory: one sequence per
    table in insertion order. Every insert draws its serial id and its
    `created_at` from one store-wide counter, so stamps strictly increase with
    each insert and ORDER BY created_at is table order. */
module Database {
  import opened Tables

  /** Column defaults of the schema: a new user's role, a new complaint's
      status, a new review's approval flag and a new post's like count. */
  const DefaultRole := "citizen"
  const DefaultStatus := "Submitted"
  const DefaultApproval := false
  const DefaultLikes := 0

  /** The only role the middleware and the handlers treat specially. */
  const AdminRole := "admin"

  /** A user; `password` holds the bcrypt hash, never the plaintext. */
  datatype User = User(name: string, email: string, password: string, role: string)

  /** A post; the optional columns are NULL when the inserting handler leaves them out. */
  datatype Post = Post(
    userId: int,
    kind: Option<string>,
    title: Option<string>,
    content: string,
    city: Option<string>,
    imageUrl: Option<string>,
    likes: int)

  /** A row of `supports`: user `userId` supports post `postId`. */
  datatype Support = Support(userId: int, postId: int)

  datatype Comment = Comment(userId: int, postId: int, content: string)

  /** A complaint; `status` is NULL after a status update whose body had no status. */
  datatype Complaint = Complaint(
    userId: int,
    category: string,
    description: string,
    location: string,
    imageUrl: Option<string>,
    status: Option<string>)

  datatype Review = Review(userId: int, serviceName: string, rating: int, comment: string, isApproved: bool)

  datatype Announcement = Announcement(title: string, message: string, priority: string)

  datatype Group = Group(name: string, description: string, ownerId: int)

  /** A row of `group_members`. */
  datatype Membership = Membership(groupId: int, userId: int)

  /** A row of `group_messages`; `userId` is NULL for an anonymous sender. */
  datatype GroupMessage = GroupMessage(groupId: int, userId: Option<int>, username: string, text: string)

  /** No two users share an email (the unique constraint registration relies on). */
  predicate UniqueEmails(users: seq<Row<User>>)
  {
    forall i, j :: 0 <= i < j < |users| ==> users[i].val.email != users[j].val.email
  }

  /** No (user, post) pair is supported twice. */
  predicate UniqueSupports(supports: seq<Support>)
  {
    forall i, j :: 0 <= i < j < |supports| ==> supports[i] != supports[j]
  }

  /** No (group, user) pair is enrolled twice. */
  predicate UniqueMemberships(members: seq<Membership>)
  {
    forall i, j :: 0 <= i < j < |members| ==> members[i] != members[j]
  }

  /** `users.name` of the user with id `id`, absent when no user has that id:
      the inner JOIN on users drops rows whose author lookup is absent. */
  function NameOf(users: seq<Row<User>>, id: int): (r: Option<string>)
    ensures r.None? <==> forall i :: 0 <= i < |users| ==> users[i].id != id
    ensures r.Some? ==> exists i :: 0 <= i < |users| && users[i].id == id && users[i].val.name == r.value
  {
    match Find(users, id)
    case None => None
    case Some(u) => Some(u.val.name)
  }

  /** The `users.name` a JOIN attaches to a row by user `id`; only read for
      rows the join keeps, where NameOf is present. */
  function AuthorName(users: seq<Row<User>>, id: int): (name: string)
    ensures NameOf(users, id).Some? ==> name == NameOf(users, id).value
  {
    match NameOf(users, id)
    case Some(n) => n
    case None => ""
  }

  class Database {
    var clock: nat
    var users: seq<Row<User>>
    var posts: seq<Row<Post>>
    var supports: seq<Support>
    var comments: seq<Row<Comment>>
    var complaints: seq<Row<Complaint>>
    var reviews: seq<Row<Review>>
    var announcements: seq<Row<Announcement>>
    var groups: seq<Row<Group>>
    var members: seq<Membership>
    var messages: seq<Row<GroupMessage>>

    /** Every table is in insertion order with stamps and ids below the counter,
        emails are unique and no support is recorded twice. */
    ghost predicate Valid()
      reads this
    {
      ValidAt(clock)
    }

    /** Valid() for a counter standing at `c`. */
    ghost predicate ValidAt(c: nat)
      reads this
    {
      && Stamped(users, c)
      && Stamped(posts, c)
      && Stamped(comments, c)
      && Stamped(complaints, c)
      && Stamped(reviews, c)
      && Stamped(announcements, c)
      && Stamped(groups, c)
      && Stamped(messages, c)
      && UniqueEmails(users)
      && UniqueSupports(supports)
    }

    /** An empty database. */
    constructor ()
      ensures Valid() && clock == 0
      ensures users == [] && posts == [] && supports == [] && comments == []
      ensures complaints == [] && reviews == [] && announcements == []
      ensures groups == [] && members == [] && messages == []
    {
      clock := 0;
      users, posts, supports, comments := [], [], [], [];
      complaints, reviews, announcements := [], [], [];
      groups, members, messages := [], [], [];
    }

    /** Draws the id and stamp of the next insert: every table is still
        stamped below `stamp`, so a row stamped `stamp` may be appended. */
    method Tick() returns (stamp: nat)
      requires Valid()
      modifies this`clock
      ensures Valid() && ValidAt(stamp) && stamp == old(clock) && clock == stamp + 1
    {
      stamp := clock;
      clock := clock + 1;
      StampedLater(users, stamp, clock);
      StampedLater(posts, stamp, clock);
      StampedLater(comments, stamp, clock);
      StampedLater(complaints, stamp, clock);
      StampedLater(reviews, stamp, clock);
      StampedLater(announcements, stamp, clock);
      StampedLater(groups, stamp, clock);
      StampedLater(messages, stamp, clock);
    }
  }
}
