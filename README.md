# City Connect server core, modelled in Dafny

City Connect is a civic community app. Its Express server lets citizens:

- register and log in;
- post "happiness posts", which others like, support and comment on;
- file complaints, whose status an administrator updates;
- review city services, with reviews shown only once an administrator approves them;
- read the latest announcements;
- create and join groups, and chat in them.

Administrators also get one moderation list that gathers unresolved complaints, unapproved reviews and every post.

This project models the server's core in Dafny:

- the route handlers (`server/routes.js`);
- the token and admin gates (`server/authMiddleware.js`);
- registration and login (`server/authController.js`);
- the post feed, support toggling, comments and cascading post deletion (`server/complaintController.js`);
- the upload file filter and naming rule (`server/uploadMiddleware.js`).

The modules are:

- `Tables`: rows of a table as `Row(id, createdAt, val)`, with `Filter` (WHERE), `Map` (SELECT list), `NewestFirst` (ORDER BY created_at DESC), `Find` (primary-key lookup) and the lemmas about their order.
- `Database`: the records of each table and the class `Database`, whose `seq` fields the handlers reassign. Every insert draws its serial id and its `created_at` from one counter (`Tick`). `Valid()` keeps every table in stamp and id order, emails unique and supports unique.
- `Http` and `Jwt`: replies as status and body; token claims `{ id, role }`, signed with the server key and a `24h` lifetime.
- `AuthMiddleware`: `Gate` is the decision of `verifyToken` and `verifyAdmin`. The class `Exchange` is one request: the `req` fields the middleware sets, the replies sent on `res`, and how often the route handler ran.
- `AuthController`: `Register` (a method on the store) and `Login` (a function of the users table).
- `ComplaintController`: the post controller.
- `Routes`: every handler of the router. Write handlers are methods that take the `Database`; their `modifies` clauses name exactly the tables they touch. List handlers are functions of the tables.
- `UploadMiddleware`: the upload filter and naming rule, with the POSIX `path.extname`.
- `Decimal`: integer-to-decimal rendering and its parser, used by review titles and stored file names.

## Model

| member | source | states |
|---|---|---|
| Tables.NewestFirst | server/routes.js:44-49 | the rows satisfying the WHERE condition, each exactly once in number, every such row present, and strictly newest first when the table is in insertion order |
| Database.NameOf | server/routes.js:45-47 | the user name a JOIN on users attaches: absent exactly when no user has the id, otherwise the name of a user with that id |
| Decimal.NatToString | server/uploadMiddleware.js:16 | JavaScript's rendering of a non-negative integer below 10^21 (plain digits): at least one character, digits only, no leading zero except for 0 itself (read back by `ParseNatToString`) |
| Decimal.IntToString | server/routes.js:243 | JavaScript's rendering of an integer of magnitude below 10^21 (plain digits): at least one character, with a leading '-' exactly when the integer is negative (read back by `ParseIntToString`) |
| Decimal.ParseNatToString | server/uploadMiddleware.js:16 | the decimal timestamp rendered into a stored name reads back as the same number |
| Decimal.ParseIntToString | server/routes.js:243 | a rating rendered into a review title reads back as the same integer, negative ones included |
| Decimal.IntToStringInjective | server/routes.js:243 | two different ratings never render to the same text |
| AuthMiddleware.Gate | server/authMiddleware.js:5-26 | a request is admitted exactly when a non-empty token is present and verifies (and, for the admin gate, carries role `admin`), with the decoded claims; otherwise it gets one of the three refusals |
| AuthMiddleware.Continue | server/authMiddleware.js:19-25 | the handler runs once when the continuation is the handler itself or the recorded role is `admin`; otherwise 403 "You are not allowed to do that!" is sent and the handler does not run |
| AuthMiddleware.VerifyToken | server/authMiddleware.js:5-15 | exactly one of "a reply is sent" and "the next step runs" happens, as `Gate` decides; the decoded id and role are recorded on the request exactly when the token verifies |
| AuthMiddleware.VerifyAdmin | server/authMiddleware.js:18-26 | the request is answered or handled exactly as the admin gate decides, with one outcome per request |
| AuthMiddleware.MissingTokenRefused | server/authMiddleware.js:6-7 | an absent or empty token gets 403 "No token provided" from either gate |
| AuthMiddleware.InvalidTokenRefused | server/authMiddleware.js:9-10 | a token that fails verification gets 401 "Unauthorized" from either gate |
| AuthMiddleware.AdminGateRefinesTokenGate | server/authMiddleware.js:18-26 | the admin gate refuses whatever the token gate refuses, with the same reply; of what the token gate admits it admits the admin role with the same claims and refuses every other role with 403 |
| AuthController.Issue | server/authController.js:25 | the token carries exactly the id and role, the server key and the `24h` lifetime |
| AuthController.FindByEmail | server/authController.js:41 | the lookup is absent exactly when no user has the email; otherwise it is a stored user with that email |
| AuthController.WithoutPassword | server/authController.js:51 | the returned user keeps id, name, email and role and drops the password hash |
| AuthController.Login | server/authController.js:38-52 | 401 "User not found" exactly when the email is unknown; 401 "Incorrect password" exactly when it is known and the password does not match the stored hash; otherwise success with the user minus its hash and a token for its id and role |
| AuthController.Register | server/authController.js:10-33 | with a taken email: the 500 "Registration failed" reply and no change; otherwise exactly one new user with the next id, the password hash and role `citizen`, a reply with that identity and its token, and the store still valid (emails still unique) |
| AuthController.UniqueEmailsAppend | server/authController.js:18-21 | inserting a user whose email nobody has keeps emails unique |
| AuthController.RegisterThenLogin | server/authController.js:10-52 | after a successful registration, logging in with the same email and password succeeds as that user, with a token for its id and role |
| AuthController.FindByEmailAppend | server/authController.js:41 | the lookup of a newly inserted, previously unused email finds the new row |
| AuthController.WrongPasswordNotNotFound | server/authController.js:44-45 | a known email with a wrong password is reported as "Incorrect password", never as "User not found" |
| ComplaintController.CreatePost | server/complaintController.js:3-15 | exactly one new post by the caller with the body's type, title, content and city, no image and no likes; nothing else changes |
| ComplaintController.SupportCount | server/complaintController.js:24 | the number of support rows for the post; `SupportCountIsSupporters` proves it equals the number of distinct supporters |
| ComplaintController.SupportCountIsSupporters | server/complaintController.js:24 | with no support recorded twice, a post's support count is its number of distinct supporters |
| ComplaintController.PostComments | server/complaintController.js:26-32 | one element per comment on the post whose author exists, each such comment counted once; the elements are exactly the post's comments whose author exists, each with its id, author name and content; empty when there are none |
| ComplaintController.FeedEntry | server/complaintController.js:21-32 | one feed row: the post, its author's name, its support count, whether the viewer supports it, and its comments; `AllPosts` states what each component is |
| ComplaintController.AllPosts | server/complaintController.js:17-43 | one entry per post whose author exists, newest first, each with the author's name, its support count, whether the viewer (0 when missing) supports it, and its comments |
| ComplaintController.AllPostsListsEveryAuthoredPost | server/complaintController.js:33-35 | every post whose author exists appears in the feed as its own entry |
| ComplaintController.Toggled | server/complaintController.js:48-55 | the caller's support of the post is present afterwards exactly when it was absent before; every other support is kept as it was |
| ComplaintController.ToggleSupport | server/complaintController.js:45-60 | the supports table becomes its toggle, the reply says "unsupported" exactly when the support existed, and supports stay unique |
| ComplaintController.FilterKeepsUnique | server/complaintController.js:50 | deleting supports never creates a duplicate |
| ComplaintController.ToggleKeepsUnique | server/complaintController.js:48-55 | toggling keeps every (user, post) support unique |
| ComplaintController.ToggleTwice | server/complaintController.js:48-55 | toggling twice restores the original set of supports |
| ComplaintController.ToggleTwiceFromUnsupported | server/complaintController.js:48-55 | from an unsupported state, toggling twice restores the table exactly |
| ComplaintController.AddComment | server/complaintController.js:62-71 | exactly one new comment by the caller on the post, and the reply "Comment added" |
| ComplaintController.DeletePost | server/complaintController.js:76-90 | the post's comments, its supports and the post itself are removed, nothing else, with no ownership check |
| ComplaintController.DeletePostRemovesDependents | server/complaintController.js:80-84 | after the cascade no post, comment or support refers to the id, and every row about another post is kept |
| ComplaintController.DeletePostKeepsIntegrity | server/complaintController.js:79-84 | if every comment and support pointed at an existing post before the cascade, they all still do after it |
| Routes.CurrentUser | server/routes.js:20-25 | absent exactly when no user has the caller's id; otherwise that user's id, name, email and role |
| Routes.CreatePost | server/routes.js:30-40 | exactly one new post by the caller with the content and the stored upload name (or none), no type, title or city, and zero likes |
| Routes.ListPosts | server/routes.js:42-52 | one row per post whose author exists, each a stored post with its author's name, strictly newest first |
| Routes.ListPostsCover | server/routes.js:44-49 | every post whose author exists is listed with its author's name |
| Routes.Liked | server/routes.js:56 | the post with the id gains exactly one like; every other column and every other post is unchanged |
| Routes.LikePost | server/routes.js:54-59 | the posts table becomes its liked form and the reply is "Post liked" |
| Routes.Owns | server/routes.js:67 | the ownership test: some post has the id and the caller's user id; `Routes.DeletePost` uses it to pick the owner branch or the 403 branch |
| Routes.DeletePost | server/routes.js:61-73 | an admin deletes the post ("Deleted by Admin"); a non-admin owner deletes it ("Post deleted"); anyone else gets 403 "Unauthorized" and nothing changes |
| Routes.DeleteRemovesExactlyThePost | server/routes.js:70 | the delete leaves no post with the id and keeps every other post |
| Routes.RoutedDeleteCanOrphan | server/routes.js:61-73 | unlike the controller's cascade, the routed delete can leave a comment whose post no longer exists |
| Routes.FileComplaint | server/routes.js:78-88 | exactly one new complaint by the caller with the body's columns, the upload name if any, and status "Submitted" |
| Routes.MyComplaints | server/routes.js:90-95 | exactly the caller's complaints, every one of them, newest first |
| Routes.WithStatus | server/routes.js:99 | the complaint with the id gets the given status (NULL when absent); every other column and every other complaint is unchanged |
| Routes.UpdateComplaintStatus | server/routes.js:97-101 | the complaints table becomes its updated form, whatever the status value, and the reply is "Status updated" |
| Routes.SubmitReview | server/routes.js:106-113 | exactly one new, unapproved review by the caller, and the reply "Review submitted" |
| Routes.PublicReviews | server/routes.js:115-120 | one row per approved review whose author exists, as many rows as there are such reviews, each with its author's name, and every such review present |
| Routes.PublicReviewsCover | server/routes.js:117 | every approved review whose author exists is in the public list |
| Routes.Approved | server/routes.js:255 | the review with the id becomes approved; approval of the others and every other column is unchanged |
| Routes.ApproveReview | server/routes.js:253-258 | the reviews table becomes its approved form and the reply is "Review approved." |
| Routes.DeleteReview | server/routes.js:260-265 | the review with the id is removed and every other review is kept |
| Routes.ApproveIdempotent | server/routes.js:255 | approving twice has the effect of approving once |
| Routes.SubmittedReviewHidden | server/routes.js:109-117 | a newly submitted review leaves the public list unchanged |
| Routes.ApprovedReviewVisible | server/routes.js:253-258 | once approved, a review whose author exists is in the public list |
| Routes.ApprovedReviewListedOnce | server/routes.js:117 | in a table in id order, an approved review whose author exists appears in the public list exactly once |
| Routes.DeletedReviewHidden | server/routes.js:260-265 | after deletion the public list holds no row of the deleted review |
| Routes.LatestAnnouncements | server/routes.js:125-128 | at most five announcements, the newest first, in reverse insertion order |
| Routes.LatestAreNewest | server/routes.js:126 | the shown announcements are strictly newest first, and every one left out is older than every one shown |
| Routes.PostAnnouncement | server/routes.js:130-134 | exactly one new announcement with the body's title, message and priority |
| Routes.CreateGroup | server/routes.js:148-161 | one new group owned by the caller, with a fresh id, then the caller's membership of it, so the creator is a member |
| Routes.Joined | server/routes.js:168-171 | the user is a member afterwards; a member's join changes nothing; otherwise exactly one membership is appended |
| Routes.JoinGroup | server/routes.js:164-174 | the memberships become their joined form; the reply is "Already a member" exactly when the caller was already one |
| Routes.JoinIdempotent | server/routes.js:168-171 | joining twice is joining once |
| Routes.JoinKeepsUnique | server/routes.js:168-171 | joining never enrolls a pair twice |
| Routes.CreateKeepsUnique | server/routes.js:153-157 | the creator's membership of a group nobody belongs to yet keeps enrollments unique |
| Routes.MessageRow | server/routes.js:187-192 | the row keeps the group; the user id is NULL exactly when it is missing or 0; the name is "Anonymous" when missing or empty; the text is the body's message or "" |
| Routes.SendMessage | server/routes.js:185-204 | exactly one new message, the row built from the body, with no authentication |
| Routes.ListMessages | server/routes.js:177-182 | exactly the group's messages, every one of them, oldest first |
| Routes.SentInOrder | server/routes.js:179 | messages sent to a group are listed after the earlier ones, in the order sent; other groups' lists are unchanged |
| Routes.ListMembers | server/routes.js:207-218 | one row per membership of the group whose user exists: row k carries the user id of the k-th such membership and that user's name, so a duplicated membership is listed as often as it is stored |
| Routes.ListMembersCover | server/routes.js:210-215 | every enrolled user that exists is listed |
| Routes.CreatorListed | server/routes.js:149-161 | after a group is created, its creator is listed among its members |
| Routes.Excerpt | server/routes.js:242 | `substring(0, 50) + '...'`; `ExcerptShape` states its length and contents |
| Routes.ExcerptShape | server/routes.js:242 | a title is the first 50 characters of the text, or all of it when shorter, followed by "..." |
| Routes.ReviewTitle | server/routes.js:243 | the template `Review: ${service_name} (${rating} Star)`; `ReviewTitleRating` states its prefix, suffix and the rating it encodes |
| Routes.ReviewTitleRating | server/routes.js:243 | a review title starts with "Review: " and the service name, ends with " Star)", and the text between reads back as the rating |
| Routes.TransitTitle | server/routes.js:243 | the service "Transit" rated 4 is titled "Review: Transit (4 Star)" |
| Routes.Unresolved | server/routes.js:228 | `status != 'Resolved'` under SQL's three-valued logic: a NULL status is not unresolved; `ResolvedComplaintNotQueued` shows such complaints never reach the list |
| Routes.PendingComplaints | server/routes.js:226-229 | exactly the complaints whose status is set and not "Resolved" and whose author exists, every one of them, newest first |
| Routes.PendingReviews | server/routes.js:231-234 | exactly the unapproved reviews whose author exists, every one of them, newest first |
| Routes.ModeratedPosts | server/routes.js:236-239 | every post whose author exists, newest first |
| Routes.ModerationQueue | server/routes.js:224-251 | the moderation list: one item per row of the three sections; it reads the tables and changes none. The lemmas below state the order, titles and contents |
| Routes.ModerationQueueLayout | server/routes.js:241-246 | one item per section row; complaints first, then reviews, then posts; every title derived from the item's own columns |
| Routes.ModerationItemsFromRows | server/routes.js:241-245 | the item at each position stands for its section's row at that position: a complaint item has the row's id, description, category, status and author name; a review item has the id, comment, service name, rating and author name; a post item has the id, content and author name |
| Routes.SectionBounds | server/routes.js:241-245 | complaint items occupy exactly the first section and review items the second |
| Routes.ResolvedComplaintNotQueued | server/routes.js:228 | a complaint that is resolved, or whose status is NULL, never reaches the list |
| Routes.ApprovedReviewNotQueued | server/routes.js:233 | an approved review never reaches the list |
| Routes.PendingComplaintQueued | server/routes.js:226-242 | every unresolved complaint whose author exists is listed, titled by its description's excerpt |
| Routes.PendingReviewQueued | server/routes.js:231-243 | every unapproved review whose author exists is listed with its review title |
| UploadMiddleware.SearchFrom | server/uploadMiddleware.js:34-36 | true exactly when the name occurs somewhere at or after the start position |
| UploadMiddleware.Test | server/uploadMiddleware.js:32-36 | the pattern matches exactly when one of its alternatives occurs anywhere in the text |
| UploadMiddleware.ToLower | server/uploadMiddleware.js:34 | same length, every upper-case letter lowered, everything else kept, no upper-case letter left |
| UploadMiddleware.TrimSlashes | server/uploadMiddleware.js:34 | a prefix of the path without a trailing slash, only slashes removed |
| UploadMiddleware.Basename | server/uploadMiddleware.js:34 | the longest suffix of the path without a slash |
| UploadMiddleware.LastDot | server/uploadMiddleware.js:34 | absent exactly when there is no '.'; otherwise the index of a '.' with no '.' after it |
| UploadMiddleware.BaseExtension | server/uploadMiddleware.js:34 | a well-formed extension, non-empty exactly when the last component has a '.' past its first character and is not ".."; when non-empty, a proper suffix of the component |
| UploadMiddleware.ExtName | server/uploadMiddleware.js:34 | always a well-formed extension: empty, or a '.' followed by characters that are neither '.' nor '/' |
| UploadMiddleware.CheckFileType | server/uploadMiddleware.js:30-43 | accepted exactly when both the lower-cased extension and the MIME type contain one of jpeg, jpg, png, gif; otherwise refused with "Error: Images only (JPEG, PNG, GIF)!" |
| UploadMiddleware.StoredFilename | server/uploadMiddleware.js:14-17 | the field name, '-', the decimal timestamp (which reads back as the timestamp) and the original's extension |
| UploadMiddleware.AcceptedHasImageExtension | server/uploadMiddleware.js:38-42 | an accepted file has a non-empty extension starting with '.' |
| UploadMiddleware.BaseExtensionOfSuffix | server/uploadMiddleware.js:34 | a last component ending in a well-formed extension after a character other than '.' has that extension |
| UploadMiddleware.ExtNameOfSuffix | server/uploadMiddleware.js:34 | any name ending in a well-formed extension after a character that is neither '/' nor '.' has that extension |
| UploadMiddleware.StoredNameKeepsExtension | server/uploadMiddleware.js:16 | for a field name without '.', the stored name has the same extension as the original name |
| UploadMiddleware.SuffixChecked | server/uploadMiddleware.js:30-43 | a name with a well-formed extension is accepted exactly when that lower-cased extension and the MIME type each contain an image type name |
| UploadMiddleware.UnanchoredExtension | server/uploadMiddleware.js:32 | the pattern is unanchored: a name ending in ".pngx" with MIME "image/png" is accepted |
| UploadMiddleware.NoImageTypeInUpperCase | server/uploadMiddleware.js:36 | no image type name occurs in a text without lower-case letters |
| UploadMiddleware.UpperCaseExtensionAccepted | server/uploadMiddleware.js:34 | the extension is case-folded: ".PNG" with MIME "image/png" is accepted |
| UploadMiddleware.UpperCaseMimeRefused | server/uploadMiddleware.js:36 | the MIME type is not case-folded: one without lower-case letters is refused whatever the name |
| UploadMiddleware.DotFileHasNoExtension | server/uploadMiddleware.js:34 | a name whose only '.' is its first character has no extension |
| UploadMiddleware.DotFileRefused | server/uploadMiddleware.js:30-43 | such a name is refused whatever its MIME type |

## Left out

- Database schema: `server/db.js` only opens the connection pool, and the table definitions are not part of this model. The column defaults are assumed: role `citizen`, complaint status `Submitted`, `is_approved` false and `likes` 0. A unique constraint on `users.email` is assumed too.
- Display names: `getAllPosts` selects `users.username`, while every route selects `users.name` (which registration fills). The model has a single display-name column, the user's `name`.
- Foreign keys: none are modelled. `ComplaintController.DeletePost` deletes the dependent rows first; the routed `Routes.DeletePost` does not. With foreign keys in force the routed delete of a commented post would fail rather than orphan rows (`Routes.RoutedDeleteCanOrphan`).
- Failures: exceptions, database errors and the 500 replies they produce are not modelled. The exception is registration with a taken email, which is the 500 reply `AuthController.Register` states. A body field missing from a request is modelled only where the handler defaults it (message sending, the complaint status update, the feed's viewer id).
- Unrouted controller: the router mounts neither `createPost`, `getAllPosts`, `toggleSupport`, `addComment` nor `deletePost`. They are modelled as written.
- Decimal.NatToString, Decimal.IntToString: render every integer in plain digits; JavaScript switches to exponent form from 10^21 on, a magnitude no timestamp in milliseconds or rating reaches.
- Behaviour kept as written: registration reports a duplicate email as a 500, not a conflict. The missing-token 403 and the invalid-token 401 stay distinct. A complaint status update accepts any value, including NULL. Group creation runs two separate statements with no transaction. Sending a message needs no authentication and accepts empty text.
- Routes.ListMembers, Routes.PublicReviews, ComplaintController.PostComments: the SQL has no ORDER BY, so the database may return these rows in any order. The model returns them in table order, which is one of the allowed orders.
- Routes.CreateGroup: does not claim that memberships stay unique. A join naming a group id that does not exist yet can already hold the pair (`Routes.CreateKeepsUnique` states the condition under which they stay unique).
- `GET /groups` (`server/routes.js:141-146`) returns the groups table as it is; no separate member models it.
- Routes.ModerationQueue: its own `ensures` gives only the length. The order, the titles and the contents are the lemmas beside it.
- Multer: storage, the destination directory and the enforcement of the 5 MB limit are multer internals, not part of this model. The limit exists only as the constant `MaxFileSize`.
- Upload inputs: `Date.now()` is the `now` parameter of `StoredFilename`. The upload's field name, original name and MIME type are parameters.
- Strings and paths: `path.extname` follows POSIX rules only. `toLowerCase` folds ASCII letters only. String positions count characters, not UTF-16 code units.
- Cryptography: bcrypt is an abstract `Hasher` whose only assumed property is that a password matches its own hash. JWT verification is a map from token text to claims. Expiry times are not modelled.
- Transport: Express, JSON serialisation, logging and concurrency between requests are left out. Each handler runs atomically on the store.
