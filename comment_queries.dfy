/** The read side of routes/comments.js: the rows of `comments` and `likes`,
    the content rule, the counts and viewer-relative flags of a listed comment,
    the two orderings, LIMIT/OFFSET and their validation. Each SELECT of the
    handlers is a function of the tables here. */
module CommentQueries {
  import opened Common
  import opened Users

  /** A row of `comments`; `parentId` is NULL for a top-level comment. */
  datatype Comment = Comment(
    id: int,
    userId: int,
    parentId: Option<int>,
    content: string,
    createdAt: int,
    updatedAt: int)

  /** A row of `likes`: the pair (comment, user), with no payload. */
  datatype Like = Like(commentId: int, userId: int)

  /** A comment as the listings and POST / answer it: the row joined with its
      author and the fields derived for the viewer. */
  datatype CommentView = CommentView(
    id: int,
    content: string,
    createdAt: int,
    updatedAt: int,
    displayName: Option<string>,
    pictureUrl: Option<string>,
    likeCount: nat,
    replyCount: nat,
    isLiked: bool,
    isOwner: bool,
    isEdited: bool)

  /** The content guard `!content || content.length > 100`, negated. */
  predicate ValidContent(content: Option<string>) {
    content.Some? && 1 <= |content.value| <= 100
  }

  /** The largest content accepted, and the smallest refused. */
  lemma ContentBounds(s: string)
    ensures |s| == 100 ==> ValidContent(Some(s))
    ensures |s| == 101 || s == "" ==> !ValidContent(Some(s))
    ensures !ValidContent(None)
  {
  }

  // ---------------------------------------------------------------------------
  // Lookups and counts
  // ---------------------------------------------------------------------------

  /** `SELECT ... FROM comments WHERE id = $1`: the index of the row with that id. */
  function CommentIndex(rows: seq<Comment>, id: int): (r: Option<nat>)
    ensures r.Some? ==> r.value < |rows| && rows[r.value].id == id
    ensures r.None? ==> forall j | 0 <= j < |rows| :: rows[j].id != id
  {
    IndexOf(rows, (c: Comment) => c.id, id)
  }

  /** Some comment has the given id. */
  predicate HasComment(rows: seq<Comment>, id: int) {
    CommentIndex(rows, id).Some?
  }

  /** The row with `id = $1 AND user_id = $2` exists: the condition of the
      owner-only UPDATE and DELETE. */
  predicate Owns(rows: seq<Comment>, id: int, userId: int) {
    HasComment(rows, id) && rows[CommentIndex(rows, id).value].userId == userId
  }

  /** `SELECT COUNT(*) FROM likes WHERE comment_id = $1`. */
  function LikeCount(likes: set<Like>, commentId: int): (n: nat)
    ensures n == 0 <==> forall l | l in likes :: l.commentId != commentId
  {
    var liked := set l | l in likes && l.commentId == commentId;
    assert forall l | l in likes && l.commentId == commentId :: l in liked;
    |liked|
  }

  /** Adding a like the comment did not have raises its count by one and no
      other comment's count. */
  lemma LikeCountAfterInsert(likes: set<Like>, like: Like, other: int)
    requires like !in likes
    ensures LikeCount(likes + {like}, like.commentId) == LikeCount(likes, like.commentId) + 1
    ensures other != like.commentId ==> LikeCount(likes + {like}, other) == LikeCount(likes, other)
  {
    var before := set l | l in likes && l.commentId == like.commentId;
    assert (set l | l in likes + {like} && l.commentId == like.commentId) == before + {like};
    assert (set l | l in likes + {like} && l.commentId == other) ==
      (if other == like.commentId then before + {like} else set l | l in likes && l.commentId == other);
  }

  /** Removing a like the comment had lowers its count by one and no other
      comment's count. */
  lemma LikeCountAfterDelete(likes: set<Like>, like: Like, other: int)
    requires like in likes
    ensures LikeCount(likes - {like}, like.commentId) + 1 == LikeCount(likes, like.commentId)
    ensures other != like.commentId ==> LikeCount(likes - {like}, other) == LikeCount(likes, other)
  {
    var after := set l | l in likes - {like} && l.commentId == like.commentId;
    assert (set l | l in likes && l.commentId == like.commentId) == after + {like};
    assert (set l | l in likes - {like} && l.commentId == other) ==
      (if other == like.commentId then after else set l | l in likes && l.commentId == other);
  }

  /** The rows whose `parent_id` is the given id, as a set of positions. */
  ghost function ReplyPositions(rows: seq<Comment>, parentId: int): set<nat> {
    set j: nat | j < |rows| && rows[j].parentId == Some(parentId)
  }

  /** `SELECT COUNT(*) FROM comments WHERE parent_id = $1`, counted from the
      last row back. */
  function ReplyCount(rows: seq<Comment>, parentId: int): (n: nat)
    ensures n == |ReplyPositions(rows, parentId)|
    ensures n == 0 <==> forall j | 0 <= j < |rows| :: rows[j].parentId != Some(parentId)
  {
    if rows == [] then
      assert ReplyPositions(rows, parentId) == {};
      0
    else
      var init := rows[..|rows| - 1];
      var last := rows[|rows| - 1];
      assert forall j | 0 <= j < |init| :: init[j] == rows[j];
      assert ReplyPositions(rows, parentId) ==
        ReplyPositions(init, parentId) + (if last.parentId == Some(parentId) then {|rows| - 1} else {});
      ReplyCount(init, parentId) + (if last.parentId == Some(parentId) then 1 else 0)
  }

  // ---------------------------------------------------------------------------
  // The rows a listing shows, and how each is shown
  // ---------------------------------------------------------------------------

  /** The WHERE clause of a listing: top-level comments, or the replies to one. */
  datatype ListKind = TopLevel | RepliesTo(parent: int)

  /** Row `c` satisfies the WHERE clause: `parent_id IS NULL`, or
      `parent_id = $1`. */
  predicate Selected(kind: ListKind, c: Comment) {
    match kind
    case TopLevel => c.parentId.None?
    case RepliesTo(p) => c.parentId == Some(p)
  }

  /** `FROM comments c JOIN users u ON c.user_id = u.id WHERE <kind>`: the
      selected rows whose author exists, in table order. */
  function Selection(rows: seq<Comment>, users: seq<User>, kind: ListKind): (r: seq<Comment>)
    ensures |r| <= |rows|
    ensures forall c | c in r :: c in rows && Selected(kind, c) && UserById(users, c.userId).Some?
    ensures forall c | c in rows && Selected(kind, c) && UserById(users, c.userId).Some? :: c in r
    ensures forall c :: multiset(r)[c] ==
                        (if Selected(kind, c) && UserById(users, c.userId).Some? then multiset(rows)[c] else 0)
  {
    if rows == [] then []
    else
      var rest := Selection(rows[1..], users, kind);
      assert rows == [rows[0]] + rows[1..];
      assert multiset(rows) == multiset{rows[0]} + multiset(rows[1..]);
      if Selected(kind, rows[0]) && UserById(users, rows[0].userId).Some? then [rows[0]] + rest else rest
  }

  /** The viewing user's id, if any (`viewerId`, NULL when absent). */
  function ViewerId(users: seq<User>, lineUserId: Option<string>): (v: Option<int>)
    ensures v.Some? ==> exists i | 0 <= i < |users| :: users[i].id == v.value && lineUserId == Some(users[i].lineUserId)
    ensures Truthy(lineUserId) && FindUser(users, lineUserId).Some? ==> v.Some?
    ensures !Truthy(lineUserId) ==> v.None?
  {
    if !Truthy(lineUserId) then None
    else match FindUser(users, lineUserId)
      case None => None
      case Some(i) => Some(users[i].id)
  }

  /** The fields a listing derives for comment `c`, seen by `viewer`: the
      author's name and picture, the number of likes on it, the number of
      replies (always 0 in a reply listing), whether the viewer liked it or
      owns it (never, for an anonymous viewer), and whether it was edited. */
  ghost predicate Describes(v: CommentView, c: Comment, users: seq<User>, rows: seq<Comment>,
                            likes: set<Like>, viewer: Option<int>, kind: ListKind)
  {
    && v.id == c.id && v.content == c.content
    && v.createdAt == c.createdAt && v.updatedAt == c.updatedAt
    && UserById(users, c.userId).Some?
    && v.displayName == users[UserById(users, c.userId).value].displayName
    && v.pictureUrl == users[UserById(users, c.userId).value].pictureUrl
    && v.likeCount == LikeCount(likes, c.id)
    && v.replyCount == (if kind == TopLevel then ReplyCount(rows, c.id) else 0)
    && (v.isLiked <==> viewer.Some? && Like(c.id, viewer.value) in likes)
    && (v.isOwner <==> viewer == Some(c.userId))
    && (v.isEdited <==> c.createdAt < c.updatedAt)
  }

  function ViewOf(c: Comment, users: seq<User>, rows: seq<Comment>, likes: set<Like>,
                  viewer: Option<int>, kind: ListKind): (v: CommentView)
    requires UserById(users, c.userId).Some?
    ensures Describes(v, c, users, rows, likes, viewer, kind)
  {
    var author := users[UserById(users, c.userId).value];
    CommentView(
      c.id, c.content, c.createdAt, c.updatedAt, author.displayName, author.pictureUrl,
      LikeCount(likes, c.id),
      if kind == TopLevel then ReplyCount(rows, c.id) else 0,
      viewer.Some? && Like(c.id, viewer.value) in likes,
      viewer == Some(c.userId),
      c.createdAt < c.updatedAt)
  }

  /** The SELECT list applied to each selected row. */
  function Views(sel: seq<Comment>, users: seq<User>, rows: seq<Comment>, likes: set<Like>,
                 viewer: Option<int>, kind: ListKind): (r: seq<CommentView>)
    requires forall c | c in sel :: UserById(users, c.userId).Some?
    ensures |r| == |sel|
    ensures forall k | 0 <= k < |r| :: Describes(r[k], sel[k], users, rows, likes, viewer, kind)
  {
    if sel == [] then []
    else [ViewOf(sel[0], users, rows, likes, viewer, kind)] + Views(sel[1..], users, rows, likes, viewer, kind)
  }

  /** Every row a listing with this WHERE clause can show, as shown to `viewer`. */
  function Listed(rows: seq<Comment>, users: seq<User>, likes: set<Like>, viewer: Option<int>,
                  kind: ListKind): seq<CommentView>
  {
    Views(Selection(rows, users, kind), users, rows, likes, viewer, kind)
  }

  // ---------------------------------------------------------------------------
  // ORDER BY
  // ---------------------------------------------------------------------------

  /** The three orderings: `created_at DESC` (the default), `like_count DESC,
      created_at DESC` (sort = "top"), and `created_at ASC` (replies). */
  datatype Order = Newest | Top | Oldest

  /** `sort === "top"` picks the like ordering; any other value the default. */
  function OrderFor(sort: string): (o: Order)
    ensures o == Top <==> sort == "top"
    ensures o != Oldest
  {
    if sort == "top" then Top else Newest
  }

  /** `a` may come before `b` under the ordering. */
  predicate InOrder(o: Order, a: CommentView, b: CommentView) {
    match o
    case Newest => a.createdAt >= b.createdAt
    case Top => a.likeCount > b.likeCount || (a.likeCount == b.likeCount && a.createdAt >= b.createdAt)
    case Oldest => a.createdAt <= b.createdAt
  }

  ghost predicate Sorted(s: seq<CommentView>, o: Order) {
    forall i, j | 0 <= i < j < |s| :: InOrder(o, s[i], s[j])
  }

  /** What ORDER BY promises: the same rows, sorted by the key. Rows with equal
      keys may come in any order. */
  ghost predicate IsOrdering(ordered: seq<CommentView>, views: seq<CommentView>, o: Order) {
    multiset(ordered) == multiset(views) && Sorted(ordered, o)
  }

  /** Places `x` before the first element it may precede. */
  function Insert(sorted: seq<CommentView>, x: CommentView, o: Order): (r: seq<CommentView>)
    ensures multiset(r) == multiset(sorted) + multiset{x}
  {
    if sorted == [] then [x]
    else if InOrder(o, x, sorted[0]) then [x] + sorted
    else
      assert sorted == [sorted[0]] + sorted[1..];
      [sorted[0]] + Insert(sorted[1..], x, o)
  }

  lemma {:induction false} InsertKeepsSorted(sorted: seq<CommentView>, x: CommentView, o: Order)
    requires Sorted(sorted, o)
    ensures Sorted(Insert(sorted, x, o), o)
    decreases |sorted|
  {
    if sorted != [] && !InOrder(o, x, sorted[0]) {
      var rest := Insert(sorted[1..], x, o);
      InsertKeepsSorted(sorted[1..], x, o);
      forall k | 0 <= k < |rest|
        ensures InOrder(o, sorted[0], rest[k])
      {
        assert rest[k] in multiset(rest);
        if rest[k] != x {
          assert rest[k] in sorted[1..];
        }
      }
    }
  }

  /** Insertion sort: one ordering the database may return. */
  function SortViews(s: seq<CommentView>, o: Order): (r: seq<CommentView>)
    ensures multiset(r) == multiset(s)
  {
    if s == [] then []
    else
      assert s == [s[0]] + s[1..];
      Insert(SortViews(s[1..], o), s[0], o)
  }

  lemma {:induction false} SortViewsSorted(s: seq<CommentView>, o: Order)
    ensures IsOrdering(SortViews(s, o), s, o)
    decreases |s|
  {
    if s != [] {
      SortViewsSorted(s[1..], o);
      InsertKeepsSorted(SortViews(s[1..], o), s[0], o);
    }
  }

  // ---------------------------------------------------------------------------
  // LIMIT / OFFSET
  // ---------------------------------------------------------------------------

  /** A query parameter after `parseInt`: absent, a number, or NaN. */
  datatype QueryInt = Absent | Given(n: int) | NotANumber

  /** The limit and offset a listing is run with. */
  datatype Window = Window(limit: int, offset: int)

  function WithDefault(q: QueryInt, default: int): int
    requires !q.NotANumber?
  {
    if q.Given? then q.n else default
  }

  /** The paging guard of GET /: limit defaults to 10 and offset to 0; NaN or
      a negative value answers 400. */
  function ValidatePaging(limit: QueryInt, offset: QueryInt): (r: Result<Window>)
    ensures r.Err? ==> r.error == BadRequest
    ensures r.Ok? <==>
      !limit.NotANumber? && !offset.NotANumber? && WithDefault(limit, 10) >= 0 && WithDefault(offset, 0) >= 0
    ensures r.Ok? ==> r.value == Window(WithDefault(limit, 10), WithDefault(offset, 0))
    ensures r.Ok? ==> r.value.limit >= 0 && r.value.offset >= 0
  {
    if limit.NotANumber? || offset.NotANumber? then Err(BadRequest)
    else
      var w := Window(WithDefault(limit, 10), WithDefault(offset, 0));
      if w.limit < 0 || w.offset < 0 then Err(BadRequest) else Ok(w)
  }

  /** The paging guard of GET /:comment_id/replies as written: only NaN is
      refused, so a negative limit or offset reaches the query. */
  function RepliesPagingAsWritten(limit: QueryInt, offset: QueryInt): (r: Result<Window>)
    ensures r.Ok? <==> !limit.NotANumber? && !offset.NotANumber?
    ensures r.Ok? ==> r.value == Window(WithDefault(limit, 10), WithDefault(offset, 0))
  {
    if limit.NotANumber? || offset.NotANumber? then Err(BadRequest)
    else Ok(Window(WithDefault(limit, 10), WithDefault(offset, 0)))
  }

  /** `?limit=-1` passes the replies guard as written, and PostgreSQL then
      refuses `LIMIT -1`, so the handler answers 500; the guard of GET /
      answers 400. */
  lemma RepliesNegativeLimitSlipsThrough()
    ensures RepliesPagingAsWritten(Given(-1), Absent) == Ok(Window(-1, 0))
    ensures ValidatePaging(Given(-1), Absent) == Err(BadRequest)
  {
  }

  /** `LIMIT limit OFFSET offset`. */
  function Page(s: seq<CommentView>, w: Window): (r: seq<CommentView>)
    requires w.limit >= 0 && w.offset >= 0
    ensures |r| == if w.offset >= |s| then 0 else if w.offset + w.limit <= |s| then w.limit else |s| - w.offset
    ensures forall k | 0 <= k < |r| :: r[k] == s[w.offset + k]
  {
    var lo := if w.offset <= |s| then w.offset else |s|;
    var hi := if w.offset + w.limit <= |s| then w.offset + w.limit else |s|;
    s[lo..hi]
  }

  /** What a listing answers: a page of some ordering of the selected views. */
  ghost predicate IsListing(r: seq<CommentView>, views: seq<CommentView>, o: Order, w: Window) {
    && w.limit >= 0 && w.offset >= 0
    && exists ordered :: IsOrdering(ordered, views, o) && r == Page(ordered, w)
  }

  /** A listing is itself sorted, holds no more rows than the limit, and holds
      only views of rows the WHERE clause selects, each with its derived fields
      as `Describes` states them. */
  lemma ListingProperties(r: seq<CommentView>, rows: seq<Comment>, users: seq<User>, likes: set<Like>,
                          viewer: Option<int>, kind: ListKind, o: Order, w: Window)
    requires IsListing(r, Listed(rows, users, likes, viewer, kind), o, w)
    ensures Sorted(r, o)
    ensures |r| <= w.limit
    ensures forall v | v in r :: exists c | c in rows ::
      Selected(kind, c) && Describes(v, c, users, rows, likes, viewer, kind)
  {
    var views := Listed(rows, users, likes, viewer, kind);
    var ordered :| IsOrdering(ordered, views, o) && r == Page(ordered, w);
    forall v | v in r
      ensures exists c | c in rows :: Selected(kind, c) && Describes(v, c, users, rows, likes, viewer, kind)
    {
      var m :| 0 <= m < |r| && r[m] == v;
      PageIndex(ordered, w, m);
      assert v in multiset(ordered);
      ListedDescribes(v, rows, users, likes, viewer, kind);
    }
  }

  /** Every view a listing can show describes a row the WHERE clause selects. */
  lemma ListedDescribes(v: CommentView, rows: seq<Comment>, users: seq<User>, likes: set<Like>,
                        viewer: Option<int>, kind: ListKind)
    requires v in Listed(rows, users, likes, viewer, kind)
    ensures exists c | c in rows :: Selected(kind, c) && Describes(v, c, users, rows, likes, viewer, kind)
  {
    var views := Listed(rows, users, likes, viewer, kind);
    var sel := Selection(rows, users, kind);
    var k :| 0 <= k < |views| && views[k] == v;
    assert sel[k] in sel;
  }

  /** In the "top" listing, like counts never increase down the page, and
      equal counts come newest first. */
  lemma TopListingOrder(r: seq<CommentView>, views: seq<CommentView>, w: Window, i: int, j: int)
    requires IsListing(r, views, Top, w)
    requires 0 <= i < j < |r|
    ensures r[i].likeCount >= r[j].likeCount
    ensures r[i].likeCount == r[j].likeCount ==> r[i].createdAt >= r[j].createdAt
  {
    var ordered :| IsOrdering(ordered, views, Top) && r == Page(ordered, w);
    PageIndex(ordered, w, i);
    PageIndex(ordered, w, j);
    assert InOrder(Top, ordered[w.offset + i], ordered[w.offset + j]);
  }

  /** Entry `k` of a page is entry `offset + k` of the whole. */
  lemma PageIndex(s: seq<CommentView>, w: Window, k: int)
    requires w.limit >= 0 && w.offset >= 0 && 0 <= k < |Page(s, w)|
    ensures w.offset + k < |s| && Page(s, w)[k] == s[w.offset + k]
  {
  }

  /** The database's choice of ordering is always available to the model. */
  lemma SortedPageIsListing(views: seq<CommentView>, o: Order, w: Window)
    requires w.limit >= 0 && w.offset >= 0
    ensures IsListing(Page(SortViews(views, o), w), views, o, w)
  {
    SortViewsSorted(views, o);
  }
}
