/** The handlers of routes/comments.js as operations on the `comments` and
    `likes` tables, with the `users` table read through its directory. The
    time of a request is the explicit parameter `now`. */
module Comments {
  import opened Common
  import opened Users
  import opened CommentQueries

  /** The body field `parent_id || null`: a missing or zero parent is NULL. */
  function ParentOrNull(parentId: Option<int>): (p: Option<int>)
    ensures p.Some? ==> p == parentId && p.value != 0
    ensures p.None? <==> parentId.None? || parentId == Some(0)
  {
    if parentId.Some? && parentId.value != 0 then parentId else None
  }

  /** The like toggle on the ledger: the pair leaves if present, joins if not. */
  function Toggled(likes: set<Like>, like: Like): (r: set<Like>)
    ensures like in r <==> like !in likes
    ensures forall l | l != like :: l in r <==> l in likes
  {
    if like in likes then likes - {like} else likes + {like}
  }

  /** Toggling twice gives the ledger back. */
  lemma ToggleTwice(likes: set<Like>, like: Like)
    ensures Toggled(Toggled(likes, like), like) == likes
  {
  }

  /** The invariant of the two tables: serial ids increasing in insertion
      order and below the next value of the sequence; `comments.parent_id`
      and `likes.comment_id` are foreign keys to `comments.id`, so every
      reference names a row that exists; and
      `created_at <= updated_at <= clock` on every row. */
  ghost predicate TablesValid(rows: seq<Comment>, likes: set<Like>, nextId: int, clock: int) {
    && (forall i, j | 0 <= i < j < |rows| :: rows[i].id < rows[j].id)
    && (forall i | 0 <= i < |rows| :: rows[i].id < nextId)
    && (forall i | 0 <= i < |rows| && rows[i].parentId.Some? :: rows[i].parentId.value < nextId)
    && (forall l | l in likes :: l.commentId < nextId)
    && (forall i | 0 <= i < |rows| && rows[i].parentId.Some? :: HasComment(rows, rows[i].parentId.value))
    && (forall l | l in likes :: HasComment(rows, l.commentId))
    && (forall i | 0 <= i < |rows| :: rows[i].createdAt <= rows[i].updatedAt <= clock)
  }

  /** Some other row of `comments`, or a row of `likes`, refers to comment
      `id`: a reply to it, or a like of it. Deleting such a comment violates a
      foreign key; a row that names itself as parent goes with itself. */
  predicate Referenced(rows: seq<Comment>, likes: set<Like>, id: int) {
    || (exists j | 0 <= j < |rows| :: rows[j].parentId == Some(id) && rows[j].id != id)
    || LikeCount(likes, id) != 0
  }

  /** Time moving forward and the sequence advancing keep the invariant. */
  lemma LaterKeepsValid(rows: seq<Comment>, likes: set<Like>, nextId: int, clock: int, nextId': int, clock': int)
    requires TablesValid(rows, likes, nextId, clock) && nextId <= nextId' && clock <= clock'
    ensures TablesValid(rows, likes, nextId', clock')
  {
  }

  /** A table whose rows carry the same ids, in the same places, has the same ids. */
  lemma {:induction false} SameIdsSameComments(rows: seq<Comment>, after: seq<Comment>, id: int)
    requires |rows| <= |after| && forall k | 0 <= k < |rows| :: after[k].id == rows[k].id
    requires HasComment(rows, id)
    ensures HasComment(after, id)
  {
    var k := CommentIndex(rows, id).value;
    assert after[k].id == id;
  }

  /** Appending a fresh row whose parent exists, or is the row itself, keeps
      the invariant. */
  lemma AppendKeepsValid(rows: seq<Comment>, likes: set<Like>, nextId: int, clock: int, c: Comment)
    requires TablesValid(rows, likes, nextId, clock)
    requires c.id == nextId && clock <= c.createdAt == c.updatedAt
    requires c.parentId.Some? ==> HasComment(rows, c.parentId.value) || c.parentId.value == c.id
    ensures TablesValid(rows + [c], likes, nextId + 1, c.updatedAt)
  {
    var after := rows + [c];
    assert forall i | 0 <= i < |rows| :: after[i] == rows[i];
    forall id | HasComment(rows, id)
      ensures HasComment(after, id) && id < nextId
    {
      SameIdsSameComments(rows, after, id);
    }
  }

  /** Rewriting one row's content at a later time keeps the invariant. */
  lemma EditKeepsValid(rows: seq<Comment>, likes: set<Like>, nextId: int, clock: int, i: nat,
                       content: string, now: int)
    requires TablesValid(rows, likes, nextId, clock) && i < |rows| && clock <= now
    ensures TablesValid(rows[i := rows[i].(content := content, updatedAt := now)], likes, nextId, now)
  {
    var after := rows[i := rows[i].(content := content, updatedAt := now)];
    assert forall k | 0 <= k < |rows| :: after[k].id == rows[k].id && after[k].parentId == rows[k].parentId;
    forall k | 0 <= k < |after| && after[k].parentId.Some?
      ensures HasComment(after, after[k].parentId.value)
    {
      SameIdsSameComments(rows, after, after[k].parentId.value);
    }
    forall l | l in likes
      ensures HasComment(after, l.commentId)
    {
      SameIdsSameComments(rows, after, l.commentId);
    }
  }

  /** Removing row `i` leaves every other id found. */
  lemma {:induction false} RemoveKeepsOthers(rows: seq<Comment>, i: nat, id: int)
    requires i < |rows| && HasComment(rows, id) && id != rows[i].id
    ensures HasComment(rows[..i] + rows[i + 1..], id)
  {
    var after := rows[..i] + rows[i + 1..];
    var k := CommentIndex(rows, id).value;
    var k' := if k < i then k else k - 1;
    assert after[k'] == rows[k];
  }

  /** Removing a row nothing refers to keeps the invariant. */
  lemma RemoveKeepsValid(rows: seq<Comment>, likes: set<Like>, nextId: int, clock: int, i: nat)
    requires TablesValid(rows, likes, nextId, clock) && i < |rows|
    requires !Referenced(rows, likes, rows[i].id)
    ensures TablesValid(rows[..i] + rows[i + 1..], likes, nextId, clock)
  {
    var after := rows[..i] + rows[i + 1..];
    forall k | 0 <= k < |after|
      ensures after[k] == rows[if k < i then k else k + 1]
    {
      if k < i { assert after[k] == rows[..i][k]; } else { assert after[k] == rows[i + 1..][k - i]; }
    }
    forall a, b | 0 <= a < b < |after|
      ensures after[a].id < after[b].id
    {
      assert after[a] == rows[if a < i then a else a + 1];
      assert after[b] == rows[if b < i then b else b + 1];
    }
    forall k | 0 <= k < |after| && after[k].parentId.Some?
      ensures HasComment(after, after[k].parentId.value)
    {
      var j := if k < i then k else k + 1;
      assert after[k] == rows[j];
      assert rows[j].id != rows[i].id;
      RemoveKeepsOthers(rows, i, after[k].parentId.value);
    }
    forall l | l in likes
      ensures HasComment(after, l.commentId)
    {
      RemoveKeepsOthers(rows, i, l.commentId);
    }
  }

  /** A new like of an existing comment keeps the invariant, and so does
      taking a like away. */
  lemma LikesKeepValid(rows: seq<Comment>, likes: set<Like>, nextId: int, clock: int, like: Like)
    requires TablesValid(rows, likes, nextId, clock)
    ensures HasComment(rows, like.commentId) ==> TablesValid(rows, likes + {like}, nextId, clock)
    ensures TablesValid(rows, likes - {like}, nextId, clock)
  {
    if HasComment(rows, like.commentId) {
      var k := CommentIndex(rows, like.commentId).value;
      assert like.commentId < nextId;
    }
  }

  /** After the owner-only DELETE the id names no row, and every other row is
      still found. */
  lemma {:induction false} DeleteRemovesOnlyThatRow(rows: seq<Comment>, likes: set<Like>, nextId: int, clock: int, i: nat)
    requires TablesValid(rows, likes, nextId, clock) && i < |rows|
    ensures !HasComment(rows[..i] + rows[i + 1..], rows[i].id)
    ensures forall j | 0 <= j < |rows| && j != i :: HasComment(rows[..i] + rows[i + 1..], rows[j].id)
  {
    var after := rows[..i] + rows[i + 1..];
    forall k | 0 <= k < |after|
      ensures after[k].id != rows[i].id
    {
      if k < i { assert after[k] == rows[k]; } else { assert after[k] == rows[k + 1]; }
    }
    forall j | 0 <= j < |rows| && j != i
      ensures HasComment(after, rows[j].id)
    {
      var k := if j < i then j else j - 1;
      assert after[k] == rows[j];
    }
  }

  /** The answer of a created comment: the new row as its author would see it,
      with nothing liked, no replies and no edit. */
  function CreatedView(c: Comment, author: User): (v: CommentView)
    ensures v.id == c.id && v.content == c.content
    ensures v.likeCount == 0 && v.replyCount == 0
    ensures v.isOwner && !v.isLiked && !v.isEdited
  {
    CommentView(c.id, c.content, c.createdAt, c.updatedAt, author.displayName, author.pictureUrl,
                0, 0, false, true, false)
  }

  /** The fixed answer of POST / is what a listing would report for the new
      row to its author, on the tables as they stand after the insert. */
  lemma {:induction false} CreatedViewIsListed(rows: seq<Comment>, likes: set<Like>, nextId: int, clock: int,
                                               users: seq<User>, userNextId: int, k: nat,
                                               parent: Option<int>, content: string, now: int)
    requires TablesValid(rows, likes, nextId, clock) && UsersValid(users, userNextId)
    requires k < |users| && clock <= now
    ensures var c := Comment(nextId, users[k].id, parent, content, now, now);
      Describes(CreatedView(c, users[k]), c, users, rows + [c], likes, Some(users[k].id), Home(c))
  {
    var c := Comment(nextId, users[k].id, parent, content, now, now);
    var after := rows + [c];
    UserByIdOfValid(users, userNextId, k);
    assert (set l | l in likes && l.commentId == nextId) == {};
    if parent.None? {
      assert forall j | 0 <= j < |after| :: after[j].parentId != Some(nextId) by {
        forall j | 0 <= j < |after| ensures after[j].parentId != Some(nextId) {
          if j < |rows| { assert after[j] == rows[j]; }
        }
      }
    }
  }

  /** The listing a row appears in: the top level, or the replies to its
      parent. */
  function Home(c: Comment): (k: ListKind)
    ensures Selected(k, c)
    ensures forall other: ListKind | Selected(other, c) :: other == k
  {
    if c.parentId.None? then TopLevel else RepliesTo(c.parentId.value)
  }

  /** In a valid users table, a row is found by its own id. */
  lemma UserByIdOfValid(users: seq<User>, nextId: int, k: nat)
    requires UsersValid(users, nextId) && k < |users|
    ensures UserById(users, users[k].id) == Some(k)
  {
  }

  /** The `comments` and `likes` tables; `directory` is the `users` table,
      which these handlers only read. */
  class CommentBoard {
    const directory: UserDirectory
    var comments: seq<Comment>
    var likes: set<Like>
    var nextId: int
    /** The latest `now` seen: request times never go backwards. */
    ghost var clock: int

    ghost predicate Valid()
      reads this
    {
      TablesValid(comments, likes, nextId, clock)
    }

    constructor (directory: UserDirectory, now: int)
      ensures Valid() && this.directory == directory
      ensures comments == [] && likes == {} && nextId == 1 && clock == now
    {
      this.directory := directory;
      comments := [];
      likes := {};
      nextId := 1;
      clock := now;
    }

    /** The acting user's id: `SELECT id FROM users WHERE line_user_id = $1`. */
    function Actor(lineUserId: Option<string>): (id: Option<int>)
      reads directory
      ensures id.Some? <==> FindUser(directory.rows, lineUserId).Some?
      ensures id.Some? ==> exists i | 0 <= i < |directory.rows| ::
        directory.rows[i].id == id.value && lineUserId == Some(directory.rows[i].lineUserId)
    {
      match FindUser(directory.rows, lineUserId)
      case None => None
      case Some(i) => Some(directory.rows[i].id)
    }

    /** GET /: 400 on a bad limit or offset; otherwise a page of the top-level
        comments, ordered by `created_at` descending, or for sort "top" by
        like count and then `created_at` descending. A viewer header that
        names no user gives an anonymous listing. */
    method ListTopLevel(lineUserId: Option<string>, limit: QueryInt, offset: QueryInt, sort: string)
      returns (r: Result<seq<CommentView>>)
      ensures ValidatePaging(limit, offset).Err? ==> r == Err(BadRequest)
      ensures ValidatePaging(limit, offset).Ok? ==>
        && r.Ok?
        && IsListing(r.value,
                     Listed(comments, directory.rows, likes, ViewerId(directory.rows, lineUserId), TopLevel),
                     OrderFor(sort), ValidatePaging(limit, offset).value)
    {
      var paging := ValidatePaging(limit, offset);
      if paging.Err? {
        return Err(BadRequest);
      }
      var viewer := ViewerId(directory.rows, lineUserId);
      var views := Listed(comments, directory.rows, likes, viewer, TopLevel);
      var order := OrderFor(sort);
      SortedPageIsListing(views, order, paging.value);
      r := Ok(Page(SortViews(views, order), paging.value));
    }

    /** GET /:comment_id/replies: 400 on a bad limit or offset, 404 when the
        parent does not exist; otherwise a page of the replies to it, oldest
        first, each with reply count 0. */
    method ListReplies(parentId: int, lineUserId: Option<string>, limit: QueryInt, offset: QueryInt)
      returns (r: Result<seq<CommentView>>)
      ensures ValidatePaging(limit, offset).Err? ==> r == Err(BadRequest)
      ensures ValidatePaging(limit, offset).Ok? && !HasComment(comments, parentId) ==> r == Err(NotFound)
      ensures ValidatePaging(limit, offset).Ok? && HasComment(comments, parentId) ==>
        && r.Ok?
        && IsListing(r.value,
                     Listed(comments, directory.rows, likes, ViewerId(directory.rows, lineUserId), RepliesTo(parentId)),
                     Oldest, ValidatePaging(limit, offset).value)
    {
      var paging := ValidatePaging(limit, offset);
      if paging.Err? {
        return Err(BadRequest);
      }
      if !HasComment(comments, parentId) {
        return Err(NotFound);
      }
      var viewer := ViewerId(directory.rows, lineUserId);
      var views := Listed(comments, directory.rows, likes, viewer, RepliesTo(parentId));
      SortedPageIsListing(views, Oldest, paging.value);
      r := Ok(Page(SortViews(views, Oldest), paging.value));
    }

    /** The request time becomes the clock, and the id sequence is drawn
        from once when `draw` holds. Nothing else changes. */
    method Advance(now: int, draw: bool)
      requires Valid() && clock <= now
      modifies this
      ensures Valid() && clock == now
      ensures comments == old(comments) && likes == old(likes)
      ensures nextId == old(nextId) + (if draw then 1 else 0)
    {
      LaterKeepsValid(comments, likes, nextId, clock, nextId + (if draw then 1 else 0), now);
      clock := now;
      if draw {
        nextId := nextId + 1;
      }
    }

    /** The INSERT of a row carrying the next id, a parent that exists or is
        the row itself, and the current time. */
    method InsertRow(c: Comment)
      requires Valid() && c.id == nextId && clock <= c.createdAt == c.updatedAt
      requires c.parentId.Some? ==> HasComment(comments, c.parentId.value) || c.parentId.value == c.id
      modifies this
      ensures Valid() && clock == c.updatedAt
      ensures comments == old(comments) + [c] && likes == old(likes) && nextId == old(nextId) + 1
    {
      AppendKeepsValid(comments, likes, nextId, clock, c);
      comments := comments + [c];
      nextId := nextId + 1;
      clock := c.updatedAt;
    }

    /** POST /: 400 on bad content, 401 for an unknown user, 404 for a parent
        that names no comment; otherwise the row is appended with
        `created_at = updated_at = now` and answered as `CreatedView`. The
        INSERT draws a value from the id sequence before the foreign key is
        checked, so a refused parent still advances it; and since PostgreSQL
        checks the key at the end of the statement, a parent equal to the id
        just drawn is accepted, making a comment that is its own parent. */
    method Post(lineUserId: Option<string>, content: Option<string>, parentId: Option<int>, now: int)
      returns (r: Result<CommentView>)
      requires Valid() && directory.Valid() && clock <= now
      modifies this
      ensures Valid() && clock == now
      ensures r == Err(BadRequest) <==> !ValidContent(content)
      ensures r == Err(Unauthorized) <==> ValidContent(content) && Actor(lineUserId).None?
      ensures r == Err(NotFound) <==>
        && ValidContent(content) && Actor(lineUserId).Some?
        && ParentOrNull(parentId).Some? && !HasComment(old(comments), ParentOrNull(parentId).value)
        && ParentOrNull(parentId).value != old(nextId)
      ensures r.Ok? <==>
        && ValidContent(content) && Actor(lineUserId).Some?
        && (|| ParentOrNull(parentId).None?
            || HasComment(old(comments), ParentOrNull(parentId).value)
            || ParentOrNull(parentId).value == old(nextId))
      ensures likes == old(likes)
      ensures r.Err? ==> comments == old(comments)
      ensures nextId == old(nextId) + (if r.Ok? || r == Err(NotFound) then 1 else 0)
      ensures r.Ok? ==>
        var author := directory.rows[FindUser(directory.rows, lineUserId).value];
        var c := Comment(old(nextId), author.id, ParentOrNull(parentId), content.value, now, now);
        && comments == old(comments) + [c]
        && r == Ok(CreatedView(c, author))
        && Describes(r.value, c, directory.rows, comments, likes, Some(author.id), Home(c))
    {
      if !ValidContent(content) {
        Advance(now, false);
        return Err(BadRequest);
      }
      var k := FindUser(directory.rows, lineUserId);
      if k.None? {
        Advance(now, false);
        return Err(Unauthorized);
      }
      var author := directory.rows[k.value];
      var parent := ParentOrNull(parentId);
      if parent.Some? && !HasComment(comments, parent.value) && parent.value != nextId {
        Advance(now, true);
        return Err(NotFound);
      }
      var c := Comment(nextId, author.id, parent, content.value, now, now);
      CreatedViewIsListed(comments, likes, nextId, clock, directory.rows, directory.nextId,
                          k.value, parent, content.value, now);
      InsertRow(c);
      r := Ok(CreatedView(c, author));
    }

    /** PUT /:comment_id: 400 on bad content, 401 for an unknown user, and 403
        alike for a missing comment and for someone else's; otherwise only that
        row's content and `updated_at` change. The answer's `is_edited`
        compares `created_at` with the new `updated_at`. */
    method Edit(commentId: int, lineUserId: Option<string>, content: Option<string>, now: int)
      returns (r: Result<EditedComment>)
      requires Valid() && clock <= now
      modifies this
      ensures Valid() && clock == now
      ensures r == Err(BadRequest) <==> !ValidContent(content)
      ensures r == Err(Unauthorized) <==> ValidContent(content) && Actor(lineUserId).None?
      ensures r == Err(Forbidden) <==>
        ValidContent(content) && Actor(lineUserId).Some? && !Owns(old(comments), commentId, Actor(lineUserId).value)
      ensures r.Ok? <==>
        ValidContent(content) && Actor(lineUserId).Some? && Owns(old(comments), commentId, Actor(lineUserId).value)
      ensures likes == old(likes) && nextId == old(nextId)
      ensures r.Err? ==> comments == old(comments)
      ensures r.Ok? ==>
        var i := CommentIndex(old(comments), commentId).value;
        && comments == old(comments)[i := old(comments)[i].(content := content.value, updatedAt := now)]
        && r == Ok(EditedComment(commentId, content.value, now, old(comments)[i].createdAt < now))
    {
      Advance(now, false);
      if !ValidContent(content) {
        return Err(BadRequest);
      }
      var actor := Actor(lineUserId);
      if actor.None? {
        return Err(Unauthorized);
      }
      if !Owns(comments, commentId, actor.value) {
        return Err(Forbidden);
      }
      var i := CommentIndex(comments, commentId).value;
      var createdAt := comments[i].createdAt;
      EditKeepsValid(comments, likes, nextId, clock, i, content.value, now);
      comments := comments[i := comments[i].(content := content.value, updatedAt := now)];
      r := Ok(EditedComment(commentId, content.value, now, createdAt < now));
    }

    /** DELETE /:comment_id: 401 for an unknown user, and 403 alike for a
        missing comment and for someone else's. The repository holds no DDL
        for these tables; the model assumes their foreign keys carry no
        ON DELETE action, so a comment that another reply or a like refers to
        cannot go: PostgreSQL refuses the DELETE and the handler's catch
        answers 500, changing nothing. Otherwise that row alone is removed. */
    method Delete(commentId: int, lineUserId: Option<string>) returns (r: Result<()>)
      requires Valid()
      modifies this
      ensures Valid() && clock == old(clock)
      ensures r == Err(Unauthorized) <==> Actor(lineUserId).None?
      ensures r == Err(Forbidden) <==> Actor(lineUserId).Some? && !Owns(old(comments), commentId, Actor(lineUserId).value)
      ensures r == Err(ServerError) <==>
        && Actor(lineUserId).Some? && Owns(old(comments), commentId, Actor(lineUserId).value)
        && Referenced(old(comments), likes, commentId)
      ensures r.Ok? <==>
        && Actor(lineUserId).Some? && Owns(old(comments), commentId, Actor(lineUserId).value)
        && !Referenced(old(comments), likes, commentId)
      ensures likes == old(likes) && nextId == old(nextId)
      ensures r.Err? ==> comments == old(comments)
      ensures r.Ok? ==>
        var i := CommentIndex(old(comments), commentId).value;
        && comments == old(comments)[..i] + old(comments)[i + 1..]
        && !HasComment(comments, commentId)
    {
      var actor := Actor(lineUserId);
      if actor.None? {
        return Err(Unauthorized);
      }
      if !Owns(comments, commentId, actor.value) {
        return Err(Forbidden);
      }
      if Referenced(comments, likes, commentId) {
        return Err(ServerError);
      }
      var i := CommentIndex(comments, commentId).value;
      DeleteRemovesOnlyThatRow(comments, likes, nextId, clock, i);
      RemoveKeepsValid(comments, likes, nextId, clock, i);
      comments := comments[..i] + comments[i + 1..];
      r := Ok(());
    }

    /** `INSERT INTO likes`, for a comment that exists. */
    method AddLike(like: Like)
      requires Valid() && HasComment(comments, like.commentId)
      modifies this
      ensures Valid() && likes == old(likes) + {like}
      ensures comments == old(comments) && nextId == old(nextId) && clock == old(clock)
    {
      LikesKeepValid(comments, likes, nextId, clock, like);
      likes := likes + {like};
    }

    /** `DELETE FROM likes WHERE comment_id = $1 AND user_id = $2`. */
    method RemoveLike(like: Like)
      requires Valid()
      modifies this
      ensures Valid() && likes == old(likes) - {like}
      ensures comments == old(comments) && nextId == old(nextId) && clock == old(clock)
    {
      LikesKeepValid(comments, likes, nextId, clock, like);
      likes := likes - {like};
    }

    /** POST /:comment_id/like: 401 for an unknown user; a like that exists is
        removed; a missing one is added, or answered with 404 when the comment
        does not exist. The answer is the new state of the pair and the
        comment's count after the change; other comments' counts are
        untouched. */
    method ToggleLike(commentId: int, lineUserId: Option<string>) returns (r: Result<LikeState>)
      requires Valid()
      modifies this
      ensures Valid() && clock == old(clock)
      ensures comments == old(comments) && nextId == old(nextId)
      ensures r == Err(Unauthorized) <==> Actor(lineUserId).None?
      ensures r == Err(NotFound) <==>
        && Actor(lineUserId).Some?
        && Like(commentId, Actor(lineUserId).value) !in old(likes)
        && !HasComment(comments, commentId)
      ensures r.Ok? <==>
        && Actor(lineUserId).Some?
        && (Like(commentId, Actor(lineUserId).value) in old(likes) || HasComment(comments, commentId))
      ensures Actor(lineUserId).Some? && Like(commentId, Actor(lineUserId).value) in old(likes) ==>
        HasComment(comments, commentId)
      ensures r.Err? ==> likes == old(likes)
      ensures r.Ok? ==>
        var like := Like(commentId, Actor(lineUserId).value);
        && likes == Toggled(old(likes), like)
        && r.value.isLiked == (like !in old(likes))
        && r.value.likeCount == LikeCount(likes, commentId)
        && (if r.value.isLiked then r.value.likeCount == LikeCount(old(likes), commentId) + 1
            else r.value.likeCount + 1 == LikeCount(old(likes), commentId))
        && forall other | other != commentId :: LikeCount(likes, other) == LikeCount(old(likes), other)
    {
      var actor := Actor(lineUserId);
      if actor.None? {
        return Err(Unauthorized);
      }
      var like := Like(commentId, actor.value);
      var isLiked := like in likes;
      if isLiked {
        forall other | other != commentId
          ensures LikeCount(likes - {like}, other) == LikeCount(likes, other)
        {
          LikeCountAfterDelete(likes, like, other);
        }
        LikeCountAfterDelete(likes, like, commentId);
        RemoveLike(like);
      } else {
        if !HasComment(comments, commentId) {
          return Err(NotFound);
        }
        forall other | other != commentId
          ensures LikeCount(likes + {like}, other) == LikeCount(likes, other)
        {
          LikeCountAfterInsert(likes, like, other);
        }
        LikeCountAfterInsert(likes, like, commentId);
        AddLike(like);
      }
      r := Ok(LikeState(!isLiked, LikeCount(likes, commentId)));
    }
  }

  /** What PUT /:comment_id answers: the edited row's id, content, new
      `updated_at` and whether it now counts as edited. */
  datatype EditedComment = EditedComment(id: int, content: string, updatedAt: int, isEdited: bool)

  /** What POST /:comment_id/like answers. */
  datatype LikeState = LikeState(isLiked: bool, likeCount: nat)
}
