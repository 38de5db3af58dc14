# nabeatsu-backend, modelled in Dafny

This project models the logic behind the HTTP handlers of a small Express
backend. The backend has two features.

- **The counting game ("nabeatsu")**, from `routes/nabeatsu.js`. A number is
  *aho* when it is a multiple of the special number, or when its decimal
  numeral contains the special number's numeral. GET /game-data turns the
  single `game_config` row into a sequence: one entry per number from
  `start_num` to `end_num`, then a terminal entry with the magic word.
  PUT /settings validates a new configuration and writes it to row 1.
- **Threaded comments with likes**, from `routes/comments.js`, plus the user
  directory of `routes/users.js`. The user directory is an upsert keyed on the
  LINE user id. Comments can be listed, posted, edited, deleted and liked.
  Only the owner may edit or delete a comment.

The SQL tables are in-memory state:
- `Users.UserDirectory` holds `users`.
- `Comments.CommentBoard` holds `comments` and `likes`, and reads `users`
  through its directory.
- `Nabeatsu.GameConfigTable` holds config row 1.

Each SELECT is a function of the tables (module `CommentQueries`). Each
handler is a method. The request time is an explicit `now` parameter. Request
bodies, query strings and headers arrive as already-parsed arguments: `None`
is a missing field, and `QueryInt` is a `parseInt` result (absent, a number,
or NaN).

Files:
- `common.dfy`: `Option`, `Result`, `HttpError`, JavaScript truthiness of a string field, lookup by a key column.
- `decimal.dfy`: `String(n)` for integers, its inverse, and `String.prototype.includes`.
- `nabeatsu.dfy`: the aho rule, the sequence, settings validation, the config table.
- `users.dfy`: user rows, lookups, the upsert, the users table.
- `comment_queries.dfy`: comment and like rows, counts, derived view fields, orderings, paging.
- `comments.dfy`: the comment handlers on a class holding the tables.

Behaviour of the code worth noting:
- A viewer header on GET / or on the replies listing that names no user gives
  an anonymous listing. It does not give 401.
- Asset URLs are attached when they are *truthy*, so an empty string counts as
  absent, like a NULL.
- PUT /settings with no row 1 answers success with no row. Its UPDATE matches
  nothing.
- The handlers treat `parent_id` and `likes.comment_id` as foreign keys, since
  they catch error 23503. So a reply or a like always names an existing
  comment. The repository holds no DDL for these tables. The model assumes
  the keys have no ON DELETE action, so deleting a comment that has a reply
  or a like fails, and the handler answers 500.
- PostgreSQL checks a foreign key at the end of the INSERT, after the id has
  been drawn. So a `parent_id` equal to the id the INSERT draws is accepted,
  and the new comment is its own parent. Such a row is a reply, listed among
  its own replies. It does not block its own DELETE.

## Model

| member | source | states |
|---|---|---|
| `Decimal.IntToString` | routes/nabeatsu.js:13 | `String(n)` is non-empty. It starts with '-' exactly when n < 0. After the sign it is all digits with no leading zero, unless it is the single digit "0". |
| `Decimal.NatRoundTrip` | routes/nabeatsu.js:51 | Parsing the numeral of a natural number gives that number back. |
| `Decimal.IntRoundTrip` | routes/nabeatsu.js:51 | Parsing `String(n)` gives n back, for every integer n, negative ones included. |
| `Decimal.IntToStringInjective` | routes/nabeatsu.js:51 | Two distinct step numbers never share a `value` string. |
| `Decimal.Contains` | routes/nabeatsu.js:13 | `hay.includes(needle)` is true exactly when needle occurs in hay as a contiguous block at some index. |
| `Nabeatsu.JsRemainder` | routes/nabeatsu.js:12 | JavaScript's `%` (truncating) is smaller in magnitude than the divisor, takes the sign of the dividend, and differs from the dividend by a multiple of the divisor. Together these fix its value. |
| `Nabeatsu.JsRemainderZero` | routes/nabeatsu.js:12 | For a nonzero divisor, the truncated remainder is 0 exactly when Dafny's Euclidean remainder is 0. |
| `Nabeatsu.MultipleTest` | routes/nabeatsu.js:12 | `number % specialNum === 0` holds exactly when specialNum != 0 and specialNum divides number. A zero divisor gives NaN, which is never 0. |
| `Nabeatsu.CheckAho` | routes/nabeatsu.js:11-16 | A number is aho exactly when it is a multiple of specialNum, or the numeral of specialNum occurs in its numeral. |
| `Nabeatsu.ThreeExamples` | routes/nabeatsu.js:11-16 | With special number 3: 1 and 2 are not aho, 3 is aho, and 13 is aho although 13 % 3 != 0. |
| `Nabeatsu.StepFor` | routes/nabeatsu.js:47-61 | The entry for i has step i, value "i" and the aho flag of i. A non-aho entry has no assets. An aho entry has text, image or sound exactly when that setting is truthy, copied unchanged. |
| `Nabeatsu.Terminal` | routes/nabeatsu.js:67-75 | The closing entry is step end + 1 with the magic word as its value. It is always aho, and its only asset is the fixed ending sound. |
| `Nabeatsu.GameSequence` | routes/nabeatsu.js:44-75 | The sequence has one entry per number of [start, end], then one more. Entry j is `StepFor` of start + j, with the assets rule of an aho step. The last entry is `Terminal`. |
| `Nabeatsu.GenerateSequence` | routes/nabeatsu.js:44-75 | The handler's loop, which fills each `assets` object key by key and then pushes the terminal entry, builds exactly `GameSequence(config)`. |
| `Nabeatsu.OneToThreeExample` | routes/nabeatsu.js:44-75 | start 1, end 3, special 3 gives 4 entries: 1 and 2 are not aho, 3 is aho, and the last is step 4 with the magic word. |
| `Nabeatsu.ValidateSettings` | routes/nabeatsu.js:111-126 | Settings are accepted exactly when start, end and special are all present and nonzero, start < end, and special > 0. A missing or zero number is reported first, then start >= end, then special < 0. |
| `Nabeatsu.SettingsRow` | routes/nabeatsu.js:129-151 | An accepted body is stored with start, end, special number and magic word exactly as sent. Each asset URL becomes NULL when it is missing or empty, and is kept as sent otherwise. |
| `Common.OrNull` | routes/nabeatsu.js:148-150 | The "or null" default on each asset field yields NULL exactly when the field is missing or empty. Otherwise it is the field as sent. |
| `Common.Truthy` | routes/nabeatsu.js:58-60 | A string field is truthy when it is present and not empty. This is the test of `if (aho_text)` and of `!line_user_id` at routes/users.js:14. |
| `Nabeatsu.AcceptedSettingsSequence` | routes/nabeatsu.js:112-126 | After accepted settings the sequence has end - start + 2 entries, so at least 3, and the special number is nonzero. |
| `Nabeatsu.GameConfigTable.GetGameData` | routes/nabeatsu.js:21-89 | Without row 1 the answer is 404. Otherwise it is the row plus `GameSequence` of it. Nothing is written. |
| `Nabeatsu.GameConfigTable.UpdateSettings` | routes/nabeatsu.js:99-158 | A rejected body gives 400 and leaves the row unchanged. An accepted body replaces row 1 with `SettingsRow(input)` and returns it. Without row 1 nothing is written and no row is returned. |
| `Users.FindUser` | routes/comments.js:86-93 | The lookup by LINE user id returns the first row with that id, or none when no row has it. A NULL id matches no row. |
| `Users.UserById` | routes/comments.js:57 | The join on `c.user_id = u.id` finds a row with that id, or none exists. |
| `Users.Upserted` | routes/users.js:20-28 | An unseen id appends one row (next serial id, the given name and picture, both timestamps now). A seen id overwrites name, picture and `updated_at` of its row and adds no row. Rows of other ids are untouched. Afterwards the id's row carries the new name, picture and time. |
| `Users.AppendUserKeepsValid` | routes/users.js:21-22 | Inserting a row for an identity no row has, with the next serial id, keeps identities unique and ids increasing. |
| `Users.UpdateUserKeepsValid` | routes/users.js:23-27 | Overwriting a row's other fields in place, keeping its id and identity, keeps the table invariant. |
| `Users.UpsertKeepsValid` | routes/users.js:20-27 | The upsert keeps at most one row per LINE user id and keeps serial ids increasing. |
| `Users.UpsertTwiceAddsOneRow` | routes/users.js:20-27 | A second login with the same id adds no row. |
| `Users.UserDirectory.Login` | routes/users.js:10-37 | A missing or empty id gives 400 and leaves the table unchanged. Otherwise the table becomes `Upserted(...)`, and the answer is the id's row as it now stands. |
| `CommentQueries.ContentBounds` | routes/comments.js:80-82 | Content of length 100 is accepted. Length 101, empty content and missing content are refused. |
| `CommentQueries.ValidContent` | routes/comments.js:79-81 | Content is accepted exactly when it is present, not empty, and at most 100 characters long. The same guard runs at routes/comments.js:137. |
| `CommentQueries.CommentIndex` | routes/comments.js:232-236 | The lookup by comment id finds a row with that id, or no row has it. It is `Common.IndexOf` on the id column. |
| `Common.IndexOf` | routes/comments.js:232-236 | The lookup by a key column returns the first row with that key, or none when no row has it. `CommentIndex` and `UserById` are this lookup on the id columns of `comments` and `users`. |
| `CommentQueries.Owns` | routes/comments.js:155 | `WHERE id = $2 AND user_id = $3` matches a row exactly when the comment exists and belongs to that user. The DELETE at routes/comments.js:196 uses the same condition. |
| `CommentQueries.LikeCount` | routes/comments.js:325-328 | The count of likes of a comment is the number of ledger pairs that name it. It is 0 exactly when no pair names it. |
| `CommentQueries.LikeCountAfterInsert` | routes/comments.js:313-332 | Adding a new like raises that comment's count by one and leaves every other comment's count unchanged. |
| `CommentQueries.LikeCountAfterDelete` | routes/comments.js:306-332 | Removing an existing like lowers that comment's count by one and leaves every other comment's count unchanged. |
| `CommentQueries.ReplyCount` | routes/comments.js:52 | The reply count is the number of rows whose parent is that comment. It is 0 exactly when no row has that comment as parent. |
| `CommentQueries.Selection` | routes/comments.js:56-58 | A listing shows exactly the rows that meet its WHERE clause and have an existing author, each as many times as it occurs in the table (as multisets). No other rows appear. |
| `CommentQueries.ViewerId` | routes/comments.js:32-39 | The viewer is a user whose LINE id is the header. A missing or empty header gives no viewer. A header that names a user gives that viewer. |
| `CommentQueries.Selected` | routes/comments.js:58 | The WHERE clause of GET / is `parent_id IS NULL`. The WHERE clause of the replies listing is `parent_id = $2` (routes/comments.js:262). |
| `CommentQueries.ViewOf` | routes/comments.js:48-55 | A listed row carries its author's name and picture, its like count and reply count (0 in a reply listing), is_liked and is_owner for the viewer (false when anonymous), and is_edited == (created_at < updated_at). |
| `CommentQueries.Views` | routes/comments.js:48-55 | Each selected row, in order, yields one view with the fields `ViewOf` states. |
| `CommentQueries.OrderFor` | routes/comments.js:42-45 | sort = "top" selects the like ordering. Any other value selects newest first. |
| `CommentQueries.Insert` | routes/comments.js:59 | Inserting into an ordered list keeps every element and adds exactly the new one (as multisets). |
| `CommentQueries.InsertKeepsSorted` | routes/comments.js:59 | Inserting into a sorted list keeps it sorted. |
| `CommentQueries.SortViews` | routes/comments.js:59 | The sort returns a permutation of its input. |
| `CommentQueries.SortViewsSorted` | routes/comments.js:59 | The sort's result is sorted under the chosen ORDER BY, so it is an ordering the database may return. |
| `CommentQueries.ValidatePaging` | routes/comments.js:15-27 | limit defaults to 10 and offset to 0. NaN or a negative value gives 400. Otherwise the window is the values given. |
| `CommentQueries.RepliesPagingAsWritten` | routes/comments.js:221-228 | The replies guard as written refuses only NaN. Any integer, negative ones included, passes to the query. |
| `CommentQueries.RepliesNegativeLimitSlipsThrough` | routes/comments.js:221-228 | `limit=-1` passes the replies guard as written. The guard of GET / refuses it with 400. |
| `CommentQueries.Page` | routes/comments.js:60 | LIMIT/OFFSET returns the block that starts at offset, of length min(limit, rows left). |
| `CommentQueries.ListingProperties` | routes/comments.js:47-61 | A listing is sorted and holds at most limit views. Each view is of a row the WHERE clause selects, with the derived fields of `Describes`, including is_edited == (created_at < updated_at). |
| `CommentQueries.ListedDescribes` | routes/comments.js:47-58 | Every view that a listing can show describes a row that the WHERE clause selects. |
| `CommentQueries.TopListingOrder` | routes/comments.js:42-45 | In the "top" listing like counts never increase down the page, and equal counts come newest first. |
| `CommentQueries.SortedPageIsListing` | routes/comments.js:59-60 | A page of the sorted views is a valid answer of the listing query. |
| `Comments.ParentOrNull` | routes/comments.js:104 | The "or null" default on `parent_id` yields NULL for a missing or zero parent. Otherwise it is the parent given. |
| `Comments.Toggled` | routes/comments.js:304-322 | After the toggle the pair is in the ledger exactly when it was not before. Every other pair keeps its membership. |
| `Comments.ToggleTwice` | routes/comments.js:304-322 | Toggling the same pair twice restores the ledger. |
| `Comments.Referenced` | routes/comments.js:194-198 | A comment is referenced when some other row names it as parent or some like names it. A row's reference to itself does not count, because it goes with the row. |
| `Comments.DeleteRemovesOnlyThatRow` | routes/comments.js:194-198 | After the delete the deleted id names no row, and every other row is still found. |
| `Comments.LaterKeepsValid` | routes/comments.js:97-98 | A later clock and an advanced id sequence keep the table invariant. |
| `Comments.SameIdsSameComments` | routes/comments.js:153-156 | A table whose rows keep the same ids in the same places still finds every id it found. An UPDATE of content therefore never breaks a reference. |
| `Comments.AppendKeepsValid` | routes/comments.js:97-99 | Appending a row with the next id, a parent that exists or is the row itself, and `created_at = updated_at = now` keeps the invariant: ids increasing, every reference resolved, timestamps ordered. |
| `Comments.EditKeepsValid` | routes/comments.js:153-156 | Rewriting one row's content and `updated_at` at a later time keeps the table invariant. |
| `Comments.RemoveKeepsValid` | routes/comments.js:195-196 | Removing a row that no reply and no like refers to keeps the invariant, references included. |
| `Comments.RemoveKeepsOthers` | routes/comments.js:195-196 | Removing one row leaves every other id found. |
| `Comments.LikesKeepValid` | routes/comments.js:306-316 | Adding a like of an existing comment keeps the invariant, and so does removing a like. |
| `Comments.CreatedView` | routes/comments.js:110-119 | The fixed answer of a new comment: like_count 0, reply_count 0, not liked, owned, not edited. |
| `Comments.CreatedViewIsListed` | routes/comments.js:97-119 | That fixed answer is what the listing the new row appears in (top level, or its parent's replies) would report for it to its author, on the tables after the insert. |
| `Comments.CommentBoard.Actor` | routes/comments.js:143-149 | The acting user exists exactly when the lookup by LINE user id finds a row. The actor's id is then the id of a row with that LINE user id. |
| `Comments.CommentBoard.ListTopLevel` | routes/comments.js:13-65 | A bad limit or offset gives 400. Otherwise the answer is a page of some ordering of the top-level views: newest first, or for "top" by like count, then newest. |
| `Comments.CommentBoard.ListReplies` | routes/comments.js:218-273 | A bad limit or offset gives 400 (the corrected guard, see Findings). A missing parent gives 404. Otherwise the answer is a page of the parent's replies, oldest first, each with reply_count 0. |
| `Comments.Home` | routes/comments.js:58 | The listing a row appears in is the one whose WHERE clause selects it, and no other listing selects it. |
| `Comments.CommentBoard.Advance` | routes/comments.js:97-98 | The clock moves to the request time, and the id sequence advances by one exactly when a value is drawn. No row changes. |
| `Comments.CommentBoard.InsertRow` | routes/comments.js:97-99 | The new row is appended at the end and takes the next id. Its parent exists or is the row itself. The sequence advances by one. The likes stay as they were. |
| `Comments.CommentBoard.AddLike` | routes/comments.js:313-316 | The pair joins the ledger. The comments, the sequence and the clock are unchanged. |
| `Comments.CommentBoard.RemoveLike` | routes/comments.js:306-309 | The pair leaves the ledger. The comments, the sequence and the clock are unchanged. |
| `Comments.CommentBoard.Post` | routes/comments.js:76-125 | The checks run in order: bad content gives 400, an unknown user 401, and 404 for a parent that names no comment and is not the id the INSERT draws. None of these inserts a row. Every other request succeeds, including a parent equal to the drawn id. Exactly one row is appended with created_at == updated_at == now. The answer is `CreatedView`, as the row's own listing would show it to the author. |
| `Comments.CommentBoard.Edit` | routes/comments.js:132-172 | Bad content gives 400, an unknown user 401. A missing comment and a non-owner both give the same 403 and change nothing. The owner's edit always succeeds and changes only that row's content and updated_at. |
| `Comments.CommentBoard.Delete` | routes/comments.js:179-211 | An unknown user gives 401. A missing comment and a non-owner both give the same 403. A comment that a reply or a like refers to gives 500, because the foreign keys refuse the DELETE. None of these changes anything. Every other owner's delete succeeds and removes exactly that row. |
| `Comments.CommentBoard.ToggleLike` | routes/comments.js:284-337 | An unknown user gives 401. An unliked, missing comment gives 404 and changes nothing. Every other request succeeds and toggles the pair. A liked comment always exists. The answer's is_liked is the negation of the prior state, and its like_count is the comment's count afterwards (one more or one less). Other comments' counts are unchanged. |

## Left out

- The `/upload` handler (routes/nabeatsu.js:168-192): disk storage, timestamped file names, and protocol and host headers are file-system and HTTP plumbing.
- index.js, localdb.js and seed.js: Express wiring, CORS, static files, pool settings and table creation carry no handler logic.
- The 500 paths other than the refused DELETE: a failed query, and the errors PostgreSQL raises on values the guards let through. One example is a settings number such as "abc", which passes `!start_num` and NaN comparisons and then fails in the UPDATE.
- JavaScript coercions: `parseInt`, `Number` and truthiness of non-string values are not modelled. Arguments arrive already parsed, so `parseInt("5abc") == 5` is not modelled, nor is content that is not a string.
- ValidContent: counts Unicode scalar values. JavaScript's `length` counts UTF-16 code units, so content with characters outside the Basic Multilingual Plane is measured differently.
- Concurrency: the check-then-act race of the like toggle is not modelled. Each handler is one sequential step, and the ledger is a set, so a pair is never duplicated.
- Timestamps: `NOW()` is the explicit `now`. A ghost clock requires request times never to go backwards, which gives `created_at <= updated_at` on every comment.
- Table definitions: the DDL of `users`, `comments` and `likes` is not part of this model. Assumed here:
  - `users.created_at` and `users.updated_at` default to the current time;
  - `likes` is keyed on (comment_id, user_id);
  - `comments.parent_id` and `likes.comment_id` are foreign keys to `comments.id`. The handlers' catches of error 23503 (routes/comments.js:122-123, 318-319) show the keys exist, but nothing in the repository shows their ON DELETE action. The model assumes none, so PostgreSQL's default applies and a DELETE of a referenced comment is refused. A schema with ON DELETE CASCADE would instead remove the replies and likes. That variant is not modelled.
- Comments.CommentBoard.ListTopLevel: rows with equal sort keys come back in an order SQL leaves open. The contract therefore admits any sorted permutation, not one fixed order.
- Nabeatsu.GameConfigTable.GetGameData: returns the config row as it is. The JSON answer's renaming of `start_num` and `end_num` to `start` and `end` is response shaping.
- Error bodies: the JSON messages are not modelled. `HttpError` names only the status, and `SettingsError` carries only which settings guard fired.

## Findings

| source | as written | input that shows it | evidently intended | confidence | as-written member | corrected member |
|---|---|---|---|---|---|---|
| routes/comments.js:221-228 | The replies listing refuses only a NaN limit or offset. A negative value reaches `LIMIT $3 OFFSET $4`, where PostgreSQL refuses it, and the handler answers 500. | `GET /comments/1/replies?limit=-1` | 400 "Invalid limit or offset", as the guard of GET / does at routes/comments.js:24-27 | medium, not executed | `CommentQueries.RepliesNegativeLimitSlipsThrough` | `Comments.CommentBoard.ListReplies` |
