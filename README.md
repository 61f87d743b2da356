# t3-emoticon posts core, in Dafny

This project models the core of t3-emoticon, an emoji-only microblog in the T3 stack. The core is the posts router and the card that shows one post. The model covers:

- **The author join** (`addUserDataToPosts`). Every stored post is paired with its author from the identity directory, and the author's first and last names are narrowed from optional to required. The whole batch fails with the first post whose author is unknown (NOT_FOUND) or has no name (INTERNAL_SERVER_ERROR). The source's third throw, "Unexpected Error", is proved unreachable.
- **Creating a post** (`create`). The input schema collects every failed check of the content string in declaration order: emoji, then at least 1, then at most 255 UTF-16 code units. The handler then refuses content that consists of ASCII digits only. Every refusal reaches the caller as BAD_REQUEST. An accepted post belongs to the signed-in user.
- **The two feeds** (`getAll` and `getPostsByUserId`). The database query returns at most 100 rows, newest first, optionally only one author's rows, and leaves out no row newer than one it returns. The feed then goes through the join.
- **The post card** (`PostView`). The handle is `@username` when the username is truthy, otherwise `@first_last` from the lower-cased names. The author's name links to `/<author id>` and the timestamp to `/post/<post id>`. A small resolver for the profile page (`/[slug]`) and the single-post page (`/post/[id]`) shows that both links lead to the right page.

The Dafny sources are:

- `wrappers.dfy`: `Option` and `Result`.
- `posts.dfy`: module `Posts`, with the records, the join, `create` and the feeds.
- `postview.dfy`: module `PostView`, with the handle, the links, the card and a worked feed.

The core is pure logic, so the model is datatypes, functions and lemmas, with no classes or loops.

Two things outside the router are parameters of the model:

- The identity directory's user list is passed in as `users`.
- The emoji rule of the validation library is the function parameter `isEmoji`.

The database's `id` and `createdAt` for a new row are the parameters `newId` and `now`. The table is a sequence `store` in insertion order.

## Model

| member | source | states |
|---|---|---|
| Posts.FirstIndexWithId | src/server/api/routers/posts.ts:17 | the index returned is that of the first user with the id; no index only when no user has it |
| Posts.FindUser | src/server/api/routers/posts.ts:17 | `find` returns nothing exactly when no user has the id, otherwise the first user that has it |
| Posts.Narrow | src/server/api/routers/posts.ts:19-26 | the author is the user with both names taken out of their option, every other field copied |
| Posts.AttachAuthor | src/server/api/routers/posts.ts:16-42 | a success carries the same post, an author with the post's author id and two non-empty names; every error is NOT_FOUND "Author not found!!!" or INTERNAL_SERVER_ERROR "No firstName or lastName field found on Author!", so "Unexpected Error" is never thrown |
| Posts.AttachAuthorOutcome | src/server/api/routers/posts.ts:17-37 | the callback succeeds iff the first user with the post's author id has both names truthy, and then the author is that user narrowed; NOT_FOUND iff no user has the id; INTERNAL_SERVER_ERROR iff some user has it but the author is incomplete |
| Posts.AddUserDataToPosts | src/server/api/routers/posts.ts:16-42 | the batch succeeds iff every post's callback succeeds; the output then has one record per post, position by position; otherwise the error is that of the first post whose callback fails |
| Posts.JoinSucceeds | src/server/api/routers/posts.ts:16-27 | a successful join keeps the posts in order, pairs each with the first directory user of its author id (names narrowed, non-empty) |
| Posts.JoinSucceedsIff | src/server/api/routers/posts.ts:16-42 | the join succeeds exactly when every post has a complete author |
| Posts.JoinFailsOnFirstIncomplete | src/server/api/routers/posts.ts:28-37 | when post i is the first with an incomplete author the join fails with that post's error: NOT_FOUND when no user has its author id, INTERNAL_SERVER_ERROR otherwise |
| Posts.JoinFailsWith | src/server/api/routers/posts.ts:16-42 | a failed join failed on its first post with an incomplete author, with the error that post's author raises |
| Posts.IssueMessage | src/server/api/routers/posts.ts:72-79 | the emoji check reports its own message and only it does; the length checks report the schema's "Input field cannot be empty" |
| Posts.ContentIssues | src/server/api/routers/posts.ts:71-79 | the emoji issue is reported iff the content is not emoji, too-short iff it is empty, too-long iff it exceeds 255 code units; no issue iff the content is valid |
| Posts.MatchesDigitsOnly | src/server/api/routers/posts.ts:85 | `/^[0-9]+$/` matches exactly the non-empty strings of ASCII digits |
| Posts.Create | src/server/api/routers/posts.ts:68-97 | accepted iff emoji, 1..255 code units and not digits only; the stored post is the content by the signed-in user with the database's id and time; every refusal is BAD_REQUEST; a schema refusal lists exactly the failed checks; a handler refusal is "You cannot post numbers only emojis" on all-digit content |
| Posts.DigitsOnlyRuleIsLive | src/server/api/routers/posts.ts:84-89 | under an emoji rule that admits "1", posting "1" passes the schema and is refused by the digits-only rule |
| Posts.DigitsOnlyRuleSubsumed | src/server/api/routers/posts.ts:77-89 | when the emoji rule admits no all-digit string, `create` accepts exactly what the schema accepts |
| Posts.Filtered | src/server/api/routers/posts.ts:61 | every row kept passes the `where` filter and no rows are invented |
| Posts.FilteredKeepsMatching | src/server/api/routers/posts.ts:61 | the filter keeps each matching row as many times as the store holds it and drops every other row |
| Posts.NewestFirstOrdered | src/server/api/routers/posts.ts:49-51 | a newest-first sequence has no row older than a row after it |
| Posts.InsertByRecencyCorrect | src/server/api/routers/posts.ts:49-51 | inserting a row into a newest-first sequence keeps it newest first and adds exactly that row |
| Posts.SortByRecency | src/server/api/routers/posts.ts:49-51 | the result is newest first and a permutation of the input |
| Posts.FindMany | src/server/api/routers/posts.ts:47-52 | at most 100 rows, exactly min(matching, 100); newest first; every row passes the filter; a sub-multiset of the matching rows, all of them when at most 100 match; no matching row left out is newer than a row returned |
| Posts.FindManyUntruncated | src/server/api/routers/posts.ts:47-52 | while at most 100 rows match, the query returns all of them, sorted newest first |
| Posts.FilteredNone | src/server/api/routers/posts.ts:47-52 | without a `where` clause every row passes |
| Posts.FilteredSort | src/server/api/routers/posts.ts:59-64 | filtering then sorting equals sorting then filtering |
| Posts.AuthorFeedIsFilteredGlobalFeed | src/server/api/routers/posts.ts:46-66 | while the store holds at most 100 rows, one author's feed query holds the same rows as the global feed query with the other authors' rows removed, and both are newest first; the order among rows of equal `createdAt` is left open |
| Posts.CreatedPostIsListed | src/server/api/routers/posts.ts:56-97 | a post `create` accepts is returned by its author's feed query once stored, while that author has fewer than 100 earlier posts |
| Posts.CreatedPostLeadsFeed | src/server/api/routers/posts.ts:56-97 | a post `create` accepts at a time later than every stored post is the first row of its author's feed once stored, however many posts that author has |
| Posts.NewestRowLeadsFeed | src/server/api/routers/posts.ts:59-64 | a matching row newer than every stored row is the first row of the query result once appended |
| Posts.FeedWithAuthors | src/server/api/routers/posts.ts:54 | joining a newest-first, filtered query result fails exactly when a row has no complete author (with the first such row's error); otherwise it keeps the rows in order, at most 100, newest first, each paired with the first directory user of its author id, names narrowed |
| Posts.GetAll | src/server/api/routers/posts.ts:46-55 | the feed fails exactly when a row of the query has no complete author, with the first such row's error; otherwise its records are the query's rows in order (at most 100, newest first), each paired with the first directory user of the post's author id, names narrowed |
| Posts.GetPostsByUserId | src/server/api/routers/posts.ts:56-66 | as `GetAll` over the query filtered to `userId`; every record is a post by that user paired with that user |
| PostView.LowerChar | src/components/postview.tsx:37 | the result is never an ASCII capital; other characters are unchanged; a capital maps to its small letter |
| PostView.ToLower | src/components/postview.tsx:37 | lower-casing keeps the length and lower-cases each character in place |
| PostView.ToLowerIdempotent | src/components/postview.tsx:37 | lower-casing twice is lower-casing once |
| PostView.Handle | src/components/postview.tsx:23-37 | the handle starts with '@'; with a truthy username the rest is the username; otherwise it is the lower-cased first name, '_' and the lower-cased last name, position by position |
| PostView.EmptyUsernameFallsBack | src/components/postview.tsx:23 | an empty username is falsy and gives the same handle as no username, built from the names |
| PostView.HandleIgnoresNameCase | src/components/postview.tsx:37 | without a username, lower-casing the names first does not change the handle |
| PostView.AuthorHref | src/components/postview.tsx:25 | the author link is '/' followed by the author's id |
| PostView.PostHref | src/components/postview.tsx:28 | the post link is "/post/" followed by the post's id |
| PostView.Pathname | src/components/postview.tsx:25-28 | the path of a link is its longest prefix before the first '?' or '#' |
| PostView.Route | src/components/postview.tsx:25-28 | the home page is chosen iff the path is "/"; a profile page only for the path '/' plus a non-empty user id with no '/', '?' or '#'; a single-post page only for "/post/" plus such a post id |
| PostView.ProfileLinkIgnoresQuery | src/components/postview.tsx:25 | a query after the author link does not change the profile page it leads to |
| PostView.AuthorLinkRoutesToProfile | src/components/postview.tsx:25 | the author link leads to that author's profile page |
| PostView.PostLinkRoutesToPost | src/components/postview.tsx:28 | the timestamp link leads to that post's page |
| PostView.Render | src/components/postview.tsx:9-52 | the card shows the author's avatar and the post's content unchanged, the author's `Handle`, and the two links `AuthorHref` and `PostHref`; for segment ids those lead to the author's profile and to the post |
| PostView.LinksIgnoreUsername | src/components/postview.tsx:23-45 | both branches of the username test render the same avatar, links and content; only the handle differs |
| PostView.WorkedFeedQuery | src/server/api/routers/posts.ts:47-52 | two posts stored oldest first come back newest first |
| PostView.WorkedAuthors | src/server/api/routers/posts.ts:17-26 | both posts get the directory user as author, names narrowed |
| PostView.WorkedHandle | src/components/postview.tsx:37 | "Ann" and "Lee" without a username give "@ann_lee" |
| PostView.FeedOfOneAuthorWithoutUsername | src/server/api/routers/posts.ts:46-55 | the global feed over those two posts succeeds, lists the newer post first, and both cards show "@ann_lee" |

## Left out

- Identity directory I/O: the `getUserList` call and `filterUserForClient` are not modelled. The filtered user list is the parameter `users`.
- Database execution: `findMany` is modelled by its contract over the table as a sequence. The database's choice of `id` and `createdAt` for a new row is the parameters `newId` and `now`.
- FindMany: the database does not fix an order among rows with equal `createdAt`, and its contract promises none. The model itself keeps store order among such rows. `FindManyUntruncated` (equal to `SortByRecency` of the matching rows) and `FilteredSort` hold for that tie-break only. `AuthorFeedIsFilteredGlobalFeed` is stated as equal multisets, both newest first, so it does not depend on it.
- Authentication: the `privateProcedure` middleware is not part of this model. The signed-in user id is the parameter `currentUser`.
- The `console.log` of the digits-only test is left out, since it has no effect on results.
- `dayjs(...).fromNow()`, the relative time on the card, is left out because it reads the clock.
- Layout classes, image sizes and the `Image` and `Link` components are left out. The card keeps only the avatar source, handle, links and content.
- Validation-library internals: the emoji regular expression is the parameter `isEmoji`. Because it is left abstract, the digits-only rule is modelled as a live check; `DigitsOnlyRuleSubsumed` states when it never fires.
- ToLower: maps only the ASCII capitals. JavaScript's `toLowerCase` also lower-cases non-ASCII letters.
- Route: chooses the page by the link's path, the part before any '?' or '#'. It does not percent-decode the path and does not normalise a trailing slash. For ids that contain '/', '?', '#' or '%' the links do not lead back to the same page, so the round-trip lemmas require ids that are single path segments (`IsSegment`).
- Route: the profile page (`src/pages/[slug].tsx:42-46`) and the single-post page (`src/pages/post/[id].tsx:36-40`) take the slug and the id from the route parameters; the model's `Route` stands for that lookup.
- Strings: post content is a sequence of UTF-16 code units, as JavaScript counts it. Ids, usernames and names are Dafny strings of characters, so `Handle`'s length clause counts characters, not JavaScript's code units.
- A single-post query (`posts.getById`) is not part of `src/server/api/routers/posts.ts`. `src/pages/post/[id].tsx` calls it, but the model follows the router as written and has no such operation.
- The profile router, the home page's own copy of the handle rule, and the page layouts are outside this model.
- The schema's `errorMap` is modelled for the length checks only, the ones that have no message of their own. A non-string `content` (a type error) is not modelled, because the model's content is always a string.
