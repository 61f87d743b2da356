/** The posts router: the author join that turns stored posts into
    post-and-author records, the acceptance rule for new post content, and the
    query contract of the two feeds. */
module Posts {
  import opened Wrappers

  // ---------------------------------------------------------------------------
  // Records
  // ---------------------------------------------------------------------------

  /** One UTF-16 code unit: JavaScript strings, and so zod's length checks,
      count in these. */
  newtype CodeUnit = x: int | 0 <= x < 0x1_0000

  /** A row of the Post table. `createdAt` is the row's creation time as a
      number (milliseconds); the database assigns `id` and `createdAt`. */
  datatype Post = Post(id: string, authorId: string, content: seq<CodeUnit>, createdAt: int)

  /** A user record of the identity directory, as filtered for the client.
      Username and names are nullable there. */
  datatype User = User(
    id: string,
    username: Option<string>,
    firstName: Option<string>,
    lastName: Option<string>,
    profileImageUrl: string)

  /** The author attached to a post: a user whose first and last names have
      been narrowed from optional to required. */
  datatype Author = Author(
    id: string,
    username: Option<string>,
    firstName: string,
    lastName: string,
    profileImageUrl: string)

  /** What the feeds return for each post. */
  datatype PostWithAuthor = PostWithAuthor(post: Post, author: Author)

  /** The tRPC error codes the router throws. */
  datatype ErrorCode = BadRequest | NotFound | InternalServerError

  /** A thrown `TRPCError`: its code and its message. */
  datatype TrpcError = TrpcError(code: ErrorCode, message: string)

  const AuthorNotFoundMessage: string := "Author not found!!!"
  const MissingNameMessage: string := "No firstName or lastName field found on Author!"
  const NumbersOnlyMessage: string := "You cannot post numbers only emojis"

  /** JavaScript truthiness of a nullable string: present and not empty. */
  predicate Truthy(s: Option<string>) {
    s.Some? && s.value != ""
  }

  // ---------------------------------------------------------------------------
  // The author join (addUserDataToPosts)
  // ---------------------------------------------------------------------------

  /** `i` is the position of the first user in `users` whose id is `id`. */
  ghost predicate FirstWithId(users: seq<User>, id: string, i: int) {
    && 0 <= i < |users|
    && users[i].id == id
    && forall j :: 0 <= j < i ==> users[j].id != id
  }

  /** The position that `users.find(user => user.id === id)` stops at. */
  function FirstIndexWithId(users: seq<User>, id: string): (r: Option<nat>)
    ensures r.Some? ==> FirstWithId(users, id, r.value)
    ensures r.None? ==> forall j :: 0 <= j < |users| ==> users[j].id != id
  {
    if users == [] then None
    else if users[0].id == id then Some(0)
    else
      match FirstIndexWithId(users[1..], id)
      case None => None
      case Some(k) => Some(k + 1)
  }

  /** `users.find(user => user.id === id)`: the first user with that id, or
      nothing when no user has it. */
  function FindUser(users: seq<User>, id: string): (r: Option<User>)
    ensures r.None? <==> forall j :: 0 <= j < |users| ==> users[j].id != id
    ensures r.Some? ==> exists i :: FirstWithId(users, id, i) && users[i] == r.value
  {
    match FirstIndexWithId(users, id)
    case None => None
    case Some(i) => Some(users[i])
  }

  /** The post's author is the first user with its id, and that user has a
      non-empty first and last name. */
  ghost predicate HasCompleteAuthor(post: Post, users: seq<User>) {
    exists i :: FirstWithId(users, post.authorId, i) && Truthy(users[i].firstName) && Truthy(users[i].lastName)
  }

  /** `a` is user `u` with both names narrowed to required, every other field
      copied unchanged. */
  ghost predicate NarrowedFrom(a: Author, u: User) {
    && a.id == u.id
    && a.username == u.username
    && u.firstName == Some(a.firstName)
    && u.lastName == Some(a.lastName)
    && a.profileImageUrl == u.profileImageUrl
  }

  /** The spread `{...author, firstName, lastName}` of a user whose names are
      present. */
  function Narrow(u: User): (a: Author)
    requires u.firstName.Some? && u.lastName.Some?
    ensures NarrowedFrom(a, u)
  {
    Author(u.id, u.username, u.firstName.value, u.lastName.value, u.profileImageUrl)
  }

  /** The callback that `addUserDataToPosts` maps over the posts: pair the
      post with its author, or throw NOT_FOUND when no user has the post's
      author id and INTERNAL_SERVER_ERROR when that user lacks a name. The
      source's last throw ("Unexpected Error") cannot be reached: the two
      checks before it cover every way the first condition can fail. */
  function AttachAuthor(post: Post, users: seq<User>): (r: Result<PostWithAuthor, TrpcError>)
    ensures r.Ok? ==> r.value.post == post && r.value.author.id == post.authorId
    ensures r.Ok? ==> r.value.author.firstName != "" && r.value.author.lastName != ""
    ensures r.Err? ==> r.error in {TrpcError(NotFound, AuthorNotFoundMessage), TrpcError(InternalServerError, MissingNameMessage)}
  {
    var author := FindUser(users, post.authorId);
    if author.Some? && Truthy(author.value.firstName) && Truthy(author.value.lastName) then
      Ok(PostWithAuthor(post, Narrow(author.value)))
    else if author.None? then
      Err(TrpcError(NotFound, AuthorNotFoundMessage))
    else if !Truthy(author.value.firstName) || !Truthy(author.value.lastName) then
      Err(TrpcError(InternalServerError, MissingNameMessage))
    else
      assert false;
      Err(TrpcError(InternalServerError, "Unexpected Error"))
  }

  /** When the callback succeeds and which error it throws otherwise: it
      succeeds exactly when the post has a complete author, and then pairs
      the post with that user, names narrowed; NOT_FOUND exactly when no
      user has the author id; INTERNAL_SERVER_ERROR exactly when a user has
      it but the first such user lacks a name. */
  lemma AttachAuthorOutcome(post: Post, users: seq<User>)
    ensures var r := AttachAuthor(post, users);
      && (r.Ok? <==> HasCompleteAuthor(post, users))
      && (r.Ok? ==> exists i :: FirstWithId(users, post.authorId, i) && NarrowedFrom(r.value.author, users[i]))
      && (r == Err(TrpcError(NotFound, AuthorNotFoundMessage))
          <==> forall j :: 0 <= j < |users| ==> users[j].id != post.authorId)
      && (r == Err(TrpcError(InternalServerError, MissingNameMessage))
          <==> (exists j :: 0 <= j < |users| && users[j].id == post.authorId) && !HasCompleteAuthor(post, users))
  {
    var found := FindUser(users, post.authorId);
    if found.Some? {
      var i :| FirstWithId(users, post.authorId, i) && users[i] == found.value;
      assert HasCompleteAuthor(post, users) <==> Truthy(users[i].firstName) && Truthy(users[i].lastName) by {
        forall k | FirstWithId(users, post.authorId, k) ensures k == i {}
      }
    }
  }

  /** `i` is the first post, in order, that the join cannot complete. */
  ghost predicate FirstFailing(posts: seq<Post>, users: seq<User>, i: int) {
    && 0 <= i < |posts|
    && AttachAuthor(posts[i], users).Err?
    && forall j :: 0 <= j < i ==> AttachAuthor(posts[j], users).Ok?
  }

  /** `addUserDataToPosts` after the directory lookup: `posts.map` with
      `AttachAuthor`, where the first throw aborts the whole batch. */
  function AddUserDataToPosts(posts: seq<Post>, users: seq<User>): (r: Result<seq<PostWithAuthor>, TrpcError>)
    ensures r.Ok? <==> forall i :: 0 <= i < |posts| ==> AttachAuthor(posts[i], users).Ok?
    ensures r.Ok? ==> |r.value| == |posts|
    ensures r.Ok? ==> forall i :: 0 <= i < |posts| ==> AttachAuthor(posts[i], users) == Ok(r.value[i])
    ensures r.Err? ==> exists i :: FirstFailing(posts, users, i) && AttachAuthor(posts[i], users) == Err(r.error)
  {
    if posts == [] then Ok([])
    else
      match AttachAuthor(posts[0], users)
      case Err(e) =>
        assert FirstFailing(posts, users, 0);
        Err(e)
      case Ok(head) =>
        match AddUserDataToPosts(posts[1..], users)
        case Err(e) =>
          FirstFailingShifts(posts, users, e);
          Err(e)
        case Ok(tail) =>
          AllAttachedShifts(posts, users, head, tail);
          Ok([head] + tail)
  }

  /** A failure in the tail after a successful head is the first failure of
      the whole batch. */
  lemma FirstFailingShifts(posts: seq<Post>, users: seq<User>, e: TrpcError)
    requires |posts| > 0 && AttachAuthor(posts[0], users).Ok?
    requires exists k :: FirstFailing(posts[1..], users, k) && AttachAuthor(posts[1..][k], users) == Err(e)
    ensures exists i :: FirstFailing(posts, users, i) && AttachAuthor(posts[i], users) == Err(e)
  {
    var k :| FirstFailing(posts[1..], users, k) && AttachAuthor(posts[1..][k], users) == Err(e);
    assert posts[k + 1] == posts[1..][k];
    forall j | 0 <= j < k + 1 ensures AttachAuthor(posts[j], users).Ok? {
      if j > 0 { assert posts[j] == posts[1..][j - 1]; }
    }
    assert FirstFailing(posts, users, k + 1);
  }

  /** A relation that holds at the head and position by position behind it
      holds position by position. */
  lemma PairwiseFromHead<A, B>(rel: (A, B) -> bool, xs: seq<A>, ys: seq<B>)
    requires |xs| == |ys| > 0 && rel(xs[0], ys[0])
    requires forall i :: 0 <= i < |xs| - 1 ==> rel(xs[1..][i], ys[1..][i])
    ensures forall i :: 0 <= i < |xs| ==> rel(xs[i], ys[i])
  {
    forall i | 0 < i < |xs| ensures rel(xs[i], ys[i]) {
      assert xs[i] == xs[1..][i - 1] && ys[i] == ys[1..][i - 1];
    }
  }

  /** Prepending the head's record to the tail's records keeps them
      position by position. */
  lemma AllAttachedShifts(posts: seq<Post>, users: seq<User>, head: PostWithAuthor, tail: seq<PostWithAuthor>)
    requires |posts| > 0 && AttachAuthor(posts[0], users) == Ok(head)
    requires |tail| == |posts| - 1
    requires forall i :: 0 <= i < |tail| ==> AttachAuthor(posts[1..][i], users) == Ok(tail[i])
    ensures forall i :: 0 <= i < |posts| ==> AttachAuthor(posts[i], users) == Ok(([head] + tail)[i])
  {
    var out := [head] + tail;
    assert out[1..] == tail;
    PairwiseFromHead((p, a) => AttachAuthor(p, users) == Ok(a), posts, out);
  }

  /** What the join promises about a successful batch, stated without the
      callback: the output is the input in order, each post paired with the
      first directory user that has its author id, names present and
      non-empty, everything else copied. */
  lemma JoinSucceeds(posts: seq<Post>, users: seq<User>)
    requires AddUserDataToPosts(posts, users).Ok?
    ensures var out := AddUserDataToPosts(posts, users).value;
      && |out| == |posts|
      && (forall i :: 0 <= i < |posts| ==> out[i].post == posts[i])
      && (forall i :: 0 <= i < |posts| ==> out[i].author.id == posts[i].authorId)
      && (forall i :: 0 <= i < |posts| ==>
            exists u :: FirstWithId(users, posts[i].authorId, u) && NarrowedFrom(out[i].author, users[u]))
      && (forall i :: 0 <= i < |posts| ==> out[i].author.firstName != "" && out[i].author.lastName != "")
  {
    var out := AddUserDataToPosts(posts, users).value;
    forall i | 0 <= i < |posts|
      ensures out[i].post == posts[i] && out[i].author.id == posts[i].authorId
      ensures exists u :: FirstWithId(users, posts[i].authorId, u) && NarrowedFrom(out[i].author, users[u])
      ensures out[i].author.firstName != "" && out[i].author.lastName != ""
    {
      assert AttachAuthor(posts[i], users) == Ok(out[i]);
    }
  }

  /** The batch succeeds exactly when every post has a complete author. */
  lemma JoinSucceedsIff(posts: seq<Post>, users: seq<User>)
    ensures AddUserDataToPosts(posts, users).Ok? <==> forall i :: 0 <= i < |posts| ==> HasCompleteAuthor(posts[i], users)
  {
    if AddUserDataToPosts(posts, users).Ok? {
      forall i | 0 <= i < |posts| ensures HasCompleteAuthor(posts[i], users) {
        AttachAuthorOutcome(posts[i], users);
      }
    } else {
      var i :| FirstFailing(posts, users, i);
      AttachAuthorOutcome(posts[i], users);
    }
  }

  /** Fail-fast: when a batch fails, its error is the one the first
      incomplete post raises — NOT_FOUND when that post's author id is
      unknown, INTERNAL_SERVER_ERROR when its author lacks a name. */
  lemma JoinFailsOnFirstIncomplete(posts: seq<Post>, users: seq<User>, i: nat)
    requires FirstIncomplete(posts, users, i)
    ensures AddUserDataToPosts(posts, users).Err?
    ensures AddUserDataToPosts(posts, users).error == MissingAuthorError(posts[i], users)
  {
    var r := AddUserDataToPosts(posts, users);
    assert AttachAuthor(posts[i], users).Err?;
    var k :| FirstFailing(posts, users, k) && AttachAuthor(posts[k], users) == Err(r.error);
    assert k == i;
  }

  /** `i` is the first post, in order, whose author is not complete. */
  ghost predicate FirstIncomplete(posts: seq<Post>, users: seq<User>, i: int) {
    && 0 <= i < |posts|
    && !HasCompleteAuthor(posts[i], users)
    && forall j :: 0 <= j < i ==> HasCompleteAuthor(posts[j], users)
  }

  /** The error an incomplete author raises: NOT_FOUND when no user has the
      post's author id, INTERNAL_SERVER_ERROR when the user lacks a name. */
  ghost function MissingAuthorError(post: Post, users: seq<User>): TrpcError {
    if forall u :: 0 <= u < |users| ==> users[u].id != post.authorId
    then TrpcError(NotFound, AuthorNotFoundMessage)
    else TrpcError(InternalServerError, MissingNameMessage)
  }

  /** A failed batch failed on its first incomplete post, with the error
      that post's author raises. */
  lemma JoinFailsWith(posts: seq<Post>, users: seq<User>)
    requires AddUserDataToPosts(posts, users).Err?
    ensures exists i :: FirstIncomplete(posts, users, i)
                        && AddUserDataToPosts(posts, users).error == MissingAuthorError(posts[i], users)
  {
    var e := AddUserDataToPosts(posts, users).error;
    var i :| FirstFailing(posts, users, i) && AttachAuthor(posts[i], users) == Err(e);
    AttachAuthorOutcome(posts[i], users);
    forall j | 0 <= j < i ensures HasCompleteAuthor(posts[j], users) {
      AttachAuthorOutcome(posts[j], users);
    }
    assert FirstIncomplete(posts, users, i);
  }

  // ---------------------------------------------------------------------------
  // Creating a post
  // ---------------------------------------------------------------------------

  /** The largest content length the input schema admits, in code units. */
  const MaxContentLength: nat := 255

  /** The checks of the `content` schema, in the order it declares them. */
  datatype ContentIssue = NotEmoji | TooShort | TooLong

  const EmojiMessage: string := "You can only post emojis here"
  const EmptyFieldMessage: string := "Input field cannot be empty"

  /** The message zod reports for an issue: the emoji check carries its own;
      the length checks have none and take the schema's error map. */
  function IssueMessage(issue: ContentIssue): (m: string)
    ensures m == EmojiMessage <==> issue == NotEmoji
    ensures issue.TooShort? || issue.TooLong? ==> m == EmptyFieldMessage
  {
    match issue
    case NotEmoji => EmojiMessage
    case TooShort => EmptyFieldMessage
    case TooLong => EmptyFieldMessage
  }

  /** The issues the `content` schema reports: zod runs every check of a
      string schema and collects each failure, in declaration order (emoji,
      then min(1), then max(255)). The emoji rule itself is the library's and
      is passed in as `isEmoji`. */
  function ContentIssues(content: seq<CodeUnit>, isEmoji: seq<CodeUnit> -> bool): (r: seq<ContentIssue>)
    ensures NotEmoji in r <==> !isEmoji(content)
    ensures TooShort in r <==> |content| < 1
    ensures TooLong in r <==> |content| > MaxContentLength
    ensures r == [] <==> isEmoji(content) && 1 <= |content| <= MaxContentLength
    ensures |r| <= 2 && (|r| == 2 ==> r[0] == NotEmoji)
  {
    (if isEmoji(content) then [] else [NotEmoji])
    + (if |content| < 1 then [TooShort] else [])
    + (if |content| > MaxContentLength then [TooLong] else [])
  }

  predicate IsAsciiDigit(c: CodeUnit) {
    0x30 <= c <= 0x39
  }

  /** `/^[0-9]+$/.test(s)`: one or more ASCII digits and nothing else. The
      pattern has no `u` flag, so it matches code unit by code unit. */
  function MatchesDigitsOnly(s: seq<CodeUnit>): (r: bool)
    ensures r <==> |s| >= 1 && forall i :: 0 <= i < |s| ==> IsAsciiDigit(s[i])
  {
    && |s| >= 1
    && IsAsciiDigit(s[0])
    && (|s| == 1 || MatchesDigitsOnly(s[1..]))
  }

  /** Why `create` refused: the input schema's issues (tRPC reports these as
      BAD_REQUEST before the handler runs), or an error the handler threw. */
  datatype CreateError = InvalidInput(issues: seq<ContentIssue>) | Thrown(error: TrpcError)

  /** The tRPC code the caller sees for a refused `create`. */
  function CreateErrorCode(e: CreateError): ErrorCode {
    match e
    case InvalidInput(_) => BadRequest
    case Thrown(t) => t.code
  }

  /** The `create` mutation for the signed-in user `currentUser`. `newId` and
      `now` are the id and creation time the database assigns to the row. */
  function Create(
    content: seq<CodeUnit>, currentUser: string, isEmoji: seq<CodeUnit> -> bool,
    newId: string, now: int): (r: Result<Post, CreateError>)
    ensures r.Ok? <==> isEmoji(content) && 1 <= |content| <= MaxContentLength && !MatchesDigitsOnly(content)
    ensures r.Ok? ==> r.value == Post(newId, currentUser, content, now)
    ensures r.Err? ==> CreateErrorCode(r.error) == BadRequest
    ensures (r.Err? && r.error.InvalidInput?) <==> !(isEmoji(content) && 1 <= |content| <= MaxContentLength)
    ensures r.Err? && r.error.InvalidInput? ==> r.error.issues == ContentIssues(content, isEmoji) && r.error.issues != []
    ensures r.Err? && r.error.Thrown? ==>
              r.error.error == TrpcError(BadRequest, NumbersOnlyMessage)
              && forall i :: 0 <= i < |content| ==> IsAsciiDigit(content[i])
  {
    var issues := ContentIssues(content, isEmoji);
    if issues != [] then Err(InvalidInput(issues))
    else if MatchesDigitsOnly(content) then Err(Thrown(TrpcError(BadRequest, NumbersOnlyMessage)))
    else Ok(Post(newId, currentUser, content, now))
  }

  /** The digits-only rule is a check of its own: under an emoji rule that
      admits the digit "1", posting "1" passes the schema and is still
      refused by the handler. */
  lemma DigitsOnlyRuleIsLive(currentUser: string, newId: string, now: int)
    ensures var isEmoji := (s: seq<CodeUnit>) => |s| == 1 && s[0] == 0x31;
      Create([0x31], currentUser, isEmoji, newId, now) == Err(Thrown(TrpcError(BadRequest, NumbersOnlyMessage)))
  {
    var isEmoji := (s: seq<CodeUnit>) => |s| == 1 && s[0] == 0x31;
    assert ContentIssues([0x31], isEmoji) == [];
    assert MatchesDigitsOnly([0x31]);
  }

  /** When the emoji rule admits no all-digit string, the digits-only rule
      never fires, and `create` accepts exactly what the schema accepts. */
  lemma DigitsOnlyRuleSubsumed(content: seq<CodeUnit>, currentUser: string, isEmoji: seq<CodeUnit> -> bool, newId: string, now: int)
    requires forall s :: MatchesDigitsOnly(s) ==> !isEmoji(s)
    ensures Create(content, currentUser, isEmoji, newId, now).Ok? <==> ContentIssues(content, isEmoji) == []
  {
  }

  // ---------------------------------------------------------------------------
  // The feed queries (findMany with take 100, orderBy createdAt desc)
  // ---------------------------------------------------------------------------

  /** The `take` of both feed queries. */
  const FeedLimit: nat := 100

  /** The optional `where: { authorId }` filter. */
  predicate MatchesAuthor(p: Post, author: Option<string>) {
    author.None? || p.authorId == author.value
  }

  /** The rows of `store` that pass the filter, in store order. */
  function Filtered(store: seq<Post>, author: Option<string>): (r: seq<Post>)
    ensures forall i :: 0 <= i < |r| ==> MatchesAuthor(r[i], author)
    ensures |r| <= |store|
  {
    if store == [] then []
    else
      assert store == [store[0]] + store[1..];
      (if MatchesAuthor(store[0], author) then [store[0]] else []) + Filtered(store[1..], author)
  }

  /** The filter drops exactly the rows that do not match: every matching
      row is kept as often as the store holds it. */
  lemma {:induction false} FilteredKeepsMatching(store: seq<Post>, author: Option<string>, p: Post)
    ensures multiset(Filtered(store, author))[p] == if MatchesAuthor(p, author) then multiset(store)[p] else 0
  {
    if store != [] {
      var t := store[1..];
      FilteredKeepsMatching(t, author, p);
      assert multiset(store) == multiset{store[0]} + multiset(t) by {
        assert store == [store[0]] + t;
      }
      if MatchesAuthor(store[0], author) {
        assert Filtered(store, author) == [store[0]] + Filtered(t, author);
        assert multiset(Filtered(store, author)) == multiset{store[0]} + multiset(Filtered(t, author));
      } else {
        assert Filtered(store, author) == Filtered(t, author);
      }
    }
  }

  /** Newest first: each row is at least as new as the one after it. */
  predicate NewestFirst(s: seq<Post>) {
    |s| <= 1 || (s[0].createdAt >= s[1].createdAt && NewestFirst(s[1..]))
  }

  /** In a newest-first sequence no row is older than a row after it. */
  lemma {:induction false} NewestFirstOrdered(s: seq<Post>)
    requires NewestFirst(s)
    ensures forall i, j :: 0 <= i < j < |s| ==> s[i].createdAt >= s[j].createdAt
  {
    if |s| > 1 {
      NewestFirstOrdered(s[1..]);
      forall i, j | 0 <= i < j < |s| ensures s[i].createdAt >= s[j].createdAt {
        if i > 0 {
          assert s[i] == s[1..][i - 1] && s[j] == s[1..][j - 1];
        } else if j > 1 {
          assert s[1] == s[1..][0] && s[j] == s[1..][j - 1];
        }
      }
    }
  }

  /** A prefix of a newest-first sequence is newest first. */
  lemma {:induction false} NewestFirstPrefix(s: seq<Post>, n: nat)
    requires NewestFirst(s) && n <= |s|
    ensures NewestFirst(s[..n])
  {
    if n > 1 {
      NewestFirstPrefix(s[1..], n - 1);
      assert s[..n][1..] == s[1..][..n - 1];
    }
  }

  /** Puts `x` before the first row of `s` that is no newer than it. */
  function InsertByRecency(x: Post, s: seq<Post>): seq<Post> {
    if s == [] || s[0].createdAt <= x.createdAt then [x] + s
    else [s[0]] + InsertByRecency(x, s[1..])
  }

  /** Inserting into a newest-first sequence keeps it newest first and adds
      exactly `x`. */
  lemma {:induction false} InsertByRecencyCorrect(x: Post, s: seq<Post>)
    requires NewestFirst(s)
    ensures NewestFirst(InsertByRecency(x, s))
    ensures multiset(InsertByRecency(x, s)) == multiset(s) + multiset{x}
  {
    var r := InsertByRecency(x, s);
    if s == [] || s[0].createdAt <= x.createdAt {
      assert r == [x] + s;
      assert r[1..] == s;
    } else {
      var rest := InsertByRecency(x, s[1..]);
      InsertByRecencyCorrect(x, s[1..]);
      assert r == [s[0]] + rest;
      assert r[1..] == rest;
      assert rest[0] == x || (|s| > 1 && rest[0] == s[1]);
      assert multiset(r) == multiset{s[0]} + multiset(rest);
      assert multiset(s) == multiset{s[0]} + multiset(s[1..]) by {
        assert s == [s[0]] + s[1..];
      }
    }
  }

  /** Orders rows newest first; rows with equal `createdAt` keep their store
      order. */
  function SortByRecency(s: seq<Post>): (r: seq<Post>)
    ensures NewestFirst(r)
    ensures multiset(r) == multiset(s)
  {
    if s == [] then []
    else
      var rest := SortByRecency(s[1..]);
      InsertByRecencyCorrect(s[0], rest);
      assert s == [s[0]] + s[1..];
      InsertByRecency(s[0], rest)
  }

  /** No row of `rows` that `kept` leaves out is newer than a row it keeps. */
  ghost predicate NoNewerLeftOut(rows: seq<Post>, kept: seq<Post>) {
    forall k, i :: 0 <= k < |rows| && rows[k] !in kept && 0 <= i < |kept| ==> rows[k].createdAt <= kept[i].createdAt
  }

  /** What `findMany({ where, take: 100, orderBy: { createdAt: "desc" } })`
      returns: at most 100 rows, all passing the filter, newest first, and
      no matching row left out is newer than one returned. The database does
      not fix the order of rows with equal `createdAt`; this model keeps
      store order among them. */
  function FindMany(store: seq<Post>, author: Option<string>): (r: seq<Post>)
    ensures |r| == if |Filtered(store, author)| <= FeedLimit then |Filtered(store, author)| else FeedLimit
    ensures NewestFirst(r)
    ensures forall i :: 0 <= i < |r| ==> MatchesAuthor(r[i], author)
    ensures multiset(r) <= multiset(Filtered(store, author))
    ensures |Filtered(store, author)| <= FeedLimit ==> multiset(r) == multiset(Filtered(store, author))
    ensures NoNewerLeftOut(Filtered(store, author), r)
  {
    var filtered := Filtered(store, author);
    var sorted := SortByRecency(filtered);
    assert |sorted| == |filtered| by { assert |multiset(sorted)| == |multiset(filtered)|; }
    var n := if |sorted| <= FeedLimit then |sorted| else FeedLimit;
    assert n == |sorted| ==> sorted[..n] == sorted;
    PermutedRowsMatch(filtered, sorted, author);
    NewestFirstPrefix(sorted, n);
    TopRowsAreNewest(filtered, sorted, n);
    sorted[..n]
  }

  /** Reordering rows that all pass the filter gives rows that all pass it. */
  lemma PermutedRowsMatch(filtered: seq<Post>, sorted: seq<Post>, author: Option<string>)
    requires multiset(sorted) == multiset(filtered)
    requires forall i :: 0 <= i < |filtered| ==> MatchesAuthor(filtered[i], author)
    ensures forall i :: 0 <= i < |sorted| ==> MatchesAuthor(sorted[i], author)
  {
    forall i | 0 <= i < |sorted| ensures MatchesAuthor(sorted[i], author) {
      assert sorted[i] in multiset(filtered);
      var k :| 0 <= k < |filtered| && filtered[k] == sorted[i];
    }
  }

  /** Cutting a newest-first ordering of the rows after `n` rows leaves out
      no row newer than one kept. */
  lemma TopRowsAreNewest(filtered: seq<Post>, sorted: seq<Post>, n: nat)
    requires NewestFirst(sorted) && multiset(sorted) == multiset(filtered) && n <= |sorted|
    ensures multiset(sorted[..n]) <= multiset(sorted)
    ensures NoNewerLeftOut(filtered, sorted[..n])
  {
    assert multiset(sorted) == multiset(sorted[..n]) + multiset(sorted[n..]) by {
      assert sorted == sorted[..n] + sorted[n..];
    }
    var kept := sorted[..n];
    forall k, i | 0 <= k < |filtered| && filtered[k] !in kept && 0 <= i < |kept|
      ensures filtered[k].createdAt <= kept[i].createdAt
    {
      assert kept[i] == sorted[i];
      assert filtered[k] in multiset(sorted);
      var m :| 0 <= m < |sorted| && sorted[m] == filtered[k];
      assert n <= m;
      NewestFirstOrdered(sorted);
    }
  }

  /** Every filtered row comes from the store, no earlier than its place. */
  lemma {:induction false} FilteredSource(store: seq<Post>, author: Option<string>, k: nat) returns (m: nat)
    requires k < |Filtered(store, author)|
    ensures k <= m < |store| && store[m] == Filtered(store, author)[k]
  {
    var head := if MatchesAuthor(store[0], author) then [store[0]] else [];
    assert Filtered(store, author) == head + Filtered(store[1..], author);
    if k < |head| {
      m := 0;
    } else {
      var m' := FilteredSource(store[1..], author, k - |head|);
      m := m' + 1;
    }
  }

  /** Filtering keeps a newest-first sequence newest first. */
  lemma {:induction false} FilteredNewestFirst(s: seq<Post>, author: Option<string>)
    requires NewestFirst(s)
    ensures NewestFirst(Filtered(s, author))
  {
    if s != [] {
      FilteredNewestFirst(s[1..], author);
      var tail := Filtered(s[1..], author);
      if MatchesAuthor(s[0], author) && tail != [] {
        var m := FilteredSource(s[1..], author, 0);
        NewestFirstOrdered(s);
        assert s[m + 1] == tail[0];
        assert Filtered(s, author) == [s[0]] + tail;
        assert ([s[0]] + tail)[1..] == tail;
      } else if !MatchesAuthor(s[0], author) {
        assert Filtered(s, author) == tail;
      }
    }
  }

  /** Filtering commutes with inserting a row that is no older than any
      row already there. */
  lemma FilteredInsertAtFront(x: Post, s: seq<Post>, author: Option<string>)
    requires NewestFirst(s) && (s == [] || s[0].createdAt <= x.createdAt)
    ensures NewestFirst(Filtered(s, author))
    ensures Filtered(InsertByRecency(x, s), author)
            == if MatchesAuthor(x, author) then InsertByRecency(x, Filtered(s, author)) else Filtered(s, author)
  {
    FilteredNewestFirst(s, author);
    var fs := Filtered(s, author);
    var hx := if MatchesAuthor(x, author) then [x] else [];
    var ins := InsertByRecency(x, s);
    assert ins == [x] + s;
    assert ins[0] == x && ins[1..] == s;
    assert Filtered(ins, author) == hx + fs;
    if MatchesAuthor(x, author) {
      if fs != [] {
        var m := FilteredSource(s, author, 0);
        NewestFirstOrdered(s);
        assert fs[0].createdAt <= x.createdAt;
      }
      assert InsertByRecency(x, fs) == [x] + fs;
    }
  }

  /** Inserting behind the head keeps the head in front, and the filter
      keeps or drops it as before. */
  lemma FilteredInsertKeepsHead(x: Post, s: seq<Post>, author: Option<string>)
    requires s != [] && s[0].createdAt > x.createdAt
    ensures Filtered(InsertByRecency(x, s), author)
            == (if MatchesAuthor(s[0], author) then [s[0]] else []) + Filtered(InsertByRecency(x, s[1..]), author)
  {
    var ins := InsertByRecency(x, s);
    assert ins == [s[0]] + InsertByRecency(x, s[1..]);
    assert ins[0] == s[0] && ins[1..] == InsertByRecency(x, s[1..]);
  }

  /** The step of `FilteredInsert` for a row older than the head: the head
      stays in front on both sides. */
  lemma FilteredInsertBehind(x: Post, s: seq<Post>, author: Option<string>)
    requires s != [] && s[0].createdAt > x.createdAt
    requires Filtered(InsertByRecency(x, s[1..]), author)
             == if MatchesAuthor(x, author) then InsertByRecency(x, Filtered(s[1..], author)) else Filtered(s[1..], author)
    ensures Filtered(InsertByRecency(x, s), author)
            == if MatchesAuthor(x, author) then InsertByRecency(x, Filtered(s, author)) else Filtered(s, author)
  {
    if !MatchesAuthor(x, author) {
      FilteredInsertUnmatched(x, s, author);
    } else if MatchesAuthor(s[0], author) {
      FilteredInsertBothMatch(x, s, author);
    } else {
      FilteredInsertHeadDropped(x, s, author);
    }
  }

  /** A row the filter drops leaves the filtered store as it was. */
  lemma FilteredInsertUnmatched(x: Post, s: seq<Post>, author: Option<string>)
    requires s != [] && s[0].createdAt > x.createdAt && !MatchesAuthor(x, author)
    requires Filtered(InsertByRecency(x, s[1..]), author) == Filtered(s[1..], author)
    ensures Filtered(InsertByRecency(x, s), author) == Filtered(s, author)
  {
    FilteredInsertKeepsHead(x, s, author);
  }

  /** When the row and the head both match, the head stays in front of the
      filtered insertion too. */
  lemma FilteredInsertBothMatch(x: Post, s: seq<Post>, author: Option<string>)
    requires s != [] && s[0].createdAt > x.createdAt && MatchesAuthor(x, author) && MatchesAuthor(s[0], author)
    requires Filtered(InsertByRecency(x, s[1..]), author) == InsertByRecency(x, Filtered(s[1..], author))
    ensures Filtered(InsertByRecency(x, s), author) == InsertByRecency(x, Filtered(s, author))
  {
    FilteredInsertKeepsHead(x, s, author);
    var fs := Filtered(s, author);
    assert fs == [s[0]] + Filtered(s[1..], author);
    assert fs[0] == s[0] && fs[1..] == Filtered(s[1..], author);
  }

  /** When only the row matches, the dropped head plays no part. */
  lemma FilteredInsertHeadDropped(x: Post, s: seq<Post>, author: Option<string>)
    requires s != [] && s[0].createdAt > x.createdAt && MatchesAuthor(x, author) && !MatchesAuthor(s[0], author)
    requires Filtered(InsertByRecency(x, s[1..]), author) == InsertByRecency(x, Filtered(s[1..], author))
    ensures Filtered(InsertByRecency(x, s), author) == InsertByRecency(x, Filtered(s, author))
  {
    FilteredInsertKeepsHead(x, s, author);
    assert Filtered(s, author) == Filtered(s[1..], author);
  }

  /** Filtering commutes with inserting one row by recency. */
  lemma {:induction false} FilteredInsert(x: Post, s: seq<Post>, author: Option<string>)
    requires NewestFirst(s)
    ensures NewestFirst(Filtered(s, author))
    ensures Filtered(InsertByRecency(x, s), author)
            == if MatchesAuthor(x, author) then InsertByRecency(x, Filtered(s, author)) else Filtered(s, author)
  {
    FilteredNewestFirst(s, author);
    if s == [] || s[0].createdAt <= x.createdAt {
      FilteredInsertAtFront(x, s, author);
    } else {
      FilteredInsert(x, s[1..], author);
      FilteredInsertBehind(x, s, author);
    }
  }

  /** Filtering commutes with sorting by recency: this sort keeps store order
      among rows with equal `createdAt`. */
  lemma {:induction false} FilteredSort(s: seq<Post>, author: Option<string>)
    ensures Filtered(SortByRecency(s), author) == SortByRecency(Filtered(s, author))
  {
    if s != [] {
      var fs := Filtered(s, author);
      var fs' := Filtered(s[1..], author);
      var sorted' := SortByRecency(s[1..]);
      FilteredSort(s[1..], author);
      FilteredInsert(s[0], sorted', author);
      assert SortByRecency(s) == InsertByRecency(s[0], sorted');
      if MatchesAuthor(s[0], author) {
        assert fs == [s[0]] + fs';
        assert fs[0] == s[0] && fs[1..] == fs';
        assert SortByRecency(fs) == InsertByRecency(s[0], SortByRecency(fs'));
      } else {
        assert fs == fs';
      }
    }
  }

  /** Without a filter every row passes. */
  lemma {:induction false} FilteredNone(s: seq<Post>)
    ensures Filtered(s, None) == s
  {
    if s != [] {
      FilteredNone(s[1..]);
      assert s == [s[0]] + s[1..];
    }
  }

  /** While the store holds no more than 100 rows, an author's feed holds
      the same rows as the global feed with that author's posts picked out,
      and both are newest first. The two are separate queries, so rows with
      equal `createdAt` may come back in either order. */
  lemma AuthorFeedIsFilteredGlobalFeed(store: seq<Post>, userId: string)
    requires |store| <= FeedLimit
    ensures multiset(FindMany(store, Some(userId))) == multiset(Filtered(FindMany(store, None), Some(userId)))
    ensures NewestFirst(FindMany(store, Some(userId))) && NewestFirst(Filtered(FindMany(store, None), Some(userId)))
  {
    var author := Some(userId);
    var global := FindMany(store, None);
    FilteredNone(store);
    FindManyUntruncated(store, None);
    FindManyUntruncated(store, author);
    FilteredNewestFirst(global, author);
    forall p ensures multiset(Filtered(global, author))[p] == multiset(Filtered(store, author))[p] {
      FilteredKeepsMatching(global, author, p);
      FilteredKeepsMatching(store, author, p);
    }
  }

  /** While no more than 100 rows pass the filter, the query returns all of
      them, sorted. */
  lemma FindManyUntruncated(store: seq<Post>, author: Option<string>)
    requires |Filtered(store, author)| <= FeedLimit
    ensures FindMany(store, author) == SortByRecency(Filtered(store, author))
  {
    var filtered := Filtered(store, author);
    var sorted := SortByRecency(filtered);
    assert |sorted| == |filtered| by { assert |multiset(sorted)| == |multiset(filtered)|; }
    assert sorted[..|sorted|] == sorted;
  }

  /** Appending a row appends it to the filtered rows when it passes. */
  lemma {:induction false} FilteredAppend(s: seq<Post>, p: Post, author: Option<string>)
    ensures Filtered(s + [p], author) == Filtered(s, author) + (if MatchesAuthor(p, author) then [p] else [])
  {
    var last := if MatchesAuthor(p, author) then [p] else [];
    if s == [] {
      assert s + [p] == [p];
      assert Filtered([p], author) == last + Filtered([], author);
    } else {
      var head := if MatchesAuthor(s[0], author) then [s[0]] else [];
      FilteredAppend(s[1..], p, author);
      assert (s + [p])[0] == s[0];
      assert (s + [p])[1..] == s[1..] + [p];
      calc {
        Filtered(s + [p], author);
        head + Filtered(s[1..] + [p], author);
        head + (Filtered(s[1..], author) + last);
        (head + Filtered(s[1..], author)) + last;
        Filtered(s, author) + last;
      }
    }
  }

  /** A post that `create` accepts shows up in its author's feed once stored,
      while that author has fewer than 100 earlier posts. */
  lemma CreatedPostIsListed(
    store: seq<Post>, content: seq<CodeUnit>, currentUser: string,
    isEmoji: seq<CodeUnit> -> bool, newId: string, now: int)
    requires Create(content, currentUser, isEmoji, newId, now).Ok?
    requires |Filtered(store, Some(currentUser))| < FeedLimit
    ensures var p := Create(content, currentUser, isEmoji, newId, now).value;
      p in FindMany(store + [p], Some(currentUser))
  {
    var p := Create(content, currentUser, isEmoji, newId, now).value;
    FilteredAppend(store, p, Some(currentUser));
    var r := FindMany(store + [p], Some(currentUser));
    assert p in multiset(Filtered(store + [p], Some(currentUser)));
    assert p in multiset(r);
  }

  /** A post `create` accepts at a time later than every stored post comes
      first in its author's feed once stored, however many posts that author
      has. */
  lemma CreatedPostLeadsFeed(
    store: seq<Post>, content: seq<CodeUnit>, currentUser: string,
    isEmoji: seq<CodeUnit> -> bool, newId: string, now: int)
    requires Create(content, currentUser, isEmoji, newId, now).Ok?
    requires forall q :: q in store ==> q.createdAt < now
    ensures var p := Create(content, currentUser, isEmoji, newId, now).value;
      var feed := FindMany(store + [p], Some(currentUser));
      |feed| > 0 && feed[0] == p
  {
    NewestRowLeadsFeed(store, Create(content, currentUser, isEmoji, newId, now).value, Some(currentUser));
  }

  /** A matching row newer than every stored row comes first in the query
      result once appended. */
  lemma NewestRowLeadsFeed(store: seq<Post>, p: Post, author: Option<string>)
    requires MatchesAuthor(p, author)
    requires forall q :: q in store ==> q.createdAt < p.createdAt
    ensures |FindMany(store + [p], author)| > 0 && FindMany(store + [p], author)[0] == p
  {
    var rows := Filtered(store + [p], author);
    assert |rows| > 0 && rows[|rows| - 1] == p by {
      FilteredAppend(store, p, author);
    }
    forall x | x in rows ensures x in store + [p] {
      FilteredKeepsMatching(store + [p], author, x);
    }
    NewestLeads(store, p, rows, FindMany(store + [p], author));
  }

  /** The step of `NewestRowLeadsFeed`, stated over the query's guarantees:
      the newest row of all cannot be left out, nor follow another row. */
  lemma NewestLeads(store: seq<Post>, p: Post, rows: seq<Post>, feed: seq<Post>)
    requires forall q :: q in store ==> q.createdAt < p.createdAt
    requires |rows| > 0 && rows[|rows| - 1] == p
    requires forall x :: x in rows ==> x in store + [p]
    requires |feed| > 0 && NewestFirst(feed) && multiset(feed) <= multiset(rows)
    requires NoNewerLeftOut(rows, feed)
    ensures feed[0] == p
  {
    var top := feed[0];
    assert top in rows by {
      assert top in multiset(feed);
    }
    assert p.createdAt <= top.createdAt by {
      FeedHeadIsNewest(rows, feed, |rows| - 1);
    }
    assert top !in store;
  }

  /** The first row of a newest-first query result is at least as new as
      every row that passes the filter. */
  lemma FeedHeadIsNewest(rows: seq<Post>, feed: seq<Post>, k: nat)
    requires k < |rows| && |feed| > 0 && NewestFirst(feed)
    requires NoNewerLeftOut(rows, feed)
    ensures rows[k].createdAt <= feed[0].createdAt
  {
    if rows[k] in feed {
      var j :| 0 <= j < |feed| && feed[j] == rows[k];
      NewestFirstOrdered(feed);
    }
  }

  /** `r` is what joining `posts` must give: it fails exactly when a post
      has no complete author, and then with the error of the first such
      post; otherwise it keeps the posts in their order, each paired with
      the first directory user of its author id, names narrowed. */
  ghost predicate JoinedFeed(posts: seq<Post>, users: seq<User>, r: Result<seq<PostWithAuthor>, TrpcError>) {
    && (r.Ok? <==> forall i :: 0 <= i < |posts| ==> HasCompleteAuthor(posts[i], users))
    && (r.Ok? ==> |r.value| == |posts|)
    && (r.Ok? ==> forall i :: 0 <= i < |r.value| ==> r.value[i].post == posts[i])
    && (r.Ok? ==> forall i :: 0 <= i < |r.value| ==> r.value[i].author.id == r.value[i].post.authorId)
    && (r.Ok? ==> forall i :: 0 <= i < |r.value| ==>
          exists u :: FirstWithId(users, r.value[i].post.authorId, u) && NarrowedFrom(r.value[i].author, users[u]))
    && (r.Err? ==> exists i :: FirstIncomplete(posts, users, i) && r.error == MissingAuthorError(posts[i], users))
  }

  /** Joining a query result: the join is `JoinedFeed`, and a successful
      feed keeps the query's bound, order and filter. */
  lemma FeedWithAuthors(posts: seq<Post>, users: seq<User>, author: Option<string>)
    requires NewestFirst(posts) && |posts| <= FeedLimit
    requires forall i :: 0 <= i < |posts| ==> MatchesAuthor(posts[i], author)
    ensures JoinedFeed(posts, users, AddUserDataToPosts(posts, users))
    ensures var r := AddUserDataToPosts(posts, users);
      && (r.Ok? ==> |r.value| <= FeedLimit)
      && (r.Ok? ==> forall i, j :: 0 <= i < j < |r.value| ==> r.value[i].post.createdAt >= r.value[j].post.createdAt)
      && (r.Ok? ==> forall i :: 0 <= i < |r.value| ==> MatchesAuthor(r.value[i].post, author))
  {
    var r := AddUserDataToPosts(posts, users);
    JoinSucceedsIff(posts, users);
    if r.Ok? {
      JoinSucceeds(posts, users);
      NewestFirstOrdered(posts);
    } else {
      JoinFailsWith(posts, users);
    }
  }

  /** The `getAll` query: the global feed with authors attached. */
  function GetAll(store: seq<Post>, users: seq<User>): (r: Result<seq<PostWithAuthor>, TrpcError>)
    ensures JoinedFeed(FindMany(store, None), users, r)
    ensures r.Ok? ==> |r.value| <= FeedLimit
    ensures r.Ok? ==> forall i, j :: 0 <= i < j < |r.value| ==> r.value[i].post.createdAt >= r.value[j].post.createdAt
  {
    var posts := FindMany(store, None);
    FeedWithAuthors(posts, users, None);
    AddUserDataToPosts(posts, users)
  }

  /** The `getPostsByUserId` query: one author's feed with authors attached. */
  function GetPostsByUserId(store: seq<Post>, users: seq<User>, userId: string): (r: Result<seq<PostWithAuthor>, TrpcError>)
    ensures JoinedFeed(FindMany(store, Some(userId)), users, r)
    ensures r.Ok? ==> |r.value| <= FeedLimit
    ensures r.Ok? ==> forall i, j :: 0 <= i < j < |r.value| ==> r.value[i].post.createdAt >= r.value[j].post.createdAt
    ensures r.Ok? ==> forall i :: 0 <= i < |r.value| ==> r.value[i].post.authorId == userId && r.value[i].author.id == userId
  {
    var posts := FindMany(store, Some(userId));
    FeedWithAuthors(posts, users, Some(userId));
    AddUserDataToPosts(posts, users)
  }
}
