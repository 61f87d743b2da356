/** The post card: how a post-and-author record becomes the author's handle,
    the two links, the avatar and the displayed content. */
module PostView {
  import opened Wrappers
  import opened Posts

  // ---------------------------------------------------------------------------
  // Lower-casing
  // ---------------------------------------------------------------------------

  predicate IsAsciiUpper(c: char) {
    'A' <= c <= 'Z'
  }

  /** Lower-cases one character; only the ASCII letters are mapped. */
  function LowerChar(c: char): (r: char)
    ensures !IsAsciiUpper(r)
    ensures !IsAsciiUpper(c) ==> r == c
    ensures IsAsciiUpper(c) ==> 'a' <= r <= 'z' && r as int - c as int == 32
  {
    if IsAsciiUpper(c) then (c as int + 32) as char else c
  }

  /** `s.toLowerCase()`, for the ASCII letters. */
  function ToLower(s: string): (r: string)
    ensures |r| == |s|
    ensures forall i :: 0 <= i < |s| ==> r[i] == LowerChar(s[i])
  {
    if s == [] then [] else [LowerChar(s[0])] + ToLower(s[1..])
  }

  /** Lower-casing twice is lower-casing once. */
  lemma {:induction false} ToLowerIdempotent(s: string)
    ensures ToLower(ToLower(s)) == ToLower(s)
  {
    if s != [] {
      ToLowerIdempotent(s[1..]);
      assert ToLower(s)[1..] == ToLower(s[1..]);
    }
  }

  // ---------------------------------------------------------------------------
  // Handle and links
  // ---------------------------------------------------------------------------

  /** The handle shown for the author: `@username` when the username is
      truthy, otherwise `@first_last` from the lower-cased names. */
  function Handle(a: Author): (h: string)
    ensures |h| >= 1 && h[0] == '@'
    ensures Truthy(a.username) ==> h[1..] == a.username.value
    ensures !Truthy(a.username) ==>
              && |h| == |a.firstName| + |a.lastName| + 2
              && h[|a.firstName| + 1] == '_'
              && (forall i :: 0 <= i < |a.firstName| ==> h[1 + i] == LowerChar(a.firstName[i]))
              && (forall i :: 0 <= i < |a.lastName| ==> h[|a.firstName| + 2 + i] == LowerChar(a.lastName[i]))
  {
    if Truthy(a.username) then "@" + a.username.value
    else "@" + ToLower(a.firstName) + "_" + ToLower(a.lastName)
  }

  /** An empty username is falsy: it gives the same handle as no username. */
  lemma EmptyUsernameFallsBack(a: Author)
    ensures Handle(a.(username := Some(""))) == Handle(a.(username := None))
    ensures Handle(a.(username := None)) == "@" + ToLower(a.firstName) + "_" + ToLower(a.lastName)
  {
  }

  /** Without a username the handle depends on the names only up to case:
      renaming an author to the lower-cased names keeps the handle. */
  lemma HandleIgnoresNameCase(a: Author)
    requires !Truthy(a.username)
    ensures Handle(a.(firstName := ToLower(a.firstName), lastName := ToLower(a.lastName))) == Handle(a)
  {
    ToLowerIdempotent(a.firstName);
    ToLowerIdempotent(a.lastName);
  }

  /** The href of the author's name: `/` followed by the author's id. */
  function AuthorHref(a: Author): (href: string)
    ensures |href| == |a.id| + 1 && href[0] == '/' && href[1..] == a.id
  {
    "/" + a.id
  }

  const PostPrefix: string := "/post/"

  /** The href of the timestamp: `/post/` followed by the post's id. */
  function PostHref(p: Post): (href: string)
    ensures |href| == |p.id| + |PostPrefix| && href[..|PostPrefix|] == PostPrefix && href[|PostPrefix|..] == p.id
  {
    PostPrefix + p.id
  }

  // ---------------------------------------------------------------------------
  // The pages the links lead to
  // ---------------------------------------------------------------------------

  /** The pages of the site: the feed at `/`, the profile page
      `/[slug]` (the slug is the user id it looks up), and the single-post
      page `/post/[id]`. */
  datatype Page = Home | Profile(userId: string) | SinglePost(postId: string) | NoPage

  /** The path part of a link: everything before the first `?` (query) or
      `#` (fragment). Pages are chosen by it alone. */
  function Pathname(link: string): (p: string)
    ensures p <= link
    ensures '?' !in p && '#' !in p
    ensures |p| < |link| ==> link[|p|] == '?' || link[|p|] == '#'
  {
    if link == [] || link[0] == '?' || link[0] == '#' then []
    else [link[0]] + Pathname(link[1..])
  }

  /** A link without a query or fragment is all path. */
  lemma {:induction false} PathnameOfPlainLink(link: string)
    requires '?' !in link && '#' !in link
    ensures Pathname(link) == link
  {
    if link != [] {
      PathnameOfPlainLink(link[1..]);
      assert link == [link[0]] + link[1..];
    }
  }

  /** The path ends at the first `?` or `#`, whatever follows it. */
  lemma {:induction false} PathnameStopsAtDelimiter(path: string, delimiter: char, tail: string)
    requires '?' !in path && '#' !in path && (delimiter == '?' || delimiter == '#')
    ensures Pathname(path + [delimiter] + tail) == path
  {
    if path != [] {
      PathnameStopsAtDelimiter(path[1..], delimiter, tail);
      assert (path + [delimiter] + tail)[1..] == path[1..] + [delimiter] + tail;
    }
  }

  /** A string holds none of the characters that end a path segment. */
  predicate NoDelimiter(s: string) {
    '/' !in s && '?' !in s && '#' !in s
  }

  /** An id is a path segment that routes back to itself: not empty, no
      delimiter, and no `%`, which the router would percent-decode. */
  predicate IsSegment(id: string) {
    id != "" && NoDelimiter(id) && '%' !in id
  }

  /** The page a link is routed to, by its path. */
  function Route(link: string): (page: Page)
    ensures page.Home? <==> Pathname(link) == "/"
    ensures page.Profile? ==> page.userId != "" && NoDelimiter(page.userId) && Pathname(link) == "/" + page.userId
    ensures page.SinglePost? ==> page.postId != "" && NoDelimiter(page.postId) && Pathname(link) == PostPrefix + page.postId
  {
    var path := Pathname(link);
    if |path| == 0 || path[0] != '/' then NoPage
    else if |path| == 1 then Home
    else if '/' !in path[1..] then Profile(path[1..])
    else if |path| > |PostPrefix| && path[..|PostPrefix|] == PostPrefix && '/' !in path[|PostPrefix|..] then
      SinglePost(path[|PostPrefix|..])
    else NoPage
  }

  /** The author link leads to that author's profile page. */
  lemma AuthorLinkRoutesToProfile(a: Author)
    requires IsSegment(a.id)
    ensures Route(AuthorHref(a)) == Profile(a.id)
  {
    var href := AuthorHref(a);
    assert '?' !in href && '#' !in href by {
      assert href == "/" + a.id;
    }
    PathnameOfPlainLink(href);
  }

  /** The post link leads to that post's page. */
  lemma PostLinkRoutesToPost(p: Post)
    requires IsSegment(p.id)
    ensures Route(PostHref(p)) == SinglePost(p.id)
  {
    var href := PostHref(p);
    assert '?' !in href && '#' !in href by {
      assert href == PostPrefix + p.id;
    }
    PathnameOfPlainLink(href);
    assert '/' in href[1..] by { assert href[1..][4] == '/'; }
  }

  /** A query string after a profile link does not change the page: the
      slug is the path segment only. */
  lemma ProfileLinkIgnoresQuery(a: Author, query: string)
    requires IsSegment(a.id)
    ensures Route(AuthorHref(a) + "?" + query) == Profile(a.id)
  {
    var href := AuthorHref(a);
    assert '?' !in href && '#' !in href by {
      assert href == "/" + a.id;
    }
    PathnameStopsAtDelimiter(href, '?', query);
  }

  // ---------------------------------------------------------------------------
  // The card
  // ---------------------------------------------------------------------------

  /** What `PostView` renders, apart from the relative time. */
  datatype Card = Card(
    avatarSrc: string,
    handle: string,
    authorHref: string,
    postHref: string,
    content: seq<CodeUnit>)

  /** `PostView`: both branches link the author's name to the profile and the
      time to the post page, and show the content unchanged. */
  function Render(entry: PostWithAuthor): (card: Card)
    ensures card.avatarSrc == entry.author.profileImageUrl
    ensures card.content == entry.post.content
    ensures card.handle == Handle(entry.author)
    ensures card.authorHref == AuthorHref(entry.author) && card.postHref == PostHref(entry.post)
    ensures |card.handle| >= 1 && card.handle[0] == '@'
    ensures IsSegment(entry.author.id) ==> Route(card.authorHref) == Profile(entry.author.id)
    ensures IsSegment(entry.post.id) ==> Route(card.postHref) == SinglePost(entry.post.id)
  {
    var card := Card(entry.author.profileImageUrl, Handle(entry.author), AuthorHref(entry.author), PostHref(entry.post), entry.post.content);
    assert IsSegment(entry.author.id) ==> Route(card.authorHref) == Profile(entry.author.id) by {
      if IsSegment(entry.author.id) { AuthorLinkRoutesToProfile(entry.author); }
    }
    assert IsSegment(entry.post.id) ==> Route(card.postHref) == SinglePost(entry.post.id) by {
      if IsSegment(entry.post.id) { PostLinkRoutesToPost(entry.post); }
    }
    card
  }

  /** The links do not depend on the username: two authors that differ only
      in it get the same card apart from the handle. */
  lemma LinksIgnoreUsername(entry: PostWithAuthor, username: Option<string>)
    ensures var other := entry.(author := entry.author.(username := username));
      Render(other) == Render(entry).(handle := Handle(other.author))
  {
  }

  // ---------------------------------------------------------------------------
  // A worked feed
  // ---------------------------------------------------------------------------

  const Ann: User := User("u1", None, Some("Ann"), Some("Lee"), "avatar")
  const AnnAsAuthor: Author := Author("u1", None, "Ann", "Lee", "avatar")
  const OlderPost: Post := Post("p1", "u1", [0xD83D, 0xDE00], 10)
  const NewerPost: Post := Post("p2", "u1", [0xD83D, 0xDE00], 20)

  /** The global feed query over the two posts, stored oldest first, lists
      the newer one first. */
  lemma WorkedFeedQuery()
    ensures FindMany([OlderPost, NewerPost], None) == [NewerPost, OlderPost]
  {
    FilteredNone([OlderPost, NewerPost]);
    assert SortByRecency([NewerPost]) == [NewerPost];
    assert InsertByRecency(OlderPost, [NewerPost]) == [NewerPost, OlderPost];
    assert SortByRecency([OlderPost, NewerPost]) == [NewerPost, OlderPost];
  }

  /** Both posts find their author, names narrowed. */
  lemma WorkedAuthors()
    ensures AttachAuthor(NewerPost, [Ann]) == Ok(PostWithAuthor(NewerPost, AnnAsAuthor))
    ensures AttachAuthor(OlderPost, [Ann]) == Ok(PostWithAuthor(OlderPost, AnnAsAuthor))
  {
    assert FirstIndexWithId([Ann], "u1") == Some(0);
  }

  /** Without a username the handle is built from the lower-cased names. */
  lemma WorkedHandle()
    ensures Handle(AnnAsAuthor) == "@ann_lee"
  {
    assert ToLower("Ann") == "ann";
    assert ToLower("Lee") == "lee";
  }

  /** A directory entry without a username and two posts by it, stored
      oldest first: the feed lists the newer post first and shows both under
      the handle built from the lower-cased names. */
  lemma FeedOfOneAuthorWithoutUsername()
    ensures var feed := GetAll([OlderPost, NewerPost], [Ann]);
      && feed.Ok? && |feed.value| == 2
      && feed.value[0].post == NewerPost && feed.value[1].post == OlderPost
      && Render(feed.value[0]).handle == "@ann_lee"
      && Render(feed.value[1]).handle == "@ann_lee"
  {
    WorkedFeedQuery();
    WorkedAuthors();
    WorkedHandle();
    var feed := AddUserDataToPosts([NewerPost, OlderPost], [Ann]);
    assert feed.Ok?;
    assert feed.value[0] == PostWithAuthor(NewerPost, AnnAsAuthor);
    assert feed.value[1] == PostWithAuthor(OlderPost, AnnAsAuthor);
  }
}
