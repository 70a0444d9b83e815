/**
 The posts router of a small social-posting backend: the feed read (`getAll`),
 which joins stored posts with author profiles fetched from the identity
 service, and the post write (`create`), which validates the content and
 builds the record handed to storage.

 Storage and the identity service are not modelled: their answers are the
 inputs of the operations below, and the record to insert is their output.
 */
module PostsRouter {

  // ---------------------------------------------------------------------
  // Values
  // ---------------------------------------------------------------------

  datatype Option<T> = None | Some(value: T)

  /** One UTF-16 code unit; JavaScript string lengths count these. */
  newtype CodeUnit = x: int | 0 <= x < 0x1_0000

  /** Post content as the JavaScript runtime sees it. Content is the only
      string whose length the router checks, so it alone is kept as code
      units; ids, e-mail addresses and messages are only copied, compared
      and concatenated, and stay Dafny strings. */
  type Content = seq<CodeUnit>

  /** A stored post; `id` and `createdAt` are assigned by storage. */
  datatype Post = Post(id: string, authorId: string, content: Content, createdAt: int)

  /** One entry of a user's e-mail address list at the identity service. */
  datatype EmailAddress = EmailAddress(emailAddress: string)

  /** A user as the identity service returns it; `username` is None when null or undefined. */
  datatype User = User(
    id: string,
    username: Option<string>,
    emailAddresses: seq<EmailAddress>,
    profileImageUrl: string)

  /** The projection of a user that the feed exposes as a post's author. */
  datatype Profile = Profile(
    id: string,
    userName: Option<string>,
    eMail: Option<string>,
    profileImageUrl: string)

  datatype PostWithAuthor = PostWithAuthor(post: Post, author: Profile)

  /** The batched identity-service request issued by the feed read. */
  datatype UserListQuery = UserListQuery(userId: seq<string>, limit: nat)

  /** The record handed to storage by `create`. */
  datatype NewPost = NewPost(authorId: string, content: Content)

  /** A length check of the input schema's string validator. */
  datatype StringCheck = MinLength(minimum: nat) | MaxLength(maximum: nat)

  /** A validation issue reported by the input schema. */
  datatype Issue = TooSmall(minimum: nat) | TooBig(maximum: nat)

  datatype ErrorCode = INTERNAL_SERVER_ERROR | BAD_REQUEST

  /** The errors the router raises to its caller. */
  datatype RouterError =
    | InternalServerError(message: string)
    | BadRequest(issues: seq<Issue>)
  {
    function Code(): ErrorCode {
      match this
      case InternalServerError(_) => INTERNAL_SERVER_ERROR
      case BadRequest(_) => BAD_REQUEST
    }
  }

  datatype Result<T> = Ok(value: T) | Err(error: RouterError)

  /** The page size both storage and the identity service are asked for. */
  const PageLimit: nat := 100

  /** The smallest and largest accepted content lengths. */
  const MinContentLength: nat := 1
  const MaxContentLength: nat := 255

  // ---------------------------------------------------------------------
  // getAll: the author lookup request
  // ---------------------------------------------------------------------

  /** The identity-service request: every post's author id, in feed order,
      duplicates kept, at most PageLimit users. */
  function AuthorLookup(posts: seq<Post>): (q: UserListQuery)
    ensures q.limit == PageLimit
    ensures |q.userId| == |posts|
    ensures forall i :: 0 <= i < |posts| ==> q.userId[i] == posts[i].authorId
  {
    UserListQuery(seq(|posts|, i requires 0 <= i < |posts| => posts[i].authorId), PageLimit)
  }

  // ---------------------------------------------------------------------
  // getAll: the author dictionary
  // ---------------------------------------------------------------------

  /** The profile the feed shows for a user. */
  function ToProfile(u: User): (p: Profile)
    ensures p.id == u.id && p.profileImageUrl == u.profileImageUrl
    ensures p.userName == u.username
    ensures p.eMail.Some? <==> |u.emailAddresses| > 0
    ensures p.eMail.Some? ==> p.eMail.value == u.emailAddresses[0].emailAddress
  {
    Profile(
      u.id,
      u.username,
      if |u.emailAddresses| == 0 then None else Some(u.emailAddresses[0].emailAddress),
      u.profileImageUrl)
  }

  /** The ids of a user list. */
  ghost function UserIds(users: seq<User>): set<string> {
    set u | u in users :: u.id
  }

  /** The dictionary the fold builds: users are entered left to right, so a
      later user with the same id replaces an earlier one. */
  ghost function UserDict(users: seq<User>): map<string, Profile>
    decreases |users|
  {
    if users == [] then map[]
    else
      var last := users[|users| - 1];
      UserDict(users[..|users| - 1])[last.id := ToProfile(last)]
  }

  /** `i` is the position of the last user in the list carrying id `k`. */
  ghost predicate LastWithId(users: seq<User>, k: string, i: int) {
    0 <= i < |users| && users[i].id == k &&
    forall j :: i < j < |users| ==> users[j].id != k
  }

  /** Builds the author dictionary by entering each user in turn. */
  method BuildUserDict(users: seq<User>) returns (dict: map<string, Profile>)
    ensures dict == UserDict(users)
    ensures dict.Keys == UserIds(users)
    ensures forall k :: k in dict ==> dict[k].id == k
  {
    dict := map[];
    var i := 0;
    while i < |users|
      invariant 0 <= i <= |users|
      invariant dict == UserDict(users[..i])
    {
      var user := users[i];
      assert users[..i + 1][..i] == users[..i];
      dict := dict[user.id := ToProfile(user)];
      i := i + 1;
    }
    assert users[..i] == users;
    UserDictKeys(users);
    UserDictIds(users);
  }

  /** The dictionary's keys are exactly the ids of the user list. */
  lemma {:induction false} UserDictKeys(users: seq<User>)
    ensures UserDict(users).Keys == UserIds(users)
    decreases |users|
  {
    if users != [] {
      var init, last := users[..|users| - 1], users[|users| - 1];
      UserDictKeys(init);
      assert users == init + [last];
      assert UserIds(users) == UserIds(init) + {last.id};
    }
  }

  /** Every entry is filed under its own id. */
  lemma {:induction false} UserDictIds(users: seq<User>)
    ensures forall k :: k in UserDict(users) ==> UserDict(users)[k].id == k
    decreases |users|
  {
    if users != [] {
      UserDictIds(users[..|users| - 1]);
    }
  }

  /** The entry under an id is the profile of the last user carrying that id. */
  lemma {:induction false} UserDictLastWins(users: seq<User>, i: int)
    requires 0 <= i < |users|
    requires forall j :: i < j < |users| ==> users[j].id != users[i].id
    ensures users[i].id in UserDict(users)
    ensures UserDict(users)[users[i].id] == ToProfile(users[i])
    decreases |users|
  {
    if i < |users| - 1 {
      var init := users[..|users| - 1];
      assert init[i] == users[i];
      UserDictLastWins(init, i);
    }
  }

  /** Every entry comes from the last user carrying its key. */
  lemma {:induction false} UserDictEntrySource(users: seq<User>, k: string)
    requires k in UserDict(users)
    ensures exists i :: LastWithId(users, k, i) && UserDict(users)[k] == ToProfile(users[i])
    decreases |users|
  {
    var init, last := users[..|users| - 1], users[|users| - 1];
    if last.id == k {
      assert LastWithId(users, k, |users| - 1);
    } else {
      UserDictEntrySource(init, k);
      var i :| LastWithId(init, k, i) && UserDict(init)[k] == ToProfile(init[i]);
      assert LastWithId(users, k, i);
    }
  }

  // ---------------------------------------------------------------------
  // getAll: the join
  // ---------------------------------------------------------------------

  /** The error raised for a post whose author is missing. */
  function AuthorNotFound(postId: string): (e: RouterError)
    ensures e.Code() == INTERNAL_SERVER_ERROR
  {
    InternalServerError("Author not found for post " + postId)
  }

  /** Every post's author is in the dictionary. */
  predicate AuthorsResolved(posts: seq<Post>, dict: map<string, Profile>) {
    forall i :: 0 <= i < |posts| ==> posts[i].authorId in dict
  }

  /** Post `i` is the first post, in feed order, whose author is missing. */
  predicate FirstOrphan(posts: seq<Post>, dict: map<string, Profile>, i: int) {
    0 <= i < |posts| && posts[i].authorId !in dict &&
    forall j :: 0 <= j < i ==> posts[j].authorId in dict
  }

  /** Pairs each post with its author, keeping the feed order; aborts on the
      first post whose author is missing, returning no partial list. */
  function JoinPosts(posts: seq<Post>, dict: map<string, Profile>): (r: Result<seq<PostWithAuthor>>)
    ensures r.Ok? <==> AuthorsResolved(posts, dict)
    ensures r.Ok? ==> |r.value| == |posts|
    ensures r.Ok? ==> forall i :: 0 <= i < |posts| ==>
      r.value[i] == PostWithAuthor(posts[i], dict[posts[i].authorId])
    ensures r.Err? ==> exists i :: FirstOrphan(posts, dict, i) && r.error == AuthorNotFound(posts[i].id)
    decreases |posts|
  {
    if posts == [] then Ok([])
    else if posts[0].authorId !in dict then
      assert FirstOrphan(posts, dict, 0);
      Err(AuthorNotFound(posts[0].id))
    else
      match JoinPosts(posts[1..], dict)
      case Err(e) =>
        assert exists i :: FirstOrphan(posts[1..], dict, i) && e == AuthorNotFound(posts[1..][i].id);
        var i :| FirstOrphan(posts[1..], dict, i) && e == AuthorNotFound(posts[1..][i].id);
        assert FirstOrphan(posts, dict, i + 1);
        Err(e)
      case Ok(rest) =>
        Ok([PostWithAuthor(posts[0], dict[posts[0].authorId])] + rest)
  }

  /** The feed read: issues the author lookup `q` for the fetched posts, then
      builds the author dictionary from the identity service's answer `users`
      and joins it with the posts. */
  method GetAll(posts: seq<Post>, users: seq<User>)
    returns (q: UserListQuery, r: Result<seq<PostWithAuthor>>)
    ensures q.limit == PageLimit && |q.userId| == |posts|
    ensures forall i :: 0 <= i < |posts| ==> q.userId[i] == posts[i].authorId
    ensures r.Ok? <==> forall k :: k in q.userId ==> k in UserIds(users)
    ensures r.Ok? <==> forall i :: 0 <= i < |posts| ==> posts[i].authorId in UserIds(users)
    ensures r.Ok? ==> |r.value| == |posts|
    ensures r.Ok? ==> forall i :: 0 <= i < |posts| ==>
      r.value[i].post == posts[i] &&
      r.value[i].author.id == posts[i].authorId &&
      posts[i].authorId in UserDict(users) &&
      r.value[i].author == UserDict(users)[posts[i].authorId]
    ensures r.Err? ==> r.error.Code() == INTERNAL_SERVER_ERROR
    ensures r.Err? ==>
      exists i :: (FirstOrphan(posts, UserDict(users), i) &&
                   posts[i].authorId !in UserIds(users) &&
                   r.error.message == "Author not found for post " + posts[i].id)
  {
    q := AuthorLookup(posts);
    var dict := BuildUserDict(users);
    r := JoinPosts(posts, dict);
    if forall k :: k in q.userId ==> k in UserIds(users) {
      JoinCompleteWhenLookupAnswered(posts, users);
    }
    assert forall i :: 0 <= i < |posts| ==> posts[i].authorId == q.userId[i];
  }

  /** When the identity service answers every requested id, the join succeeds
      and pairs each post with an author carrying the post's author id. */
  lemma {:induction false} JoinCompleteWhenLookupAnswered(posts: seq<Post>, users: seq<User>)
    requires forall k :: k in AuthorLookup(posts).userId ==> k in UserIds(users)
    ensures JoinPosts(posts, UserDict(users)).Ok?
    ensures forall i :: 0 <= i < |posts| ==>
      JoinPosts(posts, UserDict(users)).value[i].author.id == posts[i].authorId
  {
    var q := AuthorLookup(posts);
    UserDictKeys(users);
    UserDictIds(users);
    forall i | 0 <= i < |posts| ensures posts[i].authorId in UserDict(users) {
      assert q.userId[i] == posts[i].authorId;
    }
  }

  // ---------------------------------------------------------------------
  // create
  // ---------------------------------------------------------------------

  /** The content schema's checks: `.min(1)`, `.max(255)`, `.nonempty()`
      (the last being another minimum-length-1 check). */
  const ContentChecks: seq<StringCheck> :=
    [MinLength(MinContentLength), MaxLength(MaxContentLength), MinLength(1)]

  predicate Passes(c: StringCheck, s: Content) {
    match c
    case MinLength(n) => |s| >= n
    case MaxLength(n) => |s| <= n
  }

  function IssueOf(c: StringCheck): Issue {
    match c
    case MinLength(n) => TooSmall(n)
    case MaxLength(n) => TooBig(n)
  }

  /** The number of checks in the list that `s` fails. */
  ghost function FailingCount(checks: seq<StringCheck>, s: Content): (n: nat)
    ensures n <= |checks|
    decreases |checks|
  {
    if checks == [] then 0
    else (if Passes(checks[0], s) then 0 else 1) + FailingCount(checks[1..], s)
  }

  /** Runs every check (none stops the others) and collects one issue per
      failing check, in check order: there are exactly as many issues as
      failing checks, each the issue of a failing check; `IssuesAt` places
      each failing check's issue. */
  function Issues(checks: seq<StringCheck>, s: Content): (r: seq<Issue>)
    ensures |r| == FailingCount(checks, s)
    ensures r == [] <==> forall c :: c in checks ==> Passes(c, s)
    ensures forall k :: 0 <= k < |r| ==>
      exists c :: c in checks && !Passes(c, s) && r[k] == IssueOf(c)
    decreases |checks|
  {
    if checks == [] then []
    else
      var rest := Issues(checks[1..], s);
      assert forall c :: c in checks <==> c == checks[0] || c in checks[1..];
      var r := if Passes(checks[0], s) then rest else [IssueOf(checks[0])] + rest;
      assert forall k :: 0 <= k < |r| ==>
        exists c :: c in checks && !Passes(c, s) && r[k] == IssueOf(c) by {
        forall k | 0 <= k < |r|
          ensures exists c :: c in checks && !Passes(c, s) && r[k] == IssueOf(c)
        {
          if !Passes(checks[0], s) && k == 0 {
            assert checks[0] in checks;
          } else {
            var k' := if Passes(checks[0], s) then k else k - 1;
            assert r[k] == rest[k'];
          }
        }
      }
      r
  }

  /** The check at index `i`, when it fails, reports its own issue, at the
      position given by the number of failing checks before it. */
  lemma {:induction false} IssuesAt(checks: seq<StringCheck>, s: Content, i: int)
    requires 0 <= i < |checks| && !Passes(checks[i], s)
    ensures FailingCount(checks[..i], s) < |Issues(checks, s)|
    ensures Issues(checks, s)[FailingCount(checks[..i], s)] == IssueOf(checks[i])
    decreases |checks|
  {
    if i > 0 {
      assert checks[..i][1..] == checks[1..][..i - 1];
      assert checks[1..][i - 1] == checks[i];
      IssuesAt(checks[1..], s, i - 1);
    }
  }

  /** The content schema accepts exactly the contents of 1 to 255 code units;
      it reports two too-small issues for the empty content and one too-big
      issue for a content over the limit. */
  lemma ContentIssues(s: Content)
    ensures Issues(ContentChecks, s) == [] <==> MinContentLength <= |s| <= MaxContentLength
    ensures |s| == 0 ==> Issues(ContentChecks, s) == [TooSmall(1), TooSmall(1)]
    ensures |s| > MaxContentLength ==> Issues(ContentChecks, s) == [TooBig(MaxContentLength)]
  {
    // Follows by unrolling `Issues` over the three fixed checks.
  }

  /** The write: validates the content, then hands storage a record with the
      session's user id and the content unchanged. */
  function Create(currentUserId: string, content: Content): (r: Result<NewPost>)
    ensures r.Ok? <==> MinContentLength <= |content| <= MaxContentLength
    ensures r.Ok? ==> r.value.authorId == currentUserId && r.value.content == content
    ensures r.Err? ==> r.error.Code() == BAD_REQUEST && r.error.issues == Issues(ContentChecks, content)
  {
    ContentIssues(content);
    var issues := Issues(ContentChecks, content);
    if issues == [] then Ok(NewPost(currentUserId, content))
    else Err(BadRequest(issues))
  }

  /** A post stored from a successful `create` and read back at the head of
      the feed, when the identity service knows its writer and the authors of
      the older posts, makes the feed read succeed and shows the exact
      content, paired with the writer's profile. */
  lemma {:induction false} CreatedPostReadBack(
    currentUserId: string, content: Content, stored: Post, older: seq<Post>, users: seq<User>)
    requires Create(currentUserId, content).Ok?
    requires stored.authorId == Create(currentUserId, content).value.authorId
    requires stored.content == Create(currentUserId, content).value.content
    requires currentUserId in UserIds(users)
    requires AuthorsResolved(older, UserDict(users))
    ensures JoinPosts([stored] + older, UserDict(users)).Ok?
    ensures var feed := JoinPosts([stored] + older, UserDict(users)).value;
      |feed| == 1 + |older| &&
      feed[0].post.content == content &&
      feed[0].author.id == currentUserId &&
      1 <= |feed[0].post.content| <= 255
  {
    var posts := [stored] + older;
    assert posts[0] == stored;
    UserDictKeys(users);
    UserDictIds(users);
    forall i | 0 <= i < |posts| ensures posts[i].authorId in UserDict(users) {
      if i > 0 { assert posts[i] == older[i - 1]; }
    }
  }
}
