# Posts router model

A Dafny model of the posts router of a small social-posting backend
(`src/server/api/routers/posts.ts`). The router has two procedures:

- `getAll` reads the feed. It takes the posts storage returned (newest
  first). It asks the identity service for the authors of those posts in one
  batched call. It folds the returned users into a dictionary from user id to
  a projected profile `{id, userName, eMail, profileImageUrl}`. Then it pairs
  every post with the profile filed under its `authorId`. If some post has no
  author in the dictionary, the whole read fails with `INTERNAL_SERVER_ERROR`
  and the message `Author not found for post <id>`, naming the first such
  post.
- `create` writes a post. The input schema accepts content of 1 to 255
  characters, counted as JavaScript counts them (UTF-16 code units). An
  accepted content is handed to storage unchanged, together with the session
  user's id.

Everything lives in one module, `PostsRouter` (`posts.dfy`). Storage and
the identity service are external collaborators: the posts storage returned
and the users the identity service returned are inputs of `GetAll`, and the
record to insert is the output of `Create`.

The author dictionary is built the way the source builds it: the `reduce`
callback updates its accumulator in place, so `BuildUserDict` is a method
whose loop updates a local map. Its contract ties the result to the fold
function `UserDict`, and the lemmas about `UserDict` state what the
dictionary holds. The join is pure, with an early abort, so `JoinPosts` is a
recursive function returning a `Result`.

The schema `z.string().min(1).max(255).nonempty()` is modelled as a list of
three length checks, because `nonempty()` is a second minimum-length-1
check. The schema runs every check and reports one issue per failing check,
and the router reports a failed input as `BAD_REQUEST`. So an empty content
yields two too-small issues, and an over-long content yields one too-big
issue.

Two facts about the code shape the model:

- `create` has no rate limit: it validates the input and inserts directly
  (`src/server/api/routers/posts.ts:49-59`). No rate limiter is modelled.
- The author lookup requests every post's `authorId` in feed order,
  duplicates included (`src/server/api/routers/posts.ts:19`). `AuthorLookup`
  models exactly that.

## Model

| member | source | states |
|---|---|---|
| `PostsRouter.AuthorLookup` | src/server/api/routers/posts.ts:18-21 | the identity-service request lists every post's `authorId`, in feed order, without deduplication, with a limit of 100 |
| `PostsRouter.ToProfile` | src/server/api/routers/posts.ts:24-29 | a profile keeps the user's id and `profileImageUrl` unchanged; `userName` is the username, absent when null or undefined; `eMail` is present exactly when the user has an address and is then the first one |
| `PostsRouter.BuildUserDict` | src/server/api/routers/posts.ts:23-31 | the loop over the users yields the left-to-right fold `UserDict`; its key set is exactly the set of user ids, and each entry's `id` equals its key |
| `PostsRouter.UserDictKeys` | src/server/api/routers/posts.ts:23-31 | the dictionary's key set is exactly the set of ids in the user list |
| `PostsRouter.UserDictIds` | src/server/api/routers/posts.ts:24-25 | every entry is filed under its own id |
| `PostsRouter.UserDictLastWins` | src/server/api/routers/posts.ts:23-31 | when an id repeats, the entry is the profile of the last user carrying it (the later user overwrites the earlier one) |
| `PostsRouter.UserDictEntrySource` | src/server/api/routers/posts.ts:23-31 | every entry is the profile of the last user in the list that carries its key |
| `PostsRouter.AuthorNotFound` | src/server/api/routers/posts.ts:36-39 | the missing-author error has code `INTERNAL_SERVER_ERROR` |
| `PostsRouter.JoinPosts` | src/server/api/routers/posts.ts:33-47 | succeeds exactly when every post's author is in the dictionary; on success the result has one pair per post, pair i holding post i unchanged (so the newest-first order is kept) and the dictionary entry for its `authorId`; on failure the error is "Author not found for post <id>" for the first orphan post in feed order, and no partial list is returned |
| `PostsRouter.GetAll` | src/server/api/routers/posts.ts:10-47 | the whole feed read: the lookup it issues is every post's `authorId` in feed order with limit 100; it succeeds exactly when the identity service's answer covers every requested id (equivalently, every post's `authorId` is among the returned users' ids); on success it keeps length and order and each pair's author has `id == post.authorId`; otherwise it fails with `INTERNAL_SERVER_ERROR` naming the first orphan post |
| `PostsRouter.JoinCompleteWhenLookupAnswered` | src/server/api/routers/posts.ts:18-47 | when the identity service answers every requested id, the join succeeds and each author's id equals its post's `authorId` |
| `PostsRouter.Issues` | src/server/api/routers/posts.ts:50 | the schema runs all checks: it reports exactly as many issues as there are failing checks, each the issue of a failing check, and none exactly when every check passes |
| `PostsRouter.IssuesAt` | src/server/api/routers/posts.ts:50 | every failing check reports its own issue, in check order: the issue of failing check i sits at the number of failing checks before i (so a schema that stops at its first failure does not meet this) |
| `PostsRouter.ContentIssues` | src/server/api/routers/posts.ts:50 | the content schema accepts exactly the lengths 1 to 255; empty content gets two too-small issues, content over 255 one too-big issue |
| `PostsRouter.Create` | src/server/api/routers/posts.ts:49-59 | accepts the content if and only if its length is between 1 and 255; an accepted content yields the record `{authorId: currentUserId, content}` with the content unchanged; a rejected one fails with `BAD_REQUEST` and the schema's issues |
| `PostsRouter.CreatedPostReadBack` | src/server/api/routers/posts.ts:33-59 | when the identity service knows the writer and the older posts' authors, a post stored from a successful `create` and read at the head of the feed makes the read succeed, carries the exact content, and is paired with a profile whose id is the writer's id |

## Left out

- Storage (`findMany` with `take: 100` ordered by `createdAt` descending, and the insert): the fetched posts are an input of `GetAll` and the insert is the `NewPost` record returned by `Create`. The 100-post cap and the newest-first order are the storage's doing; the model proves only that the feed keeps the length and order it is given.
- The identity service call (`getUserList`): its answer is an input of `GetAll`; which users it returns, and in what order, is not modelled.
- Authentication (`privateProcedure`) and the session: the session's user id is a parameter of `Create`.
- The framework plumbing (router wiring, async/await, the schema library's parsing machinery and its issue messages): only the length checks and the issue kinds are kept.
- JavaScript object-prototype keys in the dictionary lookup (an author id such as `constructor` would find an inherited property): the dictionary is a Dafny `map`.
- Rate limiting: there is none in the code.
- `src/pages/_app.tsx`: UI provider wrapping and a date-library plugin registration, with no logic to state.
