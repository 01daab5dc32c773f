# Puppies API: services model

A Dafny model of the service layer of the Puppies API, a photo-sharing backend. In it users register, publish posts, like and unlike posts, browse paged feeds, and sign in with an opaque session token. The model covers the four services and the request gate:

- **AuthService** (`sessions.dfy`, module `Sessions`). The in-memory token store is a class with the two map fields `activeTokens` (token to user id) and `userActiveTokens` (user id to token). `Login` and `Logout` update those maps in place, as the Java code does. The invariant is that the two maps are mutual inverses, so every user has at most one live token.
- **LikeService** (`likes.dfy`, module `Likes`). `toggleLike` works over the like ledger: it deletes the pair's like if present and otherwise adds one. The ledger keeps at most one like per (user, post) pair.
- **PostService** (`posts.dfy`, module `Posts`). `createPost` appends to the posts table. The feed, user-posts and liked-posts views are pages over the posts table, and each response record carries the post's live like count. The batched count that the unit tests expect is proved to give the same records as the per-post count the code uses.
- **UserService** (`users.dfy`, module `Users`). Registration stores the email normalised (trimmed and lower-cased) and refuses duplicates, so emails stay unique. The module also has lookup by id or email and the profile counts.
- **AuthInterceptor** (`interceptor.dfy`, module `Interceptor`). `preHandle` becomes a function returning a verdict: proceed with the `userId` attribute, or reject with status 401.

The Spring Data repositories are modelled as a `Store` class with three tables (`users`, `posts`, `likes`, each a sequence of rows). Their queries are functions that give each derived query name, or the JPQL text, its meaning (`repositories.dfy`). `Store.Valid()` holds:

- unique user ids;
- unique, normalised emails;
- unique post ids;
- at most one like per pair;
- every post's author and every like's user and post exist.

Each state-changing service method keeps this invariant.

The code's external calls are inputs to the model:

- `PasswordEncoder.encode` and `matches` are function parameters.
- The value of `UUID.randomUUID()` is a parameter that must not be blank and must not already be a live token.
- The keys that the identity columns assign are parameters that must be fresh.
- `LocalDateTime.now()` is a `now` parameter.

`String.trim`, `toLowerCase`, `isBlank`, `startsWith` and `equalsIgnoreCase` are modelled on ASCII in `text.dfy`. `trim` drops chars up to U+0020, while `isBlank` uses `Character.isWhitespace`; the two sets differ on control chars, and the model keeps them apart.

Where the documented behaviour and the code disagree, the model follows the code:

- `getUserFeed` returns a page of `Post`, not of response records. The tests expect records (`PostServiceIntegrationTest.java:129`).
- The code sorts the feed by date only. It adds no tie-break on id.
- Liked posts are fetched by a query without ORDER BY. The model claims no order for them, not recency of the like.
- The code counts likes once per post (`countByPostId`). The batched `findByPostIdIn` variant exists only in the unit tests. It is modelled beside the code's approach and proved equal to it (`Posts.BatchedEqualsPerPost`).

## Model

| member | source | states |
|---|---|---|
| Text.Trim | src/main/java/com/puppies/api/service/UserService.java:48-49 | `String.trim`: the result is an infix of the input with no trimmable char at either end, and every char cut away is at most U+0020 |
| Text.ToLower | src/main/java/com/puppies/api/service/UserService.java:48 | lower-casing keeps the length, leaves no upper-case letter, and changes only upper-case letters, each by the ASCII offset |
| Text.IsBlank | src/main/java/com/puppies/api/service/AuthService.java:74 | `isBlank`: every char is white space; a blank string trims to the empty string |
| Text.StartsWith | src/main/java/com/puppies/api/security/AuthInterceptor.java:34 | `startsWith`: true exactly when the string is the prefix followed by some rest |
| Text.EqualsIgnoreCase | src/main/java/com/puppies/api/security/AuthInterceptor.java:27 | `equalsIgnoreCase`: same length, and the chars at each position are equal once lowered |
| Text.NormalizeEmail | src/main/java/com/puppies/api/service/UserService.java:48-49 | `email.trim().toLowerCase()` is trimmed, has no upper-case letter, and is no longer than the input |
| Text.NormalizeEmailIdempotent | src/main/java/com/puppies/api/service/AuthService.java:39 | normalising an already normalised email (as login does) changes nothing |
| Paging.Slice | src/main/java/com/puppies/api/service/PostService.java:53-58 | page n of size z holds the elements n*z .. n*z+z-1 of the ordered result that exist, never more than z |
| Paging.PageEmptyIffPastLast | src/main/java/com/puppies/api/service/PostService.java:53-58 | a page is empty exactly when its number is at least the page count ceil(total/size); asking past the end gives an empty page, not an error |
| Paging.ElementOnItsPage | src/main/java/com/puppies/api/service/PostService.java:53-58 | element k of the ordered result is element k mod z of page k div z |
| Paging.TotalPages | src/test/java/com/puppies/api/service/PostServiceIntegrationTest.java:133 | `getTotalPages` is the least number of pages of the page size that holds every element |
| Paging.MapPage | src/main/java/com/puppies/api/service/PostService.java:76-82 | rebuilding a page from mapped content maps it one to one and in order, and keeps the pageable and the total |
| Repositories.FindUserById | src/main/java/com/puppies/api/service/UserService.java:75 | `findById` returns a stored user with that id, and returns nothing exactly when no user has that id |
| Repositories.FindUserByEmail | src/main/java/com/puppies/api/service/UserService.java:53 | `findByEmail` returns a stored user with that email, and returns nothing exactly when none has it |
| Repositories.FindPostById | src/main/java/com/puppies/api/service/LikeService.java:56 | `findById` on posts returns a stored post with that id, and returns nothing exactly when none has it |
| Repositories.PostsByUser | src/main/java/com/puppies/api/repository/PostRepository.java:16 | the rows `findByUserId…` selects are exactly the posts whose author is the user |
| Repositories.PostsLikedBy | src/main/java/com/puppies/api/repository/PostRepository.java:14-15 | the rows the JPQL join selects are exactly the posts that have a like by the user |
| Repositories.CountPostsByUserId | src/main/java/com/puppies/api/repository/PostRepository.java:17 | `countByUserId` on posts is at most the table size, and zero exactly when the user has no post |
| Repositories.FindAllByDateDesc | src/main/java/com/puppies/api/service/PostService.java:58 | `findAll` with the date-descending pageable returns at most a page of stored posts, newest first, with all posts as its total |
| Repositories.FindByUserIdOrderByDateDesc | src/main/java/com/puppies/api/repository/PostRepository.java:16 | returns at most a page of the user's stored posts, newest first, with the user's post count as its total |
| Repositories.FindPostsLikedByUser | src/main/java/com/puppies/api/repository/PostRepository.java:14-15 | returns at most a page of stored posts the user likes, with the number of such posts as its total |
| Repositories.HasLike | src/main/java/com/puppies/api/repository/LikeRepository.java:12 | `findByUserAndPost(...)` is present only when the like is counted both for the post and for the user |
| Repositories.CountByPostId | src/main/java/com/puppies/api/repository/LikeRepository.java:13 | `countByPostId` is at most the ledger size, and zero exactly when no like row names the post |
| Repositories.CountByUserId | src/main/java/com/puppies/api/repository/LikeRepository.java:14 | `countByUserId` on likes is at most the ledger size, and zero exactly when no like row names the user |
| Repositories.SortByDateDesc | src/main/java/com/puppies/api/service/PostService.java:53-58 | a date-descending sort returns the same rows (a permutation, same length) newest first |
| Repositories.FindByPostIdIn | src/test/java/com/puppies/api/service/PostServiceTest.java:122 | `findByPostIdIn` returns exactly the like rows whose post id is in the given set |
| Repositories.Store.constructor | src/main/java/com/puppies/api/repository/LikeRepository.java:12-14 | an empty database satisfies the store invariant |
| Sessions.Issue | src/main/java/com/puppies/api/service/AuthService.java:53-63 | after login the new token maps to the user and back, and the user's previous token, if different, is no longer live |
| Sessions.Revoke | src/main/java/com/puppies/api/service/AuthService.java:81-89 | logout leaves the token dead and its user without a token, and keeps every other token and every other user's entry as it was; a null or unknown token leaves both maps unchanged |
| Sessions.RevokeLeavesOthers | src/main/java/com/puppies/api/service/AuthService.java:81-89 | when the maps are inverse, logging one token out leaves every other user's live token in place and resolving to them |
| Sessions.IssueKeepsInverse | src/main/java/com/puppies/api/service/AuthService.java:53-63 | with a fresh token, login keeps the two maps mutual inverses |
| Sessions.RevokeKeepsInverse | src/main/java/com/puppies/api/service/AuthService.java:81-89 | logout keeps the two maps mutual inverses |
| Sessions.IssueLeavesOthers | src/main/java/com/puppies/api/service/AuthService.java:54-63 | login by one user changes no other user's token in either map |
| Sessions.SingleActiveSession | src/main/java/com/puppies/api/service/AuthService.java:24-26 | when the maps are inverse, two live tokens of the same user are the same token |
| Sessions.LoginTwice | src/main/java/com/puppies/api/service/AuthService.java:53-63 | after two logins by one user, the first token no longer resolves and the second resolves to the user |
| Sessions.Authenticate | src/main/java/com/puppies/api/service/AuthService.java:39-50 | login accepts only a stored user whose email is the normalised input and whose password the encoder matches; otherwise AuthenticationFailed; with unique emails it accepts exactly when such a user exists |
| Sessions.AuthService.constructor | src/main/java/com/puppies/api/service/AuthService.java:24-26 | the store starts empty and inverse |
| Sessions.AuthService.Login | src/main/java/com/puppies/api/service/AuthService.java:37-67 | a failed login returns AuthenticationFailed and leaves both maps unchanged; a successful one returns the fresh token, applies `Issue`, keeps the maps inverse, and the token resolves to the user |
| Sessions.AuthService.GetUserIdFromToken | src/main/java/com/puppies/api/service/AuthService.java:73-79 | returns empty for a null or blank token, and otherwise the user the token is live for (empty if it is not live) |
| Sessions.AuthService.Logout | src/main/java/com/puppies/api/service/AuthService.java:81-89 | the maps become `Revoke` of the old maps and stay inverse |
| Interceptor.ExtractToken | src/main/java/com/puppies/api/security/AuthInterceptor.java:31-36 | the header yields a token exactly when it starts with `Bearer `, and the header is then `Bearer ` followed by the token |
| Interceptor.PreHandle | src/main/java/com/puppies/api/security/AuthInterceptor.java:26-59 | OPTIONS (any case) proceeds unchecked; no bearer token means reject 401; a token that is blank or not live means reject 401; a live token proceeds with its user as the userId attribute |
| Interceptor.IssuedTokenPasses | src/main/java/com/puppies/api/security/AuthInterceptor.java:45-58 | a request carrying a live token proceeds, attributed to that token's user |
| Interceptor.BlankBearerIsRejected | src/main/java/com/puppies/api/security/AuthInterceptor.java:45-52 | `Bearer ` followed only by blanks is rejected with 401, whatever the store holds |
| Users.Register | src/main/java/com/puppies/api/service/UserService.java:47-67 | an email already stored in normal form gives AlreadyExists and an unchanged table; otherwise one user is appended with the given id, trimmed name, normalised email and the encoded password |
| Users.RegisterKeepsEmailsUnique | src/main/java/com/puppies/api/service/UserService.java:48-62 | one registration keeps stored emails unique and normalised |
| Users.RegisterKeepsConsistent | src/main/java/com/puppies/api/service/UserService.java:47-67 | registration with a fresh id keeps the whole store invariant |
| Users.RegisterAllKeepsEmailsUnique | src/main/java/com/puppies/api/service/UserService.java:48-62 | after any sequence of registrations, no two stored users share an email |
| Users.CreateUser | src/main/java/com/puppies/api/service/UserService.java:47-67 | the result and the new users table are those of `Register`; posts and likes are untouched and the store stays valid |
| Users.GetUserById | src/main/java/com/puppies/api/service/UserService.java:70-83 | a null id is IllegalArgument; otherwise the result is present exactly when a user has that id, and it is that user |
| Users.GetUserProfile | src/main/java/com/puppies/api/service/UserService.java:86-107 | a null id is IllegalArgument, an unknown id is NotFound, and otherwise the profile has the user's fields, the number of their posts and the number of their like rows |
| Users.LoadUserByUsername | src/main/java/com/puppies/api/service/UserService.java:110-113 | returns the user stored under the normalised email; UsernameNotFound exactly when no user has it |
| Likes.RemoveFirst | src/main/java/com/puppies/api/service/LikeService.java:62-67 | deleting the found like removes exactly one copy of it and nothing else |
| Likes.Toggle | src/main/java/com/puppies/api/service/LikeService.java:34-43 | as documented: if the pair is liked, its like is removed; otherwise one like for the pair is added; no other row changes |
| Likes.ToggleAsWritten | src/main/java/com/puppies/api/service/LikeService.java:62-73 | as written: the delete branch removes the like, and the insert branch leaves the ledger unchanged |
| Likes.ToggleKeepsUnique | src/main/java/com/puppies/api/service/LikeService.java:62-73 | toggling keeps at most one like per (user, post) pair |
| Likes.ToggleFlips | src/main/java/com/puppies/api/service/LikeService.java:62-73 | toggling flips whether the pair is liked and leaves every other pair's like as it was |
| Likes.ToggleTwiceRestores | src/test/java/com/puppies/api/service/LikeServiceIntegrationTest.java:77-88 | from the unliked state, two toggles restore the ledger exactly |
| Likes.ToggleMovesCount | src/test/java/com/puppies/api/service/LikeServiceIntegrationTest.java:65-88 | a like raises the post's like count by one, an unlike lowers it by one, and no other post's count moves |
| Likes.ToggleKeepsConsistent | src/main/java/com/puppies/api/service/LikeService.java:50-73 | toggling a pair whose user and post exist keeps the store invariant |
| Likes.ToggleLike | src/main/java/com/puppies/api/service/LikeService.java:45-75 | null user id, then null post id, is IllegalArgument; a missing user, then a missing post, is NotFound; errors leave the ledger unchanged; an existing user and post always succeed, returning "not liked before" and applying `Toggle`; users and posts are untouched and the store stays valid |
| Likes.ToggleLikeAsWritten | src/main/java/com/puppies/api/service/LikeService.java:45-75 | the same checks as the code, success for every existing user and post with the result "not liked before", and the ledger changed only by `ToggleAsWritten` |
| Likes.AsWrittenLikeIsLost | src/main/java/com/puppies/api/service/LikeService.java:68-73 | from the unliked state, the code returns "now liked" but the pair stays unliked and the count does not move, whereas the documented toggle raises the count by one |
| Posts.CreatePost | src/main/java/com/puppies/api/service/PostService.java:34-49 | a null user id is IllegalArgument and an unknown user is NotFound, with nothing saved; otherwise it appends and returns a post with the fresh id, the looked-up author, the trimmed strings and the current time; the store stays valid |
| Posts.CreateKeepsConsistent | src/main/java/com/puppies/api/service/PostService.java:43-48 | saving a post with a fresh id by a stored author keeps the store invariant |
| Posts.GetUserFeed | src/main/java/com/puppies/api/service/PostService.java:50-59 | a null pageable is IllegalArgument; otherwise the page keeps the requested number and size, forces date-descending order, totals all posts, holds at most size posts, is newest first, and holds only stored posts |
| Posts.FeedIsPageOfSorted | src/main/java/com/puppies/api/service/PostService.java:53-58 | whatever order the request asks for, the feed is the requested page of all posts sorted newest first |
| Posts.FeedShowsEveryPost | src/main/java/com/puppies/api/service/PostService.java:53-58 | for any page size and requested order, every stored post appears on some page of the feed, given one fixed date order of the table for all pages |
| Posts.GetPostById | src/main/java/com/puppies/api/service/PostService.java:61-67 | returns the stored post with that id, and NotFound exactly when there is none |
| Posts.CountIsLikers | src/main/java/com/puppies/api/repository/LikeRepository.java:13 | with at most one like per pair, a post's like-row count is the number of users who like it |
| Posts.GetLikeCount | src/main/java/com/puppies/api/service/PostService.java:120-122 | the like count is `countByPostId` for the post, which is the number of distinct users who like it when there is at most one like per pair |
| Posts.MapToPostResponseDTO | src/main/java/com/puppies/api/service/PostService.java:101-118 | the response record copies id, image, text, date, author id and name, and its like count is the number of like rows for the post |
| Posts.GetUserPosts | src/main/java/com/puppies/api/service/PostService.java:85-99 | null user id, then null pageable, is IllegalArgument; otherwise the pageable is kept and the total is the user's post count; the content is, in order, the record of each post on the requested page of the user's posts sorted newest first, so at most size records |
| Posts.UserPostsAreOwnNewestFirst | src/main/java/com/puppies/api/service/PostService.java:90-98 | a page of a user's posts is newest first, and each record is that of a stored post by the user |
| Posts.UserPostsShowEveryPost | src/main/java/com/puppies/api/service/PostService.java:85-99 | for any page size and requested order, every post of a user appears as its record on some page of that user's posts |
| Posts.GetLikedPosts | src/main/java/com/puppies/api/service/PostService.java:69-83 | null user id, then null pageable, is IllegalArgument; otherwise the pageable is kept and the total is the number of liked posts; the content is, in order, the record of each post on the requested page of the liked posts, so at most size records, each of a stored post the user likes |
| Posts.LikedPostsShowEveryLikedPost | src/main/java/com/puppies/api/service/PostService.java:69-83 | for any page size and requested order, every post a user likes appears as its record on some page of that user's liked posts |
| Posts.GroupCountByPostId | src/test/java/com/puppies/api/service/PostServiceTest.java:114-141 | the group count has a positive entry for exactly the post ids that occur in the rows |
| Posts.GroupCountIsCount | src/test/java/com/puppies/api/service/PostServiceTest.java:114-141 | grouping like rows by post id and looking a post up (0 if absent) gives that post's row count |
| Posts.FindByPostIdInKeepsCount | src/test/java/com/puppies/api/service/PostServiceTest.java:114-141 | restricting the ledger to a set of post ids keeps the count of every post in the set |
| Posts.MapToPostResponseDTOsBatched | src/test/java/com/puppies/api/service/PostServiceTest.java:114-141 | the batched mapping gives one record per post of the page |
| Posts.BatchedEqualsPerPost | src/main/java/com/puppies/api/service/PostService.java:101-121 | the batched query and group count give the same records as counting each post separately |
| Properties.RegisteredUserCanSignIn | src/main/java/com/puppies/api/service/UserService.java:110-112 | a user just registered is found by `loadUserByUsername`, and accepted by login when the encoder matches, under any email spelling with the same normal form |
| Properties.ProfileAgreesWithViews | src/main/java/com/puppies/api/service/UserService.java:96-98 | in a valid store, the profile's post count and liked-posts count equal the totals of the user's posts view and liked-posts view |
| Properties.LikeThenUnlike | src/test/java/com/puppies/api/service/LikeServiceIntegrationTest.java:65-88 | liking an unliked post yields liked with count 1; unliking yields count 0 and the original ledger |
| Properties.FeedOfThree | src/test/java/com/puppies/api/service/PostServiceIntegrationTest.java:120-137 | with three posts dated D-2, D-1 and D, page 0 of size 2 is [D, D-1] and page 1 is [D-2]; both report 3 posts over 2 pages |

## Findings

| source | as written | input that shows it | evidently intended | confidence | as-written member | corrected member |
|---|---|---|---|---|---|---|
| src/main/java/com/puppies/api/service/LikeService.java:68-73 | the insert branch builds a `Like`, never saves it, and returns true | `toggleLike(u, p)` for an existing user and post that have no like: it returns true, yet the ledger is unchanged and the post's count stays 0; a second call returns true again instead of false | save the new like, as the doc comment (lines 34-43) and the tests (`LikeServiceTest.java:62-77`, `LikeServiceIntegrationTest.java:65-88`) require | high; not executed | Likes.AsWrittenLikeIsLost | Likes.ToggleLike |

`Likes.ToggleLikeAsWritten` models the method exactly as written. `Likes.AsWrittenLikeIsLost` exhibits the lost like on the ledger function that this method applies. The rest of the model uses the corrected `Likes.ToggleLike`, whose ledger change `Likes.Toggle` is proved to flip the pair, keep pairs unique, move the count by one and restore the ledger after two calls.

## Left out

- Concurrency is not modelled: the `ConcurrentHashMap` fields, `@Transactional`, the non-atomic remove-then-put in login and the check-then-act race in toggle. The model is sequential.
- Logging and the exception messages are left out. Errors are modelled by kind and, for null arguments and not-found, by the argument or entity involved.
- `PasswordEncoder` is an external library. Its `encode` and `matches` are function parameters, so nothing is assumed about them beyond their use.
- Sessions.AuthService.Login: requires the `UUID.randomUUID()` value to be non-blank and not a live token. A colliding UUID would break the inverse maps, and UUIDs are assumed never to collide.
- Users.CreateUser, Posts.CreatePost: the database's identity key is a parameter required to be fresh, and `LocalDateTime.now()` is the `now` parameter.
- Lower-casing is ASCII only. The `Locale.ROOT` case (`UserService.java:48`) and the default-locale case (`AuthService.java:39`, `UserService.java:111`) are the same function here, and non-ASCII letters are not lowered.
- `Long` ids and `long` counts are unbounded integers; 64-bit overflow is not modelled.
- Null strings are not modelled. A null email, name, image URL or text throws `NullPointerException` in `trim()`, and the model's string parameters are never null.
- Posts.GetPostById: takes a non-null id. A null id would make Spring throw before the lookup.
- Posts.MapToPostResponseDTO: the `post == null` and `post.getUser() == null` branches (`PostService.java:102-104`, `113`) are left out. Repository pages hold no null rows, and a post's user column is non-null (`Post.java:28-30`).
- The `Like` entity's own id and creation time are left out. A like row is its (user id, post id) pair.
- Posts.GetLikedPosts: claims no order for its content, because the query has no ORDER BY. A sort carried by the caller's pageable, which Spring would append to the query, is not modelled.
- Posts.GetUserPosts: a sort carried by the caller's pageable is not modelled. Spring would append it after the date order of the method name.
- Repositories.SortByDateDesc: posts with equal dates stay in table order. The code asks for no tie-break.
- Posts.FeedShowsEveryPost, Posts.UserPostsShowEveryPost, Posts.LikedPostsShowEveryLikedPost: assume every page query cuts its page from one and the same order of the table. Each page is a separate offset/limit query, and the source sets no tie-break for equal dates (and no order at all for liked posts). A database free to order ties differently per query could skip a post between pages; the model does not capture that.
- `PageImpl`'s correction of the total for a short last page is left out. The repository's total is already exact, so the correction never applies.
- The user entity, `UserResponseDTO` and the user repository are not part of this model's sources. Their fields are taken from how `UserService.java` uses them.
- `JwtUtil.java` is not modelled: it is signing, Base64 and clock code that the interceptor never calls. The controllers, `GlobalExceptionHandler`, `WebConfig` and the error DTO are not modelled either: they are HTTP routing and status mapping.
