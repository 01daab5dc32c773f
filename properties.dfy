/** Properties that tie several services together, and the test scenarios:
    a like then an unlike, a paged feed, and a session walk-through. */
module Properties {
  import opened Results
  import opened Entities
  import opened Text
  import opened Paging
  import opened Repositories
  import opened Sessions
  import opened Users
  import opened Likes
  import opened Posts
  import opened Interceptor

  /* ---------- Registration and sign-in ---------- */

  /** A user just registered is found by `loadUserByUsername` and accepted by
      `login` under any spelling of the email that normalises to the same
      form, provided the encoder accepts the plain password against its own
      encoding. */
  lemma {:induction false} RegisteredUserCanSignIn(users: seq<User>, name: string, email: string, password: string,
                                                   encode: string -> string, matches: (string, string) -> bool,
                                                   id: Id, typed: string)
    requires UniqueEmails(users) && forall u :: u in users ==> IsNormalizedEmail(u.email)
    requires Register(users, name, email, password, encode, id).0.Ok?
    requires NormalizeEmail(typed) == NormalizeEmail(email)
    ensures var (r, users') := Register(users, name, email, password, encode, id);
      && LoadUserByUsername(users', typed) == Ok(r.value)
      && (matches(password, encode(password)) ==> Authenticate(users', typed, password, matches) == Ok(r.value))
  {
    var (r, users') := Register(users, name, email, password, encode, id);
    var e := NormalizeEmail(email);
    FirstWithEmailIsLast(users, r.value, e);
  }

  lemma {:induction false} FirstWithEmailIsLast(users: seq<User>, user: User, email: string)
    requires forall u :: u in users ==> u.email != email
    requires user.email == email
    ensures FindUserByEmail(users + [user], email) == Some(user)
  {
    if users != [] {
      assert (users + [user])[1..] == users[1..] + [user];
      FirstWithEmailIsLast(users[1..], user, email);
    }
  }

  /* ---------- Profile counts agree with the paged views ---------- */

  /** The ids of the posts a user likes, read off the ledger. */
  function LikedPostIds(likes: seq<Like>, userId: Id): set<Id> {
    set l | l in likes && l.userId == userId :: l.postId
  }

  lemma {:induction false} LikeRowsAreLikedPosts(likes: seq<Like>, userId: Id)
    requires UniqueLikes(likes)
    ensures CountByUserId(likes, userId) == |LikedPostIds(likes, userId)|
  {
    if likes != [] {
      var rest := likes[1..];
      assert UniqueLikes(rest);
      LikeRowsAreLikedPosts(rest, userId);
      assert likes == [likes[0]] + rest;
      if likes[0].userId == userId {
        assert LikedPostIds(likes, userId) == LikedPostIds(rest, userId) + {likes[0].postId};
        assert likes[0] !in rest by {
          forall j | 0 <= j < |rest| ensures rest[j] != likes[0] {
            assert rest[j] == likes[j + 1];
          }
        }
        assert likes[0].postId !in LikedPostIds(rest, userId);
      } else {
        assert LikedPostIds(likes, userId) == LikedPostIds(rest, userId);
      }
    }
  }

  /** The ids of the posts `findPostsLikedByUser` joins. */
  function JoinedPostIds(posts: seq<Post>, likes: seq<Like>, userId: Id): set<Id> {
    set p | p in posts && Like(userId, p.id) in likes :: p.id
  }

  lemma {:induction false} JoinRowsAreJoinedPosts(posts: seq<Post>, likes: seq<Like>, userId: Id)
    requires UniquePostIds(posts)
    ensures |PostsLikedBy(posts, likes, userId)| == |JoinedPostIds(posts, likes, userId)|
  {
    if posts != [] {
      var rest := posts[1..];
      assert UniquePostIds(rest);
      JoinRowsAreJoinedPosts(rest, likes, userId);
      assert posts == [posts[0]] + rest;
      if Like(userId, posts[0].id) in likes {
        assert JoinedPostIds(posts, likes, userId) == JoinedPostIds(rest, likes, userId) + {posts[0].id};
        assert posts[0].id !in JoinedPostIds(rest, likes, userId) by {
          forall j | 0 <= j < |rest| ensures rest[j].id != posts[0].id {
            assert rest[j] == posts[j + 1];
          }
        }
      } else {
        assert JoinedPostIds(posts, likes, userId) == JoinedPostIds(rest, likes, userId);
      }
    }
  }

  /** In a consistent store the profile's counts are the totals of the
      user's two paged views: posts written, and posts liked. */
  lemma ProfileAgreesWithViews(users: seq<User>, posts: seq<Post>, likes: seq<Like>, userId: Id, pr: PageRequest)
    requires Consistent(users, posts, likes) && userId in UserIds(users)
    ensures var profile := GetUserProfile(users, posts, likes, Some(userId)).value;
      && profile.postCount == GetUserPosts(posts, likes, Some(userId), Some(pr)).value.totalElements
      && profile.likedPostsCount == GetLikedPosts(posts, likes, Some(userId), Some(pr)).value.totalElements
  {
    LikeRowsAreLikedPosts(likes, userId);
    JoinRowsAreJoinedPosts(posts, likes, userId);
    assert LikedPostIds(likes, userId) == JoinedPostIds(posts, likes, userId) by {
      forall x | x in LikedPostIds(likes, userId) ensures x in JoinedPostIds(posts, likes, userId) {
        var l :| l in likes && l.userId == userId && l.postId == x;
        assert x in PostIds(posts);
        var p :| p in posts && p.id == x;
        assert l == Like(userId, p.id);
      }
    }
  }

  /* ---------- A like, then an unlike ---------- */

  /** A user likes a post nobody liked: the toggle reports "now liked" and
      the post's count is 1; toggling again reports "now unliked", the count
      is back to 0 and the ledger is as it was. */
  lemma LikeThenUnlike(users: seq<User>, posts: seq<Post>, likes: seq<Like>, userId: Id, postId: Id)
    requires Consistent(users, posts, likes)
    requires userId in UserIds(users) && postId in PostIds(posts)
    requires CountByPostId(likes, postId) == 0
    ensures !HasLike(likes, userId, postId)
    ensures var once := Toggle(likes, userId, postId);
      && HasLike(once, userId, postId)
      && CountByPostId(once, postId) == 1
      && Toggle(once, userId, postId) == likes
      && CountByPostId(Toggle(once, userId, postId), postId) == 0
  {
    if HasLike(likes, userId, postId) {
      CountPositive(likes, Like(userId, postId));
    }
    var once := Toggle(likes, userId, postId);
    ToggleMovesCount(likes, userId, postId, postId);
    ToggleFlips(likes, userId, postId);
    ToggleTwiceRestores(likes, userId, postId);
  }

  lemma {:induction false} CountPositive(likes: seq<Like>, x: Like)
    requires x in likes
    ensures CountByPostId(likes, x.postId) > 0
  {
    if likes[0] != x {
      CountPositive(likes[1..], x);
    }
  }

  /* ---------- A paged feed ---------- */

  /** Three posts dated D-2, D-1 and D: page 0 of size 2 holds the D and D-1
      posts in that order, page 1 holds the D-2 post alone, and both pages
      report three posts over two pages. */
  lemma FeedOfThree(author: User, d: Timestamp)
    ensures var oldest := Post(1, "a.png", "", d - 2, author);
      var middle := Post(2, "b.png", "", d - 1, author);
      var newest := Post(3, "c.png", "", d, author);
      var posts := [oldest, middle, newest];
      var first := GetUserFeed(posts, Some(PageRequest(0, 2, Unsorted))).value;
      var second := GetUserFeed(posts, Some(PageRequest(1, 2, Unsorted))).value;
      && first.content == [newest, middle]
      && second.content == [oldest]
      && first.totalElements == 3 && second.totalElements == 3
      && TotalPages(first) == 2 && TotalPages(second) == 2
  {
    var oldest := Post(1, "a.png", "", d - 2, author);
    var middle := Post(2, "b.png", "", d - 1, author);
    var newest := Post(3, "c.png", "", d, author);
    var posts := [oldest, middle, newest];
    var sorted := [newest, middle, oldest];
    SortThree(oldest, middle, newest);
    FeedIsPageOfSorted(posts, 0, 2, Unsorted);
    FeedIsPageOfSorted(posts, 1, 2, Unsorted);
    SlicesOfThree(sorted);
  }

  lemma SortThree(oldest: Post, middle: Post, newest: Post)
    requires oldest.date < middle.date < newest.date
    ensures SortByDateDesc([oldest, middle, newest]) == [newest, middle, oldest]
  {
    assert [oldest, middle, newest][1..] == [middle, newest];
    assert [middle, newest][1..] == [newest];
    assert SortByDateDesc([newest]) == [newest];
    assert SortByDateDesc([middle, newest]) == [newest, middle];
  }

  lemma SlicesOfThree<T>(s: seq<T>)
    requires |s| == 3
    ensures Slice(s, PageRequest(0, 2, DateDescending)) == s[..2]
    ensures Slice(s, PageRequest(1, 2, DateDescending)) == s[2..]
  {
  }

  /* ---------- A session walk-through ---------- */

  /** Logging in twice and then out, through the token store and the
      interceptor: each login's token gets requests through, the first
      token stops working at the second login, and the second at logout. */
  method SessionWalkthrough(auth: AuthService, users: seq<User>, email: string, password: string,
                            matches: (string, string) -> bool, t1: string, t2: string)
    requires auth.Valid()
    requires Authenticate(users, email, password, matches).Ok?
    requires t1 != t2 && !IsBlank(t1) && !IsBlank(t2)
    requires t1 !in auth.activeTokens && t2 !in auth.activeTokens
    modifies auth
  {
    var userId := Authenticate(users, email, password, matches).value.id;
    var r1 := auth.Login(users, email, password, matches, t1);
    assert r1 == Ok(t1);
    IssuedTokenPasses(auth, "GET", t1);
    assert PreHandle(auth, "GET", Some(BearerPrefix + t1)) == Proceed(Some(userId));

    var r2 := auth.Login(users, email, password, matches, t2);
    assert r2 == Ok(t2);
    assert t1 !in auth.activeTokens;
    assert StartsWith(BearerPrefix + t1, BearerPrefix);
    assert PreHandle(auth, "GET", Some(BearerPrefix + t1)) == Reject(Unauthorized, InvalidToken);
    IssuedTokenPasses(auth, "GET", t2);
    assert PreHandle(auth, "GET", Some(BearerPrefix + t2)) == Proceed(Some(userId));

    auth.Logout(Some(t2));
    assert StartsWith(BearerPrefix + t2, BearerPrefix);
    assert PreHandle(auth, "GET", Some(BearerPrefix + t2)) == Reject(Unauthorized, InvalidToken);
    assert PreHandle(auth, "OPTIONS", None) == Proceed(None);
  }
}
