/** PostService: post creation, the feed, the per-user views and the like counts they carry. */
module Posts {
  import opened Results
  import opened Entities
  import opened Text
  import opened Paging
  import opened Repositories
  import opened Users

  /** `createPost`: a null user id is refused by the user lookup, an unknown
      user is not found; otherwise a post by that user, with both strings
      trimmed and the current time as its date, is saved and returned.
      `now` is the clock reading and `newId` the key the database assigns. */
  method CreatePost(store: Store, userId: Option<Id>, imageUrl: string, textContent: string,
                    now: Timestamp, newId: Id) returns (r: Result<Post>)
    requires store.Valid() && newId !in PostIds(store.posts)
    modifies store
    ensures store.Valid()
    ensures store.users == old(store.users) && store.likes == old(store.likes)
    ensures userId.None? ==> r == Err(IllegalArgument(UserIdArg))
    ensures userId.Some? && userId.value !in UserIds(store.users) ==> r == Err(NotFound(UserEntity))
    ensures r.Err? ==> store.posts == old(store.posts)
    ensures userId.Some? && userId.value in UserIds(store.users) ==>
      && r.Ok?
      && r.value.id == newId
      && r.value.user in store.users && r.value.user.id == userId.value
      && r.value.imageUrl == Trim(imageUrl) && r.value.textContent == Trim(textContent)
      && r.value.date == now
      && store.posts == old(store.posts) + [r.value]
  {
    var user := GetUserById(store.users, userId);
    if user.Err? {
      return Err(user.error);
    }
    var trimmedImageUrl := Trim(imageUrl);
    var trimmedTextContent := Trim(textContent);
    if user.value.None? {
      return Err(NotFound(UserEntity));
    }
    var post := Post(newId, trimmedImageUrl, trimmedTextContent, now, user.value.value);
    CreateKeepsConsistent(store.users, store.posts, store.likes, post);
    store.posts := store.posts + [post];
    r := Ok(post);
  }

  lemma CreateKeepsConsistent(users: seq<User>, posts: seq<Post>, likes: seq<Like>, post: Post)
    requires Consistent(users, posts, likes) && post.id !in PostIds(posts) && post.user in users
    ensures Consistent(users, posts + [post], likes)
  {
    var posts' := posts + [post];
    forall i, j | 0 <= i < j < |posts'| ensures posts'[i].id != posts'[j].id {
      if j == |posts| {
        assert posts'[i] in posts;
      }
    }
    assert PostIds(posts) <= PostIds(posts') by {
      forall x | x in PostIds(posts) ensures x in PostIds(posts') {
        var p :| p in posts && p.id == x;
        assert p in posts';
      }
    }
  }

  /** `getUserFeed`: a null pageable is refused; otherwise the requested page
      number and size of all posts, newest first whatever order was asked for,
      with the number of all posts as the total. */
  function GetUserFeed(posts: seq<Post>, pageable: Option<PageRequest>): (r: Result<Page<Post>>)
    ensures pageable.None? <==> r == Err(IllegalArgument(PageableArg))
    ensures pageable.Some? ==>
      && r.Ok?
      && r.value.pageable == PageRequest(pageable.value.pageNumber, pageable.value.pageSize, DateDescending)
      && r.value.totalElements == |posts|
      && |r.value.content| <= pageable.value.pageSize
      && SortedByDateDesc(r.value.content)
      && (forall p :: p in r.value.content ==> p in posts)
  {
    if pageable.None? then Err(IllegalArgument(PageableArg))
    else
      var sortedByDateDesc := PageRequest(pageable.value.pageNumber, pageable.value.pageSize, DateDescending);
      Ok(FindAllByDateDesc(posts, sortedByDateDesc))
  }

  /** Every post appears on some page of the feed, whatever the page size and
      the requested order, provided every page is cut from one and the same
      date order of the table. */
  lemma FeedShowsEveryPost(posts: seq<Post>, post: Post, size: PageSize, sort: Sort)
    requires post in posts
    ensures exists n: nat :: post in GetUserFeed(posts, Some(PageRequest(n, size, sort))).value.content
  {
    var sorted := SortByDateDesc(posts);
    assert post in multiset(sorted);
    var k :| 0 <= k < |sorted| && sorted[k] == post;
    var n := k / size;
    OnPageOfItsPosition(sorted, size, k);
    FeedIsPageOfSorted(posts, n, size, sort);
    assert post in GetUserFeed(posts, Some(PageRequest(n, size, sort))).value.content;
  }

  lemma OnPageOfItsPosition(sorted: seq<Post>, size: PageSize, k: nat)
    requires k < |sorted|
    ensures sorted[k] in PageOf(sorted, PageRequest(k / size, size, DateDescending)).content
  {
    ElementOnItsPage(sorted, size, k, DateDescending);
  }

  lemma FeedIsPageOfSorted(posts: seq<Post>, n: nat, size: PageSize, sort: Sort)
    ensures GetUserFeed(posts, Some(PageRequest(n, size, sort)))
         == Ok(PageOf(SortByDateDesc(posts), PageRequest(n, size, DateDescending)))
  {
  }

  /** `getPostById`: the stored post with that id, or NotFound. */
  function GetPostById(posts: seq<Post>, id: Id): (r: Result<Post>)
    ensures r.Ok? ==> r.value in posts && r.value.id == id
    ensures r.Err? <==> id !in PostIds(posts)
    ensures r.Err? ==> r.error == NotFound(PostEntity)
  {
    match FindPostById(posts, id)
    case None => Err(NotFound(PostEntity))
    case Some(post) => Ok(post)
  }

  /** The users who like a post. */
  function Likers(likes: seq<Like>, postId: Id): set<Id> {
    set l | l in likes && l.postId == postId :: l.userId
  }

  lemma {:induction false} CountIsLikers(likes: seq<Like>, postId: Id)
    requires UniqueLikes(likes)
    ensures CountByPostId(likes, postId) == |Likers(likes, postId)|
  {
    if likes != [] {
      var rest := likes[1..];
      assert UniqueLikes(rest);
      CountIsLikers(rest, postId);
      assert likes == [likes[0]] + rest;
      if likes[0].postId == postId {
        assert Likers(likes, postId) == Likers(rest, postId) + {likes[0].userId};
        assert likes[0] !in rest by {
          forall j | 0 <= j < |rest| ensures rest[j] != likes[0] {
            assert rest[j] == likes[j + 1];
          }
        }
        assert likes[0].userId !in Likers(rest, postId);
      } else {
        assert Likers(likes, postId) == Likers(rest, postId);
      }
    }
  }

  /** `getLikeCount`: the number of like rows for the post, which, with at
      most one like per pair, is the number of users who like it. */
  function GetLikeCount(likes: seq<Like>, post: Post): (n: nat)
    ensures n == CountByPostId(likes, post.id)
    ensures UniqueLikes(likes) ==> n == |Likers(likes, post.id)|
  {
    CountIsLikersWhenUnique(likes, post.id);
    CountByPostId(likes, post.id)
  }

  lemma CountIsLikersWhenUnique(likes: seq<Like>, postId: Id)
    ensures UniqueLikes(likes) ==> CountByPostId(likes, postId) == |Likers(likes, postId)|
  {
    if UniqueLikes(likes) {
      CountIsLikers(likes, postId);
    }
  }

  /** The response record for a post with a given like count. */
  function ToResponse(post: Post, likeCount: nat): (d: PostResponseDTO)
    ensures d.id == post.id && d.imageUrl == post.imageUrl && d.textContent == post.textContent
    ensures d.date == post.date && d.userId == post.user.id && d.userName == post.user.name
    ensures d.likeCount == likeCount
  {
    PostResponseDTO(post.id, post.imageUrl, post.textContent, post.date, post.user.id, post.user.name, likeCount)
  }

  /** `mapToPostResponseDTO`: the post's fields, its author's id and name, and its live like count. */
  function MapToPostResponseDTO(likes: seq<Like>, post: Post): (d: PostResponseDTO)
    ensures d.id == post.id && d.imageUrl == post.imageUrl && d.textContent == post.textContent
    ensures d.date == post.date && d.userId == post.user.id && d.userName == post.user.name
    ensures d.likeCount == CountByPostId(likes, post.id)
  {
    ToResponse(post, GetLikeCount(likes, post))
  }

  /** `getUserPosts`: null arguments are refused; otherwise the page of the
      user's posts, newest first, each mapped to its response record, with the
      pageable and total of the repository page. */
  function GetUserPosts(posts: seq<Post>, likes: seq<Like>, userId: Option<Id>, pageable: Option<PageRequest>)
    : (r: Result<Page<PostResponseDTO>>)
    ensures userId.None? ==> r == Err(IllegalArgument(UserIdArg))
    ensures userId.Some? && pageable.None? ==> r == Err(IllegalArgument(PageableArg))
    ensures userId.Some? && pageable.Some? ==>
      && r.Ok?
      && r.value.pageable == pageable.value
      && r.value.totalElements == CountPostsByUserId(posts, userId.value)
      && |r.value.content| <= pageable.value.pageSize
      && var mine := Slice(SortByDateDesc(PostsByUser(posts, userId.value)), pageable.value);
         && |r.value.content| == |mine|
         && (forall i :: 0 <= i < |mine| ==> r.value.content[i] == MapToPostResponseDTO(likes, mine[i]))
  {
    if userId.None? then Err(IllegalArgument(UserIdArg))
    else if pageable.None? then Err(IllegalArgument(PageableArg))
    else
      var page := FindByUserIdOrderByDateDesc(posts, userId.value, pageable.value);
      Ok(MapPage(page, (p: Post) => MapToPostResponseDTO(likes, p)))
  }

  /** A page of a user's posts is newest first, and each record is that of a
      stored post by the user. */
  lemma UserPostsAreOwnNewestFirst(posts: seq<Post>, likes: seq<Like>, userId: Id, pr: PageRequest)
    ensures var content := GetUserPosts(posts, likes, Some(userId), Some(pr)).value.content;
      && (forall i, j :: 0 <= i < j < |content| ==> content[i].date >= content[j].date)
      && (forall d :: d in content ==>
            d.userId == userId && exists p :: p in posts && d == MapToPostResponseDTO(likes, p))
  {
    var page := FindByUserIdOrderByDateDesc(posts, userId, pr);
    var content := GetUserPosts(posts, likes, Some(userId), Some(pr)).value.content;
    assert forall i :: 0 <= i < |content| ==> content[i] == MapToPostResponseDTO(likes, page.content[i]);
    forall d | d in content
      ensures d.userId == userId && exists p :: p in posts && d == MapToPostResponseDTO(likes, p)
    {
      var i :| 0 <= i < |content| && content[i] == d;
      assert page.content[i] in page.content;
    }
  }

  /** `getLikedPosts`: null arguments are refused; otherwise the page of the
      posts the user likes (in no promised order), each mapped to its
      response record, with the pageable and total of the repository page. */
  function GetLikedPosts(posts: seq<Post>, likes: seq<Like>, userId: Option<Id>, pageable: Option<PageRequest>)
    : (r: Result<Page<PostResponseDTO>>)
    ensures userId.None? ==> r == Err(IllegalArgument(UserIdArg))
    ensures userId.Some? && pageable.None? ==> r == Err(IllegalArgument(PageableArg))
    ensures userId.Some? && pageable.Some? ==>
      && r.Ok?
      && r.value.pageable == pageable.value
      && r.value.totalElements == |PostsLikedBy(posts, likes, userId.value)|
      && |r.value.content| <= pageable.value.pageSize
      && (forall d :: d in r.value.content ==>
            HasLike(likes, userId.value, d.id) && exists p :: p in posts && d == MapToPostResponseDTO(likes, p))
      && var liked := Slice(PostsLikedBy(posts, likes, userId.value), pageable.value);
         && |r.value.content| == |liked|
         && (forall i :: 0 <= i < |liked| ==> r.value.content[i] == MapToPostResponseDTO(likes, liked[i]))
  {
    if userId.None? then Err(IllegalArgument(UserIdArg))
    else if pageable.None? then Err(IllegalArgument(PageableArg))
    else
      var page := FindPostsLikedByUser(posts, likes, userId.value, pageable.value);
      var r := MapPage(page, (p: Post) => MapToPostResponseDTO(likes, p));
      forall d | d in r.content
        ensures HasLike(likes, userId.value, d.id) && exists p :: p in posts && d == MapToPostResponseDTO(likes, p)
      {
        var i :| 0 <= i < |r.content| && r.content[i] == d;
        assert page.content[i] in PostsLikedBy(posts, likes, userId.value);
      }
      Ok(r)
  }

  /** Every post of a user appears, as its response record, on some page of
      that user's posts, whatever the page size and the requested order. */
  lemma UserPostsShowEveryPost(posts: seq<Post>, likes: seq<Like>, post: Post, size: PageSize, sort: Sort)
    requires post in posts
    ensures exists n: nat ::
      MapToPostResponseDTO(likes, post) in GetUserPosts(posts, likes, Some(post.user.id), Some(PageRequest(n, size, sort))).value.content
  {
    var k := PositionInSorted(PostsByUser(posts, post.user.id), post);
    var pr := PageHolding(k, size, sort);
    UserPostAtPosition(posts, likes, post.user.id, pr, k);
  }

  /** The post at position `k` of a user's posts, newest first, is on the page that spans `k`. */
  lemma UserPostAtPosition(posts: seq<Post>, likes: seq<Like>, userId: Id, pr: PageRequest, k: nat)
    requires Offset(pr) <= k < Offset(pr) + pr.pageSize
    requires k < |SortByDateDesc(PostsByUser(posts, userId))|
    ensures MapToPostResponseDTO(likes, SortByDateDesc(PostsByUser(posts, userId))[k])
      in GetUserPosts(posts, likes, Some(userId), Some(pr)).value.content
  {
    var content := GetUserPosts(posts, likes, Some(userId), Some(pr)).value.content;
    RecordOnItsPage(SortByDateDesc(PostsByUser(posts, userId)), likes, pr, k, content);
  }

  /** The page of size `size` that spans position `k`: page `k div size`. */
  lemma PageHolding(k: nat, size: PageSize, sort: Sort) returns (pr: PageRequest)
    ensures pr == PageRequest(k / size, size, sort)
    ensures Offset(pr) <= k < Offset(pr) + size
  {
    pr := PageRequest(k / size, size, sort);
    DivBounds(k, size);
  }

  /** Content that maps a page record by record holds the record of every
      element of the result the page spans. */
  lemma RecordOnItsPage(s: seq<Post>, likes: seq<Like>, pr: PageRequest, k: nat, content: seq<PostResponseDTO>)
    requires Offset(pr) <= k < Offset(pr) + pr.pageSize && k < |s|
    requires |content| == |Slice(s, pr)|
    requires forall i :: 0 <= i < |Slice(s, pr)| ==> content[i] == MapToPostResponseDTO(likes, Slice(s, pr)[i])
    ensures MapToPostResponseDTO(likes, s[k]) in content
  {
    assert content[k - Offset(pr)] == MapToPostResponseDTO(likes, s[k]);
  }

  /** A row of a table sits at some position of the table sorted by date. */
  lemma PositionInSorted(s: seq<Post>, post: Post) returns (k: nat)
    requires post in s
    ensures k < |SortByDateDesc(s)| && SortByDateDesc(s)[k] == post
  {
    var sorted := SortByDateDesc(s);
    assert post in multiset(sorted);
    k :| 0 <= k < |sorted| && sorted[k] == post;
  }

  /** Every post a user likes appears, as its response record, on some page
      of that user's liked posts, whatever the page size and the requested order. */
  lemma LikedPostsShowEveryLikedPost(posts: seq<Post>, likes: seq<Like>, userId: Id, post: Post, size: PageSize, sort: Sort)
    requires post in posts && HasLike(likes, userId, post.id)
    ensures exists n: nat ::
      MapToPostResponseDTO(likes, post) in GetLikedPosts(posts, likes, Some(userId), Some(PageRequest(n, size, sort))).value.content
  {
    var liked := PostsLikedBy(posts, likes, userId);
    var k :| 0 <= k < |liked| && liked[k] == post;
    var pr := PageHolding(k, size, sort);
    var content := GetLikedPosts(posts, likes, Some(userId), Some(pr)).value.content;
    RecordOnItsPage(liked, likes, pr, k, content);
  }

  /* ---------- Batched like counts ---------- */

  /** `getOrDefault(postId, 0L)` on a grouped count. */
  function CountOrZero(counts: map<Id, nat>, postId: Id): nat {
    if postId in counts then counts[postId] else 0
  }

  /** `groupingBy(like -> like.getPost().getId(), counting())`: for each post
      id, how many of the rows carry it. */
  function GroupCountByPostId(rows: seq<Like>): (counts: map<Id, nat>)
    ensures forall postId :: postId in counts ==> counts[postId] > 0
    ensures forall l :: l in rows ==> l.postId in counts
    ensures forall postId :: postId in counts ==> exists l :: l in rows && l.postId == postId
  {
    if rows == [] then map[]
    else
      assert forall l :: l in rows <==> l == rows[0] || l in rows[1..];
      var counts := GroupCountByPostId(rows[1..]);
      counts[rows[0].postId := CountOrZero(counts, rows[0].postId) + 1]
  }

  /** Grouping then looking up gives the per-post count. */
  lemma {:induction false} GroupCountIsCount(rows: seq<Like>, postId: Id)
    ensures CountOrZero(GroupCountByPostId(rows), postId) == CountByPostId(rows, postId)
  {
    if rows != [] {
      GroupCountIsCount(rows[1..], postId);
    }
  }

  /** Restricting the rows to a set of post ids keeps the count of every post in the set. */
  lemma {:induction false} FindByPostIdInKeepsCount(likes: seq<Like>, postIds: set<Id>, postId: Id)
    requires postId in postIds
    ensures CountByPostId(FindByPostIdIn(likes, postIds), postId) == CountByPostId(likes, postId)
  {
    if likes != [] {
      FindByPostIdInKeepsCount(likes[1..], postIds, postId);
    }
  }

  /** The batched mapping the unit tests expect: one `findByPostIdIn` query for
      the page's post ids, an in-memory group count, and zero for a post
      without likes. */
  function MapToPostResponseDTOsBatched(likes: seq<Like>, posts: seq<Post>): (r: seq<PostResponseDTO>)
    ensures |r| == |posts|
  {
    var counts := GroupCountByPostId(FindByPostIdIn(likes, PostIds(posts)));
    seq(|posts|, i requires 0 <= i < |posts| => ToResponse(posts[i], CountOrZero(counts, posts[i].id)))
  }

  /** The batched mapping and the per-post mapping the code uses give the same records. */
  lemma BatchedEqualsPerPost(likes: seq<Like>, posts: seq<Post>)
    ensures MapToPostResponseDTOsBatched(likes, posts) == seq(|posts|, i requires 0 <= i < |posts| => MapToPostResponseDTO(likes, posts[i]))
  {
    var ids := PostIds(posts);
    var counts := GroupCountByPostId(FindByPostIdIn(likes, ids));
    forall i | 0 <= i < |posts|
      ensures CountOrZero(counts, posts[i].id) == CountByPostId(likes, posts[i].id)
    {
      GroupCountIsCount(FindByPostIdIn(likes, ids), posts[i].id);
      FindByPostIdInKeepsCount(likes, ids, posts[i].id);
    }
  }
}
