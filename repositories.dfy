/** The three tables and the repository queries the services call, each given
    the meaning its Spring Data method name (or its JPQL text) gives it. */
module Repositories {
  import opened Results
  import opened Entities
  import opened Paging
  import opened Text

  /* ---------- Generic queries over a table ---------- */

  /** The first row satisfying `p`, as a derived `findBy…` query returns it. */
  function FindFirst<T>(s: seq<T>, p: T -> bool): (r: Option<T>)
    ensures r.Some? ==> r.value in s && p(r.value)
    ensures r.None? <==> forall x :: x in s ==> !p(x)
  {
    if s == [] then None
    else if p(s[0]) then Some(s[0])
    else FindFirst(s[1..], p)
  }

  /** The rows satisfying `p`, in table order. */
  function Filter<T>(s: seq<T>, p: T -> bool): (r: seq<T>)
    ensures |r| <= |s|
    ensures forall x :: x in r ==> x in s && p(x)
    ensures forall x :: x in s && p(x) ==> x in r
  {
    if s == [] then []
    else if p(s[0]) then [s[0]] + Filter(s[1..], p)
    else Filter(s[1..], p)
  }

  /* ---------- Users ---------- */

  function UserIds(users: seq<User>): set<Id> {
    set u | u in users :: u.id
  }

  /** `userRepository.findById`. */
  function FindUserById(users: seq<User>, id: Id): (r: Option<User>)
    ensures r.Some? ==> r.value in users && r.value.id == id
    ensures r.None? <==> id !in UserIds(users)
  {
    FindFirst(users, (u: User) => u.id == id)
  }

  /** `userRepository.findByEmail`. */
  function FindUserByEmail(users: seq<User>, email: string): (r: Option<User>)
    ensures r.Some? ==> r.value in users && r.value.email == email
    ensures r.None? <==> forall u :: u in users ==> u.email != email
  {
    FindFirst(users, (u: User) => u.email == email)
  }

  /* ---------- Posts ---------- */

  function PostIds(posts: seq<Post>): set<Id> {
    set p | p in posts :: p.id
  }

  /** `postRepository.findById`. */
  function FindPostById(posts: seq<Post>, id: Id): (r: Option<Post>)
    ensures r.Some? ==> r.value in posts && r.value.id == id
    ensures r.None? <==> id !in PostIds(posts)
  {
    FindFirst(posts, (p: Post) => p.id == id)
  }

  /** The posts whose author is `userId`, in table order. */
  function PostsByUser(posts: seq<Post>, userId: Id): (r: seq<Post>)
    ensures forall p :: p in r <==> p in posts && p.user.id == userId
  {
    Filter(posts, (p: Post) => p.user.id == userId)
  }

  /** `postRepository.countByUserId`. */
  function CountPostsByUserId(posts: seq<Post>, userId: Id): (n: nat)
    ensures n <= |posts|
    ensures n == 0 <==> forall p :: p in posts ==> p.user.id != userId
  {
    var mine := PostsByUser(posts, userId);
    assert mine != [] ==> mine[0] in mine;
    |mine|
  }

  /** The posts joined to a like by `userId`. The JPQL query has no ORDER BY;
      table order stands in for whatever order the database picks. */
  function PostsLikedBy(posts: seq<Post>, likes: seq<Like>, userId: Id): (r: seq<Post>)
    ensures forall p :: p in r <==> p in posts && Like(userId, p.id) in likes
  {
    Filter(posts, (p: Post) => Like(userId, p.id) in likes)
  }

  predicate SortedByDateDesc(s: seq<Post>) {
    forall i, j :: 0 <= i < j < |s| ==> s[i].date >= s[j].date
  }

  function InsertByDate(p: Post, s: seq<Post>): (r: seq<Post>)
    requires SortedByDateDesc(s)
    ensures SortedByDateDesc(r)
    ensures |r| == |s| + 1
    ensures multiset(r) == multiset(s) + multiset{p}
  {
    if s == [] then [p]
    else if s[0].date <= p.date then [p] + s
    else
      var rest := InsertByDate(p, s[1..]);
      InsertBehindHead(p, s, rest);
      [s[0]] + rest
  }

  lemma InsertBehindHead(p: Post, s: seq<Post>, rest: seq<Post>)
    requires s != [] && SortedByDateDesc(s) && s[0].date > p.date
    requires SortedByDateDesc(rest) && multiset(rest) == multiset(s[1..]) + multiset{p}
    ensures SortedByDateDesc([s[0]] + rest)
    ensures multiset([s[0]] + rest) == multiset(s) + multiset{p}
  {
    assert s == [s[0]] + s[1..];
    forall x | x in rest ensures s[0].date >= x.date {
      assert x in multiset(rest);
      if x != p {
        assert x in multiset(s[1..]);
      }
    }
  }

  /** The order a `Sort.by("date").descending()` query returns: newest first,
      the same rows. Ties keep table order; nothing relies on that. */
  function SortByDateDesc(s: seq<Post>): (r: seq<Post>)
    ensures SortedByDateDesc(r)
    ensures |r| == |s|
    ensures multiset(r) == multiset(s)
  {
    if s == [] then []
    else
      assert s == [s[0]] + s[1..];
      InsertByDate(s[0], SortByDateDesc(s[1..]))
  }

  /** A page of a newest-first result is itself newest first and holds only rows of the result. */
  lemma SliceFacts(s: seq<Post>, pr: PageRequest)
    requires SortedByDateDesc(s)
    ensures SortedByDateDesc(Slice(s, pr))
    ensures forall p :: p in Slice(s, pr) ==> p in s
  {
    var r := Slice(s, pr);
    forall i, j | 0 <= i < j < |r| ensures r[i].date >= r[j].date {
      assert r[i] == s[Offset(pr) + i] && r[j] == s[Offset(pr) + j];
    }
    forall p | p in r ensures p in s {
      var i :| 0 <= i < |r| && r[i] == p;
      assert p == s[Offset(pr) + i];
    }
  }

  /** `postRepository.findAll(pageable)` with a date-descending pageable: at
      most a page of stored posts, newest first, counting every post. */
  function FindAllByDateDesc(posts: seq<Post>, pr: PageRequest): (page: Page<Post>)
    ensures page.pageable == pr && page.totalElements == |posts|
    ensures |page.content| <= pr.pageSize
    ensures SortedByDateDesc(page.content)
    ensures forall p :: p in page.content ==> p in posts
  {
    var sorted := SortByDateDesc(posts);
    SliceFacts(sorted, pr);
    assert forall p :: p in sorted ==> p in multiset(sorted);
    PageOf(sorted, pr)
  }

  /** `postRepository.findByUserIdOrderByDateDesc`: at most a page of the
      user's posts, newest first, counting all of them. */
  function FindByUserIdOrderByDateDesc(posts: seq<Post>, userId: Id, pr: PageRequest): (page: Page<Post>)
    ensures page.pageable == pr && page.totalElements == CountPostsByUserId(posts, userId)
    ensures |page.content| <= pr.pageSize
    ensures SortedByDateDesc(page.content)
    ensures forall p :: p in page.content ==> p in posts && p.user.id == userId
  {
    var mine := SortByDateDesc(PostsByUser(posts, userId));
    SliceFacts(mine, pr);
    assert forall p :: p in mine ==> p in multiset(mine);
    PageOf(mine, pr)
  }

  /** `postRepository.findPostsLikedByUser`: at most a page of the posts the
      user likes, counting all of them. */
  function FindPostsLikedByUser(posts: seq<Post>, likes: seq<Like>, userId: Id, pr: PageRequest): (page: Page<Post>)
    ensures page.pageable == pr && page.totalElements == |PostsLikedBy(posts, likes, userId)|
    ensures |page.content| <= pr.pageSize
    ensures forall p :: p in page.content ==> p in posts && HasLike(likes, userId, p.id)
  {
    var liked := PostsLikedBy(posts, likes, userId);
    assert forall p :: p in Slice(liked, pr) ==> p in liked;
    PageOf(liked, pr)
  }

  /* ---------- Likes ---------- */

  /** `likeRepository.findByUserAndPost(...).isPresent()`. */
  predicate HasLike(likes: seq<Like>, userId: Id, postId: Id)
    ensures HasLike(likes, userId, postId) ==> CountByPostId(likes, postId) > 0 && CountByUserId(likes, userId) > 0
  {
    Like(userId, postId) in likes
  }

  /** `likeRepository.countByPostId`: the number of like rows for the post. */
  function CountByPostId(likes: seq<Like>, postId: Id): (n: nat)
    ensures n <= |likes|
    ensures n == 0 <==> forall l :: l in likes ==> l.postId != postId
  {
    if likes == [] then 0
    else
      assert forall l :: l in likes <==> l == likes[0] || l in likes[1..];
      (if likes[0].postId == postId then 1 else 0) + CountByPostId(likes[1..], postId)
  }

  /** `likeRepository.countByUserId`: the number of like rows by the user. */
  function CountByUserId(likes: seq<Like>, userId: Id): (n: nat)
    ensures n <= |likes|
    ensures n == 0 <==> forall l :: l in likes ==> l.userId != userId
  {
    if likes == [] then 0
    else
      assert forall l :: l in likes <==> l == likes[0] || l in likes[1..];
      (if likes[0].userId == userId then 1 else 0) + CountByUserId(likes[1..], userId)
  }

  /** `likeRepository.findByPostIdIn`: the like rows of any of the given posts. */
  function FindByPostIdIn(likes: seq<Like>, postIds: set<Id>): (r: seq<Like>)
    ensures forall l :: l in r <==> l in likes && l.postId in postIds
  {
    Filter(likes, (l: Like) => l.postId in postIds)
  }

  /* ---------- The store and its invariant ---------- */

  predicate UniqueUserIds(users: seq<User>) {
    forall i, j :: 0 <= i < j < |users| ==> users[i].id != users[j].id
  }

  predicate UniqueEmails(users: seq<User>) {
    forall i, j :: 0 <= i < j < |users| ==> users[i].email != users[j].email
  }

  predicate UniquePostIds(posts: seq<Post>) {
    forall i, j :: 0 <= i < j < |posts| ==> posts[i].id != posts[j].id
  }

  /** At most one like row per (user, post) pair. */
  predicate UniqueLikes(likes: seq<Like>) {
    forall i, j :: 0 <= i < j < |likes| ==> likes[i] != likes[j]
  }

  /** What the services keep true of the tables: unique keys, normalised and
      unique emails, at most one like per pair, and no row pointing at a
      user or post that does not exist. */
  predicate Consistent(users: seq<User>, posts: seq<Post>, likes: seq<Like>) {
    && UniqueUserIds(users)
    && UniqueEmails(users)
    && (forall u :: u in users ==> IsNormalizedEmail(u.email))
    && UniquePostIds(posts)
    && (forall p :: p in posts ==> p.user in users)
    && UniqueLikes(likes)
    && (forall l :: l in likes ==> l.userId in UserIds(users) && l.postId in PostIds(posts))
  }

  /** The database behind the repositories: the tables the services read and write. */
  class Store {
    var users: seq<User>
    var posts: seq<Post>
    var likes: seq<Like>

    ghost predicate Valid()
      reads this
    {
      Consistent(users, posts, likes)
    }

    constructor ()
      ensures Valid()
      ensures users == [] && posts == [] && likes == []
    {
      users, posts, likes := [], [], [];
    }
  }
}
