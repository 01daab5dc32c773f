/** LikeService: the like ledger and its toggle. */
module Likes {
  import opened Results
  import opened Entities
  import opened Repositories
  import opened Users

  /** `likeRepository.delete(existingLike)`: the first row equal to `x` goes, nothing else. */
  function RemoveFirst(likes: seq<Like>, x: Like): (r: seq<Like>)
    ensures multiset(r) == multiset(likes) - multiset{x}
  {
    if likes == [] then []
    else
      assert likes == [likes[0]] + likes[1..];
      if likes[0] == x then likes[1..]
      else [likes[0]] + RemoveFirst(likes[1..], x)
  }

  /** The documented effect of a toggle on the ledger: delete the pair's like
      if present, otherwise add one. */
  function Toggle(likes: seq<Like>, userId: Id, postId: Id): (r: seq<Like>)
    ensures HasLike(likes, userId, postId) ==> multiset(r) == multiset(likes) - multiset{Like(userId, postId)}
    ensures !HasLike(likes, userId, postId) ==> multiset(r) == multiset(likes) + multiset{Like(userId, postId)}
  {
    if HasLike(likes, userId, postId) then RemoveFirst(likes, Like(userId, postId))
    else likes + [Like(userId, postId)]
  }

  /** The effect of the toggle as the code is written: the insert branch
      builds the like but never saves it. */
  function ToggleAsWritten(likes: seq<Like>, userId: Id, postId: Id): (r: seq<Like>)
    ensures HasLike(likes, userId, postId) ==> multiset(r) == multiset(likes) - multiset{Like(userId, postId)}
    ensures !HasLike(likes, userId, postId) ==> r == likes
  {
    if HasLike(likes, userId, postId) then RemoveFirst(likes, Like(userId, postId))
    else likes
  }

  lemma {:induction false} RemoveFirstKeepsUnique(likes: seq<Like>, x: Like)
    requires UniqueLikes(likes)
    ensures UniqueLikes(RemoveFirst(likes, x))
    ensures x !in RemoveFirst(likes, x)
  {
    if likes != [] && likes[0] != x {
      var rest := RemoveFirst(likes[1..], x);
      RemoveFirstKeepsUnique(likes[1..], x);
      assert likes[0] !in likes[1..];
      assert likes[0] !in multiset(likes[1..]);
      assert multiset(rest) <= multiset(likes[1..]);
      assert likes[0] !in multiset(rest);
      ConsKeepsUnique(likes[0], rest);
    } else if likes != [] {
      assert x !in likes[1..];
    }
  }

  lemma ConsKeepsUnique(a: Like, s: seq<Like>)
    requires UniqueLikes(s) && a !in s
    ensures UniqueLikes([a] + s)
  {
    var t := [a] + s;
    forall i, j | 0 <= i < j < |t| ensures t[i] != t[j] {
      if i == 0 { assert t[j] == s[j - 1]; } else { assert t[i] == s[i - 1] && t[j] == s[j - 1]; }
    }
  }

  /** Toggling keeps at most one like per (user, post) pair. */
  lemma ToggleKeepsUnique(likes: seq<Like>, userId: Id, postId: Id)
    requires UniqueLikes(likes)
    ensures UniqueLikes(Toggle(likes, userId, postId))
  {
    if HasLike(likes, userId, postId) {
      RemoveFirstKeepsUnique(likes, Like(userId, postId));
    }
  }

  /** Toggling flips whether the pair is liked and leaves every other pair as it was. */
  lemma ToggleFlips(likes: seq<Like>, userId: Id, postId: Id)
    requires UniqueLikes(likes)
    ensures HasLike(Toggle(likes, userId, postId), userId, postId) <==> !HasLike(likes, userId, postId)
    ensures forall l :: l != Like(userId, postId) ==> (l in Toggle(likes, userId, postId) <==> l in likes)
  {
    var r := Toggle(likes, userId, postId);
    if HasLike(likes, userId, postId) {
      RemoveFirstKeepsUnique(likes, Like(userId, postId));
    }
    forall l | l != Like(userId, postId) ensures l in r <==> l in likes {
      assert l in r <==> l in multiset(r);
      assert l in likes <==> l in multiset(likes);
    }
  }

  lemma {:induction false} RemoveFirstOfAppended(likes: seq<Like>, x: Like)
    requires x !in likes
    ensures RemoveFirst(likes + [x], x) == likes
  {
    if likes != [] {
      assert (likes + [x])[1..] == likes[1..] + [x];
      RemoveFirstOfAppended(likes[1..], x);
    }
  }

  /** Toggling twice from the unliked state restores the ledger exactly. */
  lemma ToggleTwiceRestores(likes: seq<Like>, userId: Id, postId: Id)
    requires !HasLike(likes, userId, postId)
    ensures Toggle(Toggle(likes, userId, postId), userId, postId) == likes
  {
    RemoveFirstOfAppended(likes, Like(userId, postId));
  }

  lemma {:induction false} CountAppend(likes: seq<Like>, x: Like, postId: Id)
    ensures CountByPostId(likes + [x], postId) == CountByPostId(likes, postId) + (if x.postId == postId then 1 else 0)
  {
    if likes != [] {
      assert (likes + [x])[1..] == likes[1..] + [x];
      CountAppend(likes[1..], x, postId);
    }
  }

  lemma {:induction false} CountRemoveFirst(likes: seq<Like>, x: Like, postId: Id)
    requires x in likes
    ensures CountByPostId(RemoveFirst(likes, x), postId) + (if x.postId == postId then 1 else 0)
            == CountByPostId(likes, postId)
  {
    if likes[0] != x {
      CountRemoveFirst(likes[1..], x, postId);
      assert ([likes[0]] + RemoveFirst(likes[1..], x))[1..] == RemoveFirst(likes[1..], x);
    }
  }

  /** A like raises the post's like count by one, an unlike lowers it by one;
      other posts' counts do not move. */
  lemma ToggleMovesCount(likes: seq<Like>, userId: Id, postId: Id, other: Id)
    ensures var after := CountByPostId(Toggle(likes, userId, postId), other);
      var before := CountByPostId(likes, other);
      && (other != postId ==> after == before)
      && (other == postId && !HasLike(likes, userId, postId) ==> after == before + 1)
      && (other == postId && HasLike(likes, userId, postId) ==> after + 1 == before)
  {
    if HasLike(likes, userId, postId) {
      CountRemoveFirst(likes, Like(userId, postId), other);
    } else {
      CountAppend(likes, Like(userId, postId), other);
    }
  }

  /** Toggling a pair whose user and post exist keeps the store consistent. */
  lemma ToggleKeepsConsistent(users: seq<User>, posts: seq<Post>, likes: seq<Like>, userId: Id, postId: Id)
    requires Consistent(users, posts, likes)
    requires userId in UserIds(users) && postId in PostIds(posts)
    ensures Consistent(users, posts, Toggle(likes, userId, postId))
  {
    ToggleKeepsUnique(likes, userId, postId);
    ToggleFlips(likes, userId, postId);
  }

  /** `toggleLike` as documented and as its tests expect: null ids are
      refused before any lookup, then a missing user, then a missing post is
      not found, and otherwise the pair's like is deleted (result false) or
      added (result true). */
  method ToggleLike(store: Store, userId: Option<Id>, postId: Option<Id>) returns (r: Result<bool>)
    requires store.Valid()
    modifies store
    ensures store.Valid()
    ensures store.users == old(store.users) && store.posts == old(store.posts)
    ensures userId.None? ==> r == Err(IllegalArgument(UserIdArg))
    ensures userId.Some? && postId.None? ==> r == Err(IllegalArgument(PostIdArg))
    ensures userId.Some? && postId.Some? && userId.value !in UserIds(store.users) ==>
      r == Err(NotFound(UserEntity))
    ensures userId.Some? && postId.Some? && userId.value in UserIds(store.users) && postId.value !in PostIds(store.posts) ==>
      r == Err(NotFound(PostEntity))
    ensures userId.Some? && postId.Some? && userId.value in UserIds(store.users) && postId.value in PostIds(store.posts) ==>
      r.Ok?
    ensures r.Err? ==> store.likes == old(store.likes)
    ensures r.Ok? ==>
      && userId.Some? && postId.Some?
      && r.value == !HasLike(old(store.likes), userId.value, postId.value)
      && store.likes == Toggle(old(store.likes), userId.value, postId.value)
  {
    if userId.None? {
      return Err(IllegalArgument(UserIdArg));
    }
    if postId.None? {
      return Err(IllegalArgument(PostIdArg));
    }
    var user := GetUserById(store.users, userId);
    if user.Err? || user.value.None? {
      return Err(NotFound(UserEntity));
    }
    var post := FindPostById(store.posts, postId.value);
    if post.None? {
      return Err(NotFound(PostEntity));
    }
    var like := Like(user.value.value.id, post.value.id);
    ToggleKeepsConsistent(store.users, store.posts, store.likes, like.userId, like.postId);
    if like in store.likes {
      store.likes := RemoveFirst(store.likes, like);
      r := Ok(false);
    } else {
      store.likes := store.likes + [like];
      r := Ok(true);
    }
  }

  /** `toggleLike` exactly as written: identical checks and delete branch,
      but the insert branch returns true without saving the new like. */
  method ToggleLikeAsWritten(store: Store, userId: Option<Id>, postId: Option<Id>) returns (r: Result<bool>)
    requires store.Valid()
    modifies store
    ensures store.Valid()
    ensures store.users == old(store.users) && store.posts == old(store.posts)
    ensures userId.None? ==> r == Err(IllegalArgument(UserIdArg))
    ensures userId.Some? && postId.None? ==> r == Err(IllegalArgument(PostIdArg))
    ensures userId.Some? && postId.Some? && userId.value !in UserIds(store.users) ==>
      r == Err(NotFound(UserEntity))
    ensures userId.Some? && postId.Some? && userId.value in UserIds(store.users) && postId.value !in PostIds(store.posts) ==>
      r == Err(NotFound(PostEntity))
    ensures userId.Some? && postId.Some? && userId.value in UserIds(store.users) && postId.value in PostIds(store.posts) ==>
      r.Ok?
    ensures r.Err? ==> store.likes == old(store.likes)
    ensures r.Ok? ==>
      && userId.Some? && postId.Some?
      && r.value == !HasLike(old(store.likes), userId.value, postId.value)
      && store.likes == ToggleAsWritten(old(store.likes), userId.value, postId.value)
  {
    if userId.None? {
      return Err(IllegalArgument(UserIdArg));
    }
    if postId.None? {
      return Err(IllegalArgument(PostIdArg));
    }
    var user := GetUserById(store.users, userId);
    if user.Err? || user.value.None? {
      return Err(NotFound(UserEntity));
    }
    var post := FindPostById(store.posts, postId.value);
    if post.None? {
      return Err(NotFound(PostEntity));
    }
    var like := Like(user.value.value.id, post.value.id);
    if like in store.likes {
      ToggleKeepsConsistent(store.users, store.posts, store.likes, like.userId, like.postId);
      store.likes := RemoveFirst(store.likes, like);
      r := Ok(false);
    } else {
      var newLike := Like(user.value.value.id, post.value.id);  // built, never saved
      r := Ok(true);
    }
  }

  /** What the missing save costs: from the unliked state the code reports
      "now liked", yet the pair is still unliked, the post's count has not
      moved, and a second toggle reports "now liked" again instead of false. */
  lemma AsWrittenLikeIsLost(likes: seq<Like>, userId: Id, postId: Id)
    requires !HasLike(likes, userId, postId)
    ensures var after := ToggleAsWritten(likes, userId, postId);
      && !HasLike(after, userId, postId)
      && CountByPostId(after, postId) == CountByPostId(likes, postId)
      && CountByPostId(Toggle(likes, userId, postId), postId) == CountByPostId(likes, postId) + 1
  {
    ToggleMovesCount(likes, userId, postId, postId);
  }
}
