/** The persisted entities and the response records built from them. */
module Entities {

  /** A `Long` primary key; the 64-bit bound is not modelled. */
  type Id = int

  /** A `LocalDateTime`, abstracted to a totally ordered instant. */
  type Timestamp = int

  /** A row of the users table; `password` holds the encoder's output. */
  datatype User = User(id: Id, name: string, email: string, password: string)

  /** A row of the posts table; `user` is the author, never null. */
  datatype Post = Post(id: Id, imageUrl: string, textContent: string, date: Timestamp, user: User)

  /** A row of the likes table: which user likes which post. */
  datatype Like = Like(userId: Id, postId: Id)

  /** What the post views return for each post: its fields, its author and its like count. */
  datatype PostResponseDTO = PostResponseDTO(
    id: Id, imageUrl: string, textContent: string, date: Timestamp,
    userId: Id, userName: string, likeCount: nat)

  /** A user's profile with the number of posts written and of likes given. */
  datatype UserResponseDTO = UserResponseDTO(
    id: Id, name: string, email: string, postCount: nat, likedPostsCount: nat)
}
