/** UserService: registration, lookup by id or email, and the profile counts. */
module Users {
  import opened Results
  import opened Entities
  import opened Text
  import opened Repositories

  /** What `createUser` does to the users table: refuse an email already
      stored in normal form, otherwise append a user whose name is trimmed,
      whose email is normalised and whose password is the encoder's output. */
  function Register(users: seq<User>, name: string, email: string, password: string,
                    encode: string -> string, id: Id): (r: (Result<User>, seq<User>))
    ensures FindUserByEmail(users, NormalizeEmail(email)).Some? ==> r == (Err(AlreadyExists), users)
    ensures FindUserByEmail(users, NormalizeEmail(email)).None? ==>
      && r.0.Ok? && r.1 == users + [r.0.value]
      && r.0.value.id == id
      && r.0.value.name == Trim(name)
      && r.0.value.email == NormalizeEmail(email) && IsNormalizedEmail(r.0.value.email)
      && r.0.value.password == encode(password)
  {
    var normalizedEmail := NormalizeEmail(email);
    var trimmedName := Trim(name);
    if FindUserByEmail(users, normalizedEmail).Some? then (Err(AlreadyExists), users)
    else
      NormalizeEmailIdempotent(email);
      var user := User(id, trimmedName, normalizedEmail, encode(password));
      (Ok(user), users + [user])
  }

  /** Registration keeps emails unique and in normal form. */
  lemma RegisterKeepsEmailsUnique(users: seq<User>, name: string, email: string, password: string,
                                  encode: string -> string, id: Id)
    requires UniqueEmails(users) && forall u :: u in users ==> IsNormalizedEmail(u.email)
    ensures var users' := Register(users, name, email, password, encode, id).1;
      UniqueEmails(users') && forall u :: u in users' ==> IsNormalizedEmail(u.email)
  {
    var users' := Register(users, name, email, password, encode, id).1;
    if users' != users {
      forall i, j | 0 <= i < j < |users'| ensures users'[i].email != users'[j].email {
        if j == |users| {
          assert users'[i] in users;
        }
      }
    }
  }

  /** Registration with a fresh id keeps the whole store consistent. */
  lemma RegisterKeepsConsistent(users: seq<User>, posts: seq<Post>, likes: seq<Like>,
                                name: string, email: string, password: string,
                                encode: string -> string, id: Id)
    requires Consistent(users, posts, likes) && id !in UserIds(users)
    ensures Consistent(Register(users, name, email, password, encode, id).1, posts, likes)
  {
    RegisterKeepsEmailsUnique(users, name, email, password, encode, id);
    var users' := Register(users, name, email, password, encode, id).1;
    if users' != users {
      forall i, j | 0 <= i < j < |users'| ensures users'[i].id != users'[j].id {
        if j == |users| {
          assert users'[i] in users;
        }
      }
      assert UserIds(users) <= UserIds(users') by {
        forall x | x in UserIds(users) ensures x in UserIds(users') {
          var u :| u in users && u.id == x;
          assert u in users';
        }
      }
    }
  }

  /** One registration request: the arguments of a `createUser` call and the id the database assigns. */
  datatype Registration = Registration(name: string, email: string, password: string, id: Id)

  /** The users table after a sequence of `createUser` calls. */
  function RegisterAll(users: seq<User>, requests: seq<Registration>, encode: string -> string): seq<User>
    decreases |requests|
  {
    if requests == [] then users
    else
      var q := requests[0];
      RegisterAll(Register(users, q.name, q.email, q.password, encode, q.id).1, requests[1..], encode)
  }

  /** No two stored users share an email after any sequence of registrations. */
  lemma {:induction false} RegisterAllKeepsEmailsUnique(users: seq<User>, requests: seq<Registration>,
                                                        encode: string -> string)
    requires UniqueEmails(users) && forall u :: u in users ==> IsNormalizedEmail(u.email)
    ensures var users' := RegisterAll(users, requests, encode);
      UniqueEmails(users') && forall u :: u in users' ==> IsNormalizedEmail(u.email)
    decreases |requests|
  {
    if requests != [] {
      var q := requests[0];
      RegisterKeepsEmailsUnique(users, q.name, q.email, q.password, encode, q.id);
      RegisterAllKeepsEmailsUnique(Register(users, q.name, q.email, q.password, encode, q.id).1,
                                   requests[1..], encode);
    }
  }

  /** `createUser`. `newId` is the key the database's identity column assigns. */
  method CreateUser(store: Store, name: string, email: string, password: string,
                    encode: string -> string, newId: Id) returns (r: Result<User>)
    requires store.Valid() && newId !in UserIds(store.users)
    modifies store
    ensures store.Valid()
    ensures (r, store.users) == Register(old(store.users), name, email, password, encode, newId)
    ensures store.posts == old(store.posts) && store.likes == old(store.likes)
  {
    var normalizedEmail := NormalizeEmail(email);
    var trimmedName := Trim(name);
    if FindUserByEmail(store.users, normalizedEmail).Some? {
      return Err(AlreadyExists);
    }
    RegisterKeepsConsistent(store.users, store.posts, store.likes, name, email, password, encode, newId);
    var user := User(newId, trimmedName, normalizedEmail, encode(password));
    store.users := store.users + [user];
    r := Ok(user);
  }

  /** `getUserById`: a null id is refused; otherwise the stored user with that id, if any. */
  function GetUserById(users: seq<User>, id: Option<Id>): (r: Result<Option<User>>)
    ensures id.None? <==> r == Err(IllegalArgument(UserIdArg))
    ensures r.Ok? ==> (r.value.Some? <==> id.value in UserIds(users))
    ensures r.Ok? && r.value.Some? ==> r.value.value in users && r.value.value.id == id.value
  {
    if id.None? then Err(IllegalArgument(UserIdArg))
    else Ok(FindUserById(users, id.value))
  }

  /** `getUserProfile`: a null id is refused, an unknown id is not found,
      otherwise the user's fields with the number of posts they wrote and
      of like rows they own. */
  function GetUserProfile(users: seq<User>, posts: seq<Post>, likes: seq<Like>, userId: Option<Id>): (r: Result<UserResponseDTO>)
    ensures userId.None? ==> r == Err(IllegalArgument(UserIdArg))
    ensures userId.Some? && userId.value !in UserIds(users) ==> r == Err(NotFound(UserEntity))
    ensures userId.Some? && userId.value in UserIds(users) ==> r.Ok?
    ensures r.Ok? ==>
      && userId.Some?
      && exists u :: u in users && u.id == userId.value &&
           r.value == UserResponseDTO(u.id, u.name, u.email,
                                      CountPostsByUserId(posts, userId.value), CountByUserId(likes, userId.value))
  {
    if userId.None? then Err(IllegalArgument(UserIdArg))
    else match FindUserById(users, userId.value)
      case None => Err(NotFound(UserEntity))
      case Some(user) =>
        var postCount := CountPostsByUserId(posts, userId.value);
        var likedCount := CountByUserId(likes, userId.value);
        Ok(UserResponseDTO(user.id, user.name, user.email, postCount, likedCount))
  }

  /** `loadUserByUsername`: the user stored under the normalised email, or UsernameNotFound. */
  function LoadUserByUsername(users: seq<User>, email: string): (r: Result<User>)
    ensures r.Ok? ==> r.value in users && r.value.email == NormalizeEmail(email)
    ensures r.Err? <==> forall u :: u in users ==> u.email != NormalizeEmail(email)
    ensures r.Err? ==> r.error == UsernameNotFound
  {
    match FindUserByEmail(users, NormalizeEmail(email))
    case None => Err(UsernameNotFound)
    case Some(user) => Ok(user)
  }
}
