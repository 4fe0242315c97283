/** The user records the authentication routes and the Google strategy read
    and write. The User model itself (its schema, its password-hashing hook
    and `comparePassword`) is not part of this model: a user carries the
    password exactly as the routes hand it over. */
module Users {
  import opened Common

  datatype User = User(
    id: UserId,
    name: string,
    email: string,
    password: Option<string>,
    googleId: Option<string>)

  /** The `user` object of the register and login replies. */
  datatype PublicUser = PublicUser(id: UserId, name: string, email: string)

  function PublicView(u: User): (v: PublicUser)
  {
    PublicUser(u.id, u.name, u.email)
  }

  /** Every user is stored under its own id, below the next id to allocate. */
  predicate WellKeyed(users: map<UserId, User>, nextId: UserId)
  {
    forall id :: id in users ==> id < nextId && users[id].id == id
  }

  /** No two users share an email. */
  ghost predicate EmailsUnique(users: map<UserId, User>)
  {
    forall a, b :: a in users && b in users && users[a].email == users[b].email ==> a == b
  }

  /** `User.findOne({ email })` finds someone. */
  predicate HasEmail(users: map<UserId, User>, email: string)
  {
    exists id :: id in users && users[id].email == email
  }

  /** `User.findById(id)`. */
  function FindById(users: map<UserId, User>, id: UserId): (r: Option<User>)
    ensures r.Some? <==> id in users
    ensures r.Some? ==> r.value == users[id]
  {
    if id in users then Some(users[id]) else None
  }
}
