/** The users collection as the authentication routes and the Google
    strategy change it: a table from id to user that register and the Google
    callback insert into and link, and that login and session restore read.
    `comparePassword` belongs to the User model, which is not part of this
    model; it is a parameter of the store. */
module UserStore {
  import opened Common
  import opened Users
  import opened AuthRoutes
  import opened Passport

  /** What the verify callback hands to `done`: an error or a user. */
  datatype Done = Done(error: Option<string>, user: Option<User>)

  /** The error `profile.emails[0].value` throws on a profile without emails. */
  const NO_EMAIL_ERROR := "Cannot read properties of undefined (reading 'value')"

  class UserDirectory {
    var users: map<UserId, User>
    /** The id the next inserted user receives. */
    var nextId: UserId
    /** `user.comparePassword(candidate)`, resolved. */
    const comparePassword: (User, string) -> bool

    ghost predicate Valid()
      reads this
    {
      WellKeyed(users, nextId) && EmailsUnique(users)
    }

    constructor(comparePassword: (User, string) -> bool)
      ensures Valid()
      ensures users == map[] && this.comparePassword == comparePassword
    {
      users := map[];
      nextId := 0;
      this.comparePassword := comparePassword;
    }

    /** `POST /api/auth/register` at time `nowMs`. */
    method Register(name: Option<string>, email: Option<string>, password: Option<string>, nowMs: int)
      returns (r: Reply<AuthReply>)
      requires Valid()
      modifies this
      ensures Valid()
      ensures RegisterInputError(name, email, password).Some? ==>
        r == Error(400, RegisterInputError(name, email, password).value) && users == old(users)
      ensures RegisterInputError(name, email, password).None? && HasEmail(old(users), email.value) ==>
        r == Error(400, USER_EXISTS) && users == old(users)
      ensures r.Ok? <==> RegisterInputError(name, email, password).None? && !HasEmail(old(users), email.value)
      ensures r.Ok? ==>
        var id := old(nextId);
        && id !in old(users)
        && users == old(users)[id := User(id, name.value, email.value, Some(password.value), None)]
        && r == Ok(201, AuthReply(GenerateToken(id, nowMs), PublicUser(id, name.value, email.value)))
    {
      var invalid := RegisterInputError(name, email, password);
      if invalid.Some? {
        return Error(400, invalid.value);
      }
      if HasEmail(users, email.value) {
        return Error(400, USER_EXISTS);
      }
      var id := nextId;
      var user := User(id, name.value, email.value, Some(password.value), None);
      users := users[id := user];
      nextId := nextId + 1;
      r := Ok(201, AuthReply(GenerateToken(id, nowMs), PublicView(user)));
    }

    /** `POST /api/auth/login` at time `nowMs`: an unknown email and a wrong
        password give the same reply. */
    function Login(email: Option<string>, password: Option<string>, nowMs: int): (r: Reply<AuthReply>)
      requires Valid()
      reads this
      ensures LoginInputError(email, password).Some? ==> r == Error(400, MISSING_LOGIN_FIELDS)
      ensures r.Ok? <==>
        && LoginInputError(email, password).None?
        && exists id :: id in users && users[id].email == email.value && comparePassword(users[id], password.value)
      ensures LoginInputError(email, password).None? && !r.Ok? ==> r == Error(400, INVALID_CREDENTIALS)
      ensures r.Ok? ==>
        var id := r.body.token.userId;
        && id in users && users[id].email == email.value && comparePassword(users[id], password.value)
        && r == Ok(200, AuthReply(GenerateToken(id, nowMs), PublicView(users[id])))
    {
      if LoginInputError(email, password).Some? then Error(400, MISSING_LOGIN_FIELDS)
      else if !HasEmail(users, email.value) then Error(400, INVALID_CREDENTIALS)
      else
        var id :| id in users && users[id].email == email.value;
        if !comparePassword(users[id], password.value) then Error(400, INVALID_CREDENTIALS)
        else Ok(200, AuthReply(GenerateToken(id, nowMs), PublicView(users[id])))
    }

    /** The Google verify callback: link the user the lookup returns, or
        create one; a profile without emails ends in an error. */
    method GoogleVerify(profile: Profile) returns (done: Done)
      requires Valid()
      modifies this
      ensures Valid()
      ensures |profile.emails| == 0 ==> done == Done(Some(NO_EMAIL_ERROR), None) && users == old(users)
      ensures |profile.emails| > 0 ==>
        var email := profile.emails[0];
        && done.error.None? && done.user.Some?
        && ValidPick(old(users), profile.id, email, done.user.value.id)
        && users == LinkOrCreate(old(users), profile, email, done.user.value.id, old(nextId))
        && done.user.value.id in users && users[done.user.value.id] == done.user.value
        && (!AnyMatch(old(users), profile.id, email) ==> done.user.value.id == old(nextId))
    {
      if |profile.emails| == 0 {
        return Done(Some(NO_EMAIL_ERROR), None);
      }
      var email := profile.emails[0];
      if AnyMatch(users, profile.id, email) {
        var id :| id in users && Matches(users[id], profile.id, email);
        LinkOrCreateKeepsInvariant(users, profile, email, id, nextId);
        var user := Link(users[id], profile.id);
        users := users[id := user];
        done := Done(None, Some(user));
      } else {
        LinkOrCreateKeepsInvariant(users, profile, email, nextId, nextId);
        var user := NewGoogleUser(nextId, profile, email);
        users := users[nextId := user];
        nextId := nextId + 1;
        done := Done(None, Some(user));
      }
    }

    /** `deserializeUser`: the user a session id names, if it still exists. */
    function DeserializeUser(id: UserId): (r: Option<User>)
      requires Valid()
      reads this
      ensures r.Some? <==> id in users
      ensures r.Some? ==> r.value == users[id] && SerializeUser(r.value) == id
    {
      FindById(users, id)
    }
  }
}
