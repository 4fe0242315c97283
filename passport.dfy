/** The Google OAuth verify callback and the session (de)serialisers.

    The callback looks up ONE user whose `googleId` is the profile's id OR
    whose email is the profile's first email. When several users match, the
    database decides which one it returns; the model leaves that choice open
    as the parameter `pick`, constrained only to be a matching user. */
module Passport {
  import opened Common
  import opened Users

  /** The parts of a Google profile the callback reads. */
  datatype Profile = Profile(id: string, displayName: string, emails: seq<string>)

  /** A user matches the `$or` query of the callback. */
  predicate Matches(u: User, providerId: string, email: string)
  {
    u.googleId == Some(providerId) || u.email == email
  }

  predicate AnyMatch(users: map<UserId, User>, providerId: string, email: string)
  {
    exists id :: id in users && Matches(users[id], providerId, email)
  }

  /** `pick` is an answer the lookup may give: a matching user when there is one. */
  predicate ValidPick(users: map<UserId, User>, providerId: string, email: string, pick: UserId)
  {
    AnyMatch(users, providerId, email) ==> pick in users && Matches(users[pick], providerId, email)
  }

  /** `if (!user.googleId) user.googleId = profile.id`. */
  function Link(u: User, providerId: string): (v: User)
    ensures v.id == u.id && v.name == u.name && v.email == u.email && v.password == u.password
    ensures Truthy(u.googleId) ==> v.googleId == u.googleId
    ensures !Truthy(u.googleId) ==> v.googleId == Some(providerId)
  {
    if Truthy(u.googleId) then u else u.(googleId := Some(providerId))
  }

  /** The user the callback creates: Google id, display name and email, no password. */
  function NewGoogleUser(id: UserId, profile: Profile, email: string): (u: User)
    ensures u.id == id && u.email == email && u.password.None?
    ensures u.googleId == Some(profile.id) && u.name == profile.displayName
  {
    User(id, profile.displayName, email, None, Some(profile.id))
  }

  /** The table after one run of the callback with the profile's first email
      `email`: the picked user linked, or a new user stored under `newId`. */
  function LinkOrCreate(users: map<UserId, User>, profile: Profile, email: string, pick: UserId, newId: UserId)
    : (r: map<UserId, User>)
    requires ValidPick(users, profile.id, email, pick)
    ensures users.Keys <= r.Keys <= users.Keys + {newId}
    ensures AnyMatch(r, profile.id, email)
  {
    if AnyMatch(users, profile.id, email) then
      var r := users[pick := Link(users[pick], profile.id)];
      assert Matches(r[pick], profile.id, email);
      r
    else
      var r := users[newId := NewGoogleUser(newId, profile, email)];
      assert Matches(r[newId], profile.id, email);
      r
  }

  /** One run touches one user: it links the matching user it was given, or
      it adds exactly one user when none matched; every other user is kept. */
  lemma LinkOrCreateFrame(users: map<UserId, User>, profile: Profile, email: string, pick: UserId, newId: UserId)
    requires ValidPick(users, profile.id, email, pick)
    requires newId !in users
    ensures var r := LinkOrCreate(users, profile, email, pick, newId);
      && (AnyMatch(users, profile.id, email) ==> r.Keys == users.Keys)
      && (!AnyMatch(users, profile.id, email) ==> r.Keys == users.Keys + {newId} && r[newId] == NewGoogleUser(newId, profile, email))
      && (forall id :: id in users && id != pick ==> r[id] == users[id])
      && AnyMatch(r, profile.id, email)
  {
    var r := LinkOrCreate(users, profile, email, pick, newId);
    if AnyMatch(users, profile.id, email) {
      assert Matches(r[pick], profile.id, email);
    } else {
      assert Matches(r[newId], profile.id, email);
    }
  }

  /** A Google id already attached to a user is never replaced, and emails,
      names and passwords are never changed. */
  lemma LinkNeverOverwrites(users: map<UserId, User>, profile: Profile, email: string, pick: UserId, newId: UserId)
    requires ValidPick(users, profile.id, email, pick)
    requires newId !in users
    ensures var r := LinkOrCreate(users, profile, email, pick, newId);
      forall id :: id in users ==>
        && id in r
        && r[id].email == users[id].email && r[id].name == users[id].name
        && r[id].password == users[id].password
        && (Truthy(users[id].googleId) ==> r[id].googleId == users[id].googleId)
  {
  }

  /** The callback keeps the user table well formed: ids stay keys, and it
      creates a user only when nobody has the profile's email, so emails stay
      unique. */
  lemma LinkOrCreateKeepsInvariant(users: map<UserId, User>, profile: Profile, email: string, pick: UserId, newId: UserId)
    requires ValidPick(users, profile.id, email, pick)
    requires WellKeyed(users, newId) && EmailsUnique(users)
    ensures var r := LinkOrCreate(users, profile, email, pick, newId);
      WellKeyed(r, newId + 1) && EmailsUnique(r)
  {
    var r := LinkOrCreate(users, profile, email, pick, newId);
    if !AnyMatch(users, profile.id, email) {
      assert forall id :: id in users ==> users[id].email != email;
    }
  }

  /** A second run with the same profile never creates another user. */
  lemma SecondRunCreatesNothing(users: map<UserId, User>, profile: Profile, email: string,
                                pick1: UserId, newId1: UserId, pick2: UserId, newId2: UserId)
    requires ValidPick(users, profile.id, email, pick1) && newId1 !in users
    requires ValidPick(LinkOrCreate(users, profile, email, pick1, newId1), profile.id, email, pick2)
    ensures var once := LinkOrCreate(users, profile, email, pick1, newId1);
      LinkOrCreate(once, profile, email, pick2, newId2).Keys == once.Keys
  {
    LinkOrCreateFrame(users, profile, email, pick1, newId1);
  }

  /** Running the callback twice with the same profile changes nothing the
      second time, provided the second lookup returns the same user as the
      first or the first run changed the table. In the remaining case, see
      `SecondRunMayLinkAnother`. */
  lemma SecondRunIsNoOp(users: map<UserId, User>, profile: Profile, email: string,
                        pick1: UserId, newId1: UserId, pick2: UserId, newId2: UserId)
    requires ValidPick(users, profile.id, email, pick1) && newId1 !in users
    requires EmailsUnique(users)
    requires ValidPick(LinkOrCreate(users, profile, email, pick1, newId1), profile.id, email, pick2)
    requires pick2 == pick1 || LinkOrCreate(users, profile, email, pick1, newId1) != users
    ensures var once := LinkOrCreate(users, profile, email, pick1, newId1);
      LinkOrCreate(once, profile, email, pick2, newId2) == once
  {
    var once := LinkOrCreate(users, profile, email, pick1, newId1);
    LinkOrCreateFrame(users, profile, email, pick1, newId1);
    assert pick2 in once && Matches(once[pick2], profile.id, email);
    if !AnyMatch(users, profile.id, email) {
      // Only the new user matches.
      assert forall id :: id in users ==> !Matches(users[id], profile.id, email);
    } else if pick2 != pick1 {
      // The first run linked users[pick1], which therefore had no Google id
      // and matched by email; emails being unique, users[pick2] matches by
      // Google id.
      assert !Truthy(users[pick1].googleId);
      assert users[pick1].email == email;
      assert once[pick2] == users[pick2];
      assert users[pick2].email != email;
    }
    assert Link(once[pick2], profile.id) == once[pick2];
  }

  /** When one user already carries the profile's Google id and another,
      without a Google id, has the profile's email, the first run may return
      the former and change nothing, and the second may return the latter
      and attach the same Google id to it. */
  lemma SecondRunMayLinkAnother()
    ensures var profile := Profile("g1", "Ann", ["ann@example.com"]);
      var users := map[0 := User(0, "Ann", "ann@old.example", Some("pw"), Some("g1")),
                       1 := User(1, "Ann", "ann@example.com", Some("pw"), None)];
      var once := LinkOrCreate(users, profile, "ann@example.com", 0, 2);
      && ValidPick(users, profile.id, "ann@example.com", 0)
      && once == users
      && ValidPick(once, profile.id, "ann@example.com", 1)
      && LinkOrCreate(once, profile, "ann@example.com", 1, 2) != once
      && LinkOrCreate(once, profile, "ann@example.com", 1, 2)[1].googleId == Some("g1")
  {
    var profile := Profile("g1", "Ann", ["ann@example.com"]);
    var users := map[0 := User(0, "Ann", "ann@old.example", Some("pw"), Some("g1")),
                     1 := User(1, "Ann", "ann@example.com", Some("pw"), None)];
    assert Matches(users[0], profile.id, "ann@example.com");
    var twice := LinkOrCreate(users, profile, "ann@example.com", 1, 2);
    assert twice[1].googleId == Some("g1") != users[1].googleId;
  }

  /** `serializeUser`: the session stores the user's id. */
  function SerializeUser(u: User): (id: UserId)
    ensures id == u.id
  {
    u.id
  }

  /** A user stored under its own id comes back from the session unchanged. */
  lemma SessionRoundTrip(users: map<UserId, User>, nextId: UserId, key: UserId)
    requires WellKeyed(users, nextId) && key in users
    ensures FindById(users, SerializeUser(users[key])) == Some(users[key])
  {
  }
}
