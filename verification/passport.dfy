/** The Google sign-in strategy and the session (de)serialisation. The
    OAuth exchange itself is outside the model: the strategy receives the
    profile Google returned and decides which stored user it signs in,
    linking or creating one as needed. */
module Passport {
  import opened Base
  import opened Text
  import opened UserSchema

  /** The parts of a Google profile the strategy reads. */
  datatype Profile = Profile(id: string, emails: seq<string>, photos: seq<string>,
                             displayName: string)

  /** `done(error)` or `done(null, user)`. */
  datatype Login = LoginFailed | LoggedIn(user: User)

  /** Linking the Google account to the user at `k` found by e-mail: the
      Google id is set, and the first photo becomes the avatar when the user
      had none (reading it throws when there is no photo). The sign-in
      succeeds exactly when there is an avatar to keep or a photo to take
      and the save of the linked user is accepted. */
  function Link(users: UserStore, k: nat, p: Profile): (res: (Login, UserStore))
    requires k < |users|
    ensures res.0.LoggedIn? <==>
              && (users[k].avatar != "" || |p.photos| > 0)
              && CanSave(users, k, users[k].(googleId := Some(p.id),
                                             avatar := if users[k].avatar != "" then users[k].avatar
                                                       else p.photos[0]))
    ensures res.0.LoginFailed? ==> res.1 == users
    ensures res.0.LoggedIn? ==> && res.0.user.googleId == Some(p.id)
                                && res.0.user == users[k].(googleId := Some(p.id), avatar := res.0.user.avatar)
                                && res.1 == users[k := res.0.user]
                                && CanSave(users, k, res.0.user)
    ensures res.0.LoggedIn? && users[k].avatar != "" ==> res.0.user.avatar == users[k].avatar
    ensures res.0.LoggedIn? && users[k].avatar == "" ==> |p.photos| > 0 && res.0.user.avatar == p.photos[0]
  {
    var found := users[k];
    if found.avatar == "" && |p.photos| == 0 then (LoginFailed, users)
    else
      var avatar := if found.avatar != "" then found.avatar else p.photos[0];
      var linked := found.(googleId := Some(p.id), avatar := avatar);
      if !CanSave(users, k, linked) then (LoginFailed, users)
      else (LoggedIn(linked), users[k := linked])
  }

  /** Creating a user from the profile: its Google id, first e-mail,
      display name and first photo. The sign-in succeeds exactly when there
      is a photo and the save of the new user is accepted. */
  function Create(users: UserStore, p: Profile, freshId: Id): (res: (Login, UserStore))
    requires |p.emails| > 0
    ensures res.0.LoggedIn? <==>
              && |p.photos| > 0
              && CanSave(users, |users|, NewUser(freshId, Some(p.id), p.emails[0], p.displayName,
                                                 Some(p.photos[0])))
    ensures res.0.LoginFailed? ==> res.1 == users
    ensures res.0.LoggedIn? ==> && |p.photos| > 0
                                && res.0.user == NewUser(freshId, Some(p.id), p.emails[0], p.displayName,
                                                         Some(p.photos[0]))
                                && res.1 == users + [res.0.user]
                                && CanSave(users, |users|, res.0.user)
  {
    if |p.photos| == 0 then (LoginFailed, users)
    else
      var created := NewUser(freshId, Some(p.id), p.emails[0], p.displayName, Some(p.photos[0]));
      if !CanSave(users, |users|, created) then (LoginFailed, users)
      else (LoggedIn(created), users + [created])
  }

  /** The Google verify callback. In order: a user already carrying this
      Google id signs in unchanged; otherwise a user with the profile's
      first e-mail is linked; otherwise a new user is created. Reading a
      missing first e-mail or photo throws, and so does a rejected save;
      each of those ends in `LoginFailed` with nothing written. `freshId`
      is the id the database assigns to a new document. */
  function GoogleLogin(users: UserStore, p: Profile, freshId: Id): (res: (Login, UserStore))
    ensures res.0.LoginFailed? ==> res.1 == users
    ensures FindByGoogleId(users, p.id).Some? ==>
              res == (LoggedIn(users[FindByGoogleId(users, p.id).value]), users)
    ensures FindByGoogleId(users, p.id).None? && |p.emails| == 0 ==> res == (LoginFailed, users)
    ensures FindByGoogleId(users, p.id).None? && |p.emails| > 0 ==>
              var byEmail := FindByEmail(users, NormalizeEmail(p.emails[0]));
              res == if byEmail.Some? then Link(users, byEmail.value, p) else Create(users, p, freshId)
  {
    var byGoogle := FindByGoogleId(users, p.id);
    if byGoogle.Some? then (LoggedIn(users[byGoogle.value]), users)
    else if |p.emails| == 0 then (LoginFailed, users)
    else
      var byEmail := FindByEmail(users, NormalizeEmail(p.emails[0]));
      if byEmail.Some? then Link(users, byEmail.value, p) else Create(users, p, freshId)
  }

  /** The signed-in user always carries the profile's Google id and is in
      the collection afterwards, and the collection grows by at most that
      one user. When the sign-in goes by e-mail, only the matched
      document can change, and it becomes the signed-in user. */
  lemma LoginOutcome(users: UserStore, p: Profile, freshId: Id)
    ensures var (login, after) := GoogleLogin(users, p, freshId);
      && (login.LoggedIn? ==> login.user.googleId == Some(p.id) && login.user in after)
      && (after == users || |after| == |users| || after == users + [login.user])
    ensures FindByGoogleId(users, p.id).None? && |p.emails| > 0
            && FindByEmail(users, NormalizeEmail(p.emails[0])).Some? ==>
              var k := FindByEmail(users, NormalizeEmail(p.emails[0])).value;
              var (login, after) := GoogleLogin(users, p, freshId);
              after == users || (login.LoggedIn? && after == users[k := login.user])
  {
    var byGoogle := FindByGoogleId(users, p.id);
    if byGoogle.Some? {
      assert users[byGoogle.value].googleId == Some(p.id);
    } else if |p.emails| > 0 {
      var byEmail := FindByEmail(users, NormalizeEmail(p.emails[0]));
      if byEmail.Some? {
        var (login, after) := Link(users, byEmail.value, p);
        if login.LoggedIn? {
          assert after[byEmail.value] == login.user;
        }
      } else {
        var (login, after) := Create(users, p, freshId);
        if login.LoggedIn? {
          assert after[|users|] == login.user;
        }
      }
    }
  }

  /** Every sign-in keeps the collection well formed. */
  lemma LoginKeepsWellFormed(users: UserStore, p: Profile, freshId: Id)
    requires WellFormed(users)
    ensures WellFormed(GoogleLogin(users, p, freshId).1)
  {
    var byGoogle := FindByGoogleId(users, p.id);
    if byGoogle.None? && |p.emails| > 0 {
      var byEmail := FindByEmail(users, NormalizeEmail(p.emails[0]));
      if byEmail.Some? {
        var (login, after) := Link(users, byEmail.value, p);
        if login.LoggedIn? {
          ReplaceKeepsWellFormed(users, byEmail.value, login.user);
        }
      } else {
        var (login, after) := Create(users, p, freshId);
        if login.LoggedIn? {
          AppendKeepsWellFormed(users, login.user);
        }
      }
    }
  }

  /** In a well-formed collection, whoever carries the Google id signs in
      unchanged, wherever they sit. */
  lemma GoogleIdTakesPrecedence(users: UserStore, p: Profile, freshId: Id, k: nat)
    requires WellFormed(users) && k < |users| && users[k].googleId == Some(p.id)
    ensures GoogleLogin(users, p, freshId) == (LoggedIn(users[k]), users)
  {
    var r := FindByGoogleId(users, p.id);
    assert r.Some?;
  }

  /** Sign-up: a profile nobody matches, by Google id or by e-mail, with a
      photo, an e-mail and a display name that survive the setters, and a
      fresh document id, creates that user and signs it in. */
  lemma SignUpCreatesUser(users: UserStore, p: Profile, freshId: Id)
    requires |p.emails| > 0 && |p.photos| > 0
    requires NormalizeEmail(p.emails[0]) != "" && Trim(p.displayName) != ""
    requires forall j :: 0 <= j < |users| ==>
               && users[j].id != freshId
               && users[j].googleId != Some(p.id)
               && users[j].email != NormalizeEmail(p.emails[0])
    ensures var created := NewUser(freshId, Some(p.id), p.emails[0], p.displayName, Some(p.photos[0]));
      GoogleLogin(users, p, freshId) == (LoggedIn(created), users + [created])
  {
    var created := NewUser(freshId, Some(p.id), p.emails[0], p.displayName, Some(p.photos[0]));
    assert ValidUser(created);
    assert FindByGoogleId(users, p.id).None?;
    assert FindByEmail(users, NormalizeEmail(p.emails[0])).None?;
    assert CanSave(users, |users|, created);
  }

  /** Linking: in a well-formed collection where nobody carries the Google
      id yet, the user holding the profile's e-mail is linked and signed in
      whenever it has an avatar or the profile has a photo. */
  lemma LinkSignsIn(users: UserStore, p: Profile, freshId: Id, k: nat)
    requires WellFormed(users) && k < |users| && |p.emails| > 0
    requires users[k].email == NormalizeEmail(p.emails[0])
    requires users[k].avatar != "" || |p.photos| > 0
    requires forall j :: 0 <= j < |users| ==> users[j].googleId != Some(p.id)
    ensures var (login, after) := GoogleLogin(users, p, freshId);
      && login.LoggedIn? && login.user.id == users[k].id && login.user.googleId == Some(p.id)
      && after == users[k := login.user]
  {
    var found := FindByEmail(users, NormalizeEmail(p.emails[0]));
    assert found == Some(k) by {
      assert found.Some?;
      assert users[found.value].email == users[k].email;
    }
    var linked := users[k].(googleId := Some(p.id),
                            avatar := if users[k].avatar != "" then users[k].avatar else p.photos[0]);
    assert CanSave(users, k, linked);
  }

  /** Linking by e-mail replaces a Google id the user already had: a
      valid user with an avatar, found by its e-mail under a different
      Google id, ends up with the new one. */
  lemma LinkOverwritesGoogleId(u: User, p: Profile, freshId: Id)
    requires ValidUser(u) && u.avatar != ""
    requires u.googleId.Some? && u.googleId != Some(p.id)
    requires p.emails == [u.email]
    ensures GoogleLogin([u], p, freshId) == (LoggedIn(u.(googleId := Some(p.id))), [u.(googleId := Some(p.id))])
  {
    SoleUserFoundByEmail(u, p, freshId);
    SoleUserLinked(u, p);
  }

  lemma SoleUserFoundByEmail(u: User, p: Profile, freshId: Id)
    requires ValidUser(u) && u.googleId != Some(p.id) && p.emails == [u.email]
    ensures GoogleLogin([u], p, freshId) == Link([u], 0, p)
  {
    assert NormalizeEmail(u.email) == u.email by {
      LowerOfLower(u.email);
      TrimOfTrimmed(u.email);
    }
    assert FindByGoogleId([u], p.id) == None;
    assert FindByEmail([u], u.email) == Some(0);
  }

  lemma SoleUserLinked(u: User, p: Profile)
    requires ValidUser(u) && u.avatar != ""
    ensures Link([u], 0, p) == (LoggedIn(u.(googleId := Some(p.id))), [u.(googleId := Some(p.id))])
  {
    var linked := u.(googleId := Some(p.id));
    assert CanSave([u], 0, linked);
    assert [u][0 := linked] == [linked];
  }

  /** `serializeUser`: the session stores the user's id. */
  function Serialize(u: User): Id {
    u.id
  }

  /** `deserializeUser`: the session's id is looked up again; an id no
      longer in the collection gives no user. */
  function Deserialize(users: UserStore, id: Id): (r: Option<User>)
    ensures r.Some? ==> r.value in users && r.value.id == id
    ensures r.None? ==> forall j :: 0 <= j < |users| ==> users[j].id != id
  {
    var k := FindById(users, id);
    if k.Some? then Some(users[k.value]) else None
  }

  /** A stored user survives the round trip through the session. */
  lemma SessionRoundTrip(users: UserStore, k: nat)
    requires WellFormed(users) && k < |users|
    ensures Deserialize(users, Serialize(users[k])) == Some(users[k])
  {
    FindByIdUnique(users, k);
  }
}
