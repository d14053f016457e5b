/** The profile routes of `/api/users`: reading a profile by id and the
    authenticated user's profile update. Both answer with the public view
    of the user, which leaves out the Google id. */
module UserRoutes {
  import opened Base
  import opened Text
  import opened UserSchema

  /** `GET /api/users/:id`. */
  function GetUser(users: UserStore, id: Id): (r: Reply<PublicUser>)
    ensures r.Fail? <==> forall j :: 0 <= j < |users| ==> users[j].id != id
    ensures r.Fail? ==> r == Fail(NotFound, "User not found")
    ensures r.Ok? ==> r.status == Success && r.body.id == id
    ensures r.Ok? ==> exists j :: 0 <= j < |users| && r.body == Public(users[j])
  {
    var k := FindById(users, id);
    if k.None? then Fail(NotFound, "User not found") else Ok(Success, Public(users[k.value]))
  }

  /** The fields of a profile update body. */
  datatype ProfileBody = ProfileBody(name: Field<string>, bio: Field<string>, avatar: Field<string>)

  /** The assignments of `PUT /profile`: a truthy name becomes the username
      (trimmed by its setter), a bio that is not `undefined` replaces the
      old one (`null` included), a truthy avatar replaces the old one. */
  function ApplyProfile(u: User, body: ProfileBody): (r: User)
    ensures r.id == u.id && r.email == u.email && r.googleId == u.googleId
    ensures r.username == (if TruthyText(body.name) then Trim(body.name.v) else u.username)
    ensures r.bio == (if body.bio.Value? then Some(body.bio.v) else if body.bio.Null? then None else u.bio)
    ensures r.avatar == TextOr(body.avatar, u.avatar)
  {
    u.(username := if TruthyText(body.name) then Trim(body.name.v) else u.username,
       bio := match body.bio
              case Value(b) => Some(b)
              case Null => None
              case Absent => u.bio,
       avatar := TextOr(body.avatar, u.avatar))
  }

  /** `PUT /api/users/profile` by the authenticated user `requester`. A
      document the validators reject (a name of white space only, a bio
      over 500 characters) is a 500 and nothing is written. */
  function UpdateProfile(users: UserStore, requester: Id, body: ProfileBody): (res: (Reply<PublicUser>, UserStore))
    ensures res.0.Fail? ==> res.1 == users
    ensures FindById(users, requester).None? ==> res.0 == Fail(NotFound, "User not found")
    ensures FindById(users, requester).Some? ==>
              var k := FindById(users, requester).value;
              var updated := ApplyProfile(users[k], body);
              && (res.0.Fail? <==> !CanSave(users, k, updated))
              && (res.0.Fail? ==> res.0 == Fail(ServerError, "Failed to update profile"))
              && (res.0.Ok? ==> res == (Ok(Success, Public(updated)), users[k := updated]))
    ensures |res.1| == |users|
  {
    var found := FindById(users, requester);
    if found.None? then (Fail(NotFound, "User not found"), users)
    else
      var k := found.value;
      var updated := ApplyProfile(users[k], body);
      if !CanSave(users, k, updated) then (Fail(ServerError, "Failed to update profile"), users)
      else (Ok(Success, Public(updated)), users[k := updated])
  }

  /** A profile update touches only the requester's document, and never its
      id, e-mail or Google id. */
  lemma ProfileUpdateIsConfined(users: UserStore, requester: Id, body: ProfileBody)
    ensures var after := UpdateProfile(users, requester, body).1;
      forall j :: 0 <= j < |users| ==>
        && after[j].id == users[j].id && after[j].email == users[j].email
        && after[j].googleId == users[j].googleId
        && (users[j].id != requester ==> after[j] == users[j])
  {
    var found := FindById(users, requester);
    if found.Some? {
      assert users[found.value].id == requester;
    }
  }

  /** A profile update keeps the collection well formed. */
  lemma ProfileUpdateKeepsWellFormed(users: UserStore, requester: Id, body: ProfileBody)
    requires WellFormed(users)
    ensures WellFormed(UpdateProfile(users, requester, body).1)
  {
    var found := FindById(users, requester);
    if found.Some? {
      var updated := ApplyProfile(users[found.value], body);
      if CanSave(users, found.value, updated) {
        ReplaceKeepsWellFormed(users, found.value, updated);
      }
    }
  }

  /** The reply of an update is what a profile read returns right after it,
      as the handler re-reads the saved document to answer. */
  lemma UpdateThenRead(users: UserStore, requester: Id, body: ProfileBody)
    requires WellFormed(users)
    requires UpdateProfile(users, requester, body).0.Ok?
    ensures var (reply, after) := UpdateProfile(users, requester, body);
      GetUser(after, requester) == reply
  {
    var k := FindById(users, requester).value;
    var updated := ApplyProfile(users[k], body);
    var after := users[k := updated];
    ReplaceKeepsWellFormed(users, k, updated);
    FindByIdUnique(after, k);
  }

  /** A name of white space only is truthy, so it is assigned; the setter
      trims it to nothing and the required validator refuses the save. */
  lemma BlankNameIsServerError(users: UserStore, requester: Id)
    requires FindById(users, requester).Some?
    ensures UpdateProfile(users, requester, ProfileBody(Value(" "), Absent, Absent)).0
            == Fail(ServerError, "Failed to update profile")
  {
    assert AllSpace(" ");
    TrimEmptyIffAllSpace(" ");
  }

  /** An update with no field leaves a valid profile as it was. */
  lemma EmptyProfileUpdateIsIdentity(users: UserStore, requester: Id)
    requires WellFormed(users) && FindById(users, requester).Some?
    ensures UpdateProfile(users, requester, ProfileBody(Absent, Absent, Absent)).1 == users
  {
    var k := FindById(users, requester).value;
    var updated := ApplyProfile(users[k], ProfileBody(Absent, Absent, Absent));
    assert updated == users[k];
    assert users[k := updated] == users;
  }
}
