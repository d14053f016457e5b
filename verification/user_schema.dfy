/** The User document and the user collection: normalised and required
    fields, defaults, the unique `email` and sparse-unique `googleId` indexes,
    and the lookups `findById` / `findOne` in natural order. */
module UserSchema {
  import opened Base
  import opened Text
  import opened Lists

  const BioMax: nat := 500

  /** A stored user; `bio` is `None` when it holds `null`. */
  datatype User = User(
    id: Id,
    googleId: Option<string>,
    email: string,
    username: string,
    avatar: string,
    bio: Option<string>)

  /** The `lowercase` and `trim` setters of `email`. */
  function NormalizeEmail(e: string): (r: string)
    ensures Trimmed(r) && IsLower(r)
    ensures r == Lower(Trim(e))
  {
    TrimLowerCommute(e);
    LowerIsLower(Trim(e));
    LowerPreservesTrimmed(Trim(e));
    Trim(Lower(e))
  }

  /** Setters have run and the validators pass: `email` and `username`
      present after trimming, `email` lower case, `bio` at most 500 long
      (in UTF-16 code units). */
  predicate ValidUser(u: User) {
    && u.email != "" && Trimmed(u.email) && IsLower(u.email)
    && u.username != "" && Trimmed(u.username)
    && (u.bio.Some? ==> Utf16Length(u.bio.value) <= BioMax)
  }

  /** `new User({...})` with the given fields: setters run, `avatar`
      defaults to the empty string and `bio` to the empty string. */
  function NewUser(id: Id, googleId: Option<string>, email: string, username: string,
                   avatar: Option<string>): (r: User)
    ensures r.id == id && r.googleId == googleId
    ensures r.email == NormalizeEmail(email) && r.username == Trim(username)
    ensures avatar.None? ==> r.avatar == ""
    ensures avatar.Some? ==> r.avatar == avatar.value
    ensures r.bio == Some("")
    ensures ValidUser(r) <==> r.email != "" && r.username != ""
  {
    User(id, googleId, NormalizeEmail(email), Trim(username),
         if avatar.Some? then avatar.value else "", Some(""))
  }

  type UserStore = seq<User>

  /** The first user, in natural order, satisfying `p`. */
  function FindFirst(users: UserStore, p: User -> bool): (r: Option<nat>)
    ensures r.Some? ==> r.value < |users| && p(users[r.value])
                        && forall j :: 0 <= j < r.value ==> !p(users[j])
    ensures r.None? ==> forall j :: 0 <= j < |users| ==> !p(users[j])
  {
    if |users| == 0 then None
    else if p(users[0]) then Some(0)
    else
      var rest := FindFirst(users[1..], p);
      if rest.Some? then Some(rest.value + 1) else None
  }

  function FindById(users: UserStore, id: Id): Option<nat> {
    FindFirst(users, (u: User) => u.id == id)
  }

  function FindByGoogleId(users: UserStore, googleId: string): Option<nat> {
    FindFirst(users, (u: User) => u.googleId == Some(googleId))
  }

  function FindByEmail(users: UserStore, email: string): Option<nat> {
    FindFirst(users, (u: User) => u.email == email)
  }

  /** What the collection guarantees: every document valid, `_id` and
      `email` unique, and `googleId` unique among the users that have one. */
  predicate WellFormed(users: UserStore) {
    && (forall k :: 0 <= k < |users| ==> ValidUser(users[k]))
    && (forall i, j :: 0 <= i < j < |users| ==> users[i].id != users[j].id)
    && (forall i, j :: 0 <= i < j < |users| ==> users[i].email != users[j].email)
    && (forall i, j :: 0 <= i < j < |users| && users[i].googleId.Some? ==>
          users[i].googleId != users[j].googleId)
  }

  /** In a well-formed collection a lookup by id finds the user with that
      id, wherever it sits. */
  lemma FindByIdUnique(users: UserStore, k: nat)
    requires WellFormed(users) && k < |users|
    ensures FindById(users, users[k].id) == Some(k)
  {
    var r := FindById(users, users[k].id);
    assert r.Some?;
  }

  /** What `save` checks before writing `u` at position `k` (an existing
      document, or `|users|` for a new one): the validators, and the unique
      indexes against every other document. */
  predicate CanSave(users: UserStore, k: nat, u: User) {
    && ValidUser(u)
    && forall j :: 0 <= j < |users| && j != k ==>
         && users[j].id != u.id
         && users[j].email != u.email
         && (u.googleId.Some? ==> users[j].googleId != u.googleId)
  }

  /** Saving an existing document keeps the collection well formed. */
  lemma ReplaceKeepsWellFormed(users: UserStore, k: nat, u: User)
    requires WellFormed(users) && k < |users| && CanSave(users, k, u)
    ensures WellFormed(users[k := u])
  {
    var after := users[k := u];
    forall i, j | 0 <= i < j < |after| && after[i].googleId.Some?
      ensures after[i].googleId != after[j].googleId
    {
      if j == k {
        assert after[i] == users[i];
      }
    }
  }

  /** Saving a new document keeps the collection well formed. */
  lemma AppendKeepsWellFormed(users: UserStore, u: User)
    requires WellFormed(users) && CanSave(users, |users|, u)
    ensures WellFormed(users + [u])
  {
    var after := users + [u];
    forall i, j | 0 <= i < j < |after| && after[i].googleId.Some?
      ensures after[i].googleId != after[j].googleId
    {
      if j == |users| {
        assert after[i] == users[i];
      }
    }
  }

  /** A user as the profile routes return it: every field but `googleId`
      (`select('-googleId')`). */
  datatype PublicUser = PublicUser(id: Id, email: string, username: string, avatar: string,
                                   bio: Option<string>)

  function Public(u: User): PublicUser {
    PublicUser(u.id, u.email, u.username, u.avatar, u.bio)
  }

  /** The public view reveals nothing of `googleId`: users that differ only
      there look the same, and the view determines every other field. */
  lemma PublicOmitsGoogleId(u: User, v: User)
    ensures Public(u) == Public(v) <==> u.(googleId := v.googleId) == v
  {
  }
}
