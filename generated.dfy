/** The update-user-profile draft of generated.js: each profile field is assigned only
    `if` the supplied value is truthy, the password re-hashed only when a new one is
    truthy, then the user is saved. */
module Generated {

  import opened JsValues
  import opened Tables
  import opened Documents
  import opened Store
  import Accounts

  const ProfileUpdated: string := "Profile updated successfully"

  /** The user after the five `if (x) user.x = x` statements and the password re-hash. */
  function AssignIfTruthy(u: User, req: Accounts.ProfileRequest, hash: string -> string): User {
    var u1 := if Truthy(req.newDob) then u.(dob := req.newDob) else u;
    var u2 := if Truthy(req.weight) then u1.(weight := req.weight) else u1;
    var u3 := if Truthy(req.height) then u2.(height := req.height) else u2;
    var u4 := if Truthy(req.gender) then u3.(gender := req.gender) else u3;
    var u5 := if Truthy(req.goal) then u4.(goal := req.goal) else u4;
    if Truthy(req.newPassword) && req.newPassword.Str? then u5.(password := Str(hash(req.newPassword.s)))
    else u5
  }

  /** The conditional statements store exactly what the `x || user.x` merge of HP.js does,
      for every user and request. */
  lemma AssignIfTruthyIsMerge(u: User, req: Accounts.ProfileRequest, hash: string -> string)
    ensures AssignIfTruthy(u, req, hash) == Accounts.MergeProfile(u, req, hash)
  {
  }

  /** POST /update-user-profile of generated.js: the outcome of HP.js's handler, except that
      success carries the message "Profile updated successfully". */
  function UpdateProfile(users: seq<User>, req: Accounts.ProfileRequest, hash: string -> string): (o: Outcome<User>)
    ensures o.reply == Response(404, Accounts.ProfileUserMissing) <==> !Any(users, Accounts.Named(req.username))
    ensures o.reply != Response(200, ProfileUpdated) ==> o.rows == users
    ensures o.reply == Response(200, ProfileUpdated) ==>
        && !Accounts.HashFails(req.newPassword)
        && exists i :: 0 <= i < |users| && users[i].username == req.username
                       && ValidUser(AssignIfTruthy(users[i], req, hash))
                       && o.rows == users[i := AssignIfTruthy(users[i], req, hash)]
    ensures Any(users, Accounts.Named(req.username)) && Accounts.HashFails(req.newPassword) ==>
        o.reply == Response(500, Accounts.ProfileError)
    ensures var i := FirstIndex(users, Accounts.Named(req.username));
      i < |users| && !Accounts.HashFails(req.newPassword) ==>
        && (o.reply == Response(200, ProfileUpdated) <==> ValidUser(AssignIfTruthy(users[i], req, hash)))
        && (o.reply == Response(200, ProfileUpdated) ==> o.rows == users[i := AssignIfTruthy(users[i], req, hash)])
  {
    var i := FirstIndex(users, Accounts.Named(req.username));
    if i == |users| then Outcome(Response(404, Accounts.ProfileUserMissing), users)
    else if Accounts.HashFails(req.newPassword) then Outcome(Response(500, Accounts.ProfileError), users)
    else
      var updated := AssignIfTruthy(users[i], req, hash);
      if !ValidUser(updated) then Outcome(Response(500, Accounts.ProfileError), users)
      else Outcome(Response(200, ProfileUpdated), users[i := updated])
  }

  /** The draft and HP.js's handler leave the same users collection and the same status
      for every request; only the success message differs. */
  lemma UpdateProfileAgreesWithMerge(users: seq<User>, req: Accounts.ProfileRequest, hash: string -> string)
    ensures UpdateProfile(users, req, hash).rows == Accounts.UpdateUserProfile(users, req, hash).rows
    ensures UpdateProfile(users, req, hash).reply == Response(200, ProfileUpdated)
        <==> Accounts.UpdateUserProfile(users, req, hash).reply == Response(200, "")
    ensures UpdateProfile(users, req, hash).reply != Response(200, ProfileUpdated) ==>
        UpdateProfile(users, req, hash).reply == Accounts.UpdateUserProfile(users, req, hash).reply
  {
    var i := FirstIndex(users, Accounts.Named(req.username));
    if i < |users| {
      AssignIfTruthyIsMerge(users[i], req, hash);
    }
  }

  /** The draft keeps the invariant of the users collection. */
  lemma UpdateProfileKeepsInvariant(users: seq<User>, req: Accounts.ProfileRequest, hash: string -> string)
    requires Accounts.UsersInvariant(users)
    ensures Accounts.UsersInvariant(UpdateProfile(users, req, hash).rows)
  {
    UpdateProfileAgreesWithMerge(users, req, hash);
    Accounts.UpdateUserProfileKeepsInvariant(users, req, hash);
  }

  /** The handler as it runs: the fetched user's fields are assigned one statement at a time,
      then the user is saved over its old document. */
  method UpdateUserProfile(db: Db, req: Accounts.ProfileRequest, hash: string -> string) returns (reply: Reply)
    modifies db`users
    ensures Outcome(reply, db.users) == UpdateProfile(old(db.users), req, hash)
    ensures old(db.Valid()) ==> db.Valid()
  {
    if db.Valid() {
      UpdateProfileKeepsInvariant(db.users, req, hash);
    }
    var i := FirstIndex(db.users, Accounts.Named(req.username));
    if i == |db.users| {
      return Response(404, Accounts.ProfileUserMissing);
    }
    var user := db.users[i];
    if Truthy(req.newDob) { user := user.(dob := req.newDob); }
    if Truthy(req.weight) { user := user.(weight := req.weight); }
    if Truthy(req.height) { user := user.(height := req.height); }
    if Truthy(req.gender) { user := user.(gender := req.gender); }
    if Truthy(req.goal) { user := user.(goal := req.goal); }
    if Truthy(req.newPassword) {
      if !req.newPassword.Str? {
        return Response(500, Accounts.ProfileError);
      }
      user := user.(password := Str(hash(req.newPassword.s)));
    }
    assert user == AssignIfTruthy(db.users[i], req, hash);
    if !ValidUser(user) {
      return Response(500, Accounts.ProfileError);
    }
    db.users := db.users[i := user];
    reply := Response(200, ProfileUpdated);
  }
}
