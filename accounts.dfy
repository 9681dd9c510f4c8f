/** The `User` collection: registration (HP.js:47-84), sign-in (HP.js:99-123), the profile
    update (HP.js:151-188) and the account delete that cascades to the daily logs
    (HP.js:235-265). bcrypt is the parameter `hash`; `bcrypt.compare(p, h)` holds exactly
    when `hash(p)` is `h`. */
module Accounts {

  import opened JsValues
  import opened Tables
  import opened Documents
  import Activity

  const UsernameTaken: string := "Username is already taken."
  const ServerError: string := "Server error."
  const Registered: string := "User registered successfully!"
  const InvalidCredentials: string := "Invalid username or password."
  const ProfileUserMissing: string := "User not found"
  const ProfileError: string := "An error occurred while updating the profile."
  const UsernameRequired: string := "Username is required."
  const AccountMissing: string := "User not found."
  const AccountDeleted: string := "User account and daily logs deleted successfully."

  /** The `findOne({ username })` filter. */
  function Named(username: JsValue): User -> bool {
    (u: User) => u.username == username
  }

  function UsernameOf(u: User): JsValue {
    u.username
  }

  /** The unique index on `username`. */
  predicate UniqueUsernames(users: seq<User>) {
    UniqueKeys(users, UsernameOf)
  }

  /** The invariant of the collection: every user passed the schema, usernames are unique. */
  predicate UsersInvariant(users: seq<User>) {
    (forall i :: 0 <= i < |users| ==> ValidUser(users[i])) && UniqueUsernames(users)
  }

  // ---------------------------------------------------------------- register

  datatype RegisterRequest = RegisterRequest(
    username: JsValue,
    password: JsValue,
    dob: JsValue,
    height: JsValue,
    weight: JsValue,
    gender: JsValue,
    goal: JsValue)

  /** The user a registration creates, holding the hashed password. */
  function NewUser(req: RegisterRequest, hashed: string): User {
    User(req.username, Str(hashed), req.dob, req.height, req.weight, req.gender, req.goal)
  }

  /** POST /register. bcrypt refuses a password that is not a string (500). */
  function Register(users: seq<User>, req: RegisterRequest, hash: string -> string): (o: Outcome<User>)
    ensures o.reply == Response(400, UsernameTaken) <==> Any(users, Named(req.username))
    ensures o.reply == Response(201, Registered)
        <==> !Any(users, Named(req.username)) && req.password.Str?
             && ValidUser(NewUser(req, hash(req.password.s)))
    ensures o.reply == Response(201, Registered) ==>
        o.rows == users + [NewUser(req, hash(req.password.s))]
    ensures o.reply != Response(201, Registered) ==>
        o.rows == users && o.reply in {Response(400, UsernameTaken), Response(500, ServerError)}
  {
    var i := FirstIndex(users, Named(req.username));
    if i < |users| then Outcome(Response(400, UsernameTaken), users)
    else if !req.password.Str? then Outcome(Response(500, ServerError), users)
    else
      var created := NewUser(req, hash(req.password.s));
      if !ValidUser(created) then Outcome(Response(500, ServerError), users)
      else Outcome(Response(201, Registered), users + [created])
  }

  /** Registration keeps every username unique and every stored user valid. */
  lemma RegisterKeepsInvariant(users: seq<User>, req: RegisterRequest, hash: string -> string)
    requires UsersInvariant(users)
    ensures UsersInvariant(Register(users, req, hash).rows)
  {
    var o := Register(users, req, hash);
    if o.reply == Response(201, Registered) {
      forall i | 0 <= i < |users|
        ensures users[i].username != req.username
      {
        assert !Named(req.username)(users[i]);
      }
    }
  }

  /** A successful registration leaves every existing user as it was, adds exactly one user,
      and never stores the plaintext password when the hash has no fixed point. */
  lemma RegisterStoresHashOnly(users: seq<User>, req: RegisterRequest, hash: string -> string)
    requires forall p :: hash(p) != p
    requires Register(users, req, hash).reply == Response(201, Registered)
    ensures var rows := Register(users, req, hash).rows;
      && |rows| == |users| + 1
      && rows[..|users|] == users
      && rows[|users|].username == req.username
      && rows[|users|].password == Str(hash(req.password.s))
      && rows[|users|].password != req.password
  {
    var rows := Register(users, req, hash).rows;
    assert rows[..|users|] == users;
    assert hash(req.password.s) != req.password.s;
  }

  // ---------------------------------------------------------------- sign-in

  /** POST /signin. */
  function SignIn(users: seq<User>, username: JsValue, password: JsValue, hash: string -> string): (r: Reply)
    ensures !Any(users, Named(username)) ==> r == Response(400, InvalidCredentials)
    ensures r in {Response(200, ""), Response(400, InvalidCredentials), Response(500, ServerError)}
    ensures Any(users, Named(username)) && !password.Str? ==> r == Response(500, ServerError)
    ensures var i := FirstIndex(users, Named(username));
      i < |users| && password.Str? && users[i].password.Str? && hash(password.s) != users[i].password.s ==>
        r == Response(400, InvalidCredentials)
  {
    var i := FirstIndex(users, Named(username));
    if i == |users| then Response(400, InvalidCredentials)
    else if !password.Str? || !users[i].password.Str? then Response(500, ServerError)
    else if hash(password.s) != users[i].password.s then Response(400, InvalidCredentials)
    else Response(200, "")
  }

  /** On a valid collection sign-in succeeds exactly when the stored hash of the user with
      that name is the hash of the given password. */
  lemma SignInAcceptsExactlyTheStoredHash(users: seq<User>, username: JsValue, password: JsValue,
                                          hash: string -> string)
    requires UsersInvariant(users)
    ensures SignIn(users, username, password, hash) == Response(200, "")
        <==> password.Str? && exists i :: 0 <= i < |users| && users[i].username == username
                                         && users[i].password == Str(hash(password.s))
  {
    var i := FirstIndex(users, Named(username));
    if password.Str? && exists k :: 0 <= k < |users| && users[k].username == username
                                   && users[k].password == Str(hash(password.s)) {
      var k :| 0 <= k < |users| && users[k].username == username
               && users[k].password == Str(hash(password.s));
      assert Named(username)(users[k]);
      assert i == k;
    }
  }

  /** A user who has just registered can sign in with the same password. */
  lemma RegisterThenSignIn(users: seq<User>, req: RegisterRequest, hash: string -> string)
    requires Register(users, req, hash).reply == Response(201, Registered)
    ensures SignIn(Register(users, req, hash).rows, req.username, req.password, hash) == Response(200, "")
  {
    var rows := Register(users, req, hash).rows;
    var i := FirstIndex(rows, Named(req.username));
    assert Named(req.username)(rows[|users|]);
    assert forall j :: 0 <= j < |users| ==> rows[j] == users[j];
    assert i == |users|;
  }

  // ---------------------------------------------------------------- profile update

  datatype ProfileRequest = ProfileRequest(
    username: JsValue,
    newDob: JsValue,
    weight: JsValue,
    height: JsValue,
    gender: JsValue,
    goal: JsValue,
    newPassword: JsValue)

  /** A truthy new password that is not a string makes bcrypt throw. */
  predicate HashFails(newPassword: JsValue) {
    Truthy(newPassword) && !newPassword.Str?
  }

  /** The stored password after the update: the hash of a truthy new password, else the old. */
  function PasswordAfter(current: JsValue, newPassword: JsValue, hash: string -> string): JsValue {
    if Truthy(newPassword) && newPassword.Str? then Str(hash(newPassword.s)) else current
  }

  /** The user after `x = supplied || x` on the five profile fields and the password. */
  function MergeProfile(u: User, req: ProfileRequest, hash: string -> string): User {
    u.(dob := Or(req.newDob, u.dob),
       weight := Or(req.weight, u.weight),
       height := Or(req.height, u.height),
       gender := Or(req.gender, u.gender),
       goal := Or(req.goal, u.goal),
       password := PasswordAfter(u.password, req.newPassword, hash))
  }

  /** POST /update-user-profile; `success` replies are 200 with no message. */
  function UpdateUserProfile(users: seq<User>, req: ProfileRequest, hash: string -> string): (o: Outcome<User>)
    ensures o.reply == Response(404, ProfileUserMissing) <==> !Any(users, Named(req.username))
    ensures o.reply != Response(200, "") ==> o.rows == users
    ensures o.reply == Response(200, "") ==>
        && !HashFails(req.newPassword)
        && exists i :: 0 <= i < |users| && users[i].username == req.username
                       && ValidUser(MergeProfile(users[i], req, hash))
                       && o.rows == users[i := MergeProfile(users[i], req, hash)]
    ensures Any(users, Named(req.username)) && HashFails(req.newPassword) ==>
        o.reply == Response(500, ProfileError)
    ensures var i := FirstIndex(users, Named(req.username));
      i < |users| && !HashFails(req.newPassword) ==>
        && (o.reply == Response(200, "") <==> ValidUser(MergeProfile(users[i], req, hash)))
        && (o.reply == Response(200, "") ==> o.rows == users[i := MergeProfile(users[i], req, hash)])
  {
    var i := FirstIndex(users, Named(req.username));
    if i == |users| then Outcome(Response(404, ProfileUserMissing), users)
    else if HashFails(req.newPassword) then Outcome(Response(500, ProfileError), users)
    else
      var updated := MergeProfile(users[i], req, hash);
      if !ValidUser(updated) then Outcome(Response(500, ProfileError), users)
      else Outcome(Response(200, ""), users[i := updated])
  }

  /** A truthy supplied value is what is stored afterwards; any change comes from one. */
  predicate ReplacedOnlyWhenTruthy(before: JsValue, supplied: JsValue, stored: JsValue) {
    && (Truthy(supplied) ==> stored == supplied)
    && (stored != before ==> Truthy(supplied) && stored == supplied)
  }

  /** What the merge promises field by field: a truthy supplied value replaces the stored
      one, a falsy one (undefined, null, 0, "", false) leaves it; the password changes only
      to the hash of a truthy new password; the username never changes. */
  lemma MergeProfileFields(u: User, req: ProfileRequest, hash: string -> string)
    requires !HashFails(req.newPassword)
    ensures var m := MergeProfile(u, req, hash);
      && m.username == u.username
      && ReplacedOnlyWhenTruthy(u.dob, req.newDob, m.dob)
      && ReplacedOnlyWhenTruthy(u.weight, req.weight, m.weight)
      && ReplacedOnlyWhenTruthy(u.height, req.height, m.height)
      && ReplacedOnlyWhenTruthy(u.gender, req.gender, m.gender)
      && ReplacedOnlyWhenTruthy(u.goal, req.goal, m.goal)
      && (Truthy(req.newPassword) ==> m.password == Str(hash(req.newPassword.s)))
      && (!Truthy(req.newPassword) ==> m.password == u.password)
  {
  }

  /** The profile update keeps the collection's invariant. */
  lemma UpdateUserProfileKeepsInvariant(users: seq<User>, req: ProfileRequest, hash: string -> string)
    requires UsersInvariant(users)
    ensures UsersInvariant(UpdateUserProfile(users, req, hash).rows)
  {
  }

  // ---------------------------------------------------------------- delete account

  /** DELETE /delete-user-account: the user and all of that user's daily logs go. */
  function DeleteUserAccount(users: seq<User>, logs: seq<DailyLog>, username: JsValue): (o: Outcome2<User, DailyLog>)
    ensures !Truthy(username) ==> o == Outcome2(Response(400, UsernameRequired), users, logs)
    ensures Truthy(username) && !Any(users, Named(username)) ==>
        o == Outcome2(Response(404, AccountMissing), users, logs)
    ensures o.reply == Response(200, AccountDeleted) <==> Truthy(username) && Any(users, Named(username))
    ensures o.reply == Response(200, AccountDeleted) ==>
        && |o.parents| == |users| - 1
        && (forall x :: x in o.parents ==> x in users)
        && (forall x :: x in o.children <==> x in logs && x.username != username)
  {
    if !Truthy(username) then Outcome2(Response(400, UsernameRequired), users, logs)
    else
      var i := FirstIndex(users, Named(username));
      if i == |users| then Outcome2(Response(404, AccountMissing), users, logs)
      else
        Outcome2(Response(200, AccountDeleted), RemoveAt(users, i),
                 DeleteMany(logs, Activity.OfUser(username)))
  }

  /** On a valid collection, deleting an account removes exactly that user: nobody of that
      name is left, every other user stays, and the invariant holds afterwards. */
  lemma DeleteUserAccountRemovesExactlyTheUser(users: seq<User>, logs: seq<DailyLog>, username: JsValue)
    requires UsersInvariant(users)
    requires DeleteUserAccount(users, logs, username).reply == Response(200, AccountDeleted)
    ensures var rest := DeleteUserAccount(users, logs, username).parents;
      && UsersInvariant(rest)
      && !Any(rest, Named(username))
      && (forall x :: x in users && x.username != username ==> x in rest)
  {
    var i := FirstIndex(users, Named(username));
    var rest := RemoveAt(users, i);
    assert rest == DeleteUserAccount(users, logs, username).parents;
    UniqueKeysRemoveAt(users, i, UsernameOf);
    forall j | 0 <= j < |rest|
      ensures rest[j].username != username
    {
      if j < i {
        assert rest[j] == users[j];
      } else {
        assert rest[j] == users[j + 1];
      }
    }
    forall x | x in users && x.username != username
      ensures x in rest
    {
      var k :| 0 <= k < |users| && users[k] == x;
      if k < i {
        assert rest[k] == x;
      } else {
        assert k != i;
        assert rest[k - 1] == x;
      }
    }
  }
}
