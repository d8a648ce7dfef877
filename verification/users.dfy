/** Accounts: the document shape of backend/models/User.js and the handlers
    of backend/controllers/userController.js — sign-up, log-in, reading and
    updating one's own profile.

    Passwords are hashed with bcryptjs. Its random salt and the Blowfish
    rounds are left abstract: a credential keeps exactly the key bytes
    bcrypt reads from the password, built only by `Hash` and checked only
    by `Matches`. A token only records whose it is. */
module Users {
  import opened Common
  import opened Strings
  import opened Encoding
  import Email

  /** The number of key bytes bcrypt's key schedule reads: the eighteen
      32-bit words of the Blowfish P-array. */
  const BcryptKeyLength := 72

  /** The bytes bcrypt reads from a password: its UTF-8 form with a NUL
      terminator, repeated cyclically to fill 72 bytes. Bytes past the
      72nd never reach the hash. */
  function BcryptKey(password: string): (k: seq<byte>)
    ensures |k| == BcryptKeyLength
    ensures forall i :: 0 <= i < BcryptKeyLength && i <= |Utf8(password)| ==> k[i] == (Utf8(password) + [0])[i]
  {
    var z := Utf8(password) + [0];
    var k := seq(BcryptKeyLength, i requires 0 <= i < BcryptKeyLength => z[i % |z|]);
    forall i | 0 <= i < BcryptKeyLength && i < |z|
      ensures k[i] == z[i]
    {
      ModBelow(i, |z|);
    }
    k
  }

  lemma ModBelow(i: nat, m: nat)
    requires i < m
    ensures i % m == i
  {
  }

  /** A password of 72 bytes or more is keyed by its first 72 bytes. */
  lemma LongKeyIsPrefix(password: string)
    requires |Utf8(password)| >= BcryptKeyLength
    ensures BcryptKey(password) == Utf8(password)[..BcryptKeyLength]
  {
  }

  /** Below the 72-byte bound, and without NUL characters, the key tells
      passwords apart: two such passwords share a key only when they are
      equal. */
  lemma ShortKeyDistinct(p: string, q: string)
    requires '\0' !in p && '\0' !in q
    requires |Utf8(p)| <= BcryptKeyLength && |Utf8(q)| <= BcryptKeyLength
    ensures BcryptKey(p) == BcryptKey(q) <==> p == q
  {
    var u, v := Utf8(p), Utf8(q);
    if BcryptKey(p) == BcryptKey(q) {
      KeyTerminator(p);
      KeyTerminator(q);
      assert |u| == |v|;
      assert forall i :: 0 <= i < |u| ==> u[i] == BcryptKey(p)[i] == BcryptKey(q)[i] == v[i];
      assert u == v;
      Utf8Injective(p, q);
    }
  }

  /** In the key of a short NUL-free password the first zero byte is its
      terminator. */
  lemma KeyTerminator(p: string)
    requires '\0' !in p && |Utf8(p)| <= BcryptKeyLength
    ensures forall i :: 0 <= i < |Utf8(p)| ==> BcryptKey(p)[i] == Utf8(p)[i] != 0
    ensures |Utf8(p)| < BcryptKeyLength ==> BcryptKey(p)[|Utf8(p)|] == 0
  {
    Utf8NoZero(p);
  }

  /** Past the bound the key forgets: 73 'a's and 72 'a's followed by 'b'
      are different passwords with the same key. */
  lemma LongPasswordsCollide(p: string, q: string)
    requires p == seq(73, _ => 'a') && q == seq(72, _ => 'a') + "b"
    ensures p != q && BcryptKey(p) == BcryptKey(q)
  {
    assert p[72] != q[72];
    AsciiUtf8(p);
    AsciiUtf8(q);
    LongKeyIsPrefix(p);
    LongKeyIsPrefix(q);
    assert Utf8(p)[..BcryptKeyLength] == Utf8(q)[..BcryptKeyLength];
  }

  /** The stored one-way credential. */
  datatype Credential = Hashed(key: seq<byte>)

  function Hash(password: string): Credential
  {
    Hashed(BcryptKey(password))
  }

  /** bcrypt's compare: the credential was made from a password with the
      same key as `password`. */
  predicate Matches(c: Credential, password: string)
  {
    c == Hash(password)
  }

  /** A signed bearer token for one user. */
  datatype Token = Token(user: Id)

  const MinPasswordLength := 6
  const DefaultProfilePic := "/images/default_avatar.png"

  datatype User = User(firstName: string, lastName: string, email: string, password: Credential,
                       mobileNumber: string, profilePic: string, location: string, createdAt: int)

  type Store = map<Id, User>

  predicate WellFormed(u: User)
  {
    && u.firstName != "" && Trimmed(u.firstName)
    && u.lastName != "" && Trimmed(u.lastName)
    && Email.IsEmail(u.email)
  }

  /** The unique index on `email`. */
  predicate EmailsUnique(store: Store)
  {
    forall a, b :: a in store && b in store && store[a].email == store[b].email ==> a == b
  }

  predicate Valid(store: Store)
  {
    (forall id :: id in store ==> WellFormed(store[id])) && EmailsUnique(store)
  }

  /** `email` belongs to some user other than `except`. */
  predicate EmailTaken(store: Store, email: string, except: Option<Id>)
  {
    exists k :: k in store && store[k].email == email && except != Some(k)
  }

  /** The display name every response carries. */
  function DisplayName(firstName: string, lastName: string): string
  {
    firstName + " " + lastName
  }

  /** The body of a successful sign-up, log-in or profile update. */
  datatype Session = Session(id: Id, firstName: string, lastName: string, username: string, email: string, token: Token)

  /** The body of `GET /api/users/profile`. */
  datatype Profile = Profile(id: Id, firstName: string, lastName: string, username: string, email: string, createdAt: int)

  /** `Unhandled` is a rejected promise nobody catches (see
      `UpdateUserProfile`). */
  datatype Body = Message(text: string) | SessionDoc(session: Session) | ProfileDoc(profile: Profile)
                | ErrorMessage | Unhandled

  datatype Reply = Reply(status: int, body: Body, store: Store)

  /** `getUserResponse`. */
  function SessionFor(id: Id, u: User): Session
  {
    Session(id, u.firstName, u.lastName, DisplayName(u.firstName, u.lastName), u.email, Token(id))
  }

  /** A session describes the user it was issued for. */
  predicate SessionOf(s: Session, id: Id, u: User)
  {
    && s.id == id && s.token == Token(id)
    && s.firstName == u.firstName && s.lastName == u.lastName && s.email == u.email
    && s.username == s.firstName + " " + s.lastName
  }

  /** The schema's validators for a new user, on the values as the setters
      leave them (names trimmed; the raw password, validated before it is
      hashed, whose `minlength` counts UTF-16 code units). */
  predicate SignupAcceptable(firstName: string, lastName: string, email: string, password: string)
  {
    Trim(firstName) != "" && Trim(lastName) != "" && Email.IsEmail(email) && Utf16Length(password) >= MinPasswordLength
  }

  /** Three emoji meet the six-character minimum: JavaScript counts each
      as two code units. */
  lemma EmojiPasswordAccepted()
    ensures SignupAcceptable("Ann", "Lee", "a@b.co", "\U{1F600}\U{1F600}\U{1F600}")
  {
    EmojiLength();
    Email.Examples();
    TrimFixpoint("Ann");
    TrimFixpoint("Lee");
  }

  lemma ValidAfterPut(store: Store, id: Id, u: User)
    requires Valid(store)
    requires WellFormed(u)
    requires !EmailTaken(store, u.email, Some(id))
    ensures Valid(store[id := u])
  {
    var s := store[id := u];
    forall k | k in store && k != id
      ensures store[k].email != u.email
    {
    }
    forall a, b | a in s && b in s && s[a].email == s[b].email
      ensures a == b
    {
      if a != id && b != id {
        assert store[a].email == store[b].email;
      }
    }
  }

  /** `registerUser`: the confirmation is compared first, then the e-mail
      must be new, then the schema validates; the stored document carries
      the trimmed names, the hashed password and the defaults. */
  function RegisterUser(store: Store, firstName: string, lastName: string, email: string,
                        password: string, confirmPassword: string, now: int): (r: Reply)
    ensures password != confirmPassword ==> r == Reply(400, Message("Passwords do not match"), store)
    ensures password == confirmPassword && EmailTaken(store, email, None) ==>
      r == Reply(400, Message("User already exists"), store)
    ensures r.status == 201 <==>
      password == confirmPassword && !EmailTaken(store, email, None) && SignupAcceptable(firstName, lastName, email, password)
    ensures r.status in {201, 400, 500}
    ensures r.status != 201 ==> r.store == store
    ensures r.status == 201 ==>
      && r.body.SessionDoc? && r.body.session.id !in store
      && var id := r.body.session.id;
      && id in r.store
      && r.store == store[id := r.store[id]]
      && var u := r.store[id];
      && u.firstName == Trim(firstName) && u.lastName == Trim(lastName) && u.email == email
      && Matches(u.password, password)
      && u.mobileNumber == "" && u.location == "" && u.profilePic == DefaultProfilePic
      && u.createdAt == now
      && SessionOf(r.body.session, id, u)
    ensures Valid(store) ==> Valid(r.store)
  {
    if password != confirmPassword then Reply(400, Message("Passwords do not match"), store)
    else if EmailTaken(store, email, None) then Reply(400, Message("User already exists"), store)
    else if !SignupAcceptable(firstName, lastName, email, password) then Reply(500, ErrorMessage, store)
    else
      var id := FreshId(store);
      var u := User(Trim(firstName), Trim(lastName), email, Hash(password), "", DefaultProfilePic, "", now);
      assert Valid(store) ==> Valid(store[id := u]) by {
        if Valid(store) {
          ValidAfterPut(store, id, u);
        }
      }
      Reply(201, SessionDoc(SessionFor(id, u)), store[id := u])
  }

  /** `authUser`: the user with that e-mail, if the password matches; a
      missing user and a wrong password get the same answer. The lookup
      relies on the unique index: at most one user has the address. */
  function AuthUser(store: Store, email: string, password: string): (r: Reply)
    requires EmailsUnique(store)
    ensures r.store == store
    ensures r.status == 200 <==>
      exists id :: id in store && store[id].email == email && Matches(store[id].password, password)
    ensures r.status != 200 ==> r == Reply(401, Message("Invalid email or password"), store)
    ensures r.status == 200 ==>
      && r.body.SessionDoc? && r.body.session.id in store
      && store[r.body.session.id].email == email
      && SessionOf(r.body.session, r.body.session.id, store[r.body.session.id])
  {
    if exists id :: id in store && store[id].email == email then
      var id :| id in store && store[id].email == email;
      if Matches(store[id].password, password) then Reply(200, SessionDoc(SessionFor(id, store[id])), store)
      else Reply(401, Message("Invalid email or password"), store)
    else Reply(401, Message("Invalid email or password"), store)
  }

  /** Signing up and then logging in with the same address and password
      opens a session for the account just created. */
  lemma SignupThenLogin(store: Store, firstName: string, lastName: string, email: string,
                        password: string, now: int, signup: Reply)
    requires Valid(store)
    requires signup == RegisterUser(store, firstName, lastName, email, password, password, now)
    requires signup.status == 201
    ensures AuthUser(signup.store, email, password).status == 200
    ensures AuthUser(signup.store, email, password).body == signup.body
  {
    var id := signup.body.session.id;
    assert signup.store[id].email == email;
  }

  /** `getUserProfile`: the caller's own profile. */
  function GetUserProfile(store: Store, caller: Id): (r: Reply)
    ensures r.store == store
    ensures r.status == 200 <==> caller in store
    ensures r.status != 200 ==> r == Reply(404, Message("User not found"), store)
    ensures r.status == 200 ==>
      var u := store[caller];
      && r.body.ProfileDoc?
      && r.body.profile.id == caller && r.body.profile.email == u.email
      && r.body.profile.firstName == u.firstName && r.body.profile.lastName == u.lastName
      && r.body.profile.username == u.firstName + " " + u.lastName
      && r.body.profile.createdAt == u.createdAt
  {
    if caller in store then
      var u := store[caller];
      Reply(200, ProfileDoc(Profile(caller, u.firstName, u.lastName, DisplayName(u.firstName, u.lastName), u.email, u.createdAt)), store)
    else Reply(404, Message("User not found"), store)
  }

  datatype ProfileUpdate = ProfileUpdate(firstName: Field<string>, lastName: Field<string>, email: Field<string>,
                                         password: Field<string>, confirmPassword: Field<string>)

  /** A new password is requested and the confirmation is not that same
      string (an absent confirmation never is). */
  predicate PasswordMismatch(body: ProfileUpdate)
  {
    Truthy(body.password) && body.confirmPassword != Given(body.password.value)
  }

  /** The document `updateUserProfile` tries to save. */
  function Merged(u: User, body: ProfileUpdate): User
  {
    u.(firstName := Trim(OrKeep(body.firstName, u.firstName)),
       lastName := Trim(OrKeep(body.lastName, u.lastName)),
       email := OrKeep(body.email, u.email),
       password := if Truthy(body.password) then Hash(body.password.value) else u.password)
  }

  /** `u'` is `u` with the update applied: names and e-mail replaced only
      by non-empty values (names trimmed), the password replaced only when a
      new one is sent, everything else kept. */
  predicate Applied(u: User, body: ProfileUpdate, u': User)
  {
    && (Truthy(body.firstName) ==> u'.firstName == Trim(body.firstName.value))
    && (!Truthy(body.firstName) ==> u'.firstName == Trim(u.firstName))
    && (Truthy(body.lastName) ==> u'.lastName == Trim(body.lastName.value))
    && (!Truthy(body.lastName) ==> u'.lastName == Trim(u.lastName))
    && u'.email == (if Truthy(body.email) then body.email.value else u.email)
    && (Truthy(body.password) ==> Matches(u'.password, body.password.value))
    && (!Truthy(body.password) ==> u'.password == u.password)
    && u'.mobileNumber == u.mobileNumber && u'.profilePic == u.profilePic
    && u'.location == u.location && u'.createdAt == u.createdAt
  }

  /** What the save checks: the schema's validators (a new password is
      validated in the clear, before hashing) and the unique index. */
  predicate SaveAccepts(store: Store, caller: Id, u: User, body: ProfileUpdate)
  {
    && u.firstName != "" && u.lastName != "" && Email.IsEmail(u.email)
    && (Truthy(body.password) ==> Utf16Length(body.password.value) >= MinPasswordLength)
    && !EmailTaken(store, u.email, Some(caller))
  }

  /** `updateUserProfile`: names and e-mail change only to non-empty
      values; a new password needs a matching confirmation. The handler has
      no `catch`, so a save the schema or the unique index refuses is a
      rejected promise that never answers; the model reports it as
      `Unhandled` with status 500, and nothing is written. */
  function UpdateUserProfile(store: Store, caller: Id, body: ProfileUpdate): (r: Reply)
    ensures caller !in store ==> r == Reply(404, Message("User not found"), store)
    ensures caller in store && PasswordMismatch(body) ==> r == Reply(400, Message("New passwords do not match"), store)
    ensures r.status == 200 <==>
      caller in store && !PasswordMismatch(body) && SaveAccepts(store, caller, Merged(store[caller], body), body)
    ensures r.status in {200, 400, 404, 500}
    ensures r.status == 500 ==> r.body == Unhandled
    ensures r.status != 200 ==> r.store == store
    ensures r.status == 200 ==>
      && caller in r.store
      && r.store == store[caller := r.store[caller]]
      && Applied(store[caller], body, r.store[caller])
      && r.body.SessionDoc? && SessionOf(r.body.session, caller, r.store[caller])
    ensures Valid(store) ==> Valid(r.store)
  {
    if caller !in store then Reply(404, Message("User not found"), store)
    else if PasswordMismatch(body) then Reply(400, Message("New passwords do not match"), store)
    else
      Save(store, caller, Merged(store[caller], body), body)
  }

  /** The `save()` at the end of `updateUserProfile`. */
  function Save(store: Store, caller: Id, u': User, body: ProfileUpdate): (r: Reply)
    requires caller in store
    ensures r.status == 200 <==> SaveAccepts(store, caller, u', body)
    ensures r.status != 200 ==> r == Reply(500, Unhandled, store)
    ensures r.status == 200 ==> r.store == store[caller := u'] && r.body == SessionDoc(SessionFor(caller, u'))
    ensures Valid(store) && Trimmed(u'.firstName) && Trimmed(u'.lastName) ==> Valid(r.store)
  {
    if !SaveAccepts(store, caller, u', body) then Reply(500, Unhandled, store)
    else
      assert Valid(store) && Trimmed(u'.firstName) && Trimmed(u'.lastName) ==> Valid(store[caller := u']) by {
        if Valid(store) && Trimmed(u'.firstName) && Trimmed(u'.lastName) {
          ValidAfterPut(store, caller, u');
        }
      }
      Reply(200, SessionDoc(SessionFor(caller, u')), store[caller := u'])
  }

  /** After a successful password change the new password opens a
      session, and an earlier one still does exactly when bcrypt reads the
      same key from it; for passwords without NUL characters within the
      72-byte bound, that means only the new password itself. */
  lemma NewPasswordLogsIn(store: Store, caller: Id, body: ProfileUpdate, previous: string)
    requires Valid(store)
    ensures var update := UpdateUserProfile(store, caller, body);
      update.status == 200 && Truthy(body.password) ==>
        var email, password := update.store[caller].email, body.password.value;
        && AuthUser(update.store, email, password).status == 200
        && (AuthUser(update.store, email, previous).status == 200 <==> BcryptKey(previous) == BcryptKey(password))
        && (('\0' !in previous && '\0' !in password
             && |Utf8(previous)| <= BcryptKeyLength && |Utf8(password)| <= BcryptKeyLength
             && previous != password) ==> AuthUser(update.store, email, previous).status == 401)
  {
    var update := UpdateUserProfile(store, caller, body);
    if update.status == 200 && Truthy(body.password) {
      var s := update.store;
      var password := body.password.value;
      assert Valid(s);
      assert Matches(s[caller].password, password);
      OnlyPasswordLogsIn(s, caller, password, previous);
      if '\0' !in previous && '\0' !in password
         && |Utf8(previous)| <= BcryptKeyLength && |Utf8(password)| <= BcryptKeyLength {
        ShortKeyDistinct(previous, password);
      }
    }
  }

  /** Under the unique index, a user's account opens with exactly the
      passwords that share bcrypt's key with the one its credential was
      made from. */
  lemma OnlyPasswordLogsIn(s: Store, id: Id, password: string, other: string)
    requires EmailsUnique(s)
    requires id in s && Matches(s[id].password, password)
    ensures AuthUser(s, s[id].email, password).status == 200
    ensures AuthUser(s, s[id].email, other).status == 200 <==> BcryptKey(other) == BcryptKey(password)
    ensures AuthUser(s, s[id].email, other).status != 200 ==> AuthUser(s, s[id].email, other).status == 401
  {
    forall k | k in s && s[k].email == s[id].email
      ensures k == id
    {
    }
  }
}
