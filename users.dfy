/** The user table and UserService: registration stores a lower-cased email
    and the encoder's hash of the password; lookup is by exact email. */
module Users {
  import opened Wrappers
  import opened JavaLang
  import opened Passwords

  /** The generated UUID primary key. */
  type UserId = nat

  /** A row of the users table (created/updated timestamps left out). */
  datatype User = User(id: UserId, email: string, passwordHash: string, roles: string)

  /** The users table, keyed by the stored email (the unique index
      ux_users_email). */
  type UserTable = map<string, User>

  /** A unique index (email or id) refused the insert. */
  datatype UserError = DuplicateKey

  /** The ids in use. */
  function Ids(t: UserTable): set<UserId>
  {
    set e | e in t :: t[e].id
  }

  /** Each row sits under its own email, and no id is used twice. */
  ghost predicate ValidUsers(t: UserTable)
  {
    && (forall e :: e in t ==> t[e].email == e)
    && (forall e1, e2 :: e1 in t && e2 in t && t[e1].id == t[e2].id ==> e1 == e2)
  }

  /** `userRepository.findByEmail`: the row stored under exactly this string. */
  function FindByEmailIn(t: UserTable, email: string): (r: Option<User>)
    ensures r.Some? <==> email in t
    ensures ValidUsers(t) && r.Some? ==> r.value.email == email
  {
    if email in t then Some(t[email]) else None
  }

  /** `register`: a user with the email lower-cased, the password encoded
      and the roles string as given; the insert fails when the lower-cased
      email or the id is already taken. */
  function RegisterIn(pe: PasswordEncoder, t: UserTable, email: string, rawPassword: string,
                      rolesCsv: string, id: UserId): (r: Result<(User, UserTable), UserError>)
    ensures r.Failure? <==> ToLowerCase(email) in t || id in Ids(t)
    ensures r.Success? ==>
      && r.value.0.email == ToLowerCase(email) && IsLowerCase(r.value.0.email)
      && r.value.0.passwordHash == pe.encode(rawPassword)
      && r.value.0.roles == rolesCsv
      && r.value.0.id == id
      && r.value.1.Keys == t.Keys + {ToLowerCase(email)}
      && r.value.1 == t[r.value.0.email := r.value.0]
      && (forall e :: e in t ==> r.value.1[e] == t[e])
    ensures ValidUsers(t) && r.Success? ==> ValidUsers(r.value.1)
  {
    var stored := ToLowerCase(email);
    if stored in t || id in Ids(t) then Failure(DuplicateKey)
    else
      var user := User(id, stored, pe.encode(rawPassword), rolesCsv);
      Success((user, t[stored := user]))
  }

  /** Removing the row a successful registration stored restores the table. */
  lemma RegisterRollBack(pe: PasswordEncoder, t: UserTable, email: string, rawPassword: string,
                         rolesCsv: string, id: UserId)
    requires RegisterIn(pe, t, email, rawPassword, rolesCsv, id).Success?
    ensures var (user, t') := RegisterIn(pe, t, email, rawPassword, rolesCsv, id).value;
            t' - {user.email} == t
  {
    var (user, t') := RegisterIn(pe, t, email, rawPassword, rolesCsv, id).value;
    assert (t' - {user.email}).Keys == t.Keys;
  }

  /** A registered password is accepted by the same encoder's check. */
  lemma RegisteredPasswordMatches(pe: PasswordEncoder, t: UserTable, email: string, rawPassword: string,
                                  rolesCsv: string, id: UserId)
    requires Sound(pe)
    requires RegisterIn(pe, t, email, rawPassword, rolesCsv, id).Success?
    ensures var user := RegisterIn(pe, t, email, rawPassword, rolesCsv, id).value.0;
            pe.matches(rawPassword, user.passwordHash)
  {
    var user := RegisterIn(pe, t, email, rawPassword, rolesCsv, id).value.0;
    assert user.passwordHash == pe.encode(rawPassword);
  }

  /** After registering, looking up the lower-cased email finds the new user,
      while an email with an upper-case letter still finds only what it found
      before: the lookup does not lower-case. */
  lemma FindAfterRegister(pe: PasswordEncoder, t: UserTable, email: string, rawPassword: string,
                          rolesCsv: string, id: UserId)
    requires RegisterIn(pe, t, email, rawPassword, rolesCsv, id).Success?
    ensures var (user, t') := RegisterIn(pe, t, email, rawPassword, rolesCsv, id).value;
            && FindByEmailIn(t', ToLowerCase(email)) == Some(user)
            && (!IsLowerCase(email) ==> FindByEmailIn(t', email) == FindByEmailIn(t, email))
  {
    if !IsLowerCase(email) {
      assert IsLowerCase(ToLowerCase(email));
      assert email != ToLowerCase(email);
    }
  }

  /** UserService: the repository's table and the shared encoder. */
  class UserService {
    var users: UserTable
    const encoder: PasswordEncoder

    constructor (encoder: PasswordEncoder)
      ensures users == map[] && this.encoder == encoder
    {
      users := map[];
      this.encoder := encoder;
    }

    ghost predicate Valid()
      reads this
    {
      ValidUsers(users)
    }

    /** `findByEmail`: exact match on the given string. */
    function FindByEmail(email: string): Option<User>
      reads this
    {
      FindByEmailIn(users, email)
    }

    /** `register`: build the user through its setters and save it. */
    method Register(email: string, rawPassword: string, rolesCsv: string, id: UserId)
      returns (r: Result<User, UserError>)
      requires Valid()
      modifies this
      ensures Valid()
      ensures var s := RegisterIn(encoder, old(users), email, rawPassword, rolesCsv, id);
              && (s.Success? ==> r == Success(s.value.0) && users == s.value.1)
              && (s.Failure? ==> r == Failure(s.error) && users == old(users))
    {
      var stored := ToLowerCase(email);
      var user := User(id, stored, encoder.encode(rawPassword), rolesCsv);
      if stored in users || id in Ids(users) {
        return Failure(DuplicateKey);
      }
      users := users[stored := user];
      return Success(user);
    }

    /** Not a service call: what the rollback of an enclosing transaction
        does to a user that transaction inserted. */
    method RollBackRegister(email: string)
      requires Valid()
      modifies this
      ensures Valid()
      ensures users == old(users) - {email}
    {
      users := users - {email};
    }

    /** `matchesPassword`: exactly the encoder's check. */
    function MatchesPassword(raw: string, hash: string): (b: bool)
      ensures Sound(encoder) && hash == encoder.encode(raw) ==> b
    {
      encoder.matches(raw, hash)
    }
  }
}
