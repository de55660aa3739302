/** The decisions of the register and login routes, as functions of the
    User table and the submitted form. */
module Auth {
  import opened Tables
  import opened Schema
  import opened Validation
  import Security

  /** Why a registration is refused; each is one flash message of the route. */
  datatype RegisterError =
    | EmailAlreadyRegistered
    | UsernameAlreadyTaken
    | PhoneAlreadyRegistered
    | PhoneNotTenDigits
    | PasswordTooWeak

  /** None of the three unique columns already holds the submitted value. */
  predicate NoneTaken(users: seq<User>, username: string, email: string, phone: string)
  {
    !Taken(users, Email, email) && !Taken(users, Username, username) && !Taken(users, Phone, phone)
  }

  /** The register route's checks, in the route's order; None when all pass. */
  function CheckRegistration(users: seq<User>, username: string, email: string, phone: string, password: string)
    : (r: Option<RegisterError>)
    ensures r == Some(EmailAlreadyRegistered) <==> Taken(users, Email, email)
    ensures r == Some(UsernameAlreadyTaken) <==> !Taken(users, Email, email) && Taken(users, Username, username)
    ensures r == Some(PhoneAlreadyRegistered) <==>
      !Taken(users, Email, email) && !Taken(users, Username, username) && Taken(users, Phone, phone)
    ensures r == Some(PhoneNotTenDigits) <==> NoneTaken(users, username, email, phone) && !PhoneRule(phone)
    ensures r == Some(PasswordTooWeak) <==>
      NoneTaken(users, username, email, phone) && PhoneRule(phone) && !PasswordAccepted(password)
    ensures r == None <==>
      NoneTaken(users, username, email, phone) && PhoneRule(phone) && PasswordAccepted(password)
  {
    PhoneValidIff(phone);
    PasswordMatchesIff(password);
    if Taken(users, Email, email) then Some(EmailAlreadyRegistered)
    else if Taken(users, Username, username) then Some(UsernameAlreadyTaken)
    else if Taken(users, Phone, phone) then Some(PhoneAlreadyRegistered)
    else if !PhoneValid(phone) then Some(PhoneNotTenDigits)
    else if !PasswordMatches(password) then Some(PasswordTooWeak)
    else None
  }

  /** The row a successful registration stores: the password only as a hash. */
  function NewUser(username: string, email: string, phone: string, password: string, salt: string): (u: UserFields)
    ensures u.username == username && u.email == email && u.phone == phone
    ensures forall q :: Security.CheckPasswordHash(u.password, q) <==> q == password
  {
    var u := UserFields(username, email, phone, Security.GeneratePasswordHash(password, salt));
    assert forall q :: Security.CheckPasswordHash(u.password, q) <==> q == password by {
      forall q ensures Security.CheckPasswordHash(u.password, q) <==> q == password {
        Security.VerifyHash(password, salt, q);
      }
    }
    u
  }

  /** The login route's decision: the first user with that email, if the
      password verifies against the stored hash, is signed in. */
  function Authenticate(users: seq<User>, email: string, password: string): (r: Option<SessionUser>)
    ensures r.Some? ==>
      exists i :: (0 <= i < |users| && users[i].fields.email == email
                   && Security.CheckPasswordHash(users[i].fields.password, password)
                   && r.value == SessionUser(users[i].id, users[i].fields.username))
    ensures !Taken(users, Email, email) ==> r == None
    ensures DistinctColumn(users, Email) ==>
      forall i :: 0 <= i < |users| && users[i].fields.email == email ==>
        r == if Security.CheckPasswordHash(users[i].fields.password, password)
             then Some(SessionUser(users[i].id, users[i].fields.username)) else None
  {
    match First(users, (u: User) => u.fields.email == email)
    case None => None
    case Some(u) =>
      if Security.CheckPasswordHash(u.fields.password, password)
      then Some(SessionUser(u.id, u.fields.username))
      else None
  }

  /** A successful registration keeps id, username, email and phone unique. */
  lemma RegistrationKeepsUsersValid(users: seq<User>, username: string, email: string, phone: string,
                                    password: string, salt: string)
    requires UsersValid(users)
    requires CheckRegistration(users, username, email, phone, password) == None
    ensures UsersValid(Insert(users, NewUser(username, email, phone, password, salt)))
  {
    var u := NewUser(username, email, phone, password, salt);
    var r := Insert(users, u);
    var n := |users|;
    assert forall i :: 0 <= i < n ==> r[i] == users[i] by {
      assert r[..n] == users;
      forall i | 0 <= i < n ensures r[i] == users[i] { assert r[..n][i] == r[i]; }
    }
    forall c: UserColumn ensures DistinctColumn(r, c) {
      forall i, j | 0 <= i < |r| && 0 <= j < |r| && ColumnOf(r[i].fields, c) == ColumnOf(r[j].fields, c)
        ensures i == j
      {
        if i == n && j < n {
          assert ColumnOf(users[j].fields, c) == ColumnOf(u, c);
          assert Taken(users, c, ColumnOf(u, c));
        } else if j == n && i < n {
          assert ColumnOf(users[i].fields, c) == ColumnOf(u, c);
          assert Taken(users, c, ColumnOf(u, c));
        }
      }
    }
  }

  /** After a successful registration, logging in with the same email and
      password signs the new user in, and any other password is refused. */
  lemma RegisteredUserCanLogin(users: seq<User>, username: string, email: string, phone: string,
                               password: string, salt: string, wrong: string)
    requires UsersValid(users)
    requires CheckRegistration(users, username, email, phone, password) == None
    requires wrong != password
    ensures var r := Insert(users, NewUser(username, email, phone, password, salt));
      Authenticate(r, email, password) == Some(SessionUser(r[|users|].id, username))
      && Authenticate(r, email, wrong) == None
  {
    var r := Insert(users, NewUser(username, email, phone, password, salt));
    RegistrationKeepsUsersValid(users, username, email, phone, password, salt);
    assert r[|users|].fields.email == email;
  }
}
