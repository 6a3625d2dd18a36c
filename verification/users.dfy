/** `UserService`: accounts with a unique user name and a password checked
    by plain string equality. */
module Users {
  import opened Common
  import opened Store

  /** A row of the users table, with the three fields the service sets. */
  datatype User = User(username: string, password: string, nickname: string)

  /** The `IllegalArgumentException`s the user service throws. */
  datatype UserError = UsernameTaken | NoSuchUser | WrongPassword

  /** `existsByUsername`. */
  predicate NameTaken(users: Table<User>, username: string)
  {
    exists id :: id in users.rows && users.rows[id].username == username
  }

  /** No two accounts share a user name. */
  predicate UniqueNames(users: Table<User>)
  {
    forall a, b :: a in users.rows && b in users.rows && a != b ==> users.rows[a].username != users.rows[b].username
  }

  /** `findByUsername`: the account with that name, if any (the first in id
      order, which under unique names is the only one). */
  function FindByUsername(users: Table<User>, username: string): (r: Option<int>)
    requires users.Valid()
    ensures r.None? <==> !NameTaken(users, username)
    ensures r.Some? ==> r.value in users.rows && users.rows[r.value].username == username
  {
    var ids := Where(users, (u: User) => u.username == username);
    if |ids| == 0 then None
    else
      assert ids[0] in ids;
      Some(ids[0])
  }

  /** `register`: a taken user name is refused; otherwise the account is stored. */
  function Register(users: Table<User>, username: string, password: string, nickname: string): (r: Result<(Table<User>, int), UserError>)
    requires users.Valid()
    ensures r.Err? <==> NameTaken(users, username)
    ensures r.Err? ==> r.error == UsernameTaken
    ensures r.Ok? ==> var (after, id) := r.value;
      after.Valid() && id !in users.rows && after.rows == users.rows[id := User(username, password, nickname)]
  {
    if NameTaken(users, username) then Err(UsernameTaken)
    else Ok(Insert(users, User(username, password, nickname)))
  }

  /** `login`: an unknown name and a wrong password are errors; otherwise the
      stored account is returned. */
  function Login(users: Table<User>, username: string, password: string): (r: Result<User, UserError>)
    requires users.Valid()
    ensures r == Err(NoSuchUser) <==> !NameTaken(users, username)
    ensures r.Ok? ==>
      r.value.username == username && r.value.password == password &&
      exists id :: id in users.rows && users.rows[id] == r.value
    ensures r.Err? ==> r.error != UsernameTaken
  {
    match FindByUsername(users, username)
    case None => Err(NoSuchUser)
    case Some(id) =>
      var user := users.rows[id];
      if user.password != password then Err(WrongPassword) else Ok(user)
  }

  /** Successful registrations keep user names unique. */
  lemma RegisterKeepsNamesUnique(users: Table<User>, username: string, password: string, nickname: string)
    requires users.Valid() && UniqueNames(users)
    requires Register(users, username, password, nickname).Ok?
    ensures UniqueNames(Register(users, username, password, nickname).value.0)
  {
    var (after, id) := Register(users, username, password, nickname).value;
    forall a, b | a in after.rows && b in after.rows && a != b
      ensures after.rows[a].username != after.rows[b].username
    {
      if a == id {
        assert b in users.rows && users.rows[b].username != username;
      } else if b == id {
        assert a in users.rows && users.rows[a].username != username;
      }
    }
  }

  /** Under unique names, login with the name finds the one account of that name. */
  lemma LoginFindsTheAccount(users: Table<User>, id: int, password: string)
    requires users.Valid() && UniqueNames(users) && id in users.rows
    ensures Login(users, users.rows[id].username, password) ==
      if users.rows[id].password == password then Ok(users.rows[id]) else Err(WrongPassword)
  {
    var found := FindByUsername(users, users.rows[id].username);
    assert found.Some?;
    assert found.value == id;
  }

  /** A new account can log in with its password and with no other. */
  lemma RegisterThenLogin(users: Table<User>, username: string, password: string, nickname: string, attempt: string)
    requires users.Valid() && UniqueNames(users)
    requires Register(users, username, password, nickname).Ok?
    ensures var after := Register(users, username, password, nickname).value.0;
      Login(after, username, attempt) ==
        if attempt == password then Ok(User(username, password, nickname)) else Err(WrongPassword)
  {
    var (after, id) := Register(users, username, password, nickname).value;
    RegisterKeepsNamesUnique(users, username, password, nickname);
    LoginFindsTheAccount(after, id, attempt);
  }
}
