/** The offline credential check: a fixed account table and `fakeLogin`'s lookup. The delay
    before answering is left out. */
module FakeApi {
  import opened Wrappers

  datatype Account = Account(username: string, password: string, name: string, role: string)

  /** The user a successful login returns: the account without its password. */
  datatype PublicUser = PublicUser(username: string, name: string, role: string)

  const Users: seq<Account> := [
    Account("admin", "admin123", "Admin", "admin"),
    Account("cliente", "cliente123", "Cliente", "client")
  ]

  /** Index `i` holds the first account named `username`. */
  predicate FirstNamed(accounts: seq<Account>, username: string, i: int) {
    0 <= i < |accounts| && accounts[i].username == username &&
    forall j :: 0 <= j < i ==> accounts[j].username != username
  }

  /** `USERS.find(x => x.username === username)`: the first account with that username. */
  function Find(accounts: seq<Account>, username: string): (r: Option<Account>)
    ensures r.None? <==> forall a :: a in accounts ==> a.username != username
    ensures r.Some? ==> r.value in accounts && r.value.username == username
    ensures r.Some? ==> exists i :: FirstNamed(accounts, username, i) && accounts[i] == r.value
  {
    if accounts == [] then None
    else if accounts[0].username == username then Some(accounts[0])
    else
      var r := Find(accounts[1..], username);
      assert forall a :: a in accounts[1..] ==> a in accounts;
      assert r.Some? ==> exists i :: FirstNamed(accounts, username, i) && accounts[i] == r.value by {
        if r.Some? {
          var i :| FirstNamed(accounts[1..], username, i) && accounts[1..][i] == r.value;
          assert accounts[i + 1] == r.value;
          forall j | 0 <= j < i + 1 ensures accounts[j].username != username {
            if j > 0 { assert accounts[j] == accounts[1..][j - 1]; }
          }
          assert FirstNamed(accounts, username, i + 1);
        }
      }
      r
  }

  datatype LoginResult = Failed(error: string) | Ok(user: PublicUser)

  /** `fakeLogin`: success when the account found by username has exactly that password, and
      then the account's public fields; otherwise a fixed error. */
  function FakeLogin(username: string, password: string): (r: LoginResult)
    ensures r.Ok? <==> Find(Users, username).Some? && Find(Users, username).value.password == password
    ensures r.Ok? ==> var a := Find(Users, username).value;
      r.user == PublicUser(a.username, a.name, a.role) && r.user.username == username
    ensures r.Failed? ==> r.error == "Usuario o contraseña inválidos"
  {
    match Find(Users, username)
    case None => Failed("Usuario o contraseña inválidos")
    case Some(a) =>
      if a.password != password then Failed("Usuario o contraseña inválidos")
      else Ok(PublicUser(a.username, a.name, a.role))
  }

  /** Usernames in the table are distinct, so a login succeeds exactly for a listed pair. */
  lemma LoginIffListed(username: string, password: string)
    ensures FakeLogin(username, password).Ok? <==>
      exists a :: a in Users && a.username == username && a.password == password
  {
    assert Users[0].username != Users[1].username;
  }

  /** The two listed accounts sign in with their roles. */
  lemma KnownAccounts()
    ensures FakeLogin("admin", "admin123") == Ok(PublicUser("admin", "Admin", "admin"))
    ensures FakeLogin("cliente", "cliente123") == Ok(PublicUser("cliente", "Cliente", "client"))
    ensures FakeLogin("admin", "cliente123").Failed?
  {
    assert Users[0].username != "cliente";
  }
}
