/**
 * src/services.ts: the vault's store operations over a SQLite database with
 * two tables. The database connection is the flag `loaded`, the `users` table
 * is a map keyed by username, and the `credentials` table is the sequence of
 * its rows in store order, keyed by the store-assigned `id`.
 */
module Services {
  import opened Common
  import Crypto

  const DbNotLoaded := "Base de datos no ha sido cargada"
  const UserExists := "Nombre de usuario ya existe"
  const UserNotFound := "Nombre de usuario no encontrado"
  const WrongPassword := "Usuario o contraseña incorrecta"
  const CredentialNotFound := "Credencial no encontrada"

  /** A row of `users`; `password` holds the argon2 digest. */
  datatype UserRow = UserRow(id: int, first_name: string, last_name: string, email: string,
                             password: string, username: string)

  /** The argument of `registerUser`; an absent name defaults to "". */
  datatype NewUser = NewUser(username: string, password: string, email: string,
                             first_name: Option<string>, last_name: Option<string>)

  /** A user as handed back to the pages: every column but the password. */
  datatype Profile = Profile(id: int, username: string, email: string,
                             first_name: string, last_name: string)

  /** A row of `credentials`; `password` holds the ciphertext, `user_username` the owner. */
  datatype Credential = Credential(id: int, username: string, user_username: string,
                                   password: string, url: string, name: string)

  /** The argument of `createCredential` (a credential without its id), password in plaintext. */
  datatype NewCredential = NewCredential(username: string, user_username: string,
                                         password: string, url: string, name: string)

  /** What `getUser` resolves to: the not-found sentinel string or the matching row. */
  datatype UserLookup = NotFound(message: string) | Found(user: UserRow)

  function PublicProfile(u: UserRow): (p: Profile)
    ensures p.id == u.id && p.username == u.username && p.email == u.email
    ensures p.first_name == u.first_name && p.last_name == u.last_name
  {
    Profile(u.id, u.username, u.email, u.first_name, u.last_name)
  }

  // ---------------------------------------------------------------------------
  // The credentials table as a sequence of rows

  predicate HasId(rows: seq<Credential>, id: int) {
    exists i :: 0 <= i < |rows| && rows[i].id == id
  }

  /** The primary-key property of `credentials.id`. */
  predicate UniqueIds(rows: seq<Credential>) {
    forall i, j :: 0 <= i < j < |rows| ==> rows[i].id != rows[j].id
  }

  /** `SELECT * FROM credentials WHERE user_username = ?`, in store order. */
  function OwnedBy(rows: seq<Credential>, owner: string): (r: seq<Credential>)
    ensures |r| <= |rows|
    ensures forall c :: c in r <==> c in rows && c.user_username == owner
  {
    if rows == [] then []
    else (if rows[0].user_username == owner then [rows[0]] else []) + OwnedBy(rows[1..], owner)
  }

  /** `rowsAffected` of a statement keyed by `id = ?`: the number of rows with that id. */
  function CountId(rows: seq<Credential>, id: int): (n: nat)
    ensures n <= |rows|
    ensures n == 0 <==> !HasId(rows, id)
  {
    if rows == [] then 0
    else (if rows[0].id == id then 1 else 0) + CountId(rows[1..], id)
  }

  /** `DELETE FROM credentials WHERE id = ?` (also the page's `filter(c => c.id !== id)`). */
  function RemoveId(rows: seq<Credential>, id: int): (r: seq<Credential>)
    ensures |r| + CountId(rows, id) == |rows|
    ensures forall c :: c in r <==> c in rows && c.id != id
  {
    if rows == [] then []
    else (if rows[0].id == id then [] else [rows[0]]) + RemoveId(rows[1..], id)
  }

  /** `UPDATE credentials SET username, name, password, url WHERE id = ?`. */
  function UpdateWhere(rows: seq<Credential>, id: int, username: string, name: string,
                       password: string, url: string): (r: seq<Credential>)
    ensures |r| == |rows|
    ensures forall i :: 0 <= i < |rows| ==>
      r[i] == if rows[i].id == id
              then rows[i].(username := username, name := name, password := password, url := url)
              else rows[i]
  {
    if rows == [] then []
    else [if rows[0].id == id
          then rows[0].(username := username, name := name, password := password, url := url)
          else rows[0]]
         + UpdateWhere(rows[1..], id, username, name, password, url)
  }

  // ---------------------------------------------------------------------------
  // Lemmas about the table operations

  /** With a primary key, a statement keyed by id affects at most one row. */
  lemma {:induction false} UniqueIdsAffectAtMostOne(rows: seq<Credential>, id: int)
    requires UniqueIds(rows)
    ensures CountId(rows, id) <= 1
  {
    if rows != [] {
      UniqueIdsAffectAtMostOne(rows[1..], id);
      if rows[0].id == id {
        assert !HasId(rows[1..], id) by {
          forall i | 0 <= i < |rows[1..]| ensures rows[1..][i].id != id {
            assert rows[1..][i] == rows[i + 1];
          }
        }
      }
    }
  }

  /** Deleting an id that no row has leaves the table as it was. */
  lemma {:induction false} RemoveAbsentId(rows: seq<Credential>, id: int)
    requires !HasId(rows, id)
    ensures RemoveId(rows, id) == rows
  {
    if rows != [] {
      assert !HasId(rows[1..], id) by {
        forall i | 0 <= i < |rows[1..]| ensures rows[1..][i].id != id {
          assert rows[1..][i] == rows[i + 1];
        }
      }
      RemoveAbsentId(rows[1..], id);
      assert rows == [rows[0]] + rows[1..];
    }
  }

  /** After a delete no row has the id, so a second delete or an edit affects nothing. */
  lemma RemovedIdIsGone(rows: seq<Credential>, id: int)
    ensures CountId(RemoveId(rows, id), id) == 0
  {
  }

  lemma {:induction false} RemoveIdKeepsUnique(rows: seq<Credential>, id: int)
    requires UniqueIds(rows)
    ensures UniqueIds(RemoveId(rows, id))
  {
    if rows != [] {
      RemoveIdKeepsUnique(rows[1..], id);
      var tail := RemoveId(rows[1..], id);
      if rows[0].id != id {
        forall k | 0 <= k < |tail| ensures tail[k].id != rows[0].id {
          assert tail[k] in rows[1..];
          var j :| 0 <= j < |rows[1..]| && rows[1..][j] == tail[k];
          assert rows[j + 1] == tail[k];
        }
        assert RemoveId(rows, id) == [rows[0]] + tail;
      }
    }
  }

  /** The owner's rows of a table with unique ids have unique ids too. */
  lemma {:induction false} OwnedByKeepsUnique(rows: seq<Credential>, owner: string)
    requires UniqueIds(rows)
    ensures UniqueIds(OwnedBy(rows, owner))
  {
    if rows != [] {
      OwnedByKeepsUnique(rows[1..], owner);
      var tail := OwnedBy(rows[1..], owner);
      if rows[0].user_username == owner {
        forall k | 0 <= k < |tail| ensures tail[k].id != rows[0].id {
          assert tail[k] in rows[1..];
          var j :| 0 <= j < |rows[1..]| && rows[1..][j] == tail[k];
          assert rows[j + 1] == tail[k];
        }
        assert OwnedBy(rows, owner) == [rows[0]] + tail;
      }
    }
  }

  lemma {:induction false} UpdateWhereKeepsUnique(rows: seq<Credential>, id: int, username: string, name: string,
                               password: string, url: string)
    requires UniqueIds(rows)
    ensures UniqueIds(UpdateWhere(rows, id, username, name, password, url))
  {
    var r := UpdateWhere(rows, id, username, name, password, url);
    forall i, j | 0 <= i < j < |r| ensures r[i].id != r[j].id {
      assert r[i].id == rows[i].id && r[j].id == rows[j].id;
    }
  }

  /** Reading by owner distributes over appending rows. */
  lemma {:induction false} OwnedByAppend(a: seq<Credential>, b: seq<Credential>, owner: string)
    ensures OwnedBy(a + b, owner) == OwnedBy(a, owner) + OwnedBy(b, owner)
  {
    if a == [] {
      assert a + b == b;
    } else {
      assert (a + b)[0] == a[0];
      assert (a + b)[1..] == a[1..] + b;
      OwnedByAppend(a[1..], b, owner);
    }
  }

  /** Reading by owner commutes with deleting by id. */
  lemma {:induction false} OwnedByRemoveId(rows: seq<Credential>, owner: string, id: int)
    ensures OwnedBy(RemoveId(rows, id), owner) == RemoveId(OwnedBy(rows, owner), id)
  {
    if rows != [] {
      OwnedByRemoveId(rows[1..], owner, id);
      var head := if rows[0].id == id then [] else [rows[0]];
      OwnedByAppend(head, RemoveId(rows[1..], id), owner);
      var owned := if rows[0].user_username == owner then [rows[0]] else [];
      RemoveIdAppend(owned, OwnedBy(rows[1..], owner), id);
    }
  }

  lemma {:induction false} RemoveIdAppend(a: seq<Credential>, b: seq<Credential>, id: int)
    ensures RemoveId(a + b, id) == RemoveId(a, id) + RemoveId(b, id)
  {
    if a == [] {
      assert a + b == b;
    } else {
      assert (a + b)[0] == a[0];
      assert (a + b)[1..] == a[1..] + b;
      RemoveIdAppend(a[1..], b, id);
    }
  }

  /** Reading by owner commutes with an update that keeps every row's owner. */
  lemma {:induction false} OwnedByUpdateWhere(rows: seq<Credential>, owner: string, id: int,
                                              username: string, name: string,
                                              password: string, url: string)
    ensures OwnedBy(UpdateWhere(rows, id, username, name, password, url), owner)
         == UpdateWhere(OwnedBy(rows, owner), id, username, name, password, url)
  {
    if rows != [] {
      var r := UpdateWhere(rows, id, username, name, password, url);
      assert r[1..] == UpdateWhere(rows[1..], id, username, name, password, url);
      OwnedByUpdateWhere(rows[1..], owner, id, username, name, password, url);
      var owned := if rows[0].user_username == owner then [rows[0]] else [];
      UpdateWhereAppend(owned, OwnedBy(rows[1..], owner), id, username, name, password, url);
    }
  }

  lemma {:induction false} UpdateWhereAppend(a: seq<Credential>, b: seq<Credential>, id: int, username: string,
                          name: string, password: string, url: string)
    ensures UpdateWhere(a + b, id, username, name, password, url)
         == UpdateWhere(a, id, username, name, password, url)
          + UpdateWhere(b, id, username, name, password, url)
  {
    if a == [] {
      assert a + b == b;
    } else {
      assert (a + b)[0] == a[0];
      assert (a + b)[1..] == a[1..] + b;
      UpdateWhereAppend(a[1..], b, id, username, name, password, url);
    }
  }

  /** In a table with a primary key, the row holding a given credential's id is that credential. */
  lemma {:induction false} RowOfId(rows: seq<Credential>, c: Credential)
    requires UniqueIds(rows) && c in rows
    ensures forall x :: x in rows && x.id == c.id ==> x == c
  {
    forall x | x in rows && x.id == c.id ensures x == c {
      var i :| 0 <= i < |rows| && rows[i] == x;
      var j :| 0 <= j < |rows| && rows[j] == c;
      assert i == j;
    }
  }

  // ---------------------------------------------------------------------------
  // The store

  class Store {
    /** `db !== undefined`: `load` has succeeded. */
    var loaded: bool
    var users: map<string, UserRow>
    var credentials: seq<Credential>
    /** Fresh-rowid allocators standing in for `lastInsertId`. */
    var nextUserId: int
    var nextCredentialId: int

    ghost predicate Valid()
      reads this
    {
      && (forall name :: name in users ==> users[name].username == name && users[name].id < nextUserId)
      && (forall i :: 0 <= i < |credentials| ==> credentials[i].id < nextCredentialId)
      && UniqueIds(credentials)
    }

    /** A process starts with the module variable `db` unset. */
    constructor ()
      ensures Valid() && !loaded && users == map[] && credentials == []
    {
      loaded := false;
      users := map[];
      credentials := [];
      nextUserId := 1;
      nextCredentialId := 1;
    }

    /** `load`: a successful open sets `db`; a failure is only logged. */
    method Load(succeeded: bool)
      requires Valid()
      modifies this`loaded
      ensures Valid() && loaded == (old(loaded) || succeeded)
    {
      if succeeded {
        loaded := true;
      }
    }

    /** `checkDb`: fails with the not-loaded message exactly when `db` is unset. */
    function CheckDb(): (r: Result<()>)
      reads this
      ensures r.Ok? <==> loaded
      ensures r.Err? ==> r.message == DbNotLoaded
    {
      if !loaded then Err(DbNotLoaded) else Ok(())
    }

    /** `SELECT * from users WHERE username = $1`, first row or the sentinel. */
    function LookupUser(username: string): (r: UserLookup)
      reads this
      ensures r.NotFound? <==> username !in users
      ensures r.NotFound? ==> r.message == UserNotFound
      ensures r.Found? ==> r.user == users[username]
      ensures r.Found? && Valid() ==> r.user.username == username
    {
      if username in users then Found(users[username]) else NotFound(UserNotFound)
    }

    /** `getUser`. */
    function GetUser(username: string): (r: Result<UserLookup>)
      reads this
      ensures r.Err? <==> !loaded
      ensures r.Err? ==> r.message == DbNotLoaded
      ensures r.Ok? ==> (r.value.NotFound? <==> username !in users)
      ensures r.Ok? && r.value.NotFound? ==> r.value.message == UserNotFound
      ensures r.Ok? && r.value.Found? ==> r.value.user == users[username]
    {
      if !loaded then Err(DbNotLoaded) else Ok(LookupUser(username))
    }

    /** `userLogin`: lookup, `verify`, then the row without its password. */
    function UserLogin(crypto: Crypto.Provider, username: string, password: string): (r: Result<Profile>)
      reads this
      ensures !loaded ==> r == Err(DbNotLoaded)
      ensures loaded && username !in users ==> r == Err(UserNotFound)
      ensures loaded && username in users && !crypto.verify(users[username].password, password)
              ==> r == Err(WrongPassword)
      ensures r.Ok? <==> loaded && username in users && crypto.verify(users[username].password, password)
      ensures r.Ok? ==> r.value == PublicProfile(users[username])
    {
      if !loaded then Err(DbNotLoaded)
      else match LookupUser(username)
        case NotFound(message) => Err(message)
        case Found(row) =>
          if !crypto.verify(row.password, password) then Err(WrongPassword)
          else Ok(PublicProfile(row))
    }

    /** `getCredentials`: the owner's rows in store order. */
    function GetCredentials(owner: string): (r: Result<seq<Credential>>)
      reads this
      ensures r.Err? <==> !loaded
      ensures r.Err? ==> r.message == DbNotLoaded
      ensures r.Ok? ==> forall c :: c in r.value <==> c in credentials && c.user_username == owner
    {
      if !loaded then Err(DbNotLoaded) else Ok(OwnedBy(credentials, owner))
    }

    /** `registerUser`: duplicate check, hash, insert. */
    method RegisterUser(crypto: Crypto.Provider, salt: string, user: NewUser) returns (r: Result<Profile>)
      requires Valid()
      modifies this`users, this`nextUserId
      ensures Valid()
      ensures !loaded ==> r == Err(DbNotLoaded)
      ensures loaded && user.username in old(users) ==> r == Err(UserExists)
      ensures r.Err? ==> users == old(users)
      ensures r.Ok? <==> loaded && user.username !in old(users)
      ensures r.Ok? ==>
        var first := if user.first_name.Some? then user.first_name.value else "";
        var last := if user.last_name.Some? then user.last_name.value else "";
        && r.value == Profile(r.value.id, user.username, user.email, first, last)
        && (forall name :: name in old(users) ==> old(users)[name].id != r.value.id)
        && users == old(users)[user.username :=
             UserRow(r.value.id, first, last, user.email, crypto.hash(user.password, salt), user.username)]
      ensures r.Ok? && Crypto.Lawful(crypto) ==> UserLogin(crypto, user.username, user.password) == Ok(r.value)
    {
      if CheckDb().Err? {
        r := Err(DbNotLoaded);
        return;
      }
      var existing := LookupUser(user.username);
      if existing.Found? {
        r := Err(UserExists);
        return;
      }
      var digest := crypto.hash(user.password, salt);
      var first := if user.first_name.Some? then user.first_name.value else "";
      var last := if user.last_name.Some? then user.last_name.value else "";
      var id := nextUserId;
      users := users[user.username := UserRow(id, first, last, user.email, digest, user.username)];
      nextUserId := nextUserId + 1;
      r := Ok(Profile(id, user.username, user.email, first, last));
    }

    /** `createCredential`: encrypt, insert, return the inserted row. */
    method CreateCredential(crypto: Crypto.Provider, input: NewCredential) returns (r: Result<Credential>)
      requires Valid()
      modifies this`credentials, this`nextCredentialId
      ensures Valid()
      ensures r.Err? <==> !loaded
      ensures r.Err? ==> r.message == DbNotLoaded && credentials == old(credentials)
      ensures r.Ok? ==>
        && !HasId(old(credentials), r.value.id)
        && r.value == Credential(r.value.id, input.username, input.user_username,
                                 crypto.encrypt(input.password), input.url, input.name)
        && credentials == old(credentials) + [r.value]
      ensures r.Ok? && Crypto.Lawful(crypto) ==> crypto.decrypt(r.value.password) == input.password
    {
      if CheckDb().Err? {
        r := Err(DbNotLoaded);
        return;
      }
      var encrypted := crypto.encrypt(input.password);
      var row := Credential(nextCredentialId, input.username, input.user_username, encrypted, input.url, input.name);
      credentials := credentials + [row];
      nextCredentialId := nextCredentialId + 1;
      r := Ok(row);
    }

    /** `deleteCredential`: delete by id, then fail if no row was affected. */
    method DeleteCredential(id: int) returns (r: Result<()>)
      requires Valid()
      modifies this`credentials
      ensures Valid()
      ensures !loaded ==> r == Err(DbNotLoaded)
      ensures loaded && !HasId(old(credentials), id) ==> r == Err(CredentialNotFound)
      ensures r.Ok? <==> loaded && HasId(old(credentials), id)
      ensures r.Err? ==> credentials == old(credentials)
      ensures r.Ok? ==> && credentials == RemoveId(old(credentials), id)
                        && |credentials| == |old(credentials)| - 1
    {
      if CheckDb().Err? {
        r := Err(DbNotLoaded);
        return;
      }
      var rowsAffected := CountId(credentials, id);
      UniqueIdsAffectAtMostOne(credentials, id);
      if rowsAffected == 0 {
        RemoveAbsentId(credentials, id);
      }
      RemoveIdKeepsUnique(credentials, id);
      credentials := RemoveId(credentials, id);
      if rowsAffected == 0 {
        r := Err(CredentialNotFound);
        return;
      }
      r := Ok(());
    }

    /**
     * `editCredential`: re-encrypt unconditionally, rewrite username, name,
     * password and url of the row with that id, then fail if no row was affected.
     * The returned record is the argument with the new ciphertext.
     */
    method EditCredential(crypto: Crypto.Provider, c: Credential) returns (r: Result<Credential>)
      requires Valid()
      modifies this`credentials
      ensures Valid()
      ensures !loaded ==> r == Err(DbNotLoaded)
      ensures loaded && !HasId(old(credentials), c.id) ==> r == Err(CredentialNotFound)
      ensures r.Ok? <==> loaded && HasId(old(credentials), c.id)
      ensures r.Err? ==> credentials == old(credentials)
      ensures r.Ok? ==>
        && credentials == UpdateWhere(old(credentials), c.id, c.username, c.name, crypto.encrypt(c.password), c.url)
        && r.value == c.(password := crypto.encrypt(c.password))
      ensures r.Ok? && Crypto.Lawful(crypto) ==> crypto.decrypt(r.value.password) == c.password
    {
      if CheckDb().Err? {
        r := Err(DbNotLoaded);
        return;
      }
      var encrypted := crypto.encrypt(c.password);
      var rowsAffected := CountId(credentials, c.id);
      UpdateWhereKeepsUnique(credentials, c.id, c.username, c.name, encrypted, c.url);
      credentials := UpdateWhere(credentials, c.id, c.username, c.name, encrypted, c.url);
      if rowsAffected == 0 {
        assert credentials == old(credentials);
        r := Err(CredentialNotFound);
        return;
      }
      r := Ok(Credential(c.id, c.username, c.user_username, encrypted, c.url, c.name));
    }
  }
}
