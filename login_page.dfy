/** src/Pages/Login.tsx: the login handler. */
module LoginPage {
  import opened Common
  import Crypto
  import opened Services
  import AuthContext

  const FormError := "El usuario o la contraseña no fueron ingresados correctamente"

  /**
   * `Login.handleSubmit`: both fields must be strings; the session signs in
   * with the profile `userLogin` resolves to, and is left as it was, with the
   * error surfaced, when `userLogin` fails.
   */
  method HandleSubmit(db: Store, session: AuthContext.AuthProvider, crypto: Crypto.Provider,
                      username: FormValue, password: FormValue)
    returns (toast: Option<string>)
    requires db.Valid()
    modifies session
    ensures !(username.Text? && password.Text?) ==> toast == Some(FormError) && session.auth == old(session.auth)
    ensures username.Text? && password.Text? ==>
      match db.UserLogin(crypto, username.text, password.text)
      case Ok(profile) => toast == None && session.auth == AuthContext.SignedIn(old(session.auth), profile)
      case Err(message) => toast == Some(message) && session.auth == old(session.auth)
    ensures session.auth != old(session.auth) ==>
      && username.Text? && password.Text?
      && username.text in db.users
      && crypto.verify(db.users[username.text].password, password.text)
      && session.auth.isAuthenticated
      && session.auth.username == username.text
  {
    if !(username.Text? && password.Text?) {
      toast := Some(FormError);
      return;
    }
    var result := db.UserLogin(crypto, username.text, password.text);
    if result.Err? {
      toast := Some(result.message);
      return;
    }
    session.auth := AuthContext.SignedIn(session.auth, result.value);
    toast := None;
  }
}
