/**
 * src/App.tsx: the drawer-width rule, the list labels, logout, and the
 * effect that reloads the projection from the store.
 */
module App {
  import opened Common
  import opened Services
  import AuthContext
  import CredentialsContext

  const DrawerWidthPx := 240
  const NoName := "Sin nombre"
  const NoUsername := "Sin usuario"

  /** The drawer is hidden on the login and register pages only. */
  function DrawerWidth(pathname: string): (width: nat)
    ensures width == 0 <==> pathname == "/login" || pathname == "/register"
    ensures width != 0 ==> width == DrawerWidthPx
  {
    if pathname == "/login" || pathname == "/register" then 0 else DrawerWidthPx
  }

  /** A list entry's title: never blank, and the credential's name whenever it has one. */
  function ListLabel(c: Credential): (title: string)
    ensures title != ""
    ensures c.name != "" ==> title == c.name
    ensures c.name == "" ==> title == NoName
  {
    if c.name != "" then c.name else NoName
  }

  /** A list entry's subtitle: never blank, and the site username whenever there is one. */
  function ListSubtitle(c: Credential): (subtitle: string)
    ensures subtitle != ""
    ensures c.username != "" ==> subtitle == c.username
    ensures c.username == "" ==> subtitle == NoUsername
  {
    if c.username != "" then c.username else NoUsername
  }

  /** The logout control, shown only while signed in, resets the session to its initial value. */
  method Logout(session: AuthContext.AuthProvider)
    requires session.auth.isAuthenticated
    modifies session
    ensures session.auth == AuthContext.InitialAuth()
    ensures !session.auth.isAuthenticated
  {
    session.auth := AuthContext.InitialAuth();
  }

  /**
   * The `CredentialsList` effect: only while signed in, fetch the signed-in
   * user's rows and replace the projection with them; a failed fetch leaves
   * the projection as it was and surfaces the error.
   */
  method ReloadCredentials(db: Store, session: AuthContext.AuthProvider,
                           provider: CredentialsContext.CredentialsProvider)
    returns (toast: Option<string>)
    modifies provider
    ensures !session.auth.isAuthenticated ==> toast == None && provider.credentials == old(provider.credentials)
    ensures session.auth.isAuthenticated && !db.loaded
            ==> toast == Some(DbNotLoaded) && provider.credentials == old(provider.credentials)
    ensures session.auth.isAuthenticated && db.loaded
            ==> toast == None && provider.credentials == OwnedBy(db.credentials, session.auth.username)
  {
    toast := None;
    if session.auth.isAuthenticated {
      var result := db.GetCredentials(session.auth.username);
      if result.Err? {
        toast := Some(result.message);
        return;
      }
      provider.credentials := result.value;
    }
  }
}
