/**
 * src/contexts/auth.tsx: the session record and the state cell that holds it.
 * `Auth` has no password or digest field: only the public profile is kept.
 */
module AuthContext {
  import Services

  datatype Auth = Auth(isAuthenticated: bool, username: string, email: string,
                       firstName: string, lastName: string)

  /** `getInitialAuth`: signed out, every profile field empty. */
  function InitialAuth(): (a: Auth)
    ensures !a.isAuthenticated
    ensures a.username == "" && a.email == "" && a.firstName == "" && a.lastName == ""
  {
    Auth(false, "", "", "", "")
  }

  /**
   * `{ ...auth, isAuthenticated: true, username, email, firstName, lastName }`
   * as written by the login and register pages: every field is overwritten.
   */
  function SignedIn(auth: Auth, p: Services.Profile): (a: Auth)
    ensures a.isAuthenticated
    ensures a.username == p.username && a.email == p.email
    ensures a.firstName == p.first_name && a.lastName == p.last_name
  {
    auth.(isAuthenticated := true, username := p.username, email := p.email,
          firstName := p.first_name, lastName := p.last_name)
  }

  /** `AuthProvider`: one state cell seeded with `getInitialAuth()`. */
  class AuthProvider {
    var auth: Auth

    constructor ()
      ensures auth == InitialAuth()
    {
      auth := InitialAuth();
    }
  }
}
