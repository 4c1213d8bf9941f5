/** src/contexts/credentials.tsx: the state cell holding the credential projection. */
module CredentialsContext {
  import Services

  class CredentialsProvider {
    /** The in-memory copy of the signed-in user's credential rows. */
    var credentials: seq<Services.Credential>

    /** Each mount of the provider starts with no credentials. */
    constructor ()
      ensures credentials == []
    {
      credentials := [];
    }
  }
}
