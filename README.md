# Password-Manager vault layer, modelled in Dafny

This project models the vault layer of a Tauri desktop password manager. The
layer has four parts:

- **The store** (`src/services.ts`). It keeps a `users` table and a
  `credentials` table in a local SQLite database and exposes eight
  operations. `checkDb` and `getUser` are queries. `registerUser` checks for a
  duplicate, hashes the password and inserts the row. `userLogin` looks the
  user up, verifies the password and strips the digest. `getCredentials`
  returns the owner's rows. `createCredential` encrypts and inserts.
  `deleteCredential` and `editCredential` are keyed by id and fail with
  "Credencial no encontrada" when no row is affected.
- **The projection**. This is the in-memory list of the signed-in user's
  credentials that the pages render. The list page reloads it wholesale
  (`src/App.tsx`). The credential pages update it after each store call
  (`src/Pages/Credentials.tsx`): replace-by-id after an edit, append after a
  create, filter-out-by-id after a delete. The detail view finds its
  credential by the route's `:id`. It toggles between Viewing and Editing,
  and leaving Editing discards local edits.
- **The form checks**. These are the ordered password rule chain
  `validatePassword`, the confirmation check, and the "every field is a
  string" guards of the four form handlers.
- **The session**. The `Auth` record, `getInitialAuth`, the
  login and register transitions, and logout. `Auth` has no password or
  digest field: only the public profile is kept.

## How the model is built

- `common.dfy` (`Common`) has `Option`, `Result` and `FormValue`. `Result`
  carries a value or the message of the error thrown. `FormValue` is what
  `FormData.get` yields; `typeof v === "string"` is `v.Text?`.
- `crypto.dfy` (`Crypto`) models the four host commands `hash`, `verify`,
  `encrypt` and `decrypt` as a record `Provider` of four uninterpreted
  function values. The model assumes only two laws, stated as the predicate
  `Lawful`:
  - every digest verifies its own password (`VerifiesOwnHash`);
  - decryption undoes encryption (`DecryptsOwnCiphertext`).
  Properties that need the laws take `Lawful(crypto)` as a hypothesis.
  `hash` takes the salt as an argument, because the host draws it at random.
- `services.dfy` (`Services`) holds the row datatypes, the table operations
  as sequence functions, and the class `Store`. `Store` has:
  - `loaded`, the `db !== undefined` test;
  - `users`, a map keyed by username;
  - `credentials`, the rows in store order, whose ids are unique;
  - one fresh-id allocator per table, standing in for `lastInsertId`.
  `rowsAffected` is `CountId`, the number of rows with the id. As in the
  source, the DELETE or UPDATE runs first and the zero check comes after it.
  Contracts say only that a new id is fresh, never that ids grow.
- `auth_context.dfy`, `credentials_context.dfy`: the two state cells
  (`AuthProvider`, `CredentialsProvider`).
- `credentials_page.dfy`, `register_page.dfy`, `login_page.dfy`, `app.dfy`:
  one module per page. Each event handler is one method that changes the
  state cells and the store in one atomic step. It returns the error message
  the page would show in a toast, if any.

The central result is projection coherence. Suppose the projection equals
the store's rows for the signed-in owner, `OwnedBy(db.credentials, owner)`.
Then it still does after a successful or failed create, edit or delete. The
reload effect establishes the equality. The lemmas behind this are
`OwnedByAppend`, `OwnedByRemoveId`, `OwnedByUpdateWhere`, `EditKeepsCoherent`
and `CreateKeepsCoherent`. They show that each store statement and the
matching page update commute with reading the table by owner.

The model follows the code as written; in particular:

- `createCredential` itself does not reject an empty password. The only check
  the create form makes is that each field is a string.
- `editCredential`'s UPDATE writes `username`, `name`, `password` and `url`.
  Name and url stay unchanged only because the one caller copies them from
  the shown credential.
- The detail view decrypts the stored password when it mounts, and again
  whenever the stored ciphertext changes. Entering Editing does not decrypt.
- Logout resets only the session record. The projection is dropped because
  its provider unmounts, not because logout clears it.

## Model

| member | source | states |
|---|---|---|
| `Crypto.LawfulProviderExists` | src-tauri/src/main.rs:13-53 | the two assumed laws (verify accepts hash(p, salt) for p; decrypt inverts encrypt) can hold together, so hypotheses built on them are not vacuous |
| `Services.PublicProfile` | src/services.ts:65 | the login result carries every user column except the password |
| `Services.OwnedBy` | src/services.ts:70-74 | the owner query returns exactly the rows whose `user_username` is the owner, never more rows than the table has |
| `Services.CountId` | src/services.ts:103-107 | `rowsAffected` is zero exactly when no row has the id |
| `Services.RemoveId` | src/services.ts:103-106 | delete-by-id keeps exactly the rows with another id; the number removed is `rowsAffected` |
| `Services.UpdateWhere` | src/services.ts:120-123 | the UPDATE keeps length and order, rewrites username, name, password and url of the rows with the id, and leaves their id and owner and every other row unchanged |
| `Services.UniqueIdsAffectAtMostOne` | src/services.ts:120-124 | with a primary key, a statement keyed by id affects at most one row |
| `Services.RemoveAbsentId` | src/services.ts:103-107 | when no row has the id, the DELETE leaves the table unchanged |
| `Services.RemovedIdIsGone` | src/services.ts:101-108 | after a delete no row has the id, so a repeated delete or an edit of it affects no row |
| `Services.RemoveIdKeepsUnique` | src/services.ts:103-106 | a delete keeps ids unique |
| `Services.OwnedByKeepsUnique` | src/services.ts:70-74 | the owner's rows of a table with unique ids have unique ids, so the list the page renders meets the requirement of `LinkOpensCredential` |
| `Services.UpdateWhereKeepsUnique` | src/services.ts:120-123 | an update keeps ids unique |
| `Services.OwnedByAppend` | src/services.ts:86-90 | reading by owner distributes over appending rows |
| `Services.OwnedByRemoveId` | src/services.ts:103-106 | reading by owner commutes with delete-by-id |
| `Services.OwnedByUpdateWhere` | src/services.ts:120-123 | reading by owner commutes with the UPDATE, which never changes an owner |
| `Services.RowOfId` | src/services.ts:120-123 | with unique ids, the only row holding a credential's id is that credential |
| `Services.Store.constructor` | src/services.ts:5 | a process starts with `db` unset and the tables empty and well formed |
| `Services.Store.Load` | src/services.ts:6-14 | `db` becomes set exactly when the open succeeds; a failed open leaves it as it was |
| `Services.Store.CheckDb` | src/services.ts:16-20 | fails, with "Base de datos no ha sido cargada", exactly when `db` is unset |
| `Services.Store.LookupUser` | src/services.ts:43-50 | the not-found sentinel comes back exactly when no row has the username; otherwise the row, whose username is the one asked for |
| `Services.Store.GetUser` | src/services.ts:41-51 | fails when `db` is unset; else the sentinel exactly when no user matches, otherwise the matching row |
| `Services.Store.UserLogin` | src/services.ts:53-66 | unknown user: "Nombre de usuario no encontrado"; verify false: "Usuario o contraseña incorrecta"; succeeds exactly when the user exists and verify accepts, returning the row without its password |
| `Services.Store.GetCredentials` | src/services.ts:68-75 | fails when `db` is unset; else exactly the rows owned by the user |
| `Services.Store.RegisterUser` | src/services.ts:22-39 | not loaded or duplicate username: error and no row inserted; else one row inserted holding hash(password, salt), names defaulting to "", a fresh id, and the password-free profile returned; under the laws a later login with that password returns the same profile |
| `Services.Store.CreateCredential` | src/services.ts:77-99 | not loaded: error, table unchanged; else exactly one row appended, with a fresh id and password encrypt(plaintext), and returned; under the laws it decrypts to the input |
| `Services.Store.DeleteCredential` | src/services.ts:101-108 | not loaded, or no row with the id: error and table unchanged; else exactly that row removed |
| `Services.Store.EditCredential` | src/services.ts:110-126 | not loaded, or no row with the id: error and table unchanged; else it always re-encrypts, the row's username, name, password and url rewritten (owner kept), and the argument with the new ciphertext returned; under the laws it decrypts to the input |
| `AuthContext.InitialAuth` | src/contexts/auth.tsx:11-17 | signed out, with empty username, email, first and last name |
| `AuthContext.SignedIn` | src/Pages/Login.tsx:33-40 | authenticated, with the four profile fields copied from the returned user |
| `AuthContext.AuthProvider.constructor` | src/contexts/auth.tsx:30-31 | the session starts as `getInitialAuth()` |
| `CredentialsContext.CredentialsProvider.constructor` | src/contexts/credentials.tsx:17-19 | the projection starts empty on each mount |
| `CredentialsPage.RouteIdRoundTrip` | src/Pages/Credentials.tsx:46-48 | `parseInt` of an id rendered by `${id}` gives back that id |
| `CredentialsPage.IndexOfId` | src/Pages/Credentials.tsx:46-48 | the position `find` stops at: no earlier entry has the id, and the entry there has it |
| `CredentialsPage.FindById` | src/Pages/Credentials.tsx:46-48 | `find` yields nothing exactly when no entry has the id, else the entry at the first position holding it (`IndexOfId`) |
| `CredentialsPage.Lookup` | src/Pages/Credentials.tsx:46-65 | the detail view shows the first listed credential whose id is the parsed route id, and the not-found view exactly when the route does not parse or no entry has that id |
| `CredentialsPage.ReplaceById` | src/Pages/Credentials.tsx:85-89 | same length and order; the entries with the id become the returned record, all others untouched |
| `CredentialsPage.FindUnique` | src/Pages/Credentials.tsx:46-48 | with unique ids, looking up an entry's id finds that entry |
| `CredentialsPage.LinkOpensCredential` | src/App.tsx:166-170 | a list link `/credentials/${cred.id}` opens the detail view on that credential |
| `CredentialsPage.FindAfterReplace` | src/Pages/Credentials.tsx:84-89 | after a save, the view's id finds the returned record |
| `CredentialsPage.FindAfterAppend` | src/Pages/Credentials.tsx:284-286 | after a create, navigating to the new id finds the new credential |
| `CredentialsPage.FindAfterRemove` | src/Pages/Credentials.tsx:366-370 | after a delete, the id finds nothing |
| `CredentialsPage.EditKeepsCoherent` | src/Pages/Credentials.tsx:79-89 | for an entry of a coherent projection, the store's UPDATE and the page's replace-by-id give the same owner view |
| `CredentialsPage.CreateKeepsCoherent` | src/Pages/Credentials.tsx:277-285 | inserting a row owned by the signed-in user appends it to that user's rows, as the page appends it to the projection |
| `CredentialsPage.CredentialView.UsernameShown` | src/Pages/Credentials.tsx:140 | the username input shows the stored username while Viewing, the local input while Editing |
| `CredentialsPage.CredentialView.PasswordShown` | src/Pages/Credentials.tsx:218 | the password input shows the decrypted stored password while Viewing, the local input while Editing |
| `CredentialsPage.CredentialView.constructor` | src/Pages/Credentials.tsx:189-199 | mounting starts in Viewing, password hidden; for an existing credential, the decrypted stored password is in both password states |
| `CredentialsPage.CredentialView.ToggleEdit` | src/Pages/Credentials.tsx:51-55 | toggles the mode; leaving Editing restores the username to the stored one, the password input to the decrypted value and hides it; entering keeps every input |
| `CredentialsPage.CredentialView.TypeUsername` | src/Pages/Credentials.tsx:140-142 | while Editing, typing sets the username input |
| `CredentialsPage.CredentialView.TypePassword` | src/Pages/Credentials.tsx:219-221 | typing changes the password input only while Editing |
| `CredentialsPage.CredentialView.ToggleShowPassword` | src/Pages/Credentials.tsx:227 | flips password visibility |
| `CredentialsPage.CredentialView.SettleAfterSave` | src/Pages/Credentials.tsx:192-206 | after a save: the mode toggles, the new ciphertext is decrypted into both password states when it changed; when Editing ends the username is the stored one, the password input is the decrypted value and it is hidden; otherwise username, visibility and (unless re-decrypted) the password input are kept |
| `CredentialsPage.SaveEdit` | src/Pages/Credentials.tsx:67-97 | non-string fields or an empty password abort before any store call; the save succeeds exactly when both fields are strings, the password is non-empty, `db` is set and a row has the shown id; a failed save changes nothing and keeps Editing and the input; a successful one sends the shown credential with only username and password changed, replaces that id in the projection by the returned record, toggles the mode, re-decrypts when the ciphertext changed, and on leaving Editing hides the password and resets the username input to the new username and the password input to the decrypted value; projection coherence is kept; under the laws the view then shows the new plaintext |
| `CredentialsPage.CreateSubmit` | src/Pages/Credentials.tsx:260-295 | a non-string field aborts before any call; the create succeeds exactly when all four fields are strings and `db` is set; success appends the returned credential, owned by `auth.username` and with an encrypted password, to both the table and the projection; a failure changes neither; coherence is kept, and the id navigated to finds the new credential |
| `CredentialsPage.DeleteSubmit` | src/Pages/Credentials.tsx:365-380 | success removes exactly the entries with the id, in order, from both table and projection; a failure changes neither and surfaces the error; coherence is kept |
| `RegisterPage.ContainsAny` | src/Pages/Register.tsx:26-28 | a character-class regex test holds exactly when some character is in the class |
| `RegisterPage.LowerFixedIffNoUpper` | src/Pages/Register.tsx:22-23 | `toLowerCase(s) === s` exactly when s has no upper-case letter |
| `RegisterPage.UpperFixedIffNoLower` | src/Pages/Register.tsx:24-25 | `toUpperCase(s) === s` exactly when s has no lower-case letter |
| `RegisterPage.ValidatePassword` | src/Pages/Register.tsx:17-33 | "" exactly for a string of at least 8 characters with an upper-case letter, a lower-case letter, a digit and a special character; otherwise the message of the first broken rule in order (not a string, length, upper, lower, digit, special) |
| `RegisterPage.NoLettersFailsUppercase` | src/Pages/Register.tsx:22-23 | a long password with no letters gets the upper-case message |
| `RegisterPage.RegisterForm.constructor` | src/Pages/Register.tsx:38 | the password error starts empty |
| `RegisterPage.RegisterForm.PasswordChanged` | src/Pages/Register.tsx:179 | editing the password clears the password error |
| `RegisterPage.HandleSubmit` | src/Pages/Register.tsx:39-98 | mismatch aborts first; then a failing rule sets the password error; then a non-string field aborts; `registerUser` changes the store only when every check passed; the password error changes only when a rule fails; on success the session becomes authenticated with the submitted profile, and the one new `users` row holds the submitted first name, last name, email and username, the digest hash(password, salt) and an id no earlier row has; a store error leaves the session unchanged |
| `LoginPage.HandleSubmit` | src/Pages/Login.tsx:20-49 | a non-string field aborts with the session unchanged; the session becomes exactly the signed-in profile when `userLogin` succeeds, otherwise it is unchanged and the error is surfaced; the session changes only when the user exists and verify accepted the password |
| `App.DrawerWidth` | src/App.tsx:38-39 | 0 exactly on "/login" and "/register", 240 elsewhere |
| `App.ListLabel` | src/App.tsx:178 | never blank; the name when there is one, else "Sin nombre" |
| `App.ListSubtitle` | src/App.tsx:180 | never blank; the site username when there is one, else "Sin usuario" |
| `App.Logout` | src/App.tsx:57-59 | offered only while authenticated; resets the session to exactly `getInitialAuth()` |
| `App.ReloadCredentials` | src/App.tsx:149-160 | fetches only while authenticated, for `auth.username`; success replaces the projection with exactly the owner's rows (coherence established); failure leaves it unchanged and surfaces the error |

## Left out

- The cryptographic algorithms (argon2 per RFC 9106 with a random salt, magic_crypt with a fixed key) are out of the model. Only the two laws of `Crypto.Lawful` are assumed. Panics in `hash`, `verify` and `decrypt` are not modelled, nor is a `decrypt` result that is not a string.
- The SQLite engine, the SQL text and the migration file are modelled as tables. A new process starting with a database left by earlier runs is modelled as the states the operations reach from empty tables.
- Async and Promise sequencing, React hooks and re-render timing, and double-submit races are concurrency concerns: each handler is one atomic step. Stale closures, such as the `credentials` captured by `CreateCredential.handleSubmit`, read the current value.
- Rendering, routing and navigation targets, toasts (kept only as the returned error message), clipboard writes, the MUI widgets, and the HTML `required` and `pattern` attributes are presentation concerns. `AuthGuard` appears only as the `requires` that the session is authenticated on `CreateSubmit`.
- `CredentialsPage.ParseInt`: the `0x` hexadecimal prefix, Unicode white space and the float precision of very long digit runs are not modelled; only decimal text with ASCII white space is.
- `RegisterPage.ValidatePassword`: `toLowerCase` and `toUpperCase` are modelled on ASCII letters only. `length` counts characters, not UTF-16 code units.
- `CredentialsPage.CredentialView.TypeUsername` requires Editing, because the input is read-only otherwise (src/Pages/Credentials.tsx:142). No change event fires outside Editing.
- `CredentialsPage.CredentialView`: a view is modelled as one mount per route id (`routeId` is fixed). The router keeps one view mounted when only `:id` changes (src/App.tsx:80), and that route change is not modelled. In the source, `isEditing` and the username input carry over to the new credential while Editing, and the password input is re-decrypted.
- `CredentialsPage.CredentialView`: the moment between mount and the decrypt effect resolving, when the password state briefly holds the ciphertext, is not modelled. The constructor gives the settled state.
- The `console.error` logging (src/services.ts:13, src/Pages/Credentials.tsx:293 and 378, src/Pages/Register.tsx:96, src/Pages/Login.tsx:47, src/App.tsx:157) is output only and is not modelled.
- `LoginPage.HandleSubmit` and `RegisterPage.HandleSubmit` do not model navigation to "/" after success.
- src/models.ts holds only type declarations, rendered here as datatypes.
