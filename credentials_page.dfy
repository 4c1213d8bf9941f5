/**
 * src/Pages/Credentials.tsx: the credential detail view with its
 * Viewing/Editing toggle, and the create, edit and delete handlers that call
 * the store and then update the in-memory projection.
 */
module CredentialsPage {
  import opened Common
  import Crypto
  import opened Services
  import AuthContext
  import CredentialsContext

  const UsernameRequired := "Nombre de usuario requerido"
  const PasswordRequired := "Contraseña requerida"
  const FormFillError := "Error al llenar el formulario"

  // ---------------------------------------------------------------------------
  // Route ids: `Number.parseInt(id || "")` and the `${id}` that builds links

  predicate IsDigit(c: char) {
    '0' <= c <= '9'
  }

  predicate IsSpace(c: char) {
    c == ' ' || c == '\t' || c == '\n' || c == '\r' || c == '\U{000B}' || c == '\U{000C}'
  }

  predicate AllDigits(s: string) {
    forall i :: 0 <= i < |s| ==> IsDigit(s[i])
  }

  function SkipSpaces(s: string): (r: string)
    ensures r == [] || !IsSpace(r[0])
  {
    if s != [] && IsSpace(s[0]) then SkipSpaces(s[1..]) else s
  }

  /** The longest prefix of decimal digits. */
  function DigitPrefix(s: string): (r: string)
    ensures AllDigits(r)
  {
    if s != [] && IsDigit(s[0]) then [s[0]] + DigitPrefix(s[1..]) else []
  }

  function DigitsValue(ds: string): nat
    requires AllDigits(ds)
  {
    if ds == [] then 0 else DigitsValue(ds[..|ds| - 1]) * 10 + (ds[|ds| - 1] as int - '0' as int)
  }

  /**
   * `Number.parseInt` with the default radix on decimal text: leading white
   * space, an optional sign, then the longest run of digits; `None` is NaN.
   */
  function ParseInt(s: string): Option<int>
  {
    var t := SkipSpaces(s);
    var negative := t != [] && t[0] == '-';
    var unsigned := if t != [] && (t[0] == '-' || t[0] == '+') then t[1..] else t;
    var digits := DigitPrefix(unsigned);
    if digits == [] then None
    else if negative then Some(-(DigitsValue(digits) as int))
    else Some(DigitsValue(digits))
  }

  function NatText(n: nat): (s: string)
    ensures s != [] && AllDigits(s)
  {
    if n < 10 then [('0' as int + n) as char]
    else NatText(n / 10) + [('0' as int + n % 10) as char]
  }

  /** JavaScript's decimal rendering of an integer id. */
  function IdText(id: int): string {
    if id < 0 then "-" + NatText(-id) else NatText(id)
  }

  lemma {:induction false} NatTextValue(n: nat)
    ensures DigitsValue(NatText(n)) == n
  {
    if n >= 10 {
      var s := NatText(n);
      assert s[..|s| - 1] == NatText(n / 10);
      NatTextValue(n / 10);
    }
  }

  lemma {:induction false} DigitPrefixOfDigits(s: string)
    requires AllDigits(s)
    ensures DigitPrefix(s) == s
  {
    if s != [] {
      assert AllDigits(s[1..]) by {
        forall i | 0 <= i < |s[1..]| ensures IsDigit(s[1..][i]) {
          assert s[1..][i] == s[i + 1];
        }
      }
      DigitPrefixOfDigits(s[1..]);
    }
  }

  lemma SkipSpacesNoop(s: string)
    requires s != [] && !IsSpace(s[0])
    ensures SkipSpaces(s) == s
  {
  }

  lemma ParseUnsigned(digits: string)
    requires digits != [] && AllDigits(digits)
    ensures ParseInt(digits) == Some(DigitsValue(digits))
  {
    SkipSpacesNoop(digits);
    DigitPrefixOfDigits(digits);
  }

  lemma ParseNegative(digits: string)
    requires digits != [] && AllDigits(digits)
    ensures ParseInt("-" + digits) == Some(-(DigitsValue(digits) as int))
  {
    var text := "-" + digits;
    SkipSpacesNoop(text);
    assert text[1..] == digits;
    DigitPrefixOfDigits(digits);
  }

  /** The id in a link `/credentials/${id}` parses back to that id. */
  lemma RouteIdRoundTrip(id: int)
    ensures ParseInt(IdText(id)) == Some(id)
  {
    if id < 0 {
      NatTextValue(-id);
      ParseNegative(NatText(-id));
    } else {
      NatTextValue(id);
      ParseUnsigned(NatText(id));
    }
  }

  // ---------------------------------------------------------------------------
  // The projection: find, replace and filter by id

  function IndexOfId(creds: seq<Credential>, id: int): (k: nat)
    ensures k <= |creds|
    ensures forall j :: 0 <= j < k ==> creds[j].id != id
    ensures k < |creds| ==> creds[k].id == id
  {
    if creds == [] then 0
    else if creds[0].id == id then 0
    else 1 + IndexOfId(creds[1..], id)
  }

  /** `credentials.find(c => c.id === id)`: the first entry with that id. */
  function FindById(creds: seq<Credential>, id: int): (r: Option<Credential>)
    ensures r.None? <==> !HasId(creds, id)
    ensures r.Some? ==> r.value.id == id && r.value in creds
    ensures r.Some? ==> r.value == creds[IndexOfId(creds, id)]
  {
    var k := IndexOfId(creds, id);
    if k < |creds| then Some(creds[k]) else None
  }

  /**
   * The credential the detail view shows for a route's `:id`, or `None` for
   * the not-found view.
   */
  function Lookup(creds: seq<Credential>, routeId: string): (r: Option<Credential>)
    ensures r.Some? ==> r.value in creds && ParseInt(routeId) == Some(r.value.id)
    ensures r.Some? ==> r == FindById(creds, r.value.id)
    ensures r.None? <==> ParseInt(routeId).None? || !HasId(creds, ParseInt(routeId).value)
  {
    match ParseInt(routeId)
    case None => None
    case Some(n) => FindById(creds, n)
  }

  /** `credentials.map(c => c.id === id ? updated : c)`. */
  function ReplaceById(creds: seq<Credential>, id: int, updated: Credential): (r: seq<Credential>)
    ensures |r| == |creds|
    ensures forall i :: 0 <= i < |creds| ==> r[i] == if creds[i].id == id then updated else creds[i]
  {
    if creds == [] then []
    else [if creds[0].id == id then updated else creds[0]] + ReplaceById(creds[1..], id, updated)
  }

  /** With unique ids, looking an entry's id up finds that entry. */
  lemma FindUnique(creds: seq<Credential>, c: Credential)
    requires UniqueIds(creds) && c in creds
    ensures FindById(creds, c.id) == Some(c)
  {
    RowOfId(creds, c);
  }

  /**
   * A link built from an entry's id (the list's `/credentials/${cred.id}`, or
   * the navigation after a create) opens the detail view on that entry. A
   * projection read from the store meets the requirement, by
   * `OwnedByKeepsUnique`.
   */
  lemma LinkOpensCredential(creds: seq<Credential>, c: Credential)
    requires UniqueIds(creds) && c in creds
    ensures Lookup(creds, IdText(c.id)) == Some(c)
  {
    RouteIdRoundTrip(c.id);
    FindUnique(creds, c);
  }

  /** After a replace, the same id finds the replacement. */
  lemma FindAfterReplace(creds: seq<Credential>, id: int, updated: Credential)
    requires HasId(creds, id) && updated.id == id
    ensures FindById(ReplaceById(creds, id, updated), id) == Some(updated)
  {
    var r := ReplaceById(creds, id, updated);
    var k := IndexOfId(creds, id);
    var k' := IndexOfId(r, id);
    assert k < |creds| && r[k] == updated;
    assert k' == k;
  }

  /** After appending an entry with an id not yet present, that id finds it. */
  lemma FindAfterAppend(creds: seq<Credential>, c: Credential)
    requires !HasId(creds, c.id)
    ensures FindById(creds + [c], c.id) == Some(c)
  {
    var s := creds + [c];
    assert s[|creds|] == c;
  }

  /** After a delete the id finds nothing: the detail view shows not-found. */
  lemma FindAfterRemove(creds: seq<Credential>, id: int)
    ensures FindById(RemoveId(creds, id), id).None?
  {
    RemovedIdIsGone(creds, id);
  }

  /**
   * When the projection is the store's rows for an owner, an edit of one of
   * its entries maps to the same replace on both sides: the store's UPDATE of
   * username, name, password and url (with name and url carried over) and the
   * page's replace by the returned record.
   */
  lemma {:induction false} EditKeepsCoherent(rows: seq<Credential>, owner: string, c: Credential,
                                             username: string, ciphertext: string)
    requires UniqueIds(rows) && c in OwnedBy(rows, owner)
    ensures OwnedBy(UpdateWhere(rows, c.id, username, c.name, ciphertext, c.url), owner)
         == ReplaceById(OwnedBy(rows, owner), c.id, c.(username := username, password := ciphertext))
  {
    var owned := OwnedBy(rows, owner);
    OwnedByUpdateWhere(rows, owner, c.id, username, c.name, ciphertext, c.url);
    RowOfId(rows, c);
    var l := UpdateWhere(owned, c.id, username, c.name, ciphertext, c.url);
    var r := ReplaceById(owned, c.id, c.(username := username, password := ciphertext));
    forall i | 0 <= i < |owned| ensures l[i] == r[i] {
      if owned[i].id == c.id {
        assert owned[i] in owned;
        assert owned[i] == c;
      }
    }
  }

  /** Appending a row owned by the owner appends it to the owner's rows. */
  lemma CreateKeepsCoherent(rows: seq<Credential>, owner: string, c: Credential)
    requires c.user_username == owner
    ensures OwnedBy(rows + [c], owner) == OwnedBy(rows, owner) + [c]
  {
    OwnedByAppend(rows, [c], owner);
    assert OwnedBy([c], owner) == [c] + OwnedBy([], owner);
  }

  // ---------------------------------------------------------------------------
  // `CredentialView` and `PasswordCredentialView` state

  class CredentialView {
    /** The route's `:id` parameter. */
    const routeId: string
    var isEditing: bool
    /** The username input's state. */
    var username: string
    /** The last decrypted stored password. */
    var decryptedPassword: string
    /** The password input's state while editing. */
    var editedPassword: string
    var showPassword: bool

    function Current(creds: seq<Credential>): Option<Credential>
    {
      Lookup(creds, routeId)
    }

    /** The view agrees with the projection entry it shows. */
    ghost predicate Synced(creds: seq<Credential>, crypto: Crypto.Provider)
      reads this
    {
      && Current(creds).Some?
      && decryptedPassword == crypto.decrypt(Current(creds).value.password)
      && (!isEditing ==> username == Current(creds).value.username && editedPassword == decryptedPassword)
    }

    /** What the username input displays. */
    function UsernameShown(creds: seq<Credential>): (r: string)
      reads this
      requires Current(creds).Some?
      ensures !isEditing ==> r == Current(creds).value.username
      ensures isEditing ==> r == username
    {
      if isEditing then username else Current(creds).value.username
    }

    /** What the password input displays: in Viewing mode, the decrypted stored value. */
    function PasswordShown(creds: seq<Credential>, crypto: Crypto.Provider): (r: string)
      reads this
      ensures Synced(creds, crypto) && !isEditing ==> r == crypto.decrypt(Current(creds).value.password)
      ensures isEditing ==> r == editedPassword
    {
      if isEditing then editedPassword else decryptedPassword
    }

    /** Mounting the view on a route, once the decrypt effect has resolved. */
    constructor (routeId: string, creds: seq<Credential>, crypto: Crypto.Provider)
      ensures this.routeId == routeId && !isEditing && !showPassword
      ensures Current(creds).Some? ==> Synced(creds, crypto)
    {
      this.routeId := routeId;
      isEditing := false;
      showPassword := false;
      var found := Lookup(creds, routeId);
      if found.Some? {
        username := found.value.username;
        decryptedPassword := crypto.decrypt(found.value.password);
        editedPassword := decryptedPassword;
      } else {
        username := "";
        decryptedPassword := "";
        editedPassword := "";
      }
    }

    /**
     * `toggleEdit` (the edit and cancel buttons) with its effects: leaving
     * Editing restores the username input, resets the password input to the
     * decrypted stored value and hides it; entering Editing keeps the inputs.
     */
    method ToggleEdit(creds: seq<Credential>)
      requires Current(creds).Some?
      modifies this
      ensures isEditing == !old(isEditing)
      ensures decryptedPassword == old(decryptedPassword)
      ensures !isEditing ==> && username == Current(creds).value.username
                             && editedPassword == decryptedPassword
                             && !showPassword
      ensures isEditing ==> && username == old(username)
                            && editedPassword == old(editedPassword)
                            && showPassword == old(showPassword)
    {
      isEditing := !isEditing;
      if !isEditing {
        username := Current(creds).value.username;
        showPassword := false;
        editedPassword := decryptedPassword;
      }
    }

    /** Typing into the username input, which is writable only while editing. */
    method TypeUsername(text: string)
      requires isEditing
      modifies this`username
      ensures username == text
    {
      username := text;
    }

    /** `isEditing && setEditedPassword(value)`. */
    method TypePassword(text: string)
      modifies this`editedPassword
      ensures editedPassword == if isEditing then text else old(editedPassword)
    {
      if isEditing {
        editedPassword := text;
      }
    }

    method ToggleShowPassword()
      modifies this`showPassword
      ensures showPassword == !old(showPassword)
    {
      showPassword := !showPassword;
    }

    /**
     * After a successful save: `toggleEdit()` runs, the decrypt effect runs
     * again when the stored ciphertext changed, and the Viewing effects run
     * when the toggle left Editing.
     */
    method SettleAfterSave(creds: seq<Credential>, crypto: Crypto.Provider, previousCiphertext: string)
      requires Current(creds).Some?
      modifies this
      ensures isEditing == !old(isEditing)
      ensures decryptedPassword == if Current(creds).value.password != previousCiphertext
                                   then crypto.decrypt(Current(creds).value.password)
                                   else old(decryptedPassword)
      ensures !isEditing ==> && username == Current(creds).value.username
                             && editedPassword == decryptedPassword
                             && !showPassword
      ensures isEditing ==> && username == old(username)
                            && showPassword == old(showPassword)
                            && editedPassword == if Current(creds).value.password != previousCiphertext
                                                 then decryptedPassword
                                                 else old(editedPassword)
    {
      var shown := Current(creds).value;
      isEditing := !isEditing;
      if shown.password != previousCiphertext {
        decryptedPassword := crypto.decrypt(shown.password);
        editedPassword := decryptedPassword;
      }
      if !isEditing {
        username := shown.username;
        showPassword := false;
        editedPassword := decryptedPassword;
      }
    }
  }

  // ---------------------------------------------------------------------------
  // Handlers

  /**
   * `saveEdit`: form guards, `editCredential` with the shown credential's
   * other fields carried over, then replace-by-id in the projection and
   * `toggleEdit`. A failure changes nothing and keeps the in-progress input.
   * The two fields are what `FormData` reads from the inputs, that is
   * `Text(view.UsernameShown(..))` and `Text(view.PasswordShown(..))` when
   * the form is rendered; they are taken as given so that every `FormValue`
   * the handler can meet is covered.
   * `owner` names the user whose rows the projection is meant to mirror.
   */
  method SaveEdit(db: Store, provider: CredentialsContext.CredentialsProvider, view: CredentialView,
                  crypto: Crypto.Provider, usernameField: FormValue, passwordField: FormValue,
                  ghost owner: string)
    returns (toast: Option<string>)
    requires db.Valid()
    requires view.Current(provider.credentials).Some?
    modifies db`credentials, provider, view
    ensures db.Valid()
    ensures !usernameField.Text? || !passwordField.Text? ==> toast == Some(UsernameRequired)
    ensures usernameField.Text? && passwordField.Text? && passwordField.text == ""
            ==> toast == Some(PasswordRequired)
    ensures usernameField.Text? && passwordField.Text? && passwordField.text != "" && toast.Some?
            ==> toast == Some(if db.loaded then CredentialNotFound else DbNotLoaded)
    ensures toast.None? <==> && usernameField.Text? && passwordField.Text? && passwordField.text != ""
                             && db.loaded
                             && HasId(old(db.credentials), old(view.Current(provider.credentials)).value.id)
    ensures toast.Some? ==> && provider.credentials == old(provider.credentials)
                            && db.credentials == old(db.credentials)
                            && view.isEditing == old(view.isEditing)
                            && view.username == old(view.username)
                            && view.editedPassword == old(view.editedPassword)
                            && view.decryptedPassword == old(view.decryptedPassword)
                            && view.showPassword == old(view.showPassword)
    ensures toast.None? ==>
      && usernameField.Text? && passwordField.Text? && passwordField.text != ""
      && var credential := old(view.Current(provider.credentials)).value;
         var ciphertext := crypto.encrypt(passwordField.text);
         var updated := credential.(username := usernameField.text, password := ciphertext);
         && db.credentials == UpdateWhere(old(db.credentials), credential.id, usernameField.text,
                                          credential.name, ciphertext, credential.url)
         && provider.credentials == ReplaceById(old(provider.credentials), credential.id, updated)
         && view.Current(provider.credentials) == Some(updated)
         && view.isEditing == !old(view.isEditing)
         && view.decryptedPassword == (if ciphertext != credential.password
                                       then crypto.decrypt(ciphertext)
                                       else old(view.decryptedPassword))
         && (old(view.isEditing) ==> && !view.showPassword
                                     && view.username == usernameField.text
                                     && view.editedPassword == view.decryptedPassword)
         && (!old(view.isEditing) ==> && view.showPassword == old(view.showPassword)
                                      && view.username == old(view.username)
                                      && view.editedPassword == (if ciphertext != credential.password
                                                                 then view.decryptedPassword
                                                                 else old(view.editedPassword)))
    ensures toast.None? && Crypto.Lawful(crypto) && old(view.Synced(provider.credentials, crypto))
            ==> view.Synced(provider.credentials, crypto) && view.decryptedPassword == passwordField.text
    ensures old(provider.credentials) == OwnedBy(old(db.credentials), owner)
            ==> provider.credentials == OwnedBy(db.credentials, owner)
  {
    var credential := view.Current(provider.credentials).value;
    if !usernameField.Text? || !passwordField.Text? {
      toast := Some(UsernameRequired);
      return;
    }
    if passwordField.text == "" {
      toast := Some(PasswordRequired);
      return;
    }
    ghost var rows := db.credentials;
    ghost var coherent := provider.credentials == OwnedBy(rows, owner);
    var edited := credential.(username := usernameField.text, password := passwordField.text);
    var result := db.EditCredential(crypto, edited);
    if result.Err? {
      toast := Some(result.message);
      return;
    }
    var updated := result.value;
    var previous := provider.credentials;
    FindAfterReplace(previous, credential.id, updated);
    provider.credentials := ReplaceById(previous, credential.id, updated);
    assert view.Current(provider.credentials) == Some(updated);
    if coherent {
      EditKeepsCoherent(rows, owner, credential, usernameField.text, updated.password);
    }
    view.SettleAfterSave(provider.credentials, crypto, credential.password);
    toast := None;
  }

  /**
   * `CreateCredential.handleSubmit`: every field must be a string; the new
   * credential belongs to the signed-in user and is appended to the
   * projection. `created` is the credential the page then navigates to.
   */
  method CreateSubmit(db: Store, provider: CredentialsContext.CredentialsProvider,
                      session: AuthContext.AuthProvider, crypto: Crypto.Provider,
                      name: FormValue, url: FormValue, username: FormValue, password: FormValue)
    returns (toast: Option<string>, created: Option<Credential>)
    requires db.Valid()
    requires session.auth.isAuthenticated
    modifies db`credentials, db`nextCredentialId, provider
    ensures db.Valid()
    ensures !(name.Text? && url.Text? && username.Text? && password.Text?)
            ==> toast == Some(FormFillError)
    ensures name.Text? && url.Text? && username.Text? && password.Text? && !db.loaded
            ==> toast == Some(DbNotLoaded)
    ensures created.Some? <==> toast.None?
    ensures created.Some? <==> name.Text? && url.Text? && username.Text? && password.Text? && db.loaded
    ensures toast.Some? ==> && provider.credentials == old(provider.credentials)
                            && db.credentials == old(db.credentials)
    ensures created.Some? ==>
      var c := created.value;
      && name.Text? && url.Text? && username.Text? && password.Text? && db.loaded
      && c == Credential(c.id, username.text, session.auth.username,
                         crypto.encrypt(password.text), url.text, name.text)
      && !HasId(old(db.credentials), c.id)
      && db.credentials == old(db.credentials) + [c]
      && provider.credentials == old(provider.credentials) + [c]
    ensures created.Some? && Crypto.Lawful(crypto) ==> crypto.decrypt(created.value.password) == password.text
    ensures old(provider.credentials) == OwnedBy(old(db.credentials), session.auth.username)
            ==> provider.credentials == OwnedBy(db.credentials, session.auth.username)
    ensures old(provider.credentials) == OwnedBy(old(db.credentials), session.auth.username) && created.Some?
            ==> Lookup(provider.credentials, IdText(created.value.id)) == created
  {
    if !(name.Text? && url.Text? && username.Text? && password.Text?) {
      toast, created := Some(FormFillError), None;
      return;
    }
    ghost var rows := db.credentials;
    var result := db.CreateCredential(crypto, NewCredential(username.text, session.auth.username,
                                                            password.text, url.text, name.text));
    if result.Err? {
      toast, created := Some(result.message), None;
      return;
    }
    var credential := result.value;
    ghost var coherent := provider.credentials == OwnedBy(rows, session.auth.username);
    if coherent {
      CreateKeepsCoherent(rows, session.auth.username, credential);
      assert !HasId(provider.credentials, credential.id);
      FindAfterAppend(provider.credentials, credential);
      RouteIdRoundTrip(credential.id);
    }
    provider.credentials := provider.credentials + [credential];
    toast, created := None, Some(credential);
  }

  /**
   * `DeleteCredentialTooltip.handleSubmit`: `deleteCredential`, then the
   * projection keeps every entry with another id, in order.
   */
  method DeleteSubmit(db: Store, provider: CredentialsContext.CredentialsProvider,
                      credential: Credential, ghost owner: string)
    returns (toast: Option<string>)
    requires db.Valid()
    modifies db`credentials, provider
    ensures db.Valid()
    ensures toast.None? <==> db.loaded && HasId(old(db.credentials), credential.id)
    ensures toast.Some? ==> && toast.value == (if db.loaded then CredentialNotFound else DbNotLoaded)
                            && provider.credentials == old(provider.credentials)
                            && db.credentials == old(db.credentials)
    ensures toast.None? ==> && provider.credentials == RemoveId(old(provider.credentials), credential.id)
                            && db.credentials == RemoveId(old(db.credentials), credential.id)
    ensures old(provider.credentials) == OwnedBy(old(db.credentials), owner)
            ==> provider.credentials == OwnedBy(db.credentials, owner)
  {
    ghost var rows := db.credentials;
    var result := db.DeleteCredential(credential.id);
    if result.Err? {
      toast := Some(result.message);
      return;
    }
    OwnedByRemoveId(rows, owner, credential.id);
    provider.credentials := RemoveId(provider.credentials, credential.id);
    toast := None;
  }
}
