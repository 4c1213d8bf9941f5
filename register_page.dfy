/**
 * src/Pages/Register.tsx: the password rule chain and the registration
 * handler. Case mapping is over ASCII letters.
 */
module RegisterPage {
  import opened Common
  import Crypto
  import opened Services
  import AuthContext

  const NotEntered := "La contraseña no fue ingresada correctamente"
  const TooShort := "La contraseña debe tener al menos 8 caracteres"
  const NoUppercase := "La contraseña debe tener al menos una mayúscula"
  const NoLowercase := "La contraseña debe tener al menos una minúscula"
  const NoDigit := "La contraseña debe tener al menos un número"
  const NoSpecial := "La contraseña debe tener al menos un carácter especial"
  const Mismatch := "Las contraseñas no coinciden"
  const FormError := "El formulario no fue llenado correctamente"

  const MinLength := 8

  /** The character class `\d`. */
  const Digits: set<char> := {'0', '1', '2', '3', '4', '5', '6', '7', '8', '9'}

  /** The character class of the special-character rule. */
  const SpecialChars: set<char> := {
    '!', '@', '#', '$', '%', '^', '&', '*', '(', ')', '_', '+', '-', '=', '[', ']',
    '{', '}', ';', '\'', ':', '"', '\\', '|', ',', '.', '<', '>', '/', '?'}

  predicate IsUpper(c: char) {
    'A' <= c <= 'Z'
  }

  predicate IsLower(c: char) {
    'a' <= c <= 'z'
  }

  function LowerChar(c: char): char {
    if IsUpper(c) then (c as int + 32) as char else c
  }

  function UpperChar(c: char): char {
    if IsLower(c) then (c as int - 32) as char else c
  }

  /** `toLowerCase`. */
  function ToLower(s: string): (r: string)
    ensures |r| == |s|
  {
    if s == [] then [] else [LowerChar(s[0])] + ToLower(s[1..])
  }

  /** `toUpperCase`. */
  function ToUpper(s: string): (r: string)
    ensures |r| == |s|
  {
    if s == [] then [] else [UpperChar(s[0])] + ToUpper(s[1..])
  }

  /** `/[chars]/.test(s)`. */
  function ContainsAny(s: string, chars: set<char>): (b: bool)
    ensures b <==> exists i :: 0 <= i < |s| && s[i] in chars
  {
    if s == [] then false else s[0] in chars || ContainsAny(s[1..], chars)
  }

  predicate HasUpper(s: string) {
    exists i :: 0 <= i < |s| && IsUpper(s[i])
  }

  predicate HasLower(s: string) {
    exists i :: 0 <= i < |s| && IsLower(s[i])
  }

  predicate HasDigit(s: string) {
    exists i :: 0 <= i < |s| && '0' <= s[i] <= '9'
  }

  predicate HasSpecial(s: string) {
    exists i :: 0 <= i < |s| && s[i] in SpecialChars
  }

  /** Everything the rule chain asks of a password. */
  predicate Strong(s: string) {
    |s| >= MinLength && HasUpper(s) && HasLower(s) && HasDigit(s) && HasSpecial(s)
  }

  /** A string equals its lower-case form exactly when it has no upper-case letter. */
  lemma {:induction false} LowerFixedIffNoUpper(s: string)
    ensures ToLower(s) == s <==> !HasUpper(s)
  {
    if s != [] {
      LowerFixedIffNoUpper(s[1..]);
      assert HasUpper(s) <==> IsUpper(s[0]) || HasUpper(s[1..]) by {
        if HasUpper(s[1..]) {
          var i :| 0 <= i < |s[1..]| && IsUpper(s[1..][i]);
          assert s[i + 1] == s[1..][i];
        }
        if HasUpper(s) && !IsUpper(s[0]) {
          var i :| 0 <= i < |s| && IsUpper(s[i]);
          assert s[1..][i - 1] == s[i];
        }
      }
      assert ToLower(s) == [LowerChar(s[0])] + ToLower(s[1..]);
      if ToLower(s) == s {
        assert ToLower(s)[0] == s[0];
        assert ToLower(s)[1..] == s[1..];
      }
    }
  }

  /** A string equals its upper-case form exactly when it has no lower-case letter. */
  lemma {:induction false} UpperFixedIffNoLower(s: string)
    ensures ToUpper(s) == s <==> !HasLower(s)
  {
    if s != [] {
      UpperFixedIffNoLower(s[1..]);
      assert HasLower(s) <==> IsLower(s[0]) || HasLower(s[1..]) by {
        if HasLower(s[1..]) {
          var i :| 0 <= i < |s[1..]| && IsLower(s[1..][i]);
          assert s[i + 1] == s[1..][i];
        }
        if HasLower(s) && !IsLower(s[0]) {
          var i :| 0 <= i < |s| && IsLower(s[i]);
          assert s[1..][i - 1] == s[i];
        }
      }
      assert ToUpper(s) == [UpperChar(s[0])] + ToUpper(s[1..]);
      if ToUpper(s) == s {
        assert ToUpper(s)[0] == s[0];
        assert ToUpper(s)[1..] == s[1..];
      }
    }
  }

  /**
   * `validatePassword`: "" exactly for a strong password; otherwise the
   * message of the first rule, in order, that the password breaks.
   */
  function ValidatePassword(password: FormValue): (message: string)
    ensures message == "" <==> password.Text? && Strong(password.text)
    ensures !password.Text? ==> message == NotEntered
    ensures password.Text? && |password.text| < MinLength ==> message == TooShort
    ensures password.Text? && |password.text| >= MinLength && !HasUpper(password.text)
            ==> message == NoUppercase
    ensures (password.Text? && |password.text| >= MinLength && HasUpper(password.text)
             && !HasLower(password.text))
            ==> message == NoLowercase
    ensures (password.Text? && |password.text| >= MinLength && HasUpper(password.text)
             && HasLower(password.text) && !HasDigit(password.text))
            ==> message == NoDigit
    ensures (password.Text? && |password.text| >= MinLength && HasUpper(password.text)
             && HasLower(password.text) && HasDigit(password.text) && !HasSpecial(password.text))
            ==> message == NoSpecial
  {
    match password
    case Text(s) =>
      LowerFixedIffNoUpper(s);
      UpperFixedIffNoLower(s);
      if |s| < MinLength then TooShort
      else if ToLower(s) == s then NoUppercase
      else if ToUpper(s) == s then NoLowercase
      else if !ContainsAny(s, Digits) then NoDigit
      else if !ContainsAny(s, SpecialChars) then NoSpecial
      else ""
    case _ => NotEntered
  }

  /** A long password with no letter at all equals its lower-case form: it gets the upper-case message. */
  lemma NoLettersFailsUppercase(s: string)
    requires |s| >= MinLength
    requires forall i :: 0 <= i < |s| ==> !IsUpper(s[i]) && !IsLower(s[i])
    ensures ValidatePassword(Text(s)) == NoUppercase
  {
  }

  /** The password-error state of the form, cleared whenever the password input changes. */
  class RegisterForm {
    var passwordError: string

    constructor ()
      ensures passwordError == ""
    {
      passwordError := "";
    }

    method PasswordChanged()
      modifies this
      ensures passwordError == ""
    {
      passwordError := "";
    }
  }

  /** The form passes every check `handleSubmit` makes before calling `registerUser`. */
  predicate Admitted(username: FormValue, email: FormValue, firstName: FormValue, lastName: FormValue,
                     password: FormValue, confirmPassword: FormValue)
  {
    && password == confirmPassword
    && ValidatePassword(password) == ""
    && username.Text? && email.Text? && firstName.Text? && lastName.Text? && password.Text?
  }

  /**
   * `Register.handleSubmit`: confirmation check, then the rule chain, then the
   * string checks, then `registerUser`; on success the session signs in with
   * the returned profile.
   */
  method HandleSubmit(db: Store, session: AuthContext.AuthProvider, form: RegisterForm,
                      crypto: Crypto.Provider, salt: string,
                      username: FormValue, email: FormValue, firstName: FormValue, lastName: FormValue,
                      password: FormValue, confirmPassword: FormValue)
    returns (toast: Option<string>)
    requires db.Valid()
    modifies db`users, db`nextUserId, session, form
    ensures db.Valid()
    ensures password != confirmPassword ==> toast == Some(Mismatch) && form.passwordError == old(form.passwordError)
    ensures password == confirmPassword && ValidatePassword(password) != ""
            ==> toast == None && form.passwordError == ValidatePassword(password)
    ensures password == confirmPassword && ValidatePassword(password) == ""
            && !Admitted(username, email, firstName, lastName, password, confirmPassword)
            ==> toast == Some(FormError) && form.passwordError == old(form.passwordError)
    ensures !Admitted(username, email, firstName, lastName, password, confirmPassword)
            ==> db.users == old(db.users) && session.auth == old(session.auth)
    ensures Admitted(username, email, firstName, lastName, password, confirmPassword)
            && !(db.loaded && username.text !in old(db.users))
            ==> && toast == Some(if db.loaded then UserExists else DbNotLoaded)
                && db.users == old(db.users) && session.auth == old(session.auth)
                && form.passwordError == old(form.passwordError)
    ensures Admitted(username, email, firstName, lastName, password, confirmPassword)
            && db.loaded && username.text !in old(db.users)
            ==> && toast == None
                && form.passwordError == old(form.passwordError)
                && session.auth == AuthContext.Auth(true, username.text, email.text, firstName.text, lastName.text)
                && username.text in db.users
                && db.users[username.text] == UserRow(db.users[username.text].id, firstName.text, lastName.text,
                                                       email.text, crypto.hash(password.text, salt), username.text)
                && (forall name :: name in old(db.users) ==> old(db.users)[name].id != db.users[username.text].id)
                && db.users == old(db.users)[username.text := db.users[username.text]]
                && (Crypto.Lawful(crypto) ==> db.UserLogin(crypto, username.text, password.text).Ok?)
  {
    if password != confirmPassword {
      toast := Some(Mismatch);
      return;
    }
    var passwordError := ValidatePassword(password);
    if passwordError != "" {
      form.passwordError := passwordError;
      toast := None;
      return;
    }
    if !(username.Text? && email.Text? && firstName.Text? && lastName.Text? && password.Text?) {
      toast := Some(FormError);
      return;
    }
    var result := db.RegisterUser(crypto, salt, NewUser(username.text, password.text, email.text,
                                                        Some(firstName.text), Some(lastName.text)));
    if result.Err? {
      toast := Some(result.message);
      return;
    }
    session.auth := AuthContext.SignedIn(session.auth, result.value);
    toast := None;
  }
}
