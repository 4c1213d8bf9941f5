/**
 * The Tauri commands `hash`, `verify`, `encrypt` and `decrypt`, seen from the
 * vault: four opaque functions supplied by the host. Nothing is known about
 * them except the two laws collected in `Lawful`, which properties below take
 * as a hypothesis.
 */
module Crypto {

  datatype Provider = Provider(
    /** argon2 digest of a password under a salt (the salt is random in the host). */
    hash: (string, string) -> string,
    /** whether a password matches a digest */
    verify: (string, string) -> bool,
    /** symmetric encryption under the host's fixed key */
    encrypt: string -> string,
    /** inverse of encrypt */
    decrypt: string -> string)

  /** Every digest verifies its own password, under any salt. */
  ghost predicate VerifiesOwnHash(p: Provider) {
    forall password, salt :: p.verify(p.hash(password, salt), password)
  }

  /** Decryption undoes encryption. */
  ghost predicate DecryptsOwnCiphertext(p: Provider) {
    forall plain :: p.decrypt(p.encrypt(plain)) == plain
  }

  ghost predicate Lawful(p: Provider) {
    VerifiesOwnHash(p) && DecryptsOwnCiphertext(p)
  }

  /** The laws are consistent: an identity-like provider meets them. */
  lemma LawfulProviderExists()
    ensures exists p :: Lawful(p)
  {
    var p := Provider((pw, salt) => pw, (digest, pw) => digest == pw, plain => plain, cipher => cipher);
    assert Lawful(p);
  }
}
