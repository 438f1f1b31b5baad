/** The values `signInWithGoogle` binds and passes along: the credential option that carries
    the hashed nonce, the email read from the returned ID token (logged only), and the
    arguments of the backend's ID-token sign-in, which carry the raw nonce. The platform and
    network calls themselves are not modelled: their outcome is a parameter. */
module SignIn {

  import opened Wrappers
  import opened HexFormat
  import opened Nonce
  import opened IdToken

  /** `GetGoogleIdOption`: the credential option handed to the credential manager. */
  datatype GoogleIdOption = GoogleIdOption(
    filterByAuthorizedAccounts: bool,
    serverClientId: string,
    nonce: string)

  /** The identity provider named in the backend sign-in. */
  datatype Provider = Google

  /** The arguments of `auth.signInWith(IDToken) { ... }`. */
  datatype IdTokenSignIn = IdTokenSignIn(idToken: string, provider: Provider, nonce: string)

  /** What follows a returned credential: the email decoded from its ID token (null when the
      decode fails) and the backend sign-in. */
  datatype Returned = Returned(email: Option<string>, signIn: IdTokenSignIn)

  /** What one call of `signInWithGoogle` produces: the credential option and, only when a
      credential came back, what follows it. */
  datatype Attempt = Attempt(option: GoogleIdOption, returned: Option<Returned>)

  /** The credential option: all accounts offered, an empty server client id, and the hashed
      nonce as the nonce. */
  function GoogleIdOptionFor(rawNonce: string, sha256: Sha256): (o: GoogleIdOption)
    ensures !o.filterByAuthorizedAccounts && o.serverClientId == ""
    ensures |o.nonce| == 64 && IsLowerHex(o.nonce)
    ensures ParseHex(o.nonce) == Some(NonceDigest(rawNonce, sha256))
  {
    GoogleIdOption(false, "", HashedNonce(rawNonce, sha256))
  }

  /** One sign-in. `credential` is the ID token of the returned Google credential, or None
      when `getCredential` or `GoogleIdTokenCredential.createFrom` threw, which ends the
      attempt before the email decode and the backend call. */
  function SignInWithGoogle<J>(rawNonce: string, sha256: Sha256, credential: Option<string>, d: Decoders<J>): (a: Attempt)
    ensures a.option == GoogleIdOptionFor(rawNonce, sha256)
    ensures a.returned.Some? <==> credential.Some?
    ensures credential.Some? ==> a.returned.value.signIn == IdTokenSignIn(credential.value, Google, rawNonce)
    ensures credential.Some? ==> a.returned.value.email == DecodeEmailFromIdToken(credential.value, d)
  {
    var option := GoogleIdOptionFor(rawNonce, sha256);
    match credential
    case None => Attempt(option, None)
    case Some(idToken) =>
      var email := DecodeEmailFromIdToken(idToken, d);
      Attempt(option, Some(Returned(email, IdTokenSignIn(idToken, Google, rawNonce))))
  }

  /** Nonce binding: the nonce sent to the backend hashes to the nonce in the credential
      request, and it is the raw nonce, not that hash. */
  lemma ExchangeNonceHashesToRequestNonce<J>(rawNonce: string, sha256: Sha256, idToken: string, d: Decoders<J>)
    ensures var a := SignInWithGoogle(rawNonce, sha256, Some(idToken), d);
      && a.returned.Some?
      && a.returned.value.signIn.nonce == rawNonce
      && HashedNonce(a.returned.value.signIn.nonce, sha256) == a.option.nonce
      && ParseHex(a.option.nonce) == Some(NonceDigest(a.returned.value.signIn.nonce, sha256))
  {
  }

  /** The email decode never stops the sequence: whatever the decoders do, and whether the
      email is null or not, the backend gets the same token and the same raw nonce. */
  lemma ExchangeIndependentOfEmailDecode<J>(rawNonce: string, sha256: Sha256, idToken: string, d1: Decoders<J>, d2: Decoders<J>)
    ensures var a1 := SignInWithGoogle(rawNonce, sha256, Some(idToken), d1);
      var a2 := SignInWithGoogle(rawNonce, sha256, Some(idToken), d2);
      && a1.option == a2.option
      && a1.returned.Some? && a2.returned.Some?
      && a1.returned.value.signIn == a2.returned.value.signIn == IdTokenSignIn(idToken, Google, rawNonce)
  {
  }

  /** The two requests of different attempts carry the same nonce only if their raw nonces'
      digests are equal, that is, only for equal raw nonces or through a SHA-256 collision. */
  lemma RequestNonceDeterminesDigest<J>(raw1: string, raw2: string, sha256: Sha256,
                                        c1: Option<string>, c2: Option<string>, d: Decoders<J>)
    requires SignInWithGoogle(raw1, sha256, c1, d).option.nonce == SignInWithGoogle(raw2, sha256, c2, d).option.nonce
    ensures NonceDigest(raw1, sha256) == NonceDigest(raw2, sha256)
    ensures raw1 != raw2 ==> Utf8.Encode(raw1) != Utf8.Encode(raw2)
  {
    HashedNonceDeterminesDigest(raw1, raw2, sha256);
  }
}
