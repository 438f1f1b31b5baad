# EasyBid Google sign-in: a Dafny model

EasyBid is an Android auction client that signs users in with Google and exchanges the
Google ID token for a Supabase session. The only logic in its authentication module is in
`AuthViewModel`. This project models it and proves properties of the model:

- **Nonce hashing** in `signInWithGoogle`. A raw nonce is turned into UTF-8 bytes and
  hashed with SHA-256 (FIPS 180-4). The digest is then folded into text by appending
  `"%02x".format(it)` for each byte.
- **`decodeEmailFromIdToken`**. It splits the compact JWS/JWT serialization (section 7.1 of
  RFC 7515, section 3 of RFC 7519) on `.`, requires exactly three segments, and base64url
  decodes the middle one (section 5 of RFC 4648). It then parses the result as JSON, reads
  `email`, and turns every failure into `null`.
- **The nonce and token flow**. The hashed nonce goes into the `GetGoogleIdOption`. The
  raw nonce and the unchanged ID token go to `auth.signInWith(IDToken)`.

The code is pure once randomness, hashing and the platform calls are taken out. It is
modelled with datatypes, recursive functions and lemmas:

| file | module | models |
|---|---|---|
| wrappers.dfy | `Wrappers` | `Option`, standing for a nullable result or a call that may throw |
| bytes.dfy | `Bytes` | JVM signed bytes and their unsigned reading |
| hex.dfy | `HexFormat` | `"%02x".format`, the hex fold, and its inverse `ParseHex` |
| utf8.dfy | `Utf8` | `String.toByteArray()` (UTF-8) |
| nonce.dfy | `Nonce` | the 32-byte digest and the hashed nonce |
| id_token.dfy | `IdToken` | Kotlin `split`, its inverse `Join`, and `decodeEmailFromIdToken` |
| sign_in.dfy | `SignIn` | the values `signInWithGoogle` binds and passes along |

Modelling choices:

- A `Byte` is a newtype over -128..127.
- Java's `%02x` on a `Byte` prints `b mod 256` (`Unsigned`) as two lowercase digits,
  high nibble first.
- The fold is written exactly as the source does it: a left fold with a string accumulator
  (`FoldHex`). It is proved equal to an independent right-recursive concatenation
  (`Encoded`), and `ParseHex` is proved to be its inverse.
- Kotlin's `split(".")` treats its delimiter literally, unlike Java's regex `split`. It
  keeps empty segments, trailing ones included, so the part count is the number of dots
  plus one.
- SHA-256 is a parameter of type `seq<Byte> -> Digest`, where a `Digest` has exactly 32
  bytes. The Android library calls are abstract function fields of `IdToken.Decoders`; each
  call that can throw returns `Option`. These calls are `Base64.decode(…, URL_SAFE)`,
  `String(bytes, UTF_8)` (total, because it replaces malformed input), `JSONObject(…)` and
  `getString`.
- In a sign-in, the outcome of `credentialManager.getCredential` plus
  `GoogleIdTokenCredential.createFrom` is a parameter: the returned ID token, or `None`
  when either one threw. The raw nonce (`UUID.randomUUID().toString()`) is a parameter too.

What the code does not do:

- `signInWithGoogle` keeps no sign-in state. It has no guard against a second call while
  one is still running.
- `signInWithGoogle` sorts no errors into kinds. The catch clauses at lines 80-88 only log
  each exception.
- `decodeEmailFromIdToken` reports no error. Whatever fails, it returns `null`
  (lines 106-109).
- `signInWithGoogle` passes `result.credential.data` to `GoogleIdTokenCredential.createFrom`
  without first checking the credential's type (lines 60-61).
- The server client id is the empty string (line 45).

## Model

| member | source | states |
|---|---|---|
| Bytes.Unsigned | app/src/main/java/com/technopradyumn/easybid/authentication/presentation/auth/AuthViewModel.kt:41 | the value `%x` prints for a byte is in 0..255, congruent to the byte mod 256, and at least 128 exactly for negative bytes |
| Bytes.FromUnsigned | app/src/main/java/com/technopradyumn/easybid/authentication/presentation/auth/AuthViewModel.kt:38 | narrowing 0..255 to a JVM byte gives the byte whose unsigned reading is that value |
| HexFormat.HexDigit | app/src/main/java/com/technopradyumn/easybid/authentication/presentation/auth/AuthViewModel.kt:41 | a nibble is written as a lowercase hex digit whose value is that nibble |
| HexFormat.FormatByte | app/src/main/java/com/technopradyumn/easybid/authentication/presentation/auth/AuthViewModel.kt:41 | `"%02x".format(b)` is two lowercase hex digits, the first the high and the second the low nibble of b mod 256; the first is 8..f exactly when b is negative |
| HexFormat.FoldHex | app/src/main/java/com/technopradyumn/easybid/authentication/presentation/auth/AuthViewModel.kt:41 | the fold adds exactly two characters per byte to its accumulator |
| HexFormat.Hex | app/src/main/java/com/technopradyumn/easybid/authentication/presentation/auth/AuthViewModel.kt:41 | the hex text of n bytes has 2n characters |
| HexFormat.FoldHexIsEncoded | app/src/main/java/com/technopradyumn/easybid/authentication/presentation/auth/AuthViewModel.kt:41 | the left fold from an accumulator equals the accumulator followed by the per-byte forms, concatenated in byte order |
| HexFormat.HexIsEncoded | app/src/main/java/com/technopradyumn/easybid/authentication/presentation/auth/AuthViewModel.kt:41 | folding from the empty string gives the in-order concatenation of the two-digit forms |
| HexFormat.HexAppend | app/src/main/java/com/technopradyumn/easybid/authentication/presentation/auth/AuthViewModel.kt:41 | hex(a ++ b) == hex(a) ++ hex(b) |
| HexFormat.HexAt | app/src/main/java/com/technopradyumn/easybid/authentication/presentation/auth/AuthViewModel.kt:41 | characters 2i and 2i+1 are the high and low nibble of byte i's unsigned value |
| HexFormat.HexIsLowerHex | app/src/main/java/com/technopradyumn/easybid/authentication/presentation/auth/AuthViewModel.kt:41 | every character of the text is in 0-9a-f |
| HexFormat.HexNegativeBytes | app/src/main/java/com/technopradyumn/easybid/authentication/presentation/auth/AuthViewModel.kt:41 | byte i is negative exactly when character 2i is one of 8..f, so negative bytes print as 80..ff |
| HexFormat.ParseHex | app/src/main/java/com/technopradyumn/easybid/authentication/presentation/auth/AuthViewModel.kt:41 | the inverse decoder yields half as many bytes as the text has characters |
| HexFormat.ParseHexOfHex | app/src/main/java/com/technopradyumn/easybid/authentication/presentation/auth/AuthViewModel.kt:41 | decoding the hex text gives back the original bytes |
| HexFormat.HexOfParseHex | app/src/main/java/com/technopradyumn/easybid/authentication/presentation/auth/AuthViewModel.kt:41 | every string that decodes is the hex text of what it decodes to |
| HexFormat.ParseHexAccepts | app/src/main/java/com/technopradyumn/easybid/authentication/presentation/auth/AuthViewModel.kt:41 | exactly the even-length lowercase hex strings are hex texts of some bytes |
| HexFormat.HexInjective | app/src/main/java/com/technopradyumn/easybid/authentication/presentation/auth/AuthViewModel.kt:41 | distinct byte sequences give distinct hex texts |
| HexFormat.HexExample | app/src/main/java/com/technopradyumn/easybid/authentication/presentation/auth/AuthViewModel.kt:41 | bytes 0, 15, 127, -128, -1 print as 000f7f80ff |
| Utf8.EncodeScalar | app/src/main/java/com/technopradyumn/easybid/authentication/presentation/auth/AuthViewModel.kt:38 | a character encodes to the shortest UTF-8 form: 1 byte below U+0080, 2 below U+0800, 3 below U+10000, otherwise 4; its lead byte gives the length and the rest are continuation bytes |
| Utf8.DecodeEncodeScalar | app/src/main/java/com/technopradyumn/easybid/authentication/presentation/auth/AuthViewModel.kt:38 | a character's code point is recovered from its encoding |
| Utf8.Encode | app/src/main/java/com/technopradyumn/easybid/authentication/presentation/auth/AuthViewModel.kt:38 | a string of n characters encodes to between n and 4n bytes |
| Utf8.EncodeAppend | app/src/main/java/com/technopradyumn/easybid/authentication/presentation/auth/AuthViewModel.kt:38 | the encoding of a concatenation is the concatenation of the encodings |
| Utf8.EncodeAscii | app/src/main/java/com/technopradyumn/easybid/authentication/presentation/auth/AuthViewModel.kt:37-38 | an ASCII string, such as a UUID's text, encodes to one byte per character, equal to its code |
| Utf8.EncodeInjective | app/src/main/java/com/technopradyumn/easybid/authentication/presentation/auth/AuthViewModel.kt:38 | distinct strings have distinct UTF-8 bytes |
| Utf8.EncodeInjectiveAt | app/src/main/java/com/technopradyumn/easybid/authentication/presentation/auth/AuthViewModel.kt:38 | no string other than the given one has its UTF-8 bytes |
| Nonce.NonceDigest | app/src/main/java/com/technopradyumn/easybid/authentication/presentation/auth/AuthViewModel.kt:38-40 | the digest is SHA-256 of the raw nonce's UTF-8 bytes, a byte string that no other raw nonce has |
| Nonce.HashedNonce | app/src/main/java/com/technopradyumn/easybid/authentication/presentation/auth/AuthViewModel.kt:37-41 | the hashed nonce is 64 lowercase hex characters, and it decodes back to SHA-256 of the raw nonce's UTF-8 bytes |
| Nonce.HashedNonceAt | app/src/main/java/com/technopradyumn/easybid/authentication/presentation/auth/AuthViewModel.kt:39-41 | characters 2i and 2i+1 of the hashed nonce are the nibbles of digest byte i |
| Nonce.HashedNonceDeterminesDigest | app/src/main/java/com/technopradyumn/easybid/authentication/presentation/auth/AuthViewModel.kt:37-41 | equal hashed nonces mean equal digests, and from distinct raw nonces they need a SHA-256 collision |
| IdToken.Split | app/src/main/java/com/technopradyumn/easybid/authentication/presentation/auth/AuthViewModel.kt:95 | `split(".")` gives one more part than there are dots, and no part contains a dot |
| IdToken.JoinSplit | app/src/main/java/com/technopradyumn/easybid/authentication/presentation/auth/AuthViewModel.kt:95 | rejoining the parts with '.' gives back the token |
| IdToken.SplitJoin | app/src/main/java/com/technopradyumn/easybid/authentication/presentation/auth/AuthViewModel.kt:95 | dot-free segments joined with '.' split back into exactly those segments, empty ones included |
| IdToken.SplitCompact | app/src/main/java/com/technopradyumn/easybid/authentication/presentation/auth/AuthViewModel.kt:95-98 | header.payload.signature with dot-free segments splits into exactly those three |
| IdToken.SplitExample | app/src/main/java/com/technopradyumn/easybid/authentication/presentation/auth/AuthViewModel.kt:95 | "a..b." splits into "a", "", "b", "" |
| IdToken.PayloadClaim | app/src/main/java/com/technopradyumn/easybid/authentication/presentation/auth/AuthViewModel.kt:98-104 | a claim comes back only when the base64url decode, the JSON parse of the decoded text and the lookup all succeed, and it is the lookup's value; a failure at any step gives None |
| IdToken.DecodeEmailFromIdToken | app/src/main/java/com/technopradyumn/easybid/authentication/presentation/auth/AuthViewModel.kt:93-110 | null unless the token has exactly two dots; a non-null result is the email claim of the second segment |
| IdToken.DecodeReadsPayloadSegment | app/src/main/java/com/technopradyumn/easybid/authentication/presentation/auth/AuthViewModel.kt:95-104 | a token with exactly two dots is header.payload.signature of its parts, and the result is the payload's email claim |
| IdToken.DecodeIgnoresHeaderAndSignature | app/src/main/java/com/technopradyumn/easybid/authentication/presentation/auth/AuthViewModel.kt:96-104 | changing the header or signature segment never changes the result; only the payload is decoded |
| IdToken.DecodeFailsOnBadBase64 | app/src/main/java/com/technopradyumn/easybid/authentication/presentation/auth/AuthViewModel.kt:100-109 | a payload the base64url decoder rejects gives null |
| IdToken.DecodeFailsOnBadJson | app/src/main/java/com/technopradyumn/easybid/authentication/presentation/auth/AuthViewModel.kt:101-109 | a payload whose text is not a JSON object gives null |
| IdToken.DecodeFailsWithoutEmail | app/src/main/java/com/technopradyumn/easybid/authentication/presentation/auth/AuthViewModel.kt:104-109 | a payload object without an email member gives null |
| IdToken.DecodeReturnsEmail | app/src/main/java/com/technopradyumn/easybid/authentication/presentation/auth/AuthViewModel.kt:98-104 | when decoding, parsing and the lookup all succeed, the email member is returned unchanged |
| IdToken.DecodeFailsOnTwoSegments | app/src/main/java/com/technopradyumn/easybid/authentication/presentation/auth/AuthViewModel.kt:95-96 | a two-segment token gives null, whatever its segments hold |
| SignIn.GoogleIdOptionFor | app/src/main/java/com/technopradyumn/easybid/authentication/presentation/auth/AuthViewModel.kt:43-47 | the credential option offers all accounts and has an empty server client id; its nonce is 64 lowercase hex characters that decode to the raw nonce's digest |
| SignIn.SignInWithGoogle | app/src/main/java/com/technopradyumn/easybid/authentication/presentation/auth/AuthViewModel.kt:37-78 | the option always carries the hashed nonce; the email decode and the backend sign-in happen exactly when a credential came back; the sign-in gets that ID token unchanged, provider Google, and the raw nonce, and the email is the decode of that token |
| SignIn.ExchangeNonceHashesToRequestNonce | app/src/main/java/com/technopradyumn/easybid/authentication/presentation/auth/AuthViewModel.kt:37-78 | the nonce sent to the backend is the raw nonce, and it hashes to the nonce of the credential request |
| SignIn.ExchangeIndependentOfEmailDecode | app/src/main/java/com/technopradyumn/easybid/authentication/presentation/auth/AuthViewModel.kt:67-78 | whatever the email decode yields, null or not, the request and the backend sign-in are the same |
| SignIn.RequestNonceDeterminesDigest | app/src/main/java/com/technopradyumn/easybid/authentication/presentation/auth/AuthViewModel.kt:37-46 | two attempts request the same nonce only if their raw nonces have the same digest |

## Left out

- The UI, navigation, client configuration and build files (`AuthScreen.kt`,
  `AuthNavHost.kt`, `SupabaseClient.kt`, `UserState.kt`, `build.gradle.kts`). They hold no
  logic of the sign-in flow, and `UserState` is used by none of it.
- Randomness: `UUID.randomUUID()` is replaced by the raw nonce as a parameter. So the model
  does not state that raw nonces are distinct or have the UUID form.
- SHA-256's internals: it is an arbitrary function to 32 bytes. So the known digest of a
  concrete string is not stated.
- The internals of `android.util.Base64` (URL_SAFE, and how lenient it is with padding),
  `String(bytes, UTF_8)` and `org.json`. These are abstract function parameters.
- `CredentialManager.getCredential`, `GoogleIdTokenCredential.createFrom`,
  `auth.signInWith` and `viewModelScope.launch`. These are platform, network and coroutine
  calls. Their only effect on the values modelled is whether a token comes back, and that is
  a parameter. Whether the backend call then fails (`RestException`) is not modelled,
  because it changes nothing the code keeps.
- Logging, and the print-only `doSomethingForExistingEmail` / `doSomethingForNonExistingEmail`
  (lines 113-121).
- Utf8.Encode: Kotlin strings are UTF-16 and encode a lone surrogate as `?`. Dafny
  characters are Unicode scalar values, so that case cannot arise in the model.
