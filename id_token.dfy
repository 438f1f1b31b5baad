/** `decodeEmailFromIdToken`: split a compact JWS (section 7.1 of RFC 7515, section 3 of
    RFC 7519) on '.', and when there are exactly three segments read the `email` claim
    from the base64url-decoded middle one; every failure gives null. */
module IdToken {

  import opened Wrappers
  import opened Bytes

  /** The number of occurrences of `c` in `s`. */
  function Occurrences(s: string, c: char): nat
    decreases |s|
  {
    if s == [] then 0 else (if s[0] == c then 1 else 0) + Occurrences(s[1..], c)
  }

  /** Kotlin's `s.split(sep)` with a one-character literal delimiter and no limit: every
      delimiter ends a segment, and empty segments, leading and trailing ones included,
      are kept. */
  function Split(s: string, sep: char): (parts: seq<string>)
    ensures |parts| == Occurrences(s, sep) + 1
    ensures forall i :: 0 <= i < |parts| ==> sep !in parts[i]
    decreases |s|
  {
    if s == [] then [[]]
    else
      var rest := Split(s[1..], sep);
      if s[0] == sep then [[]] + rest else [[s[0]] + rest[0]] + rest[1..]
  }

  /** The segments written back with the delimiter between them: the inverse of Split. */
  function Join(parts: seq<string>, sep: char): string
    requires |parts| >= 1
    decreases |parts|
  {
    if |parts| == 1 then parts[0] else parts[0] + [sep] + Join(parts[1..], sep)
  }

  /** Splitting loses nothing: the segments rejoined give back the text. */
  lemma {:induction false} JoinSplit(s: string, sep: char)
    ensures Join(Split(s, sep), sep) == s
    decreases |s|
  {
    if s != [] {
      var rest := Split(s[1..], sep);
      JoinSplit(s[1..], sep);
      if s[0] == sep {
        assert Split(s, sep)[1..] == rest;
      } else if |rest| == 1 {
        assert Split(s, sep) == [[s[0]] + rest[0]];
      } else {
        var parts := Split(s, sep);
        assert parts[1..] == rest[1..];
        assert Join(rest, sep) == rest[0] + [sep] + Join(rest[1..], sep);
      }
    }
  }

  /** Segments that hold no delimiter come back unchanged from Split after Join. */
  lemma {:induction false} SplitJoin(parts: seq<string>, sep: char)
    requires |parts| >= 1
    requires forall i :: 0 <= i < |parts| ==> sep !in parts[i]
    ensures Split(Join(parts, sep), sep) == parts
    decreases |parts|, |parts[0]|
  {
    var p := parts[0];
    if p == [] {
      if |parts| > 1 {
        SplitJoin(parts[1..], sep);
        assert Join(parts, sep) == [sep] + Join(parts[1..], sep);
        assert (([sep] + Join(parts[1..], sep)))[1..] == Join(parts[1..], sep);
      }
    } else {
      var shorter := [p[1..]] + parts[1..];
      assert forall i :: 1 <= i < |shorter| ==> shorter[i] == parts[i];
      SplitJoin(shorter, sep);
      assert p[0] != sep by { assert p[0] in p; }
      assert Join(parts, sep) == [p[0]] + Join(shorter, sep) by {
        if |parts| > 1 {
          assert p + [sep] + Join(parts[1..], sep) == [p[0]] + (p[1..] + [sep] + Join(parts[1..], sep));
        } else {
          assert p == [p[0]] + p[1..];
        }
      }
      assert ([p[0]] + Join(shorter, sep))[1..] == Join(shorter, sep);
      assert [p[0]] + p[1..] == p;
    }
  }

  /** The three segments of a compact serialization written out. */
  function Compact(header: string, payload: string, signature: string): string {
    header + "." + payload + "." + signature
  }

  predicate IsSegment(s: string) {
    '.' !in s
  }

  lemma JoinThree(a: string, b: string, c: string, sep: char)
    ensures Join([a, b, c], sep) == a + [sep] + b + [sep] + c
  {
    assert [a, b, c][1..] == [b, c];
    assert [b, c][1..] == [c];
    assert Join([b, c], sep) == b + [sep] + c;
  }

  /** Segments without '.' split back out of their compact form. */
  lemma SplitCompact(header: string, payload: string, signature: string)
    requires IsSegment(header) && IsSegment(payload) && IsSegment(signature)
    ensures Split(Compact(header, payload, signature), '.') == [header, payload, signature]
  {
    var parts := [header, payload, signature];
    JoinThree(header, payload, signature, '.');
    SplitJoin(parts, '.');
  }

  /** The library calls `decodeEmailFromIdToken` makes, as functions of their inputs. A call
      that can throw yields None where it throws.
      - base64UrlDecode: `Base64.decode(payload, Base64.URL_SAFE)`, which throws on bad input;
      - utf8Decode: `String(bytes, StandardCharsets.UTF_8)`, which replaces malformed input
        and so never throws;
      - parseJson: `JSONObject(text)`, which throws when the text is not a JSON object;
      - getString: `getString(name)`, which throws when there is no such member. */
  datatype Decoders<!J> = Decoders(
    base64UrlDecode: string -> Option<seq<Byte>>,
    utf8Decode: seq<Byte> -> string,
    parseJson: string -> Option<J>,
    getString: (J, string) -> Option<string>)

  /** The claim named `name` in a payload segment, or None when any step fails: a claim
      comes back only when the base64url decode, the JSON parse of its UTF-8 text and the
      lookup all succeed, and it is then the lookup's value. */
  function PayloadClaim<J>(payload: string, name: string, d: Decoders<J>): (claim: Option<string>)
    ensures d.base64UrlDecode(payload).None? ==> claim == None
    ensures d.base64UrlDecode(payload).Some? ==>
      var text := d.utf8Decode(d.base64UrlDecode(payload).value);
      && (d.parseJson(text).None? ==> claim == None)
      && (d.parseJson(text).Some? ==> claim == d.getString(d.parseJson(text).value, name))
  {
    match d.base64UrlDecode(payload)
    case None => None
    case Some(bytes) =>
      match d.parseJson(d.utf8Decode(bytes))
      case None => None
      case Some(json) => d.getString(json, name)
  }

  /** The email claim of an ID token, or None (Kotlin null) for a token that is not three
      '.'-separated segments and for any failure to decode its payload. */
  function DecodeEmailFromIdToken<J>(idToken: string, d: Decoders<J>): (email: Option<string>)
    ensures Occurrences(idToken, '.') != 2 ==> email == None
    ensures email.Some? ==> PayloadClaim(Split(idToken, '.')[1], "email", d) == email
  {
    var parts := Split(idToken, '.');
    if |parts| == 3 then PayloadClaim(parts[1], "email", d) else None
  }

  /** A token with exactly two dots is the compact form of its three segments, and the
      result is the email claim of the middle one. */
  lemma DecodeReadsPayloadSegment<J>(idToken: string, d: Decoders<J>)
    requires Occurrences(idToken, '.') == 2
    ensures var parts := Split(idToken, '.');
      |parts| == 3 && idToken == Compact(parts[0], parts[1], parts[2])
      && DecodeEmailFromIdToken(idToken, d) == PayloadClaim(parts[1], "email", d)
  {
    var parts := Split(idToken, '.');
    JoinSplit(idToken, '.');
    assert parts == [parts[0], parts[1], parts[2]];
    JoinThree(parts[0], parts[1], parts[2], '.');
  }

  /** Only the payload segment is decoded: the header and signature never change the result. */
  lemma DecodeIgnoresHeaderAndSignature<J>(h: string, p: string, s: string, h': string, s': string, d: Decoders<J>)
    requires IsSegment(h) && IsSegment(p) && IsSegment(s) && IsSegment(h') && IsSegment(s')
    ensures DecodeEmailFromIdToken(Compact(h, p, s), d) == DecodeEmailFromIdToken(Compact(h', p, s'), d)
    ensures DecodeEmailFromIdToken(Compact(h, p, s), d) == PayloadClaim(p, "email", d)
  {
    SplitCompact(h, p, s);
    SplitCompact(h', p, s');
  }

  /** A payload that is not valid base64url gives None. */
  lemma DecodeFailsOnBadBase64<J>(h: string, p: string, s: string, d: Decoders<J>)
    requires IsSegment(h) && IsSegment(p) && IsSegment(s)
    requires d.base64UrlDecode(p) == None
    ensures DecodeEmailFromIdToken(Compact(h, p, s), d) == None
  {
    SplitCompact(h, p, s);
  }

  /** A payload whose decoded text is not a JSON object gives None. */
  lemma DecodeFailsOnBadJson<J>(h: string, p: string, s: string, d: Decoders<J>)
    requires IsSegment(h) && IsSegment(p) && IsSegment(s)
    requires d.base64UrlDecode(p).Some?
    requires d.parseJson(d.utf8Decode(d.base64UrlDecode(p).value)) == None
    ensures DecodeEmailFromIdToken(Compact(h, p, s), d) == None
  {
    SplitCompact(h, p, s);
  }

  /** A payload object without an `email` member gives None. */
  lemma DecodeFailsWithoutEmail<J>(h: string, p: string, s: string, d: Decoders<J>, json: J)
    requires IsSegment(h) && IsSegment(p) && IsSegment(s)
    requires d.base64UrlDecode(p).Some?
    requires d.parseJson(d.utf8Decode(d.base64UrlDecode(p).value)) == Some(json)
    requires d.getString(json, "email") == None
    ensures DecodeEmailFromIdToken(Compact(h, p, s), d) == None
  {
    SplitCompact(h, p, s);
  }

  /** When every step succeeds the email member of the payload is returned as it is. */
  lemma DecodeReturnsEmail<J>(h: string, p: string, s: string, d: Decoders<J>, json: J, email: string)
    requires IsSegment(h) && IsSegment(p) && IsSegment(s)
    requires d.base64UrlDecode(p).Some?
    requires d.parseJson(d.utf8Decode(d.base64UrlDecode(p).value)) == Some(json)
    requires d.getString(json, "email") == Some(email)
    ensures DecodeEmailFromIdToken(Compact(h, p, s), d) == Some(email)
  {
    SplitCompact(h, p, s);
  }

  /** A two-segment token, however its segments decode, gives None. */
  lemma DecodeFailsOnTwoSegments<J>(h: string, p: string, d: Decoders<J>)
    requires IsSegment(h) && IsSegment(p)
    ensures DecodeEmailFromIdToken(h + "." + p, d) == None
  {
    var parts := [h, p];
    assert Join(parts, '.') == h + "." + p;
    SplitJoin(parts, '.');
  }

  /** A worked case: empty segments, a trailing one included, are kept. */
  lemma SplitExample()
    ensures Split("a..b.", '.') == ["a", "", "b", ""]
  {
    var parts := ["a", "", "b", ""];
    assert parts[1..] == ["", "b", ""] && parts[1..][1..] == ["b", ""] && parts[1..][1..][1..] == [""];
    assert Join(parts, '.') == "a..b.";
    SplitJoin(parts, '.');
  }
}
