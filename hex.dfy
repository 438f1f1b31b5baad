/** The rendering of a SHA-256 digest as text in `signInWithGoogle`: a left fold over the
    digest bytes that appends `"%02x".format(it)` for every byte to a string accumulator. */
module HexFormat {

  import opened Wrappers
  import opened Bytes

  predicate IsLowerHexDigit(c: char) {
    '0' <= c <= '9' || 'a' <= c <= 'f'
  }

  predicate IsLowerHex(s: string) {
    forall i :: 0 <= i < |s| ==> IsLowerHexDigit(s[i])
  }

  /** The value of one lowercase hex digit; None for any other character. */
  function DigitValue(c: char): (v: Option<int>)
    ensures v.Some? <==> IsLowerHexDigit(c)
    ensures v.Some? ==> 0 <= v.value < 16
  {
    if '0' <= c <= '9' then Some(c as int - '0' as int)
    else if 'a' <= c <= 'f' then Some(c as int - 'a' as int + 10)
    else None
  }

  /** The lowercase hex digit of a nibble, as the `x` conversion writes it. */
  function HexDigit(n: int): (c: char)
    requires 0 <= n < 16
    ensures IsLowerHexDigit(c)
    ensures DigitValue(c) == Some(n)
  {
    if n < 10 then ('0' as int + n) as char else ('a' as int + n - 10) as char
  }

  /** A lowercase hex digit is the digit of its own value. */
  lemma HexDigitOfValue(c: char)
    requires IsLowerHexDigit(c)
    ensures DigitValue(c).Some? && HexDigit(DigitValue(c).value) == c
  {
  }

  /** `"%02x".format(b)` for a `Byte` b: the unsigned value b mod 256 as exactly two
      lowercase hex digits, zero padded, high nibble first. */
  function FormatByte(b: Byte): (s: string)
    ensures |s| == 2 && IsLowerHex(s)
    ensures DigitValue(s[0]).Some? && DigitValue(s[1]).Some?
    ensures DigitValue(s[0]).value == Unsigned(b) / 16 && DigitValue(s[1]).value == Unsigned(b) % 16
    ensures b < 0 <==> DigitValue(s[0]).value >= 8
  {
    var u := Unsigned(b);
    [HexDigit(u / 16), HexDigit(u % 16)]
  }

  /** The fold as the source writes it: `bytes.fold(acc) { str, it -> str + "%02x".format(it) }`. */
  function FoldHex(acc: string, bytes: seq<Byte>): (r: string)
    ensures |r| == |acc| + 2 * |bytes|
    decreases |bytes|
  {
    if bytes == [] then acc else FoldHex(acc + FormatByte(bytes[0]), bytes[1..])
  }

  /** The hex text of a byte sequence, folded from the empty string. */
  function Hex(bytes: seq<Byte>): (r: string)
    ensures |r| == 2 * |bytes|
  {
    FoldHex("", bytes)
  }

  /** An independent reference definition: the concatenation of the two-digit forms of
      the bytes, first byte first. */
  function Encoded(bytes: seq<Byte>): string
    decreases |bytes|
  {
    if bytes == [] then [] else FormatByte(bytes[0]) + Encoded(bytes[1..])
  }

  /** The left fold appends the reference encoding to its accumulator. */
  lemma {:induction false} FoldHexIsEncoded(acc: string, bytes: seq<Byte>)
    ensures FoldHex(acc, bytes) == acc + Encoded(bytes)
    decreases |bytes|
  {
    if bytes != [] {
      FoldHexIsEncoded(acc + FormatByte(bytes[0]), bytes[1..]);
      assert acc + FormatByte(bytes[0]) + Encoded(bytes[1..]) == acc + (FormatByte(bytes[0]) + Encoded(bytes[1..]));
    }
  }

  lemma HexIsEncoded(bytes: seq<Byte>)
    ensures Hex(bytes) == Encoded(bytes)
  {
    FoldHexIsEncoded("", bytes);
  }

  lemma {:induction false} EncodedAppend(a: seq<Byte>, b: seq<Byte>)
    ensures Encoded(a + b) == Encoded(a) + Encoded(b)
    decreases |a|
  {
    if a == [] {
      assert a + b == b;
    } else {
      assert (a + b)[1..] == a[1..] + b;
      EncodedAppend(a[1..], b);
    }
  }

  /** The fold preserves order: the text of a concatenation is the concatenation of the texts. */
  lemma HexAppend(a: seq<Byte>, b: seq<Byte>)
    ensures Hex(a + b) == Hex(a) + Hex(b)
  {
    HexIsEncoded(a + b);
    HexIsEncoded(a);
    HexIsEncoded(b);
    EncodedAppend(a, b);
  }

  lemma {:induction false} EncodedAt(bytes: seq<Byte>, i: int)
    requires 0 <= i < |bytes|
    ensures |Encoded(bytes)| == 2 * |bytes|
    ensures Encoded(bytes)[2 * i] == FormatByte(bytes[i])[0]
    ensures Encoded(bytes)[2 * i + 1] == FormatByte(bytes[i])[1]
    decreases |bytes|
  {
    if i > 0 {
      EncodedAt(bytes[1..], i - 1);
    } else if |bytes| > 1 {
      EncodedAt(bytes[1..], 0);
    }
  }

  /** Characters 2i and 2i+1 of the text are the high and the low nibble of byte i. */
  lemma HexAt(bytes: seq<Byte>, i: int)
    requires 0 <= i < |bytes|
    ensures DigitValue(Hex(bytes)[2 * i]) == Some(Unsigned(bytes[i]) / 16)
    ensures DigitValue(Hex(bytes)[2 * i + 1]) == Some(Unsigned(bytes[i]) % 16)
  {
    HexIsEncoded(bytes);
    EncodedAt(bytes, i);
  }

  /** Every character of the text is a lowercase hex digit. */
  lemma HexIsLowerHex(bytes: seq<Byte>)
    ensures IsLowerHex(Hex(bytes))
  {
    var h := Hex(bytes);
    forall k | 0 <= k < |h|
      ensures IsLowerHexDigit(h[k])
    {
      HexAt(bytes, k / 2);
    }
  }

  /** A byte is negative exactly when its first hex digit is 8..f, so it prints as 80..ff. */
  lemma HexNegativeBytes(bytes: seq<Byte>, i: int)
    requires 0 <= i < |bytes|
    ensures bytes[i] < 0 <==> Hex(bytes)[2 * i] in "89abcdef"
  {
    HexAt(bytes, i);
  }

  /** The inverse of Hex: pairs of lowercase hex digits back to bytes; None for an odd
      length or any character outside 0-9a-f. */
  function ParseHex(s: string): (r: Option<seq<Byte>>)
    ensures r.Some? ==> 2 * |r.value| == |s|
    decreases |s|
  {
    if s == [] then Some([])
    else if |s| == 1 then None
    else match (DigitValue(s[0]), DigitValue(s[1]), ParseHex(s[2..]))
      case (Some(hi), Some(lo), Some(rest)) => Some([FromUnsigned(hi * 16 + lo)] + rest)
      case _ => None
  }

  lemma {:induction false} ParseEncoded(bytes: seq<Byte>)
    ensures ParseHex(Encoded(bytes)) == Some(bytes)
    decreases |bytes|
  {
    if bytes != [] {
      var s := Encoded(bytes);
      ParseEncoded(bytes[1..]);
      assert s[2..] == Encoded(bytes[1..]);
      assert [bytes[0]] + bytes[1..] == bytes;
    }
  }

  /** Decoding the text gives back the bytes: the hex form loses nothing. */
  lemma ParseHexOfHex(bytes: seq<Byte>)
    ensures ParseHex(Hex(bytes)) == Some(bytes)
  {
    HexIsEncoded(bytes);
    ParseEncoded(bytes);
  }

  lemma Nibbles(hi: int, lo: int)
    requires 0 <= hi < 16 && 0 <= lo < 16
    ensures (hi * 16 + lo) / 16 == hi && (hi * 16 + lo) % 16 == lo
  {
  }

  /** One step of parsing: a pair of digits is the two-digit form of the byte it parses to. */
  lemma FormatParsedByte(s: string)
    requires |s| >= 2 && IsLowerHexDigit(s[0]) && IsLowerHexDigit(s[1])
    ensures FormatByte(FromUnsigned(DigitValue(s[0]).value * 16 + DigitValue(s[1]).value)) == s[..2]
  {
    var hi, lo := DigitValue(s[0]).value, DigitValue(s[1]).value;
    Nibbles(hi, lo);
    HexDigitOfValue(s[0]);
    HexDigitOfValue(s[1]);
  }

  lemma {:induction false} EncodedOfParse(s: string)
    requires ParseHex(s).Some?
    ensures Encoded(ParseHex(s).value) == s
    decreases |s|
  {
    if s != [] {
      var bytes := ParseHex(s).value;
      EncodedOfParse(s[2..]);
      assert bytes[1..] == ParseHex(s[2..]).value;
      FormatParsedByte(s);
      assert s == s[..2] + s[2..];
    }
  }

  /** Going the other way, every string that parses is the hex text of what it parses to. */
  lemma HexOfParseHex(s: string)
    requires ParseHex(s).Some?
    ensures Hex(ParseHex(s).value) == s
  {
    HexIsEncoded(ParseHex(s).value);
    EncodedOfParse(s);
  }

  /** ParseHex accepts exactly the even-length lowercase hex strings. */
  lemma {:induction false} ParseHexAccepts(s: string)
    ensures ParseHex(s).Some? <==> |s| % 2 == 0 && IsLowerHex(s)
    decreases |s|
  {
    if |s| >= 2 {
      ParseHexAccepts(s[2..]);
      assert IsLowerHex(s) <==> IsLowerHexDigit(s[0]) && IsLowerHexDigit(s[1]) && IsLowerHex(s[2..]) by {
        if IsLowerHexDigit(s[0]) && IsLowerHexDigit(s[1]) && IsLowerHex(s[2..]) {
          forall k | 0 <= k < |s| ensures IsLowerHexDigit(s[k]) {
            if k >= 2 { assert s[k] == s[2..][k - 2]; }
          }
        }
      }
    }
  }

  /** Distinct byte sequences have distinct hex texts. */
  lemma HexInjective(a: seq<Byte>, b: seq<Byte>)
    requires Hex(a) == Hex(b)
    ensures a == b
  {
    ParseHexOfHex(a);
    ParseHexOfHex(b);
  }

  /** A worked case: negative bytes print as their value plus 256, zero padded. */
  lemma HexExample()
    ensures Hex([0, 15, 127, -128, -1]) == "000f7f80ff"
  {
    HexIsEncoded([0, 15, 127, -128, -1]);
  }
}
