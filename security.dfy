/** The pseudonymous person identifier (src/utils/security.py): a keyed
    SHA-256 HMAC of the stripped value, or the empty string for a missing or
    blank value. The MAC itself is a parameter. */
module Security {
  import opened Wrappers
  import opened Text

  predicate IsLowerHex(c: char) {
    '0' <= c <= '9' || 'a' <= c <= 'f'
  }

  /** What `hmac.new(...).hexdigest()` returns for SHA-256: 64 lower-case
      hexadecimal characters. */
  type HexDigest = s: string | |s| == 64 && forall i :: 0 <= i < |s| ==> IsLowerHex(s[i])
    witness seq(64, _ => '0')

  /** `hash_identifier(value, salt)`, with `mac(salt, message)` standing for
      HMAC-SHA256 over the UTF-8 encodings of key and message. */
  function HashIdentifier(value: Option<string>, salt: string, mac: (string, string) -> HexDigest): string {
    match value
    case None => ""
    case Some(v) =>
      var t := Strip(v);
      if t == "" then "" else mac(salt, t)
  }

  // ---------------------------------------------------------------------
  // Lemmas
  // ---------------------------------------------------------------------

  /** The identifier is empty exactly for a missing value or one made only of
      whitespace; otherwise it is a 64-character hexadecimal digest. */
  lemma HashEmptyIff(value: Option<string>, salt: string, mac: (string, string) -> HexDigest)
    ensures HashIdentifier(value, salt, mac) == "" <==> value.None? || AllSpace(value.value)
    ensures HashIdentifier(value, salt, mac) != "" ==>
      |HashIdentifier(value, salt, mac)| == 64
      && forall i :: 0 <= i < 64 ==> IsLowerHex(HashIdentifier(value, salt, mac)[i])
  {
    if value.Some? {
      StripEmptyIff(value.value);
    }
  }

  /** Surrounding whitespace does not change the identifier: any two values
      that strip to the same text get the same identifier. */
  lemma HashStripInvariant(a: string, b: string, salt: string, mac: (string, string) -> HexDigest)
    requires Strip(a) == Strip(b)
    ensures HashIdentifier(Some(a), salt, mac) == HashIdentifier(Some(b), salt, mac)
  {
  }

  /** In particular a value and its stripped form get the same identifier. */
  lemma HashOfStripped(v: string, salt: string, mac: (string, string) -> HexDigest)
    ensures HashIdentifier(Some(v), salt, mac) == HashIdentifier(Some(Strip(v)), salt, mac)
  {
    StripIdempotent(v);
  }

  /** A non-blank value is identified by the keyed digest of its stripped
      text, and by nothing else: the result depends on the stripped value and
      the salt only. */
  lemma HashIsKeyedDigest(v: string, salt: string, mac: (string, string) -> HexDigest)
    requires !AllSpace(v)
    ensures HashIdentifier(Some(v), salt, mac) == mac(salt, Strip(v))
  {
    HashEmptyIff(Some(v), salt, mac);
  }

  /** `hash_identifier(" 123 ", salt) == hash_identifier("123", salt)`. */
  lemma HashPaddedExample(salt: string, mac: (string, string) -> HexDigest)
    ensures HashIdentifier(Some(" 123 "), salt, mac) == HashIdentifier(Some("123"), salt, mac)
  {
    StripPadded("123");
    assert " " + "123" + " " == " 123 ";
    StripOfTrimmed("123");
    HashStripInvariant(" 123 ", "123", salt, mac);
  }
}
