/** The cryptographic primitives the capsule code calls, taken as given
    deterministic functions. Their internals are not part of this model. */
module Primitives {
  import opened Wrappers
  import opened Hex

  /** - `sha256`: SHA-256 (FIPS 180-4) of the UTF-8 encoding of a string
        (`crypto.subtle.digest('SHA-256', new TextEncoder().encode(s))`);
      - `pbkdf2`: PBKDF2 with HMAC-SHA-256 (RFC 8018 section 5.2) of the UTF-8
        encoded password, a salt, an iteration count and an output length in
        bits (`crypto.subtle.deriveBits`);
      - `base64`: the base 64 encoding of RFC 4648 section 4. */
  datatype Suite = Suite(
    sha256: string -> seq<Byte>,
    pbkdf2: (string, seq<Byte>, nat, nat) -> seq<Byte>,
    base64: seq<Byte> -> string)

  /** The PBKDF2 parameters both edge functions pass. */
  const Iterations: nat := 100000
  const DerivedBits: nat := 256

  /** The output lengths the three standards fix. */
  ghost predicate Conforms(c: Suite) {
    (forall s :: |c.sha256(s)| == 32) &&
    (forall p, salt, n: nat, bits: nat :: |c.pbkdf2(p, salt, n, bits)| == bits / 8) &&
    (forall b :: |c.base64(b)| == 4 * ((|b| + 2) / 3))
  }

  predicate IsLatin1(s: string) {
    forall k :: 0 <= k < |s| ==> s[k] as int <= 0xFF
  }

  /** The bytes `btoa` encodes: one per character. */
  function Latin1(s: string): (b: seq<Byte>)
    requires IsLatin1(s)
    ensures |b| == |s|
  {
    if s == [] then [] else [s[0] as int as Byte] + Latin1(s[1..])
  }

  /** `btoa(s)`; None when `btoa` throws because a character lies above U+00FF. */
  function Btoa(c: Suite, s: string): Option<string> {
    if IsLatin1(s) then Some(c.base64(Latin1(s))) else None
  }

  /** The base 64 text of a non-empty Latin-1 string is non-empty. */
  lemma BtoaNonEmpty(c: Suite, s: string)
    requires Conforms(c) && s != []
    ensures Btoa(c, s) != Some("")
  {
    if IsLatin1(s) {
      assert |c.base64(Latin1(s))| == 4 * ((|s| + 2) / 3);
    }
  }
}
