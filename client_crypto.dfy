/** The browser-side `hashPassword`/`verifyPassword` of the legacy salted
    scheme: `<saltHex>:<SHA256(saltHex‖password) hex>`, with `btoa` for older
    records. Only the first two `:`-segments are read. */
module ClientCrypto {
  import opened Wrappers
  import opened JsString
  import opened Hex
  import opened Primitives
  import CredentialRecord
  import VerifyCapsulePassword
  import HashCapsulePassword

  /** `hashPassword`, given the 16 bytes `crypto.getRandomValues` returns. */
  function HashPassword(c: Suite, password: string, salt: seq<Byte>): (r: string)
    ensures var parts := Split(r, ':');
      |parts| == 2 && parts[0] == ToHex(salt) && |parts[0]| == 2 * |salt| &&
      parts[1] == ToHex(c.sha256(parts[0] + password))
  {
    var saltHex := ToHex(salt);
    var hashHex := ToHex(c.sha256(saltHex + password));
    ToHexHasNoColon(salt);
    ToHexHasNoColon(c.sha256(saltHex + password));
    JoinSmall(saltHex, hashHex, "", ':');
    SplitJoin([saltHex, hashHex], ':');
    saltHex + ":" + hashHex
  }

  /** The body of the `try` block of `verifyPassword`; None when it throws. */
  function TryVerify(c: Suite, password: string, stored: string): Option<bool> {
    var parts := Split(stored, ':');
    var saltHex := parts[0];
    if saltHex == "" || |parts| < 2 || parts[1] == "" then
      match Btoa(c, password)
      case None => None
      case Some(encoded) => Some(encoded == stored)
    else Some(ToHex(c.sha256(saltHex + password)) == parts[1])
  }

  /** `verifyPassword`: a thrown error is reported as `false`. */
  function VerifyPassword(c: Suite, password: string, stored: string): (ok: bool)
    ensures ok <==> TryVerify(c, password, stored) == Some(true)
  {
    TryVerify(c, password, stored).GetOr(false)
  }

  /** A record from `hashPassword` verifies with its own password. */
  lemma HashThenVerify(c: Suite, password: string, salt: seq<Byte>)
    requires Conforms(c) && salt != []
    ensures VerifyPassword(c, password, HashPassword(c, password, salt))
  {
    assert |c.sha256(ToHex(salt) + password)| == 32;
  }

  /** The edge function accepts the records `hashPassword` wrote. */
  lemma ServerAcceptsClientRecord(c: Suite, password: string, salt: seq<Byte>)
    ensures VerifyCapsulePassword.VerifyPassword(c, password, HashPassword(c, password, salt))
  {
    ToHexHasNoColon(salt);
    VerifyCapsulePassword.AcceptsLegacySalted(c, password, ToHex(salt));
  }

  /** A record without `:` is compared with `btoa(password)` as a whole. */
  lemma WithoutSeparatorUsesBase64(c: Suite, password: string, stored: string)
    requires ':' !in stored
    ensures VerifyPassword(c, password, stored) <==> Btoa(c, password) == Some(stored)
  {
    SplitNone(stored, ':');
  }

  /** Segments after the second are ignored. */
  lemma IgnoresLaterSegments(c: Suite, password: string, a: string, b: string, rest: string)
    requires ':' !in a && ':' !in b && a != "" && b != ""
    ensures TryVerify(c, password, a + ":" + b + ":" + rest) == TryVerify(c, password, a + ":" + b)
  {
    var x, y := a + ":" + b + ":" + rest, a + ":" + b;
    LeadingSegments(a, b, rest);
    assert Split(y, ':') == [a, b] by {
      assert y == a + [':'] + b;
      SplitCons(a, ':', b);
      SplitNone(b, ':');
    }
    SameLeadingSegments(c, password, x, y);
  }

  /** The first two segments of `a:b:rest` are `a` and `b`. */
  lemma LeadingSegments(a: string, b: string, rest: string)
    requires ':' !in a && ':' !in b
    ensures var parts := Split(a + ":" + b + ":" + rest, ':');
      |parts| >= 2 && parts[..2] == [a, b]
  {
    var tail := b + ":" + rest;
    assert a + ":" + b + ":" + rest == a + [':'] + tail;
    SplitCons(a, ':', tail);
    assert tail == b + [':'] + rest;
    SplitCons(b, ':', rest);
  }

  /** With two non-empty leading segments, `verifyPassword` reads only those. */
  lemma SameLeadingSegments(c: Suite, password: string, x: string, y: string)
    requires |Split(x, ':')| >= 2 && |Split(y, ':')| >= 2
    requires Split(x, ':')[..2] == Split(y, ':')[..2]
    requires Split(x, ':')[..2][0] != "" && Split(x, ':')[..2][1] != ""
    ensures TryVerify(c, password, x) == TryVerify(c, password, y)
  {
    assert Split(x, ':')[0] == Split(x, ':')[..2][0] && Split(x, ':')[1] == Split(x, ':')[..2][1];
    assert Split(y, ':')[0] == Split(y, ':')[..2][0] && Split(y, ':')[1] == Split(y, ':')[..2][1];
  }

  /** A `pbkdf2:` record issued by the edge function never verifies here: its
      first segment is read as the salt and its 32-character salt segment as
      the expected 64-character SHA-256 text. */
  lemma RejectsPbkdf2Record(c: Suite, p: string, q: string, salt: seq<Byte>)
    requires Conforms(c) && |salt| == 16
    ensures !VerifyPassword(c, q, HashCapsulePassword.HashPasswordPbkdf2(c, p, salt).hash)
  {
    var r := HashCapsulePassword.HashPasswordPbkdf2(c, p, salt);
    HashCapsulePassword.HashSegment(c, p, salt);
    DigestLength(c, "pbkdf2" + q);
    SaltedBranch(c, q, r.hash);
  }

  /** SHA-256 text is 64 characters long. */
  lemma DigestLength(c: Suite, s: string)
    requires Conforms(c)
    ensures |ToHex(c.sha256(s))| == 64
  {
    assert |c.sha256(s)| == 32;
  }

  /** With two non-empty leading segments the SHA-256 comparison decides. */
  lemma SaltedBranch(c: Suite, password: string, stored: string)
    requires var parts := Split(stored, ':'); |parts| >= 2 && parts[0] != "" && parts[1] != ""
    ensures var parts := Split(stored, ':');
      VerifyPassword(c, password, stored) <==> ToHex(c.sha256(parts[0] + password)) == parts[1]
  {
  }
}
